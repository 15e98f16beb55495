/** PhiAATree: the tree object, its cached extremes and count, and its
    public operations.

    The tree keeps, besides its root, the first and last node (as the
    objects they hold) and the number of nodes.  `Valid` is the class
    invariant: the root satisfies the search-tree ordering and the AA level
    rules, and the three caches agree with the root.  Every mutation is
    proved to keep it and to act on the sorted view `Contents` exactly as
    the corresponding sorted-sequence operation does.
 */
module AATree {
  import opened Items
  import opened AANode
  import AAInsert
  import AADelete
  import AASearch
  import SortedSeq

  datatype Tree = Tree(root: Node, firstNode: Option<Item>, lastNode: Option<Item>, count: nat)

  /** The objects of the tree in comparator order (what enumeration yields). */
  function Contents(t: Tree): seq<Item> {
    Inorder(t.root)
  }

  /** The first object of a subtree, nil when it is empty. */
  function FirstOf(n: Node): Option<Item> {
    if n.Nil? then None else Some(Leftmost(n))
  }

  /** The last object of a subtree, nil when it is empty. */
  function LastOf(n: Node): Option<Item> {
    if n.Nil? then None else Some(Rightmost(n))
  }

  /** The class invariant.  The sortedness of the traversal follows from the
      ordering (`InorderSorted`) and is kept here so that contracts can
      speak about the sorted view directly. */
  predicate Valid(t: Tree) {
    && Ordered(t.root)
    && SortedSeq.Sorted(Inorder(t.root))
    && Balanced(t.root)
    && t.firstNode == FirstOf(t.root)
    && t.lastNode == LastOf(t.root)
    && t.count == |Inorder(t.root)|
  }

  /** initWithObjectComparator: an empty tree. */
  function Empty(): (t: Tree)
    ensures Valid(t) && Contents(t) == []
  {
    Tree(Nil, None, None, 0)
  }

  /** The least object of an ordered subtree is its leftmost one. */
  lemma {:induction false} LeftmostIsLeast(n: Node, m: Item)
    requires Ordered(n) && m in Elems(n)
    requires forall o :: o in Elems(n) ==> m.key <= o.key
    ensures n.Node? && m == Leftmost(n)
  {
    KeysUnique(n, m, Leftmost(n));
  }

  /** The greatest object of an ordered subtree is its rightmost one. */
  lemma {:induction false} RightmostIsGreatest(n: Node, m: Item)
    requires Ordered(n) && m in Elems(n)
    requires forall o :: o in Elems(n) ==> o.key <= m.key
    ensures n.Node? && m == Rightmost(n)
  {
    KeysUnique(n, m, Rightmost(n));
  }

  /** addObject: upsert.  The object takes the place of the stored object that
      compares equal to it, if any, and the count grows only otherwise. */
  function AddObject(t: Tree, x: Item): (r: Tree)
    requires Valid(t)
    ensures Valid(r)
    ensures Contents(r) == SortedSeq.Insert(Contents(t), x)
  {
    var root := AAInsert.Insert(t.root, x);
    var grows := AASearch.Find(t.root, x).None?;
    var r := Tree(root,
                  if t.firstNode.None? || x.key <= t.firstNode.value.key then Some(x) else t.firstNode,
                  if t.lastNode.None? || t.lastNode.value.key <= x.key then Some(x) else t.lastNode,
                  if grows then t.count + 1 else t.count);
    AddObjectValid(t, x, r);
    r
  }

  lemma {:induction false} AddObjectValid(t: Tree, x: Item, r: Tree)
    requires Valid(t)
    requires r.root == AAInsert.Insert(t.root, x)
    requires r.firstNode == if t.firstNode.None? || x.key <= t.firstNode.value.key then Some(x) else t.firstNode
    requires r.lastNode == if t.lastNode.None? || t.lastNode.value.key <= x.key then Some(x) else t.lastNode
    requires r.count == if AASearch.Find(t.root, x).None? then t.count + 1 else t.count
    ensures Valid(r)
    ensures Contents(r) == SortedSeq.Insert(Contents(t), x)
  {
    AAInsert.InsertOrdered(t.root, x);
    AAInsert.InsertBalanced(t.root, x);
    AAInsert.InsertAgrees(t.root, x);
    AASearch.FindAgrees(t.root, x);
    FirstLastAfterInsert(t, x, r);
  }

  lemma {:induction false} FirstLastAfterInsert(t: Tree, x: Item, r: Tree)
    requires Valid(t)
    requires r.root == AAInsert.Insert(t.root, x)
    requires r.firstNode == if t.firstNode.None? || x.key <= t.firstNode.value.key then Some(x) else t.firstNode
    requires r.lastNode == if t.lastNode.None? || t.lastNode.value.key <= x.key then Some(x) else t.lastNode
    ensures r.firstNode == FirstOf(r.root) && r.lastNode == LastOf(r.root)
  {
    AAInsert.InsertOrdered(t.root, x);
    var f := r.firstNode.value;
    assert f in Elems(r.root);
    assert forall o :: o in Elems(r.root) ==> f.key <= o.key;
    LeftmostIsLeast(r.root, f);
    var g := r.lastNode.value;
    assert g in Elems(r.root);
    assert forall o :: o in Elems(r.root) ==> o.key <= g.key;
    RightmostIsGreatest(r.root, g);
  }

  /** The leftmost object is the first one visited in order. */
  lemma {:induction false} LeftmostFirst(n: Node)
    requires n.Node?
    ensures |Inorder(n)| > 0 && Inorder(n)[0] == Leftmost(n)
  {
    if n.left.Node? {
      LeftmostFirst(n.left);
    }
  }

  /** The rightmost object is the last one visited in order. */
  lemma {:induction false} RightmostLast(n: Node)
    requires n.Node?
    ensures |Inorder(n)| > 0 && Inorder(n)[|Inorder(n)| - 1] == Rightmost(n)
  {
    if n.right.Node? {
      RightmostLast(n.right);
    }
  }

  /** removeObject / pruneAtObject: deletes the object comparing equal to `q`;
      when there is none the tree is returned unaltered. */
  function PruneAtObject(t: Tree, q: Item, usePredecessor: bool): (r: Tree)
    requires Valid(t)
    ensures Valid(r)
    ensures Contents(r) == SortedSeq.Remove(Contents(t), q.key)
    ensures !SortedSeq.HasKey(Contents(t), q.key) ==> r == t
  {
    AASearch.FindAgrees(t.root, q);
    if AASearch.Find(t.root, q).None? then
      RemoveAbsent(t, q.key);
      t
    else
      var root := AADelete.Delete(t.root, q, usePredecessor);
      var r := Tree(root,
                    if t.firstNode.value.key == q.key then FirstOf(root) else t.firstNode,
                    if t.lastNode.value.key == q.key then LastOf(root) else t.lastNode,
                    t.count - 1);
      RemoveValid(t, q, usePredecessor, r);
      r
  }

  /** removeObject: deletion, replacing a two-child node by its successor. */
  function RemoveObject(t: Tree, q: Item): (r: Tree)
    requires Valid(t)
    ensures Valid(r)
    ensures Contents(r) == SortedSeq.Remove(Contents(t), q.key)
    ensures !SortedSeq.HasKey(Contents(t), q.key) ==> r == t
  {
    PruneAtObject(t, q, false)
  }

  /** Removing a key that is absent from a sorted sequence changes nothing. */
  lemma {:induction false} RemoveAbsent(t: Tree, k: int)
    requires Valid(t) && !SortedSeq.HasKey(Contents(t), k)
    ensures SortedSeq.Remove(Contents(t), k) == Contents(t)
  {
    var s := Contents(t);
    SortedSeq.SortedUnique(SortedSeq.Remove(s, k), s);
  }

  lemma {:induction false} RemoveValid(t: Tree, q: Item, usePredecessor: bool, r: Tree)
    requires Valid(t) && AASearch.Find(t.root, q).Some?
    requires r.root == AADelete.Delete(t.root, q, usePredecessor)
    requires r.firstNode == if t.firstNode.value.key == q.key then FirstOf(r.root) else t.firstNode
    requires r.lastNode == if t.lastNode.value.key == q.key then LastOf(r.root) else t.lastNode
    requires r.count + 1 == t.count
    ensures Valid(r)
    ensures Contents(r) == SortedSeq.Remove(Contents(t), q.key)
  {
    AADelete.DeleteOrdered(t.root, q, usePredecessor);
    AADelete.DeleteBalanced(t.root, q, usePredecessor);
    AADelete.DeleteAgrees(t.root, q, usePredecessor);
    AASearch.FindAgrees(t.root, q);
    if t.firstNode.value.key != q.key {
      var f := t.firstNode.value;
      assert f in Elems(r.root);
      LeftmostIsLeast(r.root, f);
    }
    if t.lastNode.value.key != q.key {
      var g := t.lastNode.value;
      assert g in Elems(r.root);
      RightmostIsGreatest(r.root, g);
    }
  }

  /** removeObjects: deletion of each object of `qs` in turn. */
  function RemoveObjects(t: Tree, qs: seq<Item>): (r: Tree)
    requires Valid(t)
    ensures Valid(r)
    ensures Contents(r) == SortedSeq.RemoveAll(Contents(t), qs)
    decreases |qs|
  {
    if |qs| == 0 then t else RemoveObjects(RemoveObject(t, qs[0]), qs[1..])
  }

  /** addObjects: upsert of each object of `xs` in turn. */
  function AddObjects(t: Tree, xs: seq<Item>): (r: Tree)
    requires Valid(t)
    ensures Valid(r)
    ensures Contents(r) == SortedSeq.InsertAll(Contents(t), xs)
    decreases |xs|
  {
    if |xs| == 0 then t else AddObjects(AddObject(t, xs[0]), xs[1..])
  }

  /** removeAllObjects: the tree becomes empty. */
  function RemoveAllObjects(t: Tree): (r: Tree)
    ensures Valid(r) && Contents(r) == [] && r.count == 0
  {
    Empty()
  }

  /** count: the number of stored objects. */
  function Count(t: Tree): (n: nat)
    requires Valid(t)
    ensures n == |Contents(t)|
  {
    t.count
  }

  /** isEmpty: holds exactly when the count is zero. */
  function IsEmpty(t: Tree): (b: bool)
    requires Valid(t)
    ensures b <==> Count(t) == 0
  {
    t.root.Nil?
  }

  /** firstObject: the least stored object, nil exactly when the tree is empty. */
  function FirstObject(t: Tree): (r: Option<Item>)
    requires Valid(t)
    ensures r.None? <==> |Contents(t)| == 0
    ensures r.Some? ==> r.value == Contents(t)[0]
    ensures r.Some? ==> forall o :: o in Contents(t) ==> r.value.key <= o.key
  {
    if t.root.Nil? then t.firstNode
    else LeftmostFirst(t.root); t.firstNode
  }

  /** lastObject: the greatest stored object, nil exactly when the tree is empty. */
  function LastObject(t: Tree): (r: Option<Item>)
    requires Valid(t)
    ensures r.None? <==> |Contents(t)| == 0
    ensures r.Some? ==> r.value == Contents(t)[|Contents(t)| - 1]
    ensures r.Some? ==> forall o :: o in Contents(t) ==> o.key <= r.value.key
  {
    if t.root.Nil? then t.lastNode
    else RightmostLast(t.root); t.lastNode
  }

  /** objectMatchingObject: the stored object comparing equal to `q`, or nil. */
  function ObjectMatchingObject(t: Tree, q: Item): (r: Option<Item>)
    requires Valid(t)
    ensures r == SortedSeq.Find(Contents(t), q.key)
  {
    AASearch.FindAgrees(t.root, q);
    AASearch.Find(t.root, q)
  }

  /** containsObject: some stored object compares equal to `q`. */
  function ContainsObject(t: Tree, q: Item): (b: bool)
    requires Valid(t)
    ensures b <==> ObjectMatchingObject(t, q).Some?
    ensures b <==> SortedSeq.HasKey(Contents(t), q.key)
  {
    ObjectMatchingObject(t, q).Some?
  }

  /** nodeClosestToObject:reverse: with the tree's own comparator: the floor
      of `q` (the greatest object not above it) when `reverse` is NO, the
      ceiling (the least object not below it) when `reverse` is YES. */
  function NodeClosestToObject(t: Tree, q: Item, reverse: bool): (r: Option<Item>)
    requires Valid(t)
    ensures !reverse ==> r == SortedSeq.Floor(Contents(t), q.key)
    ensures reverse ==> r == SortedSeq.Ceiling(Contents(t), q.key)
  {
    if reverse then AASearch.CeilingAgrees(t.root, q); AASearch.Closest(t.root, q, true, None)
    else AASearch.FloorAgrees(t.root, q); AASearch.Closest(t.root, q, false, None)
  }

  /** objectClosestToObject: the floor query.  The result's key is never above
      the query's; nil is returned exactly when every stored key is above it.
      The header's further remark that a query above the highest key gives nil
      cannot hold together with that bound, since the greatest object then
      meets it; the floor is chosen because the bound is the stated contract
      and the remark only claims to follow from it. */
  function ObjectClosestToObject(t: Tree, q: Item): (r: Option<Item>)
    requires Valid(t)
    ensures r == SortedSeq.Floor(Contents(t), q.key)
    ensures r.None? <==> forall o :: o in Contents(t) ==> o.key > q.key
  {
    NodeClosestToObject(t, q, false)
  }

  /** Node-by-node copy: same levels, same shape, same object references. */
  function CopyNode(n: Node): (c: Node)
    ensures c == n
  {
    match n
    case Nil => Nil
    case Node(lv, l, x, r) => Node(lv, CopyNode(l), x, CopyNode(r))
  }

  /** copyWithZone: a new tree over new nodes holding the same objects; the
      first and last caches are recomputed from the copied nodes. */
  function Copy(t: Tree): (r: Tree)
    requires Valid(t)
    ensures Valid(r)
    ensures Contents(r) == Contents(t) && Count(r) == Count(t)
    ensures r == t
  {
    var root := CopyNode(t.root);
    Tree(root, FirstOf(root), LastOf(root), t.count)
  }

  /** addObject is an upsert.  Afterwards the tree contains `x` and matches it
      exactly; an equal object already present is replaced in place, so the
      count grows only when no stored object compared equal; every other
      object stays. */
  lemma {:induction false} AddObjectUpsert(t: Tree, x: Item)
    requires Valid(t)
    ensures ContainsObject(AddObject(t, x), x)
    ensures ObjectMatchingObject(AddObject(t, x), x) == Some(x)
    ensures Count(AddObject(t, x)) == if ContainsObject(t, x) then Count(t) else Count(t) + 1
    ensures forall o :: o in Contents(AddObject(t, x)) <==> o == x || (o in Contents(t) && o.key != x.key)
  {
    var s := Contents(AddObject(t, x));
    var i :| 0 <= i < |s| && s[i] == x;
    assert SortedSeq.HasKey(s, x.key);
    SortedSeq.SameKeySameItem(s, x, SortedSeq.Find(s, x.key).value);
  }

  /** removeObject deletes exactly the object comparing equal to `q`: the
      count drops by one when there was one and is unchanged otherwise, no
      object comparing equal to `q` remains, and every other object stays. */
  lemma {:induction false} RemoveObjectEffect(t: Tree, q: Item)
    requires Valid(t)
    ensures Count(RemoveObject(t, q)) == if ContainsObject(t, q) then Count(t) - 1 else Count(t)
    ensures !ContainsObject(RemoveObject(t, q), q)
    ensures forall o :: o in Contents(RemoveObject(t, q)) <==> o in Contents(t) && o.key != q.key
  {
  }

  /** Adding an object with a new key and removing it again gives back the
      same contents and count. */
  lemma {:induction false} AddRemoveRoundTrip(t: Tree, x: Item)
    requires Valid(t) && !ContainsObject(t, x)
    ensures Contents(RemoveObject(AddObject(t, x), x)) == Contents(t)
    ensures Count(RemoveObject(AddObject(t, x), x)) == Count(t)
  {
    SortedSeq.InsertRemove(Contents(t), x);
  }

  /** Deleting through the successor or through the predecessor leaves the
      same objects; only the shape of the tree may differ. */
  lemma {:induction false} PruneSideIrrelevant(t: Tree, q: Item)
    requires Valid(t)
    ensures Contents(PruneAtObject(t, q, true)) == Contents(PruneAtObject(t, q, false))
  {
  }
}
