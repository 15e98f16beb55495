/** PhiAATreeNode and the two rebalancing primitives, skew and split.

    A node carries its AA level, its two children and one object.  The
    parent back-pointer `up` is not stored: in a value tree it is implied
    by position.  Nil has level 0, so "a leaf has level 1" is the rule that
    a node's left child sits exactly one level below it.
 */
module AANode {
  import opened Items
  import SortedSeq

  datatype Node = Nil | Node(level: nat, left: Node, item: Item, right: Node)

  /** The level of a subtree's root; 0 for the empty tree. */
  function Level(t: Node): nat {
    if t.Nil? then 0 else t.level
  }

  /** The objects stored in a subtree. */
  function Elems(t: Node): set<Item> {
    match t
    case Nil => {}
    case Node(_, l, x, r) => Elems(l) + {x} + Elems(r)
  }

  /** In-order traversal: the order in which `next` visits the nodes. */
  function Inorder(t: Node): seq<Item> {
    match t
    case Nil => []
    case Node(_, l, x, r) => Inorder(l) + [x] + Inorder(r)
  }

  /** Binary-search-tree ordering under the comparator: every object on the
      left compares less than the node's, every object on the right greater. */
  predicate Ordered(t: Node) {
    match t
    case Nil => true
    case Node(_, l, x, r) =>
      && Ordered(l) && Ordered(r)
      && (forall o :: o in Elems(l) ==> o.key < x.key)
      && (forall o :: o in Elems(r) ==> x.key < o.key)
  }

  /** The AA level rules: a left child is exactly one level below its parent
      (so leaves have level 1 and there are no left horizontal links); a right
      child is at the same level or one below; and no right grandchild is at
      its grandparent's level (no two consecutive right horizontal links). */
  predicate Balanced(t: Node) {
    match t
    case Nil => true
    case Node(lv, l, _, r) =>
      && Balanced(l) && Balanced(r)
      && Level(l) + 1 == lv
      && (Level(r) == lv || Level(r) + 1 == lv)
      && (r.Node? ==> Level(r.right) < lv)
  }

  /** A non-empty subtree whose root has no right horizontal link. */
  predicate Single(t: Node) {
    t.Node? && Level(t.right) < t.level
  }

  /** The first node in order: the object `firstNode` caches. */
  function Leftmost(t: Node): (m: Item)
    requires t.Node?
    ensures m in Elems(t)
    ensures Ordered(t) ==> forall o :: o in Elems(t) ==> m.key <= o.key
  {
    if t.left.Nil? then t.item else Leftmost(t.left)
  }

  /** The last node in order: the object `lastNode` caches. */
  function Rightmost(t: Node): (m: Item)
    requires t.Node?
    ensures m in Elems(t)
    ensures Ordered(t) ==> forall o :: o in Elems(t) ==> o.key <= m.key
  {
    if t.right.Nil? then t.item else Rightmost(t.right)
  }

  /** Skew: a right rotation that removes a left horizontal link. */
  function Skew(t: Node): (r: Node)
    ensures r.Node? <==> t.Node?
    ensures Elems(r) == Elems(t)
    ensures Inorder(r) == Inorder(t)
  {
    if t.Node? && t.left.Node? && t.left.level == t.level then
      var l := t.left;
      Node(l.level, l.left, l.item, Node(t.level, l.right, t.item, t.right))
    else
      t
  }

  /** Split: a left rotation, raising the middle node one level, that removes
      two consecutive right horizontal links. */
  function Split(t: Node): (r: Node)
    ensures r.Node? <==> t.Node?
    ensures Elems(r) == Elems(t)
    ensures Inorder(r) == Inorder(t)
  {
    if t.Node? && t.right.Node? && t.right.right.Node? && t.right.right.level == t.level then
      var c := t.right;
      Node(c.level + 1, Node(t.level, t.left, t.item, c.left), c.item, c.right)
    else
      t
  }

  /** Skew keeps the search-tree ordering. */
  lemma {:induction false} SkewOrdered(t: Node)
    requires Ordered(t)
    ensures Ordered(Skew(t))
  {
    if t.Node? && t.left.Node? && t.left.level == t.level {
      var l := t.left;
      assert Ordered(Node(t.level, l.right, t.item, t.right));
    }
  }

  /** Split keeps the search-tree ordering. */
  lemma {:induction false} SplitOrdered(t: Node)
    requires Ordered(t)
    ensures Ordered(Split(t))
  {
    if t.Node? && t.right.Node? && t.right.right.Node? && t.right.right.level == t.level {
      var c := t.right;
      assert Ordered(Node(t.level, t.left, t.item, c.left));
    }
  }

  /** On a balanced subtree there is nothing for skew to do. */
  lemma {:induction false} SkewBalanced(t: Node)
    requires Balanced(t)
    ensures Skew(t) == t
  {
  }

  /** On a balanced subtree there is nothing for split to do. */
  lemma {:induction false} SplitBalanced(t: Node)
    requires Balanced(t)
    ensures Split(t) == t
  {
  }

  /** The in-order traversal of an ordered tree is the sorted view of its
      objects: strictly increasing, and holding exactly the stored objects. */
  lemma {:induction false} InorderSorted(t: Node)
    requires Ordered(t)
    ensures SortedSeq.Sorted(Inorder(t))
    ensures forall o :: o in Inorder(t) <==> o in Elems(t)
  {
    if t.Node? {
      InorderSorted(t.left);
      InorderSorted(t.right);
      SortedSeq.Join(Inorder(t.left), t.item, Inorder(t.right));
    }
  }

  /** In an ordered tree no two stored objects compare equal. */
  lemma {:induction false} KeysUnique(t: Node, a: Item, b: Item)
    requires Ordered(t) && a in Elems(t) && b in Elems(t) && a.key == b.key
    ensures a == b
  {
    match t
    case Node(_, l, x, r) =>
      if a in Elems(l) && b in Elems(l) {
        KeysUnique(l, a, b);
      } else if a in Elems(r) && b in Elems(r) {
        KeysUnique(r, a, b);
      }
  }
}
