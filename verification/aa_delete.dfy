/** removeObject / pruneAtObject: deletion from the AA tree.

    The descent locates the node whose object compares equal to the query.
    A leaf is dropped.  Any other node takes over the object of its in-order
    successor (or of its predecessor, in the prune variant), which is then
    deleted from the child subtree instead.  On the way back up every node on
    the path is rebalanced: its level is lowered to one above its lower child
    (dragging a right child at the old level down with it), then three skews
    and two splits restore the AA level rules.
 */
module AADelete {
  import opened Items
  import opened AANode
  import SortedSeq

  /** decrease_level: clamp a node's level to one above its lower child. */
  function DecreaseLevel(t: Node): (r: Node)
    requires t.Node?
    ensures r.Node? && Elems(r) == Elems(t) && Inorder(r) == Inorder(t)
  {
    var shouldBe := (if Level(t.left) < Level(t.right) then Level(t.left) else Level(t.right)) + 1;
    if shouldBe < t.level then
      var r := if shouldBe < Level(t.right) then t.right.(level := shouldBe) else t.right;
      Node(shouldBe, t.left, t.item, r)
    else
      t
  }

  /** Skew of the right child. */
  function SkewRight(t: Node): (r: Node)
    requires t.Node?
    ensures r.Node? && Elems(r) == Elems(t) && Inorder(r) == Inorder(t)
  {
    t.(right := Skew(t.right))
  }

  /** Split of the right child. */
  function SplitRight(t: Node): (r: Node)
    requires t.Node?
    ensures r.Node? && Elems(r) == Elems(t) && Inorder(r) == Inorder(t)
  {
    t.(right := Split(t.right))
  }

  /** The rebalancing applied to every node on the deletion path. */
  function Rebalance(t: Node): (r: Node)
    requires t.Node?
    ensures r.Node? && Elems(r) == Elems(t) && Inorder(r) == Inorder(t)
  {
    var a := Skew(DecreaseLevel(t));
    var b := SkewRight(a);
    var c := if b.right.Node? then b.(right := SkewRight(b.right)) else b;
    SplitRight(Split(c))
  }

  /** Deletion of the object comparing equal to `q`.  A node with two children
      is replaced by its successor, or by its predecessor when `usePredecessor`
      holds; a node with one child always takes that child's neighbour. */
  function Delete(t: Node, q: Item, usePredecessor: bool): (r: Node)
    ensures Elems(r) <= Elems(t)
    ensures t.Nil? ==> r.Nil?
  {
    match t
    case Nil => Nil
    case Node(lv, l, y, r) =>
      match Compare(q, y)
      case LessThan => Rebalance(Node(lv, Delete(l, q, usePredecessor), y, r))
      case GreaterThan => Rebalance(Node(lv, l, y, Delete(r, q, usePredecessor)))
      case EqualTo =>
        if l.Nil? && r.Nil? then Nil
        else if l.Nil? || (r.Node? && !usePredecessor) then
          var s := Leftmost(r);
          Rebalance(Node(lv, l, s, Delete(r, s, usePredecessor)))
        else
          var p := Rightmost(l);
          Rebalance(Node(lv, Delete(l, p, usePredecessor), p, r))
  }

  /** What deletion promises about the levels of a subtree `t'` obtained from
      `t`: the AA rules hold, the level drops by at most one, and a root with
      no right horizontal link keeps that property if its level is unchanged. */
  predicate DeletedFrom(t: Node, t': Node) {
    && Balanced(t')
    && (Level(t') == Level(t) || Level(t') + 1 == Level(t))
    && (Level(t') == Level(t) && Single(t) ==> Single(t'))
  }

  /** Rebalancing a node after deleting from its left subtree. */
  lemma {:induction false} RebalanceAfterLeft(lv: nat, l0: Node, l: Node, x: Item, y: Item, r: Node)
    requires Balanced(Node(lv, l0, x, r))
    requires DeletedFrom(l0, l)
    ensures DeletedFrom(Node(lv, l0, x, r), Rebalance(Node(lv, l, y, r)))
  {
    if Level(l) == Level(l0) {
      LeftKeptLevel(lv, l0, l, x, y, r);
    } else if Level(r) + 1 == lv {
      LeftDroppedRightBelow(lv, l0, l, x, y, r);
    } else if Level(r.left.right) + 1 == lv {
      assert r.Node? && r.left.Node?;
      LeftDroppedRightLevelInner(lv, l0, l, x, y, r);
    } else {
      LeftDroppedRightLevelOuter(lv, l0, l, x, y, r);
    }
  }

  /** The left subtree kept its level: nothing moves. */
  lemma {:induction false} LeftKeptLevel(lv: nat, l0: Node, l: Node, x: Item, y: Item, r: Node)
    requires Balanced(Node(lv, l0, x, r))
    requires DeletedFrom(l0, l) && Level(l) == Level(l0)
    ensures DeletedFrom(Node(lv, l0, x, r), Rebalance(Node(lv, l, y, r)))
  {
    var t := Node(lv, l, y, r);
    assert Balanced(t);
    RebalanceIdentity(t);
  }

  /** On a node that already obeys the AA level rules rebalancing does nothing. */
  lemma {:induction false} RebalanceIdentity(t: Node)
    requires t.Node? && Balanced(t)
    ensures Rebalance(t) == t
  {
    var r := t.right;
    SkewBalanced(r);
    SplitBalanced(r);
    if r.Node? {
      assert Balanced(r.left) && Balanced(r.right);
      SkewBalanced(r.right);
    }
    assert DecreaseLevel(t) == t;
    assert Skew(t) == t;
    assert SkewRight(t) == t;
    assert Split(t) == t;
  }

  /** The node drops a level and its right child, one below, becomes
      horizontal; a split is needed when the right grandchild is there too. */
  lemma {:induction false} LeftDroppedRightBelow(lv: nat, l0: Node, l: Node, x: Item, y: Item, r: Node)
    requires Balanced(Node(lv, l0, x, r))
    requires DeletedFrom(l0, l) && Level(l) + 1 == Level(l0) && Level(r) + 1 == lv
    ensures DeletedFrom(Node(lv, l0, x, r), Rebalance(Node(lv, l, y, r)))
  {
    if r.Node? && r.right.Node? && r.right.level == lv - 1 {
      LeftDroppedSplit(lv, l0, l, x, y, r);
    } else {
      LeftDroppedFlat(lv, l0, l, x, y, r);
    }
  }

  /** As above, with no right grandchild at the lowered level: lowering the
      node is all the rebalancing there is. */
  lemma {:induction false} LeftDroppedFlat(lv: nat, l0: Node, l: Node, x: Item, y: Item, r: Node)
    requires Balanced(Node(lv, l0, x, r))
    requires DeletedFrom(l0, l) && Level(l) + 1 == Level(l0) && Level(r) + 1 == lv
    requires !(r.Node? && r.right.Node? && r.right.level == lv - 1)
    ensures DeletedFrom(Node(lv, l0, x, r), Rebalance(Node(lv, l, y, r)))
  {
    var t := Node(lv, l, y, r);
    SkewBalanced(r);
    if r.Node? {
      SkewBalanced(r.right);
    }
    var d := Node(lv - 1, l, y, r);
    assert DecreaseLevel(t) == d;
    assert Skew(d) == d;
    assert SkewRight(d) == d;
    assert Split(d) == d;
    SplitBalanced(r);
    assert Rebalance(t) == d;
  }

  /** As above, with the right grandchild at the lowered level: the split
      raises the right child to the old level. */
  lemma {:induction false} LeftDroppedSplit(lv: nat, l0: Node, l: Node, x: Item, y: Item, r: Node)
    requires Balanced(Node(lv, l0, x, r))
    requires DeletedFrom(l0, l) && Level(l) + 1 == Level(l0) && Level(r) + 1 == lv
    requires r.Node? && r.right.Node? && r.right.level == lv - 1
    ensures DeletedFrom(Node(lv, l0, x, r), Rebalance(Node(lv, l, y, r)))
  {
    var t := Node(lv, l, y, r);
    assert Balanced(r) && Balanced(r.left) && Balanced(r.right);
    SkewBalanced(r);
    SkewBalanced(r.right);
    SplitBalanced(r.right);
    var d := Node(lv - 1, l, y, r);
    assert DecreaseLevel(t) == d;
    assert Skew(d) == d;
    assert SkewRight(d) == d;
    var e := Node(lv, Node(lv - 1, l, y, r.left), r.item, r.right);
    assert Split(d) == e;
    assert SplitRight(e) == e;
    assert Rebalance(t) == e;
    assert Balanced(Node(lv - 1, l, y, r.left));
  }

  /** The node and its right child both drop a level, and the right child's
      left child has a right child at the new level: the second skew fires. */
  lemma {:induction false} LeftDroppedRightLevelInner(lv: nat, l0: Node, l: Node, x: Item, y: Item, r: Node)
    requires Balanced(Node(lv, l0, x, r))
    requires DeletedFrom(l0, l) && Level(l) + 1 == Level(l0) && Level(r) == lv
    requires r.Node? && r.left.Node? && Level(r.left.right) + 1 == lv
    ensures DeletedFrom(Node(lv, l0, x, r), Rebalance(Node(lv, l, y, r)))
  {
    var t := Node(lv, l, y, r);
    var a := r.left;
    assert Balanced(r) && Balanced(a) && Balanced(a.left) && Balanced(r.right);
    var r' := r.(level := lv - 1);
    var d := Node(lv - 1, l, y, r');
    assert DecreaseLevel(t) == d;
    assert Skew(d) == d;
    var r1 := Node(lv - 1, a.right, r.item, r.right);
    assert Skew(r') == Node(lv - 1, a.left, a.item, r1);
    assert SkewRight(d) == Node(lv - 1, l, y, Node(lv - 1, a.left, a.item, r1));
    var b := a.right;
    assert b.Node? && Balanced(b);
    var rn := Node(lv - 1, b.right, r.item, r.right);
    var r2 := Node(lv - 1, b.left, b.item, rn);
    assert Skew(r1) == r2;
    var c := Node(lv - 1, l, y, Node(lv - 1, a.left, a.item, r2));
    var e := Node(lv, Node(lv - 1, l, y, a.left), a.item, r2);
    assert Split(c) == e;
    var rs := Node(lv, Node(lv - 1, b.left, b.item, b.right), r.item, r.right);
    assert Split(r2) == rs;
    var f := Node(lv, Node(lv - 1, l, y, a.left), a.item, rs);
    assert Rebalance(t) == f;
    assert Balanced(Node(lv - 1, l, y, a.left));
    assert Balanced(Node(lv - 1, b.left, b.item, b.right));
    assert Balanced(rs);
    assert Balanced(f);
  }

  /** The node and its right child both drop a level, and the second skew
      has nothing to do; the right grandchild decides the last split. */
  lemma {:induction false} LeftDroppedRightLevelOuter(lv: nat, l0: Node, l: Node, x: Item, y: Item, r: Node)
    requires Balanced(Node(lv, l0, x, r))
    requires DeletedFrom(l0, l) && Level(l) + 1 == Level(l0) && Level(r) == lv
    requires r.Node? && r.left.Node? && Level(r.left.right) + 1 != lv
    ensures DeletedFrom(Node(lv, l0, x, r), Rebalance(Node(lv, l, y, r)))
  {
    assert Balanced(r) && r.right.Node?;
    if Level(r.right.right) + 1 == lv {
      LeftDroppedOuterSplit(lv, l0, l, x, y, r);
    } else {
      LeftDroppedOuterFlat(lv, l0, l, x, y, r);
    }
  }

  /** As above, with the right grandchild at the lowered level: the last
      split raises it. */
  lemma {:induction false} LeftDroppedOuterSplit(lv: nat, l0: Node, l: Node, x: Item, y: Item, r: Node)
    requires Balanced(Node(lv, l0, x, r))
    requires DeletedFrom(l0, l) && Level(l) + 1 == Level(l0) && Level(r) == lv
    requires r.Node? && r.left.Node? && Level(r.left.right) + 1 != lv
    requires r.right.Node? && Level(r.right.right) + 1 == lv
    ensures DeletedFrom(Node(lv, l0, x, r), Rebalance(Node(lv, l, y, r)))
  {
    var t := Node(lv, l, y, r);
    var a := r.left;
    var g := r.right;
    assert Balanced(r) && Balanced(a) && Balanced(a.left) && Balanced(g);
    assert Balanced(g.left) && Balanced(g.right);
    var r' := r.(level := lv - 1);
    var d := Node(lv - 1, l, y, r');
    assert DecreaseLevel(t) == d;
    assert Skew(d) == d;
    var r1 := Node(lv - 1, a.right, r.item, g);
    assert Skew(r') == Node(lv - 1, a.left, a.item, r1);
    assert SkewRight(d) == Node(lv - 1, l, y, Node(lv - 1, a.left, a.item, r1));
    assert Skew(r1) == r1;
    var c := Node(lv - 1, l, y, Node(lv - 1, a.left, a.item, r1));
    assert Split(c) == Node(lv, Node(lv - 1, l, y, a.left), a.item, r1);
    var rs := Node(lv, Node(lv - 1, a.right, r.item, g.left), g.item, g.right);
    assert Split(r1) == rs;
    var f := Node(lv, Node(lv - 1, l, y, a.left), a.item, rs);
    assert Rebalance(t) == f;
    assert Balanced(Node(lv - 1, l, y, a.left));
    assert Balanced(Node(lv - 1, a.right, r.item, g.left));
    assert Balanced(rs);
  }

  /** As above, with no right grandchild at the lowered level: after the
      first split nothing moves. */
  lemma {:induction false} LeftDroppedOuterFlat(lv: nat, l0: Node, l: Node, x: Item, y: Item, r: Node)
    requires Balanced(Node(lv, l0, x, r))
    requires DeletedFrom(l0, l) && Level(l) + 1 == Level(l0) && Level(r) == lv
    requires r.Node? && r.left.Node? && Level(r.left.right) + 1 != lv
    requires r.right.Node? && Level(r.right.right) + 1 != lv
    ensures DeletedFrom(Node(lv, l0, x, r), Rebalance(Node(lv, l, y, r)))
  {
    var t := Node(lv, l, y, r);
    var a := r.left;
    assert Balanced(r) && Balanced(a) && Balanced(a.left) && Balanced(r.right);
    assert Balanced(r.right.left) && Balanced(r.right.right);
    var r' := r.(level := lv - 1);
    var d := Node(lv - 1, l, y, r');
    assert DecreaseLevel(t) == d;
    assert Skew(d) == d;
    var r1 := Node(lv - 1, a.right, r.item, r.right);
    assert Skew(r') == Node(lv - 1, a.left, a.item, r1);
    assert SkewRight(d) == Node(lv - 1, l, y, Node(lv - 1, a.left, a.item, r1));
    assert Skew(r1) == r1;
    var c := Node(lv - 1, l, y, Node(lv - 1, a.left, a.item, r1));
    var e := Node(lv, Node(lv - 1, l, y, a.left), a.item, r1);
    assert Split(c) == e;
    assert Split(r1) == r1;
    assert Rebalance(t) == e;
    assert Balanced(Node(lv - 1, l, y, a.left));
    assert Balanced(r1);
  }

  /** Rebalancing a node after deleting from its right subtree. */
  lemma {:induction false} RebalanceAfterRight(lv: nat, l: Node, x: Item, y: Item, r0: Node, r: Node)
    requires Balanced(Node(lv, l, x, r0))
    requires DeletedFrom(r0, r)
    ensures DeletedFrom(Node(lv, l, x, r0), Rebalance(Node(lv, l, y, r)))
  {
    if Level(r) + 1 >= lv {
      RightKeptLevel(lv, l, x, y, r0, r);
    } else if Level(l.right) + 1 == lv {
      RightDroppedInner(lv, l, x, y, r0, r);
    } else {
      RightDroppedOuter(lv, l, x, y, r0, r);
    }
  }

  /** The right subtree is still at least one level below: nothing moves. */
  lemma {:induction false} RightKeptLevel(lv: nat, l: Node, x: Item, y: Item, r0: Node, r: Node)
    requires Balanced(Node(lv, l, x, r0))
    requires DeletedFrom(r0, r) && Level(r) + 1 >= lv
    ensures DeletedFrom(Node(lv, l, x, r0), Rebalance(Node(lv, l, y, r)))
  {
    var t := Node(lv, l, y, r);
    if Level(r) == lv {
      assert Single(r0);
    }
    assert Balanced(t);
    RebalanceIdentity(t);
  }

  /** The node drops a level, its left child becomes a left horizontal link,
      and that child's right child sits at the lowered level: after the skews
      a split raises it. */
  lemma {:induction false} RightDroppedInner(lv: nat, l: Node, x: Item, y: Item, r0: Node, r: Node)
    requires Balanced(Node(lv, l, x, r0))
    requires DeletedFrom(r0, r) && Level(r) + 1 < lv && Level(l.right) + 1 == lv
    ensures DeletedFrom(Node(lv, l, x, r0), Rebalance(Node(lv, l, y, r)))
  {
    var t := Node(lv, l, y, r);
    assert Balanced(l) && l.Node? && Balanced(l.left) && Balanced(l.right);
    SkewBalanced(r);
    if r.Node? {
      assert Balanced(r.left) && Balanced(r.right);
    }
    var d := Node(lv - 1, l, y, r);
    assert DecreaseLevel(t) == d;
    var y1 := Node(lv - 1, l.right, y, r);
    var a := Node(lv - 1, l.left, l.item, y1);
    assert Skew(d) == a;
    var b := l.right;
    assert b.Node? && Balanced(b.left) && Balanced(b.right);
    var yn := Node(lv - 1, b.right, y, r);
    var y2 := Node(lv - 1, b.left, b.item, yn);
    assert Skew(y1) == y2;
    assert Skew(yn) == yn;
    var c := Node(lv - 1, l.left, l.item, y2);
    assert SkewRight(a) == c;
    assert SkewRight(y2) == y2;
    var e := Node(lv, Node(lv - 1, l.left, l.item, b.left), b.item, yn);
    assert Split(c) == e;
    assert Split(yn) == yn;
    assert Rebalance(t) == e;
    assert Balanced(Node(lv - 1, l.left, l.item, b.left));
    assert Balanced(yn);
    assert Balanced(e);
  }

  /** The node drops a level and its left child becomes a left horizontal
      link whose right child is lower: one skew settles it. */
  lemma {:induction false} RightDroppedOuter(lv: nat, l: Node, x: Item, y: Item, r0: Node, r: Node)
    requires Balanced(Node(lv, l, x, r0))
    requires DeletedFrom(r0, r) && Level(r) + 1 < lv && Level(l.right) + 1 != lv
    ensures DeletedFrom(Node(lv, l, x, r0), Rebalance(Node(lv, l, y, r)))
  {
    var t := Node(lv, l, y, r);
    assert Balanced(l) && l.Node? && Balanced(l.left) && Balanced(l.right);
    SkewBalanced(r);
    SplitBalanced(r);
    if r.Node? {
      assert Balanced(r.left) && Balanced(r.right);
      SkewBalanced(r.right);
    }
    var d := Node(lv - 1, l, y, r);
    assert DecreaseLevel(t) == d;
    var y1 := Node(lv - 1, l.right, y, r);
    var a := Node(lv - 1, l.left, l.item, y1);
    assert Skew(d) == a;
    assert Skew(y1) == y1;
    assert SkewRight(a) == a;
    assert SkewRight(y1) == y1;
    assert Split(a) == a;
    assert Split(y1) == y1;
    assert Rebalance(t) == a;
    assert Balanced(y1);
    assert Balanced(a);
  }

  /** Deletion keeps the AA level rules (and lowers the level by at most one). */
  lemma {:induction false} DeleteBalanced(t: Node, q: Item, usePredecessor: bool)
    requires Balanced(t)
    ensures DeletedFrom(t, Delete(t, q, usePredecessor))
  {
    match t
    case Nil =>
    case Node(lv, l, y, r) =>
      match Compare(q, y)
      case LessThan =>
        DeleteBalanced(l, q, usePredecessor);
        RebalanceAfterLeft(lv, l, Delete(l, q, usePredecessor), y, y, r);
      case GreaterThan =>
        DeleteBalanced(r, q, usePredecessor);
        RebalanceAfterRight(lv, l, y, y, r, Delete(r, q, usePredecessor));
      case EqualTo =>
        if l.Nil? && r.Nil? {
        } else if l.Nil? || (r.Node? && !usePredecessor) {
          var s := Leftmost(r);
          DeleteBalanced(r, s, usePredecessor);
          RebalanceAfterRight(lv, l, y, s, r, Delete(r, s, usePredecessor));
        } else {
          var p := Rightmost(l);
          DeleteBalanced(l, p, usePredecessor);
          RebalanceAfterLeft(lv, l, Delete(l, p, usePredecessor), y, p, r);
        }
  }

  /** Lowering levels does not touch the search-tree ordering. */
  lemma {:induction false} DecreaseLevelOrdered(t: Node)
    requires t.Node? && Ordered(t)
    ensures Ordered(DecreaseLevel(t))
  {
    if t.right.Node? {
      assert Ordered(t.right.(level := 0)) == Ordered(t.right);
    }
  }

  /** Rebalancing keeps the search-tree ordering. */
  lemma {:induction false} RebalanceOrdered(t: Node)
    requires t.Node? && Ordered(t)
    ensures Ordered(Rebalance(t))
  {
    DecreaseLevelOrdered(t);
    var a := Skew(DecreaseLevel(t));
    SkewOrdered(DecreaseLevel(t));
    SkewOrdered(a.right);
    var b := SkewRight(a);
    var c := if b.right.Node? then b.(right := SkewRight(b.right)) else b;
    if b.right.Node? {
      SkewOrdered(b.right.right);
      assert Ordered(SkewRight(b.right));
    }
    SplitOrdered(c);
    SplitOrdered(Split(c).right);
  }

  /** Deletion keeps the search-tree ordering and removes exactly the object
      comparing equal to `q`, whichever neighbour replaces it. */
  lemma {:induction false} DeleteOrdered(t: Node, q: Item, usePredecessor: bool)
    requires Ordered(t)
    ensures Ordered(Delete(t, q, usePredecessor))
    ensures forall o :: o in Elems(Delete(t, q, usePredecessor)) <==> o in Elems(t) && o.key != q.key
    decreases t, 1
  {
    match t
    case Nil =>
    case Node(lv, l, y, r) =>
      match Compare(q, y)
      case LessThan =>
        DeleteOrdered(l, q, usePredecessor);
        var u := Node(lv, Delete(l, q, usePredecessor), y, r);
        assert Ordered(u);
        RebalanceOrdered(u);
      case GreaterThan =>
        DeleteOrdered(r, q, usePredecessor);
        var u := Node(lv, l, y, Delete(r, q, usePredecessor));
        assert Ordered(u);
        RebalanceOrdered(u);
      case EqualTo =>
        DeleteMatchOrdered(lv, l, y, r, q, usePredecessor);
  }

  /** The case of `DeleteOrdered` where the node itself holds the match. */
  lemma {:induction false} DeleteMatchOrdered(lv: nat, l: Node, y: Item, r: Node, q: Item, usePredecessor: bool)
    requires Ordered(Node(lv, l, y, r)) && q.key == y.key
    ensures Ordered(Delete(Node(lv, l, y, r), q, usePredecessor))
    ensures forall o :: o in Elems(Delete(Node(lv, l, y, r), q, usePredecessor))
                    <==> o in Elems(Node(lv, l, y, r)) && o.key != q.key
    decreases Node(lv, l, y, r), 0
  {
    var t := Node(lv, l, y, r);
    if l.Nil? && r.Nil? {
    } else if l.Nil? || (r.Node? && !usePredecessor) {
      var s := Leftmost(r);
      DeleteOrdered(r, s, usePredecessor);
      var u := Node(lv, l, s, Delete(r, s, usePredecessor));
      ReplacedBySuccessor(lv, l, y, r, s, Delete(r, s, usePredecessor));
      RebalanceOrdered(u);
      assert Delete(t, q, usePredecessor) == Rebalance(u);
    } else {
      var p := Rightmost(l);
      DeleteOrdered(l, p, usePredecessor);
      var u := Node(lv, Delete(l, p, usePredecessor), p, r);
      ReplacedByPredecessor(lv, l, y, r, p, Delete(l, p, usePredecessor));
      RebalanceOrdered(u);
      assert Delete(t, q, usePredecessor) == Rebalance(u);
    }
  }

  /** A node whose object is replaced by its successor's, the successor having
      been removed from the right subtree, is still ordered and has lost
      exactly the replaced object. */
  lemma {:induction false} ReplacedBySuccessor(lv: nat, l: Node, y: Item, r: Node, s: Item, r': Node)
    requires Ordered(Node(lv, l, y, r)) && r.Node? && s == Leftmost(r)
    requires Ordered(r') && forall o :: o in Elems(r') <==> o in Elems(r) && o.key != s.key
    ensures Ordered(Node(lv, l, s, r'))
    ensures forall o :: o in Elems(Node(lv, l, s, r')) <==> o in Elems(Node(lv, l, y, r)) && o.key != y.key
  {
    assert s in Elems(r) && y.key < s.key;
    forall o
      ensures o in Elems(Node(lv, l, s, r')) <==> o in Elems(Node(lv, l, y, r)) && o.key != y.key
    {
      if o in Elems(r) && o.key == s.key {
        KeysUnique(r, o, s);
      }
    }
  }

  /** The mirror image of `ReplacedBySuccessor`. */
  lemma {:induction false} ReplacedByPredecessor(lv: nat, l: Node, y: Item, r: Node, p: Item, l': Node)
    requires Ordered(Node(lv, l, y, r)) && l.Node? && p == Rightmost(l)
    requires Ordered(l') && forall o :: o in Elems(l') <==> o in Elems(l) && o.key != p.key
    ensures Ordered(Node(lv, l', p, r))
    ensures forall o :: o in Elems(Node(lv, l', p, r)) <==> o in Elems(Node(lv, l, y, r)) && o.key != y.key
  {
    assert p in Elems(l) && p.key < y.key;
    forall o
      ensures o in Elems(Node(lv, l', p, r)) <==> o in Elems(Node(lv, l, y, r)) && o.key != y.key
    {
      if o in Elems(l) && o.key == p.key {
        KeysUnique(l, o, p);
      }
    }
  }

  /** Deletion agrees with removal of the key from the sorted view. */
  lemma {:induction false} DeleteAgrees(t: Node, q: Item, usePredecessor: bool)
    requires Ordered(t)
    ensures SortedSeq.Sorted(Inorder(t))
    ensures Inorder(Delete(t, q, usePredecessor)) == SortedSeq.Remove(Inorder(t), q.key)
  {
    DeleteOrdered(t, q, usePredecessor);
    InorderSorted(t);
    InorderSorted(Delete(t, q, usePredecessor));
    var s := SortedSeq.Remove(Inorder(t), q.key);
    assert forall o :: o in Inorder(Delete(t, q, usePredecessor)) <==> o in s;
    SortedSeq.SortedUnique(Inorder(Delete(t, q, usePredecessor)), s);
  }
}
