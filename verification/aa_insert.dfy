/** addObject: the upsert insertion of the AA tree.

    The descent compares the new object with each node.  An object that
    compares equal to a stored one replaces it in place with no structural
    change; otherwise a level-1 leaf is attached, and on the way back up
    every node on the path is skewed and then split.
 */
module AAInsert {
  import opened Items
  import opened AANode
  import SortedSeq

  /** The new object always ends up in the tree, and nothing but it is added:
      the structural steps only rearrange the objects already there. */
  function Insert(t: Node, x: Item): (r: Node)
    ensures r.Node? && x in Elems(r)
    ensures Elems(r) <= Elems(t) + {x}
  {
    match t
    case Nil => Node(1, Nil, x, Nil)
    case Node(lv, l, y, r) =>
      match Compare(x, y)
      case LessThan => Split(Skew(Node(lv, Insert(l, x), y, r)))
      case GreaterThan => Split(Skew(Node(lv, l, y, Insert(r, x))))
      case EqualTo => Node(lv, l, x, r)
  }

  /** Insertion keeps the AA level rules.  The level of the subtree rises by
      at most one, and when it does the new root has no right horizontal link;
      a subtree whose root had no right horizontal link does not rise. */
  lemma {:induction false} InsertBalanced(t: Node, x: Item)
    requires Balanced(t)
    ensures Balanced(Insert(t, x))
    ensures Level(Insert(t, x)) == Level(t)
         || (Level(Insert(t, x)) == Level(t) + 1 && Single(Insert(t, x)))
    ensures Single(t) ==> Level(Insert(t, x)) == Level(t)
  {
    match t
    case Nil =>
    case Node(lv, l, y, r) =>
      match Compare(x, y)
      case LessThan =>
        InsertBalanced(l, x);
        GrownLeft(lv, l, y, r, Insert(l, x));
      case GreaterThan =>
        InsertBalanced(r, x);
        GrownRight(lv, l, y, r, Insert(r, x));
      case EqualTo =>
  }

  /** One rebalancing step after the left subtree was replaced by one at most
      a level higher whose root, if it rose, has no right horizontal link. */
  lemma {:induction false} GrownLeft(lv: nat, l: Node, y: Item, r: Node, l2: Node)
    requires Balanced(Node(lv, l, y, r)) && Balanced(l2)
    requires Level(l2) == Level(l) || (Level(l2) == Level(l) + 1 && Single(l2))
    ensures var u := Split(Skew(Node(lv, l2, y, r)));
      && Balanced(u)
      && (Level(u) == lv || (Level(u) == lv + 1 && Single(u)))
      && (Level(r) < lv ==> Level(u) == lv)
  {
  }

  /** The same step after the right subtree was replaced. */
  lemma {:induction false} GrownRight(lv: nat, l: Node, y: Item, r: Node, r2: Node)
    requires Balanced(Node(lv, l, y, r)) && Balanced(r2)
    requires Level(r2) == Level(r) || (Level(r2) == Level(r) + 1 && Single(r2))
    requires Single(r) ==> Level(r2) == Level(r)
    ensures var u := Split(Skew(Node(lv, l, y, r2)));
      && Balanced(u)
      && (Level(u) == lv || (Level(u) == lv + 1 && Single(u)))
      && (Level(r) < lv ==> Level(u) == lv)
  {
  }

  /** Insertion keeps the search-tree ordering and performs the upsert: the
      result holds `x` and every stored object whose key differs from x's. */
  lemma {:induction false} InsertOrdered(t: Node, x: Item)
    requires Ordered(t)
    ensures Ordered(Insert(t, x))
    ensures forall o :: o in Elems(Insert(t, x)) <==> o == x || (o in Elems(t) && o.key != x.key)
  {
    match t
    case Nil =>
    case Node(lv, l, y, r) =>
      match Compare(x, y)
      case LessThan =>
        InsertOrdered(l, x);
        var u := Node(lv, Insert(l, x), y, r);
        assert Ordered(u);
        SkewOrdered(u);
        SplitOrdered(Skew(u));
      case GreaterThan =>
        InsertOrdered(r, x);
        var u := Node(lv, l, y, Insert(r, x));
        assert Ordered(u);
        SkewOrdered(u);
        SplitOrdered(Skew(u));
      case EqualTo =>
  }

  /** Insertion agrees with the upsert on the sorted view. */
  lemma {:induction false} InsertAgrees(t: Node, x: Item)
    requires Ordered(t)
    ensures SortedSeq.Sorted(Inorder(t))
    ensures Inorder(Insert(t, x)) == SortedSeq.Insert(Inorder(t), x)
  {
    InsertOrdered(t, x);
    InorderSorted(t);
    InorderSorted(Insert(t, x));
    var s := SortedSeq.Insert(Inorder(t), x);
    assert forall o :: o in Inorder(Insert(t, x)) <==> o in s;
    SortedSeq.SortedUnique(Inorder(Insert(t, x)), s);
  }
}
