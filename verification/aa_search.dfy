/** objectMatchingObject and nodeClosestToObject:reverse: as descents.

    Both walk one root-to-leaf path, so neither materialises a traversal.
    The closest-match descent remembers the last node that satisfied the
    order constraint: a node not above the query for the floor (reverse NO),
    a node not below it for the ceiling (reverse YES).
 */
module AASearch {
  import opened Items
  import opened AANode
  import SortedSeq

  /** Exact lookup: the stored object comparing equal to `q`, if any. */
  function Find(t: Node, q: Item): (r: Option<Item>)
    ensures r.Some? ==> r.value in Elems(t) && r.value.key == q.key
  {
    match t
    case Nil => None
    case Node(_, l, y, r) =>
      match Compare(q, y)
      case EqualTo => Some(y)
      case LessThan => Find(l, q)
      case GreaterThan => Find(r, q)
  }

  /** Closest-match descent with the best candidate found so far.  The answer
      is either that candidate or a stored object on the required side of the
      query: not above it for the floor, not below it for the ceiling. */
  function Closest(t: Node, q: Item, reverse: bool, best: Option<Item>): (r: Option<Item>)
    ensures r == best || (r.Some? && r.value in Elems(t) &&
                          if reverse then q.key <= r.value.key else r.value.key <= q.key)
  {
    match t
    case Nil => best
    case Node(_, l, y, r) =>
      match Compare(y, q)
      case EqualTo => Some(y)
      case LessThan =>
        if reverse then Closest(r, q, reverse, best) else Closest(r, q, reverse, Some(y))
      case GreaterThan =>
        if reverse then Closest(l, q, reverse, Some(y)) else Closest(l, q, reverse, best)
  }

  /** Exact lookup finds the stored object with q's key, and only that. */
  lemma {:induction false} FindElems(t: Node, q: Item)
    requires Ordered(t)
    ensures Find(t, q).Some? <==> exists o :: o in Elems(t) && o.key == q.key
    ensures Find(t, q).Some? ==> Find(t, q).value in Elems(t) && Find(t, q).value.key == q.key
  {
    match t
    case Nil =>
    case Node(_, l, y, r) =>
      match Compare(q, y)
      case EqualTo =>
      case LessThan => FindElems(l, q);
      case GreaterThan => FindElems(r, q);
  }

  /** The floor descent: starting from a candidate that lies below everything
      in `t`, it returns the greatest object of `t` and the candidate whose key
      is at most q's. */
  lemma {:induction false} FloorDescent(t: Node, q: Item, best: Option<Item>)
    requires Ordered(t)
    requires best.Some? ==> best.value.key <= q.key
    requires best.Some? ==> forall o :: o in Elems(t) ==> best.value.key < o.key
    ensures var res := Closest(t, q, false, best);
      && (res.None? <==> best.None? && forall o :: o in Elems(t) ==> o.key > q.key)
      && (res.Some? ==> (res.value in Elems(t) || res == best) && res.value.key <= q.key)
      && (res.Some? ==> forall o :: o in Elems(t) && o.key <= q.key ==> o.key <= res.value.key)
  {
    match t
    case Nil =>
    case Node(_, l, y, r) =>
      match Compare(y, q)
      case EqualTo =>
      case LessThan => FloorDescent(r, q, Some(y));
      case GreaterThan => FloorDescent(l, q, best);
  }

  /** The ceiling descent, mirror image of `FloorDescent`. */
  lemma {:induction false} CeilingDescent(t: Node, q: Item, best: Option<Item>)
    requires Ordered(t)
    requires best.Some? ==> best.value.key >= q.key
    requires best.Some? ==> forall o :: o in Elems(t) ==> o.key < best.value.key
    ensures var res := Closest(t, q, true, best);
      && (res.None? <==> best.None? && forall o :: o in Elems(t) ==> o.key < q.key)
      && (res.Some? ==> (res.value in Elems(t) || res == best) && res.value.key >= q.key)
      && (res.Some? ==> forall o :: o in Elems(t) && o.key >= q.key ==> o.key >= res.value.key)
  {
    match t
    case Nil =>
    case Node(_, l, y, r) =>
      match Compare(y, q)
      case EqualTo =>
      case LessThan => CeilingDescent(r, q, best);
      case GreaterThan => CeilingDescent(l, q, Some(y));
  }

  /** Exact lookup agrees with lookup in the sorted view. */
  lemma {:induction false} FindAgrees(t: Node, q: Item)
    requires Ordered(t)
    ensures SortedSeq.Sorted(Inorder(t))
    ensures Find(t, q) == SortedSeq.Find(Inorder(t), q.key)
  {
    InorderSorted(t);
    FindElems(t, q);
    var s := Inorder(t);
    var f := SortedSeq.Find(s, q.key);
    if Find(t, q).Some? {
      SortedSeq.SameKeySameItem(s, Find(t, q).value, f.value);
    }
  }

  /** The floor query (reverse NO) agrees with the floor in the sorted view. */
  lemma {:induction false} FloorAgrees(t: Node, q: Item)
    requires Ordered(t)
    ensures SortedSeq.Sorted(Inorder(t))
    ensures Closest(t, q, false, None) == SortedSeq.Floor(Inorder(t), q.key)
  {
    InorderSorted(t);
    FloorDescent(t, q, None);
    SortedSeq.FloorUnique(Inorder(t), q.key, Closest(t, q, false, None));
  }

  /** The ceiling query (reverse YES) agrees with the ceiling in the sorted view. */
  lemma {:induction false} CeilingAgrees(t: Node, q: Item)
    requires Ordered(t)
    ensures SortedSeq.Sorted(Inorder(t))
    ensures Closest(t, q, true, None) == SortedSeq.Ceiling(Inorder(t), q.key)
  {
    InorderSorted(t);
    CeilingDescent(t, q, None);
    SortedSeq.CeilingUnique(Inorder(t), q.key, Closest(t, q, true, None));
  }
}
