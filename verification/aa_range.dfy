/** PhiAATreeRange: an enumerator over the nodes of a tree from a start node
    to an end node, both inclusive, in comparator order.

    The nodes' previous/next links are the in-order neighbours, so a range
    is represented here by the tree's in-order objects `order` and the index
    bounds of its first node (`lo`) and one past its last node (`hi`).  The
    enumerator's `current` is the cursor: before the first step it stands
    on no node; stepping past either bound leaves it in a terminal state
    from which it never wraps round.
 */
module AARange {
  import opened Items
  import SortedSeq
  import AATree

  datatype Cursor = Unstarted | At(index: nat) | Finished

  datatype Range = Range(order: seq<Item>, lo: nat, hi: nat, cursor: Cursor)

  /** The range invariant: start precedes or equals end, and the cursor, when
      on a node, is on one between them. */
  predicate ValidRange(r: Range) {
    && SortedSeq.Sorted(r.order)
    && r.lo <= r.hi <= |r.order|
    && (r.cursor.At? ==> r.lo <= r.cursor.index < r.hi)
  }

  /** allObjects: the objects from start to end inclusive, in order. */
  function AllObjects(r: Range): (s: seq<Item>)
    requires ValidRange(r)
    ensures SortedSeq.Sorted(s)
  {
    r.order[r.lo..r.hi]
  }

  /** The start node's object (firstObject); nil for an empty range. */
  function FirstObject(r: Range): (o: Option<Item>)
    requires ValidRange(r)
    ensures o.None? <==> AllObjects(r) == []
    ensures o.Some? ==> o.value == AllObjects(r)[0]
    ensures o.Some? ==> forall x :: x in AllObjects(r) ==> o.value.key <= x.key
  {
    if r.lo < r.hi then Some(r.order[r.lo]) else None
  }

  /** The end node's object (lastObject); nil for an empty range. */
  function LastObject(r: Range): (o: Option<Item>)
    requires ValidRange(r)
    ensures o.None? <==> AllObjects(r) == []
    ensures o.Some? ==> o.value == AllObjects(r)[|AllObjects(r)| - 1]
    ensures o.Some? ==> forall x :: x in AllObjects(r) ==> x.key <= o.value.key
  {
    if r.lo < r.hi then Some(r.order[r.hi - 1]) else None
  }

  /** isEmpty: the range has no start node. */
  function IsEmpty(r: Range): (b: bool)
    requires ValidRange(r)
    ensures b <==> AllObjects(r) == []
    ensures b <==> FirstObject(r).None?
  {
    r.lo == r.hi
  }

  /** isSingleton: start and end are the same node. */
  function IsSingleton(r: Range): (b: bool)
    requires ValidRange(r)
    ensures b <==> FirstObject(r).Some? && FirstObject(r) == LastObject(r)
    ensures b <==> |AllObjects(r)| == 1
  {
    r.lo + 1 == r.hi
  }

  /** currentObject: the object of the node the cursor stands on. */
  function CurrentObject(r: Range): (o: Option<Item>)
    requires ValidRange(r)
    ensures o.Some? <==> r.cursor.At?
    ensures o.Some? ==> o.value in AllObjects(r)
  {
    match r.cursor
    case At(i) =>
      assert r.order[i] == AllObjects(r)[i - r.lo];
      Some(r.order[i])
    case _ => None
  }

  /** A measure of how many forward steps can still yield an object. */
  function Remaining(r: Range): nat
    requires ValidRange(r)
  {
    match r.cursor
    case Unstarted => r.hi - r.lo + 1
    case At(i) => r.hi - i
    case Finished => 0
  }

  /** A measure of how many backward steps can still yield an object. */
  function RemainingBack(r: Range): nat
    requires ValidRange(r)
  {
    match r.cursor
    case Unstarted => r.hi - r.lo + 1
    case At(i) => i - r.lo + 1
    case Finished => 0
  }

  /** nextObject: the first step yields the start node's object, every later
      step the next node's, and stepping past the end node yields nil and
      ends the enumeration.  The yielded object is what currentObject then
      reports. */
  function Next(r: Range): (res: (Range, Option<Item>))
    requires ValidRange(r)
    ensures ValidRange(res.0)
    ensures res.0.order == r.order && res.0.lo == r.lo && res.0.hi == r.hi
    ensures res.1 == CurrentObject(res.0)
    ensures res.1.Some? ==> Remaining(res.0) < Remaining(r)
    ensures res.1.None? <==> res.0.cursor.Finished?
    ensures r.cursor.Unstarted? ==> res.1 == FirstObject(r)
  {
    match r.cursor
    case Unstarted =>
      if r.lo < r.hi then (r.(cursor := At(r.lo)), Some(r.order[r.lo]))
      else (r.(cursor := Finished), None)
    case At(i) =>
      if i + 1 < r.hi then (r.(cursor := At(i + 1)), Some(r.order[i + 1]))
      else (r.(cursor := Finished), None)
    case Finished => (r, None)
  }

  /** previousObject: the mirror image of nextObject; a fresh enumerator's
      first backward step yields the end node's object. */
  function Previous(r: Range): (res: (Range, Option<Item>))
    requires ValidRange(r)
    ensures ValidRange(res.0)
    ensures res.0.order == r.order && res.0.lo == r.lo && res.0.hi == r.hi
    ensures res.1 == CurrentObject(res.0)
    ensures res.1.Some? ==> RemainingBack(res.0) < RemainingBack(r)
    ensures res.1.None? <==> res.0.cursor.Finished?
    ensures r.cursor.Unstarted? ==> res.1 == LastObject(r)
  {
    match r.cursor
    case Unstarted =>
      if r.lo < r.hi then (r.(cursor := At(r.hi - 1)), Some(r.order[r.hi - 1]))
      else (r.(cursor := Finished), None)
    case At(i) =>
      if i > r.lo then (r.(cursor := At(i - 1)), Some(r.order[i - 1]))
      else (r.(cursor := Finished), None)
    case Finished => (r, None)
  }

  /** Everything repeated nextObject calls yield before the first nil. */
  function Forward(r: Range): seq<Item>
    requires ValidRange(r)
    decreases Remaining(r)
  {
    var (n, o) := Next(r);
    if o.None? then [] else [o.value] + Forward(n)
  }

  /** Everything repeated previousObject calls yield before the first nil. */
  function Backward(r: Range): seq<Item>
    requires ValidRange(r)
    decreases RemainingBack(r)
  {
    var (n, o) := Previous(r);
    if o.None? then [] else [o.value] + Backward(n)
  }

  /** The reverse of a sequence. */
  function Reverse(s: seq<Item>): seq<Item> {
    if |s| == 0 then [] else [s[|s| - 1]] + Reverse(s[..|s| - 1])
  }

  /** From a node, forward stepping yields the rest of the range. */
  lemma {:induction false} ForwardFrom(r: Range)
    requires ValidRange(r) && r.cursor.At?
    ensures Forward(r) == r.order[r.cursor.index + 1..r.hi]
    decreases r.hi - r.cursor.index
  {
    var i := r.cursor.index;
    if i + 1 < r.hi {
      var n := r.(cursor := At(i + 1));
      assert Next(r) == (n, Some(r.order[i + 1]));
      assert Forward(r) == [r.order[i + 1]] + Forward(n);
      ForwardFrom(n);
      SliceHead(r.order, i + 1, r.hi);
    } else {
      assert Next(r).1 == None;
    }
  }

  /** A non-empty slice is its first element followed by the rest. */
  lemma {:induction false} SliceHead(c: seq<Item>, lo: nat, hi: nat)
    requires lo < hi <= |c|
    ensures c[lo..hi] == [c[lo]] + c[lo + 1..hi]
  {
  }

  /** A fresh enumerator drained with nextObject yields exactly allObjects,
      then nil for ever after. */
  lemma {:induction false} ForwardDrain(r: Range)
    requires ValidRange(r) && r.cursor.Unstarted?
    ensures Forward(r) == AllObjects(r)
  {
    if r.lo < r.hi {
      ForwardFrom(r.(cursor := At(r.lo)));
      SliceHead(r.order, r.lo, r.hi);
    }
  }

  /** Reversing a non-empty slice puts its last element first. */
  lemma {:induction false} ReverseSlice(c: seq<Item>, lo: nat, i: nat)
    requires lo < i <= |c|
    ensures Reverse(c[lo..i]) == [c[i - 1]] + Reverse(c[lo..i - 1])
  {
    var s := c[lo..i];
    assert s[..|s| - 1] == c[lo..i - 1];
  }

  /** From a node, backward stepping yields the start of the range reversed. */
  lemma {:induction false} BackwardFrom(r: Range)
    requires ValidRange(r) && r.cursor.At?
    ensures Backward(r) == Reverse(r.order[r.lo..r.cursor.index])
    decreases r.cursor.index
  {
    var i := r.cursor.index;
    if i > r.lo {
      var n := r.(cursor := At(i - 1));
      assert Previous(r) == (n, Some(r.order[i - 1]));
      assert Backward(r) == [r.order[i - 1]] + Backward(n);
      BackwardFrom(n);
      ReverseSlice(r.order, r.lo, i);
    } else {
      assert Previous(r).1 == None;
      assert r.order[r.lo..i] == [];
    }
  }

  /** A fresh enumerator drained with previousObject yields allObjects in
      reverse order. */
  lemma {:induction false} BackwardDrain(r: Range)
    requires ValidRange(r) && r.cursor.Unstarted?
    ensures Backward(r) == Reverse(AllObjects(r))
  {
    if r.lo < r.hi {
      BackwardFrom(r.(cursor := At(r.hi - 1)));
      ReverseSlice(r.order, r.lo, r.hi);
    }
  }

  /** The slice of a sorted sequence between two of its positions holds
      exactly the objects whose keys lie between those positions' keys. */
  lemma {:induction false} SliceBetween(c: seq<Item>, i: nat, j: nat)
    requires SortedSeq.Sorted(c) && i <= j < |c|
    ensures forall o :: o in c[i..j + 1] <==> o in c && c[i].key <= o.key <= c[j].key
  {
    forall o
      ensures o in c[i..j + 1] <==> o in c && c[i].key <= o.key <= c[j].key
    {
      if o in c && c[i].key <= o.key <= c[j].key {
        var m :| 0 <= m < |c| && c[m] == o;
        assert c[i..j + 1][m - i] == o;
      }
    }
  }

  /** The range between the positions of two stored objects starts and ends
      at them and holds exactly the objects whose keys lie between theirs. */
  function Span(c: seq<Item>, sv: Item, ev: Item): (r: Range)
    requires SortedSeq.Sorted(c) && sv in c && ev in c && sv.key <= ev.key
    ensures ValidRange(r) && r.cursor.Unstarted? && r.order == c
    ensures FirstObject(r) == Some(sv) && LastObject(r) == Some(ev)
    ensures forall o :: o in AllObjects(r) <==> o in c && sv.key <= o.key <= ev.key
  {
    assert SortedSeq.HasKey(c, sv.key) && SortedSeq.HasKey(c, ev.key);
    var i := SortedSeq.IndexOf(c, sv.key);
    var j := SortedSeq.IndexOf(c, ev.key);
    SpanFacts(c, sv, ev, i, j);
    Range(c, i, j + 1, Unstarted)
  }

  lemma {:induction false} SpanFacts(c: seq<Item>, sv: Item, ev: Item, i: nat, j: nat)
    requires SortedSeq.Sorted(c) && sv in c && ev in c && sv.key <= ev.key
    requires SortedSeq.HasKey(c, sv.key) && SortedSeq.HasKey(c, ev.key)
    requires i == SortedSeq.IndexOf(c, sv.key) && j == SortedSeq.IndexOf(c, ev.key)
    ensures i <= j < |c| && c[i] == sv && c[j] == ev
    ensures forall o :: o in c[i..j + 1] <==> o in c && sv.key <= o.key <= ev.key
  {
    SortedSeq.SameKeySameItem(c, c[i], sv);
    SortedSeq.SameKeySameItem(c, c[j], ev);
    SliceBetween(c, i, j);
  }

  /** rangeWithStartNode:andEndNode: over the nodes of `t`, each given by the
      object it holds (nil for no node).  A missing bound, or a start that
      comes after the end, gives the empty range. */
  function RangeBetween(t: AATree.Tree, s: Option<Item>, e: Option<Item>): (r: Range)
    requires AATree.Valid(t)
    requires s.Some? ==> s.value in AATree.Contents(t)
    requires e.Some? ==> e.value in AATree.Contents(t)
    ensures ValidRange(r) && r.cursor.Unstarted?
    ensures r.order == AATree.Contents(t)
    ensures s.Some? && e.Some? && s.value.key <= e.value.key ==>
      && FirstObject(r) == s && LastObject(r) == e
      && forall o :: o in AllObjects(r) <==> o in AATree.Contents(t) && s.value.key <= o.key <= e.value.key
    ensures !(s.Some? && e.Some? && s.value.key <= e.value.key) ==> IsEmpty(r)
  {
    var c := AATree.Contents(t);
    if s.Some? && e.Some? && s.value.key <= e.value.key then Span(c, s.value, e.value)
    else Range(c, 0, 0, Unstarted)
  }

  /** `r` runs from the floor of `ak` to the ceiling of `bk` in `c`: when both
      exist in that order the range holds exactly the objects between them,
      which includes every object whose key lies between the two queries;
      otherwise it is empty. */
  ghost predicate Brackets(r: Range, c: seq<Item>, ak: int, bk: int)
    requires ValidRange(r) && SortedSeq.Sorted(c)
  {
    var f, g := SortedSeq.Floor(c, ak), SortedSeq.Ceiling(c, bk);
    && (if f.Some? && g.Some? && f.value.key <= g.value.key then
          && FirstObject(r) == f && LastObject(r) == g
          && forall o :: o in AllObjects(r) <==> o in c && f.value.key <= o.key <= g.value.key
        else
          IsEmpty(r))
    && (ak <= bk && f.Some? && g.Some? ==>
          forall o :: o in c && ak <= o.key <= bk ==> o in AllObjects(r))
  }

  /** rangeForAATree:withStartObject:andEndObject: from the floor of the
      start object to the ceiling of the end object.  When both exist the
      range encloses every stored object between the two queries. */
  function RangeFor(t: AATree.Tree, a: Item, b: Item): (r: Range)
    requires AATree.Valid(t)
    ensures ValidRange(r) && r.cursor.Unstarted?
    ensures Brackets(r, AATree.Contents(t), a.key, b.key)
  {
    var c := AATree.Contents(t);
    var f := AATree.NodeClosestToObject(t, a, false);
    var g := AATree.NodeClosestToObject(t, b, true);
    Enclosed(c, a.key, b.key, f, g);
    var r := RangeBetween(t, f, g);
    BracketsOf(c, a.key, b.key, f, g, r);
    r
  }

  /** The range between the floor and the ceiling brackets the queries. */
  lemma {:induction false} BracketsOf(c: seq<Item>, ak: int, bk: int, f: Option<Item>, g: Option<Item>, r: Range)
    requires SortedSeq.Sorted(c) && ValidRange(r)
    requires f == SortedSeq.Floor(c, ak) && g == SortedSeq.Ceiling(c, bk)
    requires f.Some? && g.Some? && f.value.key <= g.value.key ==>
      && FirstObject(r) == f && LastObject(r) == g
      && forall o :: o in AllObjects(r) <==> o in c && f.value.key <= o.key <= g.value.key
    requires !(f.Some? && g.Some? && f.value.key <= g.value.key) ==> IsEmpty(r)
    ensures Brackets(r, c, ak, bk)
  {
    Enclosed(c, ak, bk, f, g);
  }

  /** The floor of the lower query and the ceiling of the upper one bracket
      every object whose key lies between the queries. */
  lemma {:induction false} Enclosed(c: seq<Item>, ak: int, bk: int, f: Option<Item>, g: Option<Item>)
    requires SortedSeq.Sorted(c)
    requires f == SortedSeq.Floor(c, ak) && g == SortedSeq.Ceiling(c, bk)
    ensures f.Some? ==> f.value in c
    ensures g.Some? ==> g.value in c
    ensures ak <= bk && f.Some? && g.Some? ==>
      forall o :: o in c && ak <= o.key <= bk ==> f.value.key <= o.key <= g.value.key
  {
  }
}
