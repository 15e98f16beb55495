/** Concrete scenarios for the sorted view, stated without the tree's
    definitions in scope.  Each object is written `Item(k, k)`: key and
    identity both k. */
module SeqScenarios {
  import opened Items
  import SortedSeq

  /** Upserting 10, 20, 5, 15, 25, 1 in turn into the empty sorted view. */
  lemma {:induction false} SixInserts(xs: seq<Item>, want: seq<Item>)
    requires xs == [Item(10, 10), Item(20, 20), Item(5, 5), Item(15, 15), Item(25, 25), Item(1, 1)]
    requires want == [Item(1, 1), Item(5, 5), Item(10, 10), Item(15, 15), Item(20, 20), Item(25, 25)]
    ensures SortedSeq.InsertAll([], xs) == want
  {
    DistinctKeys(xs);
    SortedSeq.InsertAllDistinct(xs);
    SamePermutation(xs, want);
    SixSorted(want);
    SortedSeq.SortedUnique(SortedSeq.InsertAll([], xs), want);
  }

  /** Upserts with a repeated key: the later object replaces both the stored
      one and the earlier one in the batch. */
  lemma {:induction false} LastWins(a: seq<Item>, b: seq<Item>)
    requires a == [Item(1, 1), Item(1, 2)] && b == [Item(1, 2)]
    ensures SortedSeq.InsertAll([Item(1, 1)], b) == [Item(1, 2)]
    ensures SortedSeq.InsertAll([], a) == [Item(1, 2)]
  {
  }

  lemma {:induction false} DistinctKeys(xs: seq<Item>)
    requires xs == [Item(10, 10), Item(20, 20), Item(5, 5), Item(15, 15), Item(25, 25), Item(1, 1)]
    ensures forall i, j :: 0 <= i < j < |xs| ==> xs[i].key != xs[j].key
  {
  }

  lemma {:induction false} SamePermutation(xs: seq<Item>, want: seq<Item>)
    requires xs == [Item(10, 10), Item(20, 20), Item(5, 5), Item(15, 15), Item(25, 25), Item(1, 1)]
    requires want == [Item(1, 1), Item(5, 5), Item(10, 10), Item(15, 15), Item(20, 20), Item(25, 25)]
    ensures forall o :: o in xs <==> o in want
  {
  }

  lemma {:induction false} SixSorted(want: seq<Item>)
    requires want == [Item(1, 1), Item(5, 5), Item(10, 10), Item(15, 15), Item(20, 20), Item(25, 25)]
    ensures SortedSeq.Sorted(want)
  {
  }

  /** Floors over 1, 3, 5, 7: 3 for 4, none for 0. */
  lemma {:induction false} OddFloors(s: seq<Item>)
    requires s == [Item(1, 1), Item(3, 3), Item(5, 5), Item(7, 7)]
    ensures SortedSeq.Sorted(s)
    ensures SortedSeq.Floor(s, 4) == Some(Item(3, 3))
    ensures SortedSeq.Floor(s, 0) == None
  {
    SortedSeq.FloorUnique(s, 4, Some(Item(3, 3)));
    SortedSeq.FloorUnique(s, 0, None);
  }

  /** Ceilings over 1, 3, 5, 7: 5 for 4, none for 8. */
  lemma {:induction false} OddCeilings(s: seq<Item>)
    requires s == [Item(1, 1), Item(3, 3), Item(5, 5), Item(7, 7)]
    ensures SortedSeq.Sorted(s)
    ensures SortedSeq.Ceiling(s, 4) == Some(Item(5, 5))
    ensures SortedSeq.Ceiling(s, 8) == None
  {
    SortedSeq.CeilingUnique(s, 4, Some(Item(5, 5)));
    SortedSeq.CeilingUnique(s, 8, None);
  }

  /** The only sorted sequence holding the objects of 1, 3, 5, 7, 9 whose
      keys lie from 3 to 7 is 3, 5, 7. */
  lemma {:induction false} ThreeToSeven(a: seq<Item>)
    requires SortedSeq.Sorted(a)
    requires forall o :: o in a <==> o in [Item(1, 1), Item(3, 3), Item(5, 5), Item(7, 7), Item(9, 9)] && 3 <= o.key <= 7
    ensures a == [Item(3, 3), Item(5, 5), Item(7, 7)]
  {
    var want := [Item(3, 3), Item(5, 5), Item(7, 7)];
    assert SortedSeq.Sorted(want);
    SortedSeq.SortedUnique(a, want);
  }
}

/** Concrete scenarios for the tree and its ranges, stated over the public
    operations. */
module AAScenarios {
  import opened Items
  import opened AATree
  import SortedSeq
  import AARange
  import SeqScenarios

  /** Inserting 10, 20, 5, 15, 25, 1 into an empty tree yields them sorted
      and a count of six. */
  lemma {:induction false} InsertScenario(e: Tree, xs: seq<Item>)
    requires Valid(e) && IsEmpty(e)
    requires xs == [Item(10, 10), Item(20, 20), Item(5, 5), Item(15, 15), Item(25, 25), Item(1, 1)]
    ensures Contents(AddObjects(e, xs)) == [Item(1, 1), Item(5, 5), Item(10, 10), Item(15, 15), Item(20, 20), Item(25, 25)]
    ensures Count(AddObjects(e, xs)) == 6
  {
    var want := [Item(1, 1), Item(5, 5), Item(10, 10), Item(15, 15), Item(20, 20), Item(25, 25)];
    SeqScenarios.SixInserts(xs, want);
    FromEmpty(e, xs, want);
  }

  /** After the same six inserts, 1 and 25 are the first and last objects. */
  lemma {:induction false} InsertScenarioEnds(e: Tree, xs: seq<Item>)
    requires Valid(e) && IsEmpty(e)
    requires xs == [Item(10, 10), Item(20, 20), Item(5, 5), Item(15, 15), Item(25, 25), Item(1, 1)]
    ensures FirstObject(AddObjects(e, xs)) == Some(Item(1, 1))
    ensures LastObject(AddObjects(e, xs)) == Some(Item(25, 25))
  {
    var want := [Item(1, 1), Item(5, 5), Item(10, 10), Item(15, 15), Item(20, 20), Item(25, 25)];
    SeqScenarios.SixInserts(xs, want);
    FromEmpty(e, xs, want);
  }

  /** A tree built by upserting `xs` into an empty tree, described by the
      sorted view the same upserts produce. */
  lemma {:induction false} FromEmpty(e: Tree, xs: seq<Item>, want: seq<Item>)
    requires Valid(e) && IsEmpty(e)
    requires SortedSeq.InsertAll([], xs) == want
    ensures Contents(AddObjects(e, xs)) == want
    ensures Count(AddObjects(e, xs)) == |want|
    ensures FirstObject(AddObjects(e, xs)) == if want == [] then None else Some(want[0])
    ensures LastObject(AddObjects(e, xs)) == if want == [] then None else Some(want[|want| - 1])
  {
  }

  /** Over keys 1, 3, 5, 7: the floor of 4 is 3, its ceiling 5; 0 has no
      floor and 8 no ceiling. */
  lemma {:induction false} ClosestScenario(t: Tree)
    requires Valid(t) && Contents(t) == [Item(1, 1), Item(3, 3), Item(5, 5), Item(7, 7)]
    ensures NodeClosestToObject(t, Item(4, 0), false) == Some(Item(3, 3))
    ensures NodeClosestToObject(t, Item(4, 0), true) == Some(Item(5, 5))
    ensures NodeClosestToObject(t, Item(0, 0), false) == None
    ensures NodeClosestToObject(t, Item(8, 0), true) == None
  {
    SeqScenarios.OddFloors(Contents(t));
    SeqScenarios.OddCeilings(Contents(t));
  }

  /** Over keys 1, 3, 5, 7, 9 the range from 3 to 7 holds 3, 5 and 7 in that
      order; nextObject visits them once each and then yields nil. */
  lemma {:induction false} RangeScenario(t: Tree)
    requires Valid(t) && Contents(t) == [Item(1, 1), Item(3, 3), Item(5, 5), Item(7, 7), Item(9, 9)]
    ensures AARange.AllObjects(AARange.RangeFor(t, Item(3, 0), Item(7, 0))) == [Item(3, 3), Item(5, 5), Item(7, 7)]
    ensures AARange.Forward(AARange.RangeFor(t, Item(3, 0), Item(7, 0))) == [Item(3, 3), Item(5, 5), Item(7, 7)]
  {
    var s := Contents(t);
    SortedSeq.FloorUnique(s, 3, Some(Item(3, 3)));
    SortedSeq.CeilingUnique(s, 7, Some(Item(7, 7)));
    var r := AARange.RangeFor(t, Item(3, 0), Item(7, 0));
    SeqScenarios.ThreeToSeven(AARange.AllObjects(r));
    AARange.ForwardDrain(r);
  }
}
