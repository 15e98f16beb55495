/** The abstract view of the tree: its objects in comparator order.

    Every tree operation is specified against the functions here.  Each
    function is defined by a plain recursion over a sorted sequence and
    carries a contract saying what its result means, so that the tree's
    descent-based algorithms are checked against an independent definition.
 */
module SortedSeq {
  import opened Items

  /** Strictly increasing keys: no two objects compare equal. */
  predicate Sorted(s: seq<Item>) {
    forall i, j :: 0 <= i < j < |s| ==> s[i].key < s[j].key
  }

  /** Some object in `s` compares equal to key `k`. */
  predicate HasKey(s: seq<Item>, k: int) {
    exists i :: 0 <= i < |s| && s[i].key == k
  }

  /** A sorted sequence splits into its head and a sorted tail above it. */
  lemma {:induction false} HeadTail(s: seq<Item>)
    requires Sorted(s) && |s| > 0
    ensures Sorted(s[1..])
    ensures forall o :: o in s <==> o == s[0] || o in s[1..]
    ensures forall o :: o in s[1..] ==> s[0].key < o.key
    ensures forall k :: HasKey(s, k) <==> s[0].key == k || HasKey(s[1..], k)
  {
    KeysCons(s);
    forall o | o in s[1..] ensures s[0].key < o.key {
      var i :| 0 <= i < |s[1..]| && s[1..][i] == o;
      assert s[i + 1] == o;
    }
  }

  /** An object below everything in a sorted sequence can be put in front. */
  lemma {:induction false} Cons(x: Item, s: seq<Item>)
    requires Sorted(s)
    requires forall o :: o in s ==> x.key < o.key
    ensures Sorted([x] + s)
  {
    forall i, j | 0 <= i < j < |[x] + s| ensures ([x] + s)[i].key < ([x] + s)[j].key {
      assert ([x] + s)[j] == s[j - 1];
      if i > 0 { assert ([x] + s)[i] == s[i - 1]; }
    }
  }

  /** Two sorted sequences joined around an object that separates them. */
  lemma {:induction false} Join(a: seq<Item>, x: Item, b: seq<Item>)
    requires Sorted(a) && Sorted(b)
    requires forall o :: o in a ==> o.key < x.key
    requires forall o :: o in b ==> x.key < o.key
    ensures Sorted(a + [x] + b)
    ensures forall o :: o in a + [x] + b <==> o in a || o == x || o in b
  {
    Cons(x, b);
    var c := [x] + b;
    assert a + [x] + b == a + c;
    forall i, j | 0 <= i < j < |a + c| ensures (a + c)[i].key < (a + c)[j].key {
      if j >= |a| {
        assert (a + c)[j] == c[j - |a|];
        if i >= |a| {
          assert (a + c)[i] == c[i - |a|];
        } else {
          assert (a + c)[i] in a;
          assert c[j - |a|] == x || c[j - |a|] in b;
        }
      }
    }
  }

  /** In a sorted sequence an object is identified by its key. */
  lemma {:induction false} SameKeySameItem(s: seq<Item>, a: Item, b: Item)
    requires Sorted(s)
    requires a in s && b in s && a.key == b.key
    ensures a == b
  {
    var i :| 0 <= i < |s| && s[i] == a;
    var j :| 0 <= j < |s| && s[j] == b;
    assert i == j;
  }

  /** Two sorted sequences holding the same objects start with the same one. */
  lemma {:induction false} SameHead(a: seq<Item>, b: seq<Item>)
    requires Sorted(a) && Sorted(b) && |a| > 0
    requires forall o :: o in a <==> o in b
    ensures |b| > 0 && a[0] == b[0]
  {
    assert a[0] in b;
    var i :| 0 <= i < |b| && b[i] == a[0];
    assert b[0] in a;
    var j :| 0 <= j < |a| && a[j] == b[0];
    assert b[0].key <= a[0].key;
    assert a[0].key <= b[0].key;
    SameKeySameItem(a, a[0], b[0]);
  }

  /** ... and, with the common head removed, still hold the same objects. */
  lemma {:induction false} SameTail(a: seq<Item>, b: seq<Item>)
    requires Sorted(a) && Sorted(b) && |a| > 0 && |b| > 0 && a[0] == b[0]
    requires forall o :: o in a <==> o in b
    ensures forall o :: o in a[1..] <==> o in b[1..]
  {
    forall o
      ensures o in a[1..] ==> o in b[1..]
      ensures o in b[1..] ==> o in a[1..]
    {
      if o in a[1..] {
        var i :| 1 <= i < |a| && a[i] == o;
        assert o.key > a[0].key;
        assert o in b;
        var j :| 0 <= j < |b| && b[j] == o;
        assert b[j] in b[1..];
      }
      if o in b[1..] {
        var j :| 1 <= j < |b| && b[j] == o;
        assert o.key > b[0].key;
        assert o in a;
        var i :| 0 <= i < |a| && a[i] == o;
        assert a[i] in a[1..];
      }
    }
  }

  /** Two sorted sequences holding the same objects are the same sequence:
      the sorted view is determined by the set of stored objects. */
  lemma {:induction false} SortedUnique(a: seq<Item>, b: seq<Item>)
    requires Sorted(a) && Sorted(b)
    requires forall o :: o in a <==> o in b
    ensures a == b
    decreases |a|
  {
    if |a| > 0 {
      SameHead(a, b);
      SameTail(a, b);
      SortedUnique(a[1..], b[1..]);
      assert a == [a[0]] + a[1..];
      assert b == [b[0]] + b[1..];
    } else if |b| > 0 {
      SameHead(b, a);
    }
  }

  /** The upsert: `x` takes the place of the object with its key, or is
      added in key order when there is none. */
  function Insert(s: seq<Item>, x: Item): (r: seq<Item>)
    requires Sorted(s)
    ensures Sorted(r)
    ensures x in r
    ensures forall o :: o in r ==> o == x || (o in s && o.key != x.key)
    ensures forall o :: o in s && o.key != x.key ==> o in r
    ensures |r| == if HasKey(s, x.key) then |s| else |s| + 1
  {
    if |s| == 0 then [x]
    else if x.key < s[0].key then [x] + s
    else if x.key == s[0].key then
      HeadTail(s);
      Cons(x, s[1..]);
      [x] + s[1..]
    else
      HeadTail(s);
      var rest := Insert(s[1..], x);
      Cons(s[0], rest);
      [s[0]] + rest
  }

  /** Deletion of the object whose key is `k`; no change when there is none. */
  function Remove(s: seq<Item>, k: int): (r: seq<Item>)
    requires Sorted(s)
    ensures Sorted(r)
    ensures forall o :: o in r <==> o in s && o.key != k
    ensures |r| == if HasKey(s, k) then |s| - 1 else |s|
  {
    if |s| == 0 then []
    else if s[0].key == k then
      HeadTail(s);
      s[1..]
    else
      HeadTail(s);
      var rest := Remove(s[1..], k);
      Cons(s[0], rest);
      [s[0]] + rest
  }

  /** The object whose key is `k`, if any. */
  function Find(s: seq<Item>, k: int): (r: Option<Item>)
    requires Sorted(s)
    ensures r.Some? <==> HasKey(s, k)
    ensures r.Some? ==> r.value in s && r.value.key == k
  {
    if |s| == 0 then None
    else if s[0].key == k then Some(s[0])
    else
      var rest := Find(s[1..], k);
      assert HasKey(s, k) ==> HasKey(s[1..], k) by {
        if HasKey(s, k) {
          var i :| 0 <= i < |s| && s[i].key == k;
          assert i > 0 && s[1..][i - 1] == s[i];
        }
      }
      rest
  }

  /** `r` is the floor of `k` in `s`: the greatest object whose key is at most
      `k`, or None when every key exceeds `k`. */
  ghost predicate IsFloor(s: seq<Item>, k: int, r: Option<Item>) {
    && (r.None? <==> forall o :: o in s ==> o.key > k)
    && (r.Some? ==> r.value in s && r.value.key <= k)
    && (r.Some? ==> forall o :: o in s && o.key <= k ==> o.key <= r.value.key)
  }

  /** `r` is the ceiling of `k` in `s`: the least object whose key is at least
      `k`, or None when every key is below `k`. */
  ghost predicate IsCeiling(s: seq<Item>, k: int, r: Option<Item>) {
    && (r.None? <==> forall o :: o in s ==> o.key < k)
    && (r.Some? ==> r.value in s && r.value.key >= k)
    && (r.Some? ==> forall o :: o in s && o.key >= k ==> o.key >= r.value.key)
  }

  /** The greatest object whose key is at most `k`. */
  function Floor(s: seq<Item>, k: int): (r: Option<Item>)
    requires Sorted(s)
    ensures IsFloor(s, k, r)
  {
    if |s| == 0 || s[0].key > k then None
    else
      match Floor(s[1..], k)
      case None => Some(s[0])
      case Some(y) => Some(y)
  }

  /** The least object whose key is at least `k`. */
  function Ceiling(s: seq<Item>, k: int): (r: Option<Item>)
    requires Sorted(s)
    ensures IsCeiling(s, k, r)
  {
    if |s| == 0 then None
    else if s[0].key >= k then Some(s[0])
    else Ceiling(s[1..], k)
  }

  /** A floor is unique in a sorted sequence: any answer meeting the floor
      description is the one `Floor` computes. */
  lemma {:induction false} FloorUnique(s: seq<Item>, k: int, r: Option<Item>)
    requires Sorted(s) && IsFloor(s, k, r)
    ensures r == Floor(s, k)
  {
    var f := Floor(s, k);
    if r.Some? {
      SameKeySameItem(s, r.value, f.value);
    }
  }

  /** A ceiling is unique in a sorted sequence. */
  lemma {:induction false} CeilingUnique(s: seq<Item>, k: int, r: Option<Item>)
    requires Sorted(s) && IsCeiling(s, k, r)
    ensures r == Ceiling(s, k)
  {
    var c := Ceiling(s, k);
    if r.Some? {
      SameKeySameItem(s, r.value, c.value);
    }
  }

  /** The position of the object with key `k` in `s`. */
  function IndexOf(s: seq<Item>, k: int): (i: nat)
    requires HasKey(s, k)
    ensures i < |s| && s[i].key == k
  {
    if s[0].key == k then 0
    else
      assert HasKey(s[1..], k) by {
        var j :| 0 <= j < |s| && s[j].key == k;
        assert j > 0 && s[1..][j - 1] == s[j];
      }
      1 + IndexOf(s[1..], k)
  }

  /** `o` is the last object of `xs` with its key: no later one overwrites it. */
  predicate LastWithKey(xs: seq<Item>, o: Item) {
    exists i :: 0 <= i < |xs| && xs[i] == o && !HasKey(xs[i + 1..], o.key)
  }

  /** A key occurs in a non-empty sequence at its head or in its tail. */
  lemma KeysCons(xs: seq<Item>)
    requires |xs| > 0
    ensures forall k :: HasKey(xs, k) <==> xs[0].key == k || HasKey(xs[1..], k)
  {
    forall k | HasKey(xs, k) ensures xs[0].key == k || HasKey(xs[1..], k) {
      var i :| 0 <= i < |xs| && xs[i].key == k;
      if i > 0 { assert xs[1..][i - 1] == xs[i]; }
    }
    forall k | HasKey(xs[1..], k) ensures HasKey(xs, k) {
      var i :| 0 <= i < |xs[1..]| && xs[1..][i].key == k;
      assert xs[i + 1] == xs[1..][i];
    }
  }

  /** The last object with its key is the head, unless the tail has the key,
      or it is the last one in the tail. */
  lemma LastWithKeyCons(xs: seq<Item>)
    requires |xs| > 0
    ensures forall o :: LastWithKey(xs, o) <==>
      (o == xs[0] && !HasKey(xs[1..], o.key)) || LastWithKey(xs[1..], o)
  {
    var t := xs[1..];
    forall o | LastWithKey(xs, o)
      ensures (o == xs[0] && !HasKey(t, o.key)) || LastWithKey(t, o)
    {
      var i :| 0 <= i < |xs| && xs[i] == o && !HasKey(xs[i + 1..], o.key);
      if i > 0 {
        assert t[i - 1] == o && t[i..] == xs[i + 1..];
      }
    }
    forall o | LastWithKey(t, o) ensures LastWithKey(xs, o) {
      var i :| 0 <= i < |t| && t[i] == o && !HasKey(t[i + 1..], o.key);
      assert xs[i + 1] == o && xs[i + 2..] == t[i + 1..];
    }
    forall o | o == xs[0] && !HasKey(t, o.key) ensures LastWithKey(xs, o) {
      assert xs[1..] == t;
    }
  }

  /** Upsert of each object of `xs` in turn. */
  function InsertAll(s: seq<Item>, xs: seq<Item>): (r: seq<Item>)
    requires Sorted(s)
    ensures Sorted(r)
    ensures forall i :: 0 <= i < |xs| ==> HasKey(r, xs[i].key)
    ensures forall o :: o in s && !HasKey(xs, o.key) ==> o in r
    ensures forall o :: o in r ==> o in s || o in xs
    decreases |xs|
  {
    if |xs| == 0 then s
    else
      var r := InsertAll(Insert(s, xs[0]), xs[1..]);
      assert HasKey(r, xs[0].key) by {
        if !HasKey(xs[1..], xs[0].key) {
          assert xs[0] in r;
        } else {
          var i :| 0 <= i < |xs[1..]| && xs[1..][i].key == xs[0].key;
          assert HasKey(r, xs[1..][i].key);
        }
      }
      assert forall i :: 1 <= i < |xs| ==> xs[i] == xs[1..][i - 1];
      assert forall k :: HasKey(xs[1..], k) ==> HasKey(xs, k) by {
        KeysCons(xs);
      }
      r
  }

  /** The exact contents of a bulk upsert: a stored object survives exactly
      when no object of the batch has its key, and of the batch objects with
      one key only the last is kept. */
  lemma {:induction false} InsertAllMembers(s: seq<Item>, xs: seq<Item>)
    requires Sorted(s)
    ensures forall o :: o in InsertAll(s, xs) <==>
      (o in s && !HasKey(xs, o.key)) || LastWithKey(xs, o)
    decreases |xs|
  {
    if |xs| > 0 {
      InsertAllMembers(Insert(s, xs[0]), xs[1..]);
      KeysCons(xs);
      LastWithKeyCons(xs);
    }
  }

  /** Inserting objects with pairwise distinct keys into an empty sequence
      keeps every one of them and nothing else. */
  lemma {:induction false} InsertAllDistinct(xs: seq<Item>)
    requires forall i, j :: 0 <= i < j < |xs| ==> xs[i].key != xs[j].key
    ensures forall o :: o in InsertAll([], xs) <==> o in xs
  {
    var r := InsertAll([], xs);
    forall o | o in xs
      ensures o in r
    {
      var i :| 0 <= i < |xs| && xs[i] == o;
      var j :| 0 <= j < |r| && r[j].key == o.key;
      var m :| 0 <= m < |xs| && xs[m] == r[j];
      assert m == i;
    }
  }

  /** Deletion of every object whose key matches one of `qs`. */
  function RemoveAll(s: seq<Item>, qs: seq<Item>): (r: seq<Item>)
    requires Sorted(s)
    ensures Sorted(r)
    ensures forall o :: o in r <==> o in s && !HasKey(qs, o.key)
    decreases |qs|
  {
    if |qs| == 0 then s
    else
      var r := RemoveAll(Remove(s, qs[0].key), qs[1..]);
      KeysCons(qs);
      r
  }

  /** Removing a freshly added object gives back the original sequence. */
  lemma {:induction false} InsertRemove(s: seq<Item>, x: Item)
    requires Sorted(s) && !HasKey(s, x.key)
    ensures Remove(Insert(s, x), x.key) == s
  {
    var r := Remove(Insert(s, x), x.key);
    SortedUnique(r, s);
  }
}
