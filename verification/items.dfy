/** The objects stored in the tree, and the comparator that orders them.

    The tree stores object references and orders them with a comparator
    supplied at construction.  Here an object is a key (what the comparator
    looks at) paired with an identity (which object it is): two distinct
    objects may compare equal, and the upsert and lookup operations are
    about exactly that case.
 */
module Items {

  /** A stored object: `key` is what the comparator sees, `id` stands for the
      object reference itself. */
  datatype Item = Item(key: int, id: nat)

  /** The three outcomes of a comparator call (kCFCompareLessThan,
      kCFCompareEqualTo, kCFCompareGreaterThan). */
  datatype Ordering = LessThan | EqualTo | GreaterThan

  /** The tree's object comparator: a strict total order on keys. */
  function Compare(a: Item, b: Item): (r: Ordering)
    ensures r == LessThan <==> a.key < b.key
    ensures r == EqualTo <==> a.key == b.key
    ensures r == GreaterThan <==> a.key > b.key
  {
    if a.key < b.key then LessThan
    else if a.key == b.key then EqualTo
    else GreaterThan
  }

  /** A possibly-nil object or node, as the Objective-C methods return. */
  datatype Option<+T> = None | Some(value: T)
}
