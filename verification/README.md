# Phitext AA tree, modelled in Dafny

Phitext indexes the frames of a text document with `PhiAATree`. This is an
Arne Andersson (AA) balanced binary search tree that stores objects in the
order of a comparator fixed at construction. `PhiAATreeNode` is its node
type, and `PhiAATreeRange` is an enumerator over the nodes between a start
node and an end node. This project models those three classes. Each tree
operation is a pure function on an immutable tree value. Each one is proved
against an independent reference: the tree's objects as a strictly sorted
sequence (`SortedSeq`).

- **Objects.** An object is `Item(key, id)`. The comparator looks only at
  `key`; `id` stands for the object reference. Two distinct objects can
  therefore compare equal, and that case is what the upsert and lookup
  contracts are about (`Items`).
- **Nodes.** A node carries its AA level, its two children and its object
  (`AANode`). Nil has level 0, so "a leaf has level 1" becomes "a left child
  sits exactly one level below its parent". Parent pointers are not stored,
  because position in a value tree implies them. The in-order traversal
  `Inorder` is the order in which the nodes' `previous`/`next` links walk.
- **Invariants.**
  - `Ordered` is the search-tree ordering under the comparator. Every object
    on the left compares less, and every object on the right compares greater.
  - `Balanced` is the AA level rules: left child one level below, right child
    at the same level or one below, and no right grandchild at its
    grandparent's level.
  - `Single` says a root has no right horizontal link.
- **Skew, split and rebalancing.** Skew and split are the two rotations
  (`AANode`). Insertion skews then splits every node on the path (`AAInsert`).
  Deletion replaces an inner node by its in-order successor, or by its
  predecessor in the prune variant. It rebalances every node on the path:
  lower the level, three skews, two splits (`AADelete`).
- **Search.** Exact lookup and closest-match search are single descents
  (`AASearch`).
- **The tree object.** `AATree.Tree` holds the root and the cached first
  node, last node and count. `AATree.Valid` is the class invariant: the root
  is ordered and balanced, and the three caches agree with it. Every public
  method is a function that keeps `Valid` and acts on `Contents` (the sorted
  view) as the corresponding `SortedSeq` operation does.
- **Ranges.** `AARange.Range` models `PhiAATreeRange`. It holds the tree's
  in-order objects, the index of the start node, one past the index of the
  end node, and a cursor: not started, at a node, or finished. Following the
  nodes' `next` and `previous` links becomes moving the cursor by one
  position.
- **Scenarios.** `SeqScenarios` and `AAScenarios` pin the behaviour down on
  concrete inputs.

The header's description of `objectClosestToObject:` (PhiAATree.h:216-218)
contradicts itself. It first promises that the result's key is never above
the query's, which is a floor. It then says nil is returned when the query is
above the highest key, but a floor query returns the greatest object in that
case. The model follows the first sentence: the result is the floor, and nil
is returned exactly when every stored key is above the query. The
contradiction is recorded here rather than resolved by a second, diverging
definition.

## Model

| member | source | states |
|---|---|---|
| Items.Compare | PhiAATree.h:145-146 | The object comparator is a strict total order: less-than, equal-to and greater-than each hold exactly when the keys are in that relation. |
| SortedSeq.Insert | PhiAATree.h:259-268 | Reference upsert on the sorted view. The result is sorted and contains the new object. Every other object survives exactly when its key differs. The length grows by one exactly when the key was absent. |
| SortedSeq.Remove | PhiAATree.h:243-251 | Reference deletion on the sorted view. The result is sorted and holds exactly the objects whose key differs from the query's. It is one shorter exactly when the key was present. |
| SortedSeq.Find | PhiAATree.h:230 | Reference exact match: the object with the query's key when there is one, nil otherwise. |
| SortedSeq.Floor | PhiAATree.h:213-225 | Reference floor: the greatest object whose key is not above the query's; nil exactly when every key is above it. |
| SortedSeq.Ceiling | PhiAATree.h:226 | Reference ceiling: the least object whose key is not below the query's; nil exactly when every key is below it. |
| SortedSeq.FloorUnique | PhiAATree.h:213-225 | Any answer meeting the floor description is the floor: the floor query has exactly one correct result. |
| SortedSeq.CeilingUnique | PhiAATree.h:226 | Any answer meeting the ceiling description is the ceiling. |
| SortedSeq.SortedUnique | PhiAATree.h:4-6 | Two sorted sequences holding the same objects are equal, so a sorted view is determined by its set of objects. |
| SortedSeq.InsertAll | PhiAATree.h:269 | Reference bulk upsert: sorted, every key of the batch present, every stored object with a key outside the batch kept, and nothing from anywhere but the old view or the batch. The exact contents, where the last write for a key wins, are carried by InsertAllMembers. |
| SortedSeq.InsertAllMembers | PhiAATree.h:269 | The exact contents of a bulk upsert: a stored object stays exactly when no batch object has its key. A batch object stays exactly when no later batch object has its key, so the last insert for a key wins. |
| SortedSeq.InsertAllDistinct | PhiAATree.h:269 | Upserting a batch of pairwise distinct keys into the empty view yields exactly the batch's objects. |
| SortedSeq.RemoveAll | PhiAATree.h:252 | Reference bulk delete: sorted, and holding exactly the objects whose key matches none of the queries. |
| SortedSeq.InsertRemove | PhiAATree.h:243-268 | Deleting a freshly added object with a new key restores the original view. |
| AANode.Leftmost | PhiAATree.h:142 | The leftmost node's object is stored in the subtree, and in an ordered subtree no stored key is below it. |
| AANode.Rightmost | PhiAATree.h:143 | The rightmost node's object is stored in the subtree, and in an ordered subtree no stored key is above it. |
| AANode.Skew | PhiAATree.h:4-6 | Skew keeps the emptiness of the subtree, its objects and their in-order sequence. |
| AANode.Split | PhiAATree.h:4-6 | Split keeps the emptiness of the subtree, its objects and their in-order sequence. |
| AANode.SkewOrdered | PhiAATree.h:4-6 | Skew keeps the search-tree ordering. |
| AANode.SplitOrdered | PhiAATree.h:4-6 | Split keeps the search-tree ordering. |
| AANode.SkewBalanced | PhiAATree.h:66-71 | On a subtree obeying the AA level rules, skew is the identity. |
| AANode.SplitBalanced | PhiAATree.h:66-71 | On a subtree obeying the AA level rules, split is the identity. |
| AANode.InorderSorted | PhiAATree.h:75-76 | The next/previous walk of an ordered tree is strictly increasing and visits exactly the stored objects. |
| AANode.KeysUnique | PhiAATree.h:4-6 | An ordered tree never stores two objects that compare equal. |
| AAInsert.Insert | PhiAATree.h:259-268 | The insertion descent on any tree yields a non-empty tree that holds the new object and nothing that was not already stored. The ordering, level and upsert guarantees are carried by InsertBalanced, InsertOrdered and InsertAgrees. |
| AAInsert.InsertBalanced | PhiAATree.h:259-268 | Insertion keeps the AA level rules. The subtree's level rises by at most one, and only with a root that has no right horizontal link. A root without one never rises. |
| AAInsert.InsertOrdered | PhiAATree.h:259-268 | Insertion keeps the search-tree ordering. The result holds the new object plus every stored object whose key differs from it: an equal object is replaced. |
| AAInsert.InsertAgrees | PhiAATree.h:259-268 | The in-order sequence after insertion is the reference upsert applied to the one before. |
| AADelete.DecreaseLevel | PhiAATree.h:243-251 | Lowering a node's level keeps its objects and their order. |
| AADelete.SkewRight | PhiAATree.h:243-251 | Skewing the right child keeps the node's objects and their order. |
| AADelete.SplitRight | PhiAATree.h:243-251 | Splitting the right child keeps the node's objects and their order. |
| AADelete.Rebalance | PhiAATree.h:243-251 | The per-node rebalancing after a deletion keeps the node's objects and their order. |
| AADelete.RebalanceIdentity | PhiAATree.h:243-251 | On a node that already obeys the AA level rules, the per-node rebalancing changes nothing. |
| AADelete.RebalanceAfterLeft | PhiAATree.h:243-251 | After a deletion below the left child, rebalancing restores the AA rules. The level drops by at most one, and an unchanged level keeps a root without a right horizontal link. |
| AADelete.RebalanceAfterRight | PhiAATree.h:243-251 | The same guarantee after a deletion below the right child. |
| AADelete.Delete | PhiAATree.h:243-257 | The deletion descent, with successor or predecessor replacement, never adds an object, and an empty tree stays empty. Exact removal, ordering and level guarantees are carried by DeleteOrdered, DeleteBalanced and DeleteAgrees. |
| AADelete.DeleteBalanced | PhiAATree.h:243-251 | Deletion keeps the AA level rules, and the subtree's level drops by at most one. |
| AADelete.DeleteOrdered | PhiAATree.h:243-251 | Deletion keeps the search-tree ordering and removes exactly the objects whose key equals the query's. |
| AADelete.DeleteMatchOrdered | PhiAATree.h:243-251 | Deleting at the matching node removes exactly that node's object and keeps the ordering. |
| AADelete.ReplacedBySuccessor | PhiAATree.h:243-251 | Replacing a node's object by its in-order successor, once the successor is deleted below, keeps the ordering and loses only the replaced object. |
| AADelete.ReplacedByPredecessor | PhiAATree.h:256-257 | The same for the in-order predecessor, used by the pruning variant. |
| AADelete.DeleteAgrees | PhiAATree.h:243-251 | The in-order sequence after deletion is the reference deletion applied to the one before. |
| AASearch.Find | PhiAATree.h:230 | Whatever the exact-match descent returns is stored and has the query's key. That it finds such an object whenever one exists is carried by FindElems and FindAgrees. |
| AASearch.Closest | PhiAATree.h:213-226 | The closest-match descent returns its carried candidate or a stored object on the required side of the query: not above it for reverse NO, not below it for reverse YES. That it is the nearest such object is carried by FloorDescent and CeilingDescent. |
| AASearch.FindElems | PhiAATree.h:230 | The exact-match descent finds an object exactly when one with the query's key is stored, and what it finds is stored with that key. |
| AASearch.FloorDescent | PhiAATree.h:213-225 | The reverse-NO descent returns the greatest stored object not above the query, or its carried candidate. It returns nil only when nothing is at or below the query. |
| AASearch.CeilingDescent | PhiAATree.h:226 | The reverse-YES descent returns the least stored object not below the query, or its carried candidate. It returns nil only when nothing is at or above the query. |
| AASearch.FindAgrees | PhiAATree.h:230 | The exact-match descent agrees with the reference match on the sorted view. |
| AASearch.FloorAgrees | PhiAATree.h:213-225 | The reverse-NO descent agrees with the reference floor. |
| AASearch.CeilingAgrees | PhiAATree.h:226 | The reverse-YES descent agrees with the reference ceiling. |
| AATree.Empty | PhiAATree.h:185 | A freshly initialised tree satisfies the class invariant and holds nothing. |
| AATree.LeftmostIsLeast | PhiAATree.h:142 | A stored object whose key is not above any other is the leftmost node's, so a first-node cache can be checked against the tree. |
| AATree.RightmostIsGreatest | PhiAATree.h:143 | A stored object whose key is not below any other is the rightmost node's. |
| AATree.LeftmostFirst | PhiAATree.h:232-233 | The leftmost node is the first one in order. |
| AATree.RightmostLast | PhiAATree.h:234-235 | The rightmost node is the last one in order. |
| AATree.AddObject | PhiAATree.h:259-268 | addObject: keeps the class invariant: ordering, level rules, first/last caches and count. Its sorted view is the reference upsert of the old one. |
| AATree.AddObjectValid | PhiAATree.h:259-268 | The incremental first/last/count update made by addObject: agrees with the new root. |
| AATree.FirstLastAfterInsert | PhiAATree.h:142-143 | After an insertion, the first/last caches updated by comparing with the new object are the new leftmost and rightmost objects. |
| AATree.AddObjectUpsert | PhiAATree.h:259-268 | After addObject: the tree contains the object and matches it exactly. The count grows exactly when nothing compared equal before. The objects are the new one plus every old one with a different key. |
| AATree.AddObjects | PhiAATree.h:269 | addObjects: keeps the invariant and acts as the reference bulk upsert. |
| AATree.PruneAtObject | PhiAATree.h:254-257 | pruneAtObject:onRight: keeps the invariant and acts as the reference deletion. A query with no match leaves the tree unaltered. |
| AATree.RemoveObject | PhiAATree.h:243-251 | removeObject: keeps the invariant and acts as the reference deletion; with no match the tree remains unaltered. |
| AATree.RemoveAbsent | PhiAATree.h:245-247 | Deleting a key that is not stored leaves the sorted view as it was. |
| AATree.RemoveValid | PhiAATree.h:243-251 | After a deletion, the recomputed first/last caches and the decremented count agree with the new root. |
| AATree.RemoveObjectEffect | PhiAATree.h:243-251 | removeObject: lowers the count by one exactly when a match existed. Afterwards nothing matches the query, and every object with another key stays. |
| AATree.AddRemoveRoundTrip | PhiAATree.h:243-268 | Adding an object with a new key and then removing it restores the contents and the count. |
| AATree.PruneSideIrrelevant | PhiAATree.h:254-257 | Pruning through the successor or through the predecessor leaves the same objects. |
| AATree.RemoveObjects | PhiAATree.h:252 | removeObjects: keeps the invariant and acts as the reference bulk deletion. |
| AATree.RemoveAllObjects | PhiAATree.h:253 | removeAllObjects yields a valid empty tree with count zero. |
| AATree.Count | PhiAATree.h:203-208 | count is the number of stored objects. |
| AATree.IsEmpty | PhiAATree.h:159 | isEmpty holds exactly when count is zero. |
| AATree.FirstObject | PhiAATree.h:232 | firstObject is nil exactly when the tree is empty. Otherwise it is the first object in order, and no stored key is below it. |
| AATree.LastObject | PhiAATree.h:234 | lastObject is nil exactly when the tree is empty. Otherwise it is the last object in order, and no stored key is above it. |
| AATree.ObjectMatchingObject | PhiAATree.h:230 | objectMatchingObject: is the stored object comparing equal to the query, or nil. |
| AATree.ContainsObject | PhiAATree.h:231 | containsObject: holds exactly when objectMatchingObject: is non-nil, which is exactly when some stored key equals the query's. |
| AATree.NodeClosestToObject | PhiAATree.h:226 | With the tree's comparator, reverse NO gives the floor of the query and reverse YES gives its ceiling. |
| AATree.ObjectClosestToObject | PhiAATree.h:213-225 | objectClosestToObject: is the floor of the query: its key is never above the query's. It is nil exactly when every stored key is above the query. |
| AATree.CopyNode | PhiAATree.h:188-200 | The node-by-node copy has the same levels, shape and object references as the original. |
| AATree.Copy | PhiAATree.h:188-200 | copyWithZone: yields a valid tree with the same objects (the same references) and the same count. |
| AARange.AllObjects | PhiAATree.h:122 | allObjects is the in-order run from start to end inclusive, strictly increasing. |
| AARange.FirstObject | PhiAATree.h:124 | firstObject is nil exactly for an empty range. Otherwise it is the start object, the least in the range. |
| AARange.LastObject | PhiAATree.h:126 | lastObject is nil exactly for an empty range. Otherwise it is the end object, the greatest in the range. |
| AARange.IsEmpty | PhiAATree.h:109 | isEmpty holds exactly when allObjects is empty, that is, when there is no start object. |
| AARange.IsSingleton | PhiAATree.h:110 | isSingleton holds exactly when start and end are the same node, that is, when the range holds exactly one object. |
| AARange.CurrentObject | PhiAATree.h:132 | currentObject is non-nil exactly when the cursor stands on a node, and then it is an object of the range. |
| AARange.Next | PhiAATree.h:128 | nextObject keeps the range's bounds. It yields what currentObject then reports and always makes progress. It yields nil exactly when the enumeration is over, and its first step yields firstObject. |
| AARange.Previous | PhiAATree.h:130 | previousObject is the mirror image: progress backwards, nil exactly at the end, and a first step yielding lastObject. |
| AARange.ForwardFrom | PhiAATree.h:128 | From a node, repeated nextObject yields exactly the rest of the range in order. |
| AARange.ForwardDrain | PhiAATree.h:122-128 | A fresh enumerator drained with nextObject yields exactly allObjects. |
| AARange.BackwardFrom | PhiAATree.h:130 | From a node, repeated previousObject yields exactly the earlier part of the range, in reverse order. |
| AARange.BackwardDrain | PhiAATree.h:122-130 | A fresh enumerator drained with previousObject yields allObjects reversed. |
| AARange.SliceBetween | PhiAATree.h:118-122 | The nodes from one position to another are exactly the stored objects whose keys lie between the two endpoints' keys. |
| AARange.Span | PhiAATree.h:118-120 | A range built on two stored objects in order starts at the first, ends at the second, and holds exactly the objects whose keys lie between theirs. |
| AARange.RangeBetween | PhiAATree.h:118 | rangeWithStartNode:andEndNode: starts and ends at the given nodes and encloses exactly the objects between them. It is empty when a node is missing or the start comes after the end. |
| AARange.RangeFor | PhiAATree.h:112 | rangeForAATree:withStartObject:andEndObject: runs from the floor of the start object to the ceiling of the end object (`Brackets`). When both exist in order it holds exactly the objects between them, which include every stored object whose key lies between the two queries. |
| AARange.BracketsOf | PhiAATree.h:112 | A range whose ends are the floor of the lower query and the ceiling of the upper one, holding exactly the objects between them, meets `Brackets`. |
| AARange.Enclosed | PhiAATree.h:112 | The floor of a lower query and the ceiling of a higher one bracket every stored object whose key lies between the queries. |
| SeqScenarios.SixInserts | PhiAATree.h:269 | Upserting 10, 20, 5, 15, 25, 1 into the empty view gives 1, 5, 10, 15, 20, 25. |
| SeqScenarios.LastWins | PhiAATree.h:259-269 | Upserting 1/2 over a stored 1/1, or 1/1 then 1/2 into the empty view, leaves only 1/2: the later object with a key replaces the earlier one. |
| SeqScenarios.OddFloors | PhiAATree.h:213-225 | Over 1, 3, 5, 7 the floor of 4 is 3 and 0 has none. |
| SeqScenarios.OddCeilings | PhiAATree.h:226 | Over 1, 3, 5, 7 the ceiling of 4 is 5 and 8 has none. |
| SeqScenarios.ThreeToSeven | PhiAATree.h:112 | Among 1, 3, 5, 7, 9 the only sorted run of the objects with keys from 3 to 7 is 3, 5, 7. |
| AAScenarios.InsertScenario | PhiAATree.h:269 | Adding 10, 20, 5, 15, 25, 1 to an empty tree stores them in sorted order with a count of six. |
| AAScenarios.InsertScenarioEnds | PhiAATree.h:232-234 | After those six inserts, firstObject is 1 and lastObject is 25. |
| AAScenarios.FromEmpty | PhiAATree.h:269 | A tree built by addObjects: from empty has the reference bulk upsert as contents, its length as count, and its ends as firstObject/lastObject. |
| AAScenarios.ClosestScenario | PhiAATree.h:225-226 | Over 1, 3, 5, 7, the query 4 has floor 3 and ceiling 5, 0 has no floor and 8 no ceiling. |
| AAScenarios.RangeScenario | PhiAATree.h:112-128 | Over 1, 3, 5, 7, 9, the range from 3 to 7 holds 3, 5, 7, and nextObject visits them in that order. |

## Left out

- The reader/writer lock and the thread-safety discussion (PhiAATree.h:22-28, 152-153): concurrency is outside the model, and every operation is a pure function on a tree value.
- The mutation `version` counter and the fail-fast check of fast enumeration (PhiAATree.h:156): runtime plumbing with no effect on contents.
- The `up` pointers (PhiAATree.h:69, 79): in a value tree they are implied by position. The nodes' `previous`/`next` links are modelled only as positions in the in-order sequence.
- `_hash`, `delegate`, `print` and `printWithIndent:` (PhiAATree.h:94, 147, 155, 167, 240): identity, callback and logging plumbing.
- The comparator setter (PhiAATree.h:166) is left out, because the comparator is fixed to key order. The variants of `nodeClosestToObject:` with a range filter or a second comparator (PhiAATree.h:227-229) are left out too, because the header does not state what those do. The form at PhiAATree.h:226 also takes a comparator. It is left out except when called with the tree's own comparator, which is the case `AATree.NodeClosestToObject` models.
- `rangeForAATree:withEnclosingObject:` (PhiAATree.h:114) takes only the tree and an object. It is left out because the header does not say which node "encloses" an object: the one matching it, its floor, its ceiling, or some wider span.
- `rangeForAATree:withEnclosingObject:withComparator:` (PhiAATree.h:116) is left out because it depends on a caller-supplied comparator whose meaning the header does not state.
- `initWithObjectComparator:` (PhiAATree.h:185) takes no comparator argument in the model: `Empty` builds a tree over the key order.
- `compareNode:toNode:` and `compareObject:toObject:` (PhiAATree.h:210-211) are both `Items.Compare` applied to the objects.
- `pruneAtNode:` and `pruneAtNode:right:` (PhiAATree.h:255, 257) are modelled through the node's object as `AATree.PruneAtObject`. In a well-formed tree a node and its object determine each other. The header does not say which value of `right:` selects the predecessor; the model names the choice `usePredecessor`. The forms without a flag, `pruneAtObject:` and `pruneAtNode:` (PhiAATree.h:254-255), are modelled with `usePredecessor` false, the successor replacement that `removeObject:` also uses. That choice is the model's own; `AATree.PruneSideIrrelevant` shows it does not affect the objects left.
- The model always replaces a deleted inner node's object by its neighbour's, reducing deletion to the leaf case, as the algorithm PhiAATree.h:4-6 points to does. Splicing out a one-child node instead would give the same tree, because in an AA tree such a node's only child is a level-1 leaf on the right.
- The NSFastEnumeration and NSCopying protocol mechanics (PhiAATree.h:66, 100, 137): whole-tree enumeration is `AATree.Contents`.
- `count` is an NSUInteger and `level` an int: the model uses unbounded naturals, because no tree that fits in memory reaches either bound.
- AATree.Copy: the copy's independence from the original (mutating one leaves the other unchanged) is not stated separately, because value semantics makes it hold by construction.
- AATree.AddObject: addObject: also returns the node that now holds the object, new or updated (PhiAATree.h:268). The model returns only the tree. `AATree.AddObjectUpsert` shows that the tree matches the object exactly, which is all that node holds.
- AATree.AddObject: insertion stores the object reference itself, not a copy. The header says a copy of the key is made and that the key must adopt NSCopying (PhiAATree.h:15-16, 262-263), and the key is what became the object (PhiAATree.h:41-42). That remark is left over from the dictionary version, and the addObject: comment still documents an `aKey` parameter the method does not have. The tree's one client stores `PhiTextFrame` objects (PhiTextDocument.h:38), and `PhiTextFrame` does not adopt NSCopying (PhiTextFrame.h:71), so a copy could not be made. `AATree.AddObjectUpsert` therefore states that the very object added is the one matched afterwards.
- AARange.RangeBetween: when a node is missing, or the start node comes after the end node, the model returns an empty range. This is the model's own choice; the header (PhiAATree.h:118) does not say what happens in those cases.
- AARange.RangeFor: the enclosure property is stated only when both the floor of the start object and the ceiling of the end object exist. When either is missing the model returns an empty range; the header does not say what happens then. The cost is that a query running past either end of the stored keys gives an empty range, even though stored objects lie between the two queries. Over 1, 3, 5, 7, 9, the queries 3 to 100 and 0 to 7 both give an empty range, so the enclosure in `AARange.Brackets` does not cover a span that runs past the first or last stored key.
- AARange.FirstObject: the range's firstObject and lastObject do not move the cursor; the header does not say whether they do.
- AARange.Previous: on a fresh enumerator previousObject starts from the end node, as the mirror of nextObject; the header does not say where it starts.
