# Array limited queue and the A* test grid, in Dafny

This project models two pieces of the Swift Algorithm Club repository.

**ArrayLimitedQueue** is a FIFO collection with a cap. It is built on a linked list and can also drop duplicates.
- `add(item:)` appends an item. When the cap (`maxStoredItems`, default 1) is positive and now exceeded, it evicts and returns the oldest item.
- When `deleteExisting` is on (the default), re-adding an item that is already present removes the stored copy instead, and returns it.
- Assigning `maxStoredItems` trims the list. Setting `deleteExisting` to true runs a de-duplication pass; setting it to false leaves the list alone.
- The read-only queries are `removableItems(forMaxSize:)`, `exists`, `indexOf`, `count`, `isEmpty` and the subscript.

The queue is the class `LimitedQueue.ArrayLimitedQueue`. Its fields are the two settings and `list`, a sequence of the stored items, oldest first. Every method that changes the queue, except `RemoveAllItems` (whose contract states the empty list directly), is proved against a function in module `QueueSpec`. The facts the source promises are proved as lemmas about those functions. The linked list is abstracted by the sequence operations of module `LinkedList`. The two property observers (`didSet`) become the setter methods `SetMaxStoredItems` and `SetDeleteExisting`. They run the same loops, with the same bounds, as the source.

The class follows the code **as written**, including three defects recorded under "## Findings":
- the trim loop is inclusive;
- the de-duplication pass never looks at the front item;
- the de-duplication pass reads with a stale index after a removal.

The corrected behaviour of each is defined beside the as-written version, and the property the code's comments promise is proved about it. The class does not use it.

**fillNodes(from:)** comes from the A* tests. It builds the test grid from a picture of 35 symbols, given row by row. The grid is 7 columns by 5 rows and is visited column by column:
- every cell becomes a node with its coordinates;
- black circles make busy nodes;
- the last red cell visited is the start and the last blue cell visited is the end.

It is `AStarGrid.FillNodes`. Its contract says where each node lands in the list and which symbol it reads. It also states which nodes are busy and which node is the start and which the end.

Runtime traps in the source become preconditions. These are out-of-range linked-list accesses, the subscript's `assert`, and force-unwrapping a missing start or end. So do the conditions under which the observers' loops stay in bounds: `QueueSpec.TrimInBounds`, and `QueueSpec.DedupAsWritten(list).Completed?`.

## Model

| member | source | states |
|---|---|---|
| `LinkedList.FirstIndex` | ArrayLimitedQueue/ArrayLimitedQueueExample.playground/Sources/ArrayLimitedQueue.swift:166-169 | `index(of:)`: a position is found iff the item is stored, and it is the position of the first equal item |
| `LinkedList.RemoveAt` | ArrayLimitedQueue/ArrayLimitedQueueExample.playground/Sources/ArrayLimitedQueue.swift:104-106 | `remove(atIndex:)`: one item fewer, the multiset loses exactly that item, items before keep their place and items after shift down by one |
| `LinkedList.NodeAt` | ArrayLimitedQueue/ArrayLimitedQueueExample.playground/Sources/ArrayLimitedQueue.swift:136 | `node(atIndex:)?.value`: a value exactly for positions inside the list, and it is the item there |
| `LimitedQueue.ArrayLimitedQueue.constructor` | ArrayLimitedQueue/ArrayLimitedQueueExample.playground/Sources/ArrayLimitedQueue.swift:19-98 | a new queue has cap 1, `deleteExisting` on and no items |
| `LimitedQueue.ArrayLimitedQueue.SetMaxStoredItems` | ArrayLimitedQueue/ArrayLimitedQueueExample.playground/Sources/ArrayLimitedQueue.swift:19-28 | assigning the cap stores it, leaves `deleteExisting` alone, and the trim loop leaves exactly `TrimAsWritten(old list, m)` |
| `QueueSpec.TrimAsWritten` | ArrayLimitedQueue/ArrayLimitedQueueExample.playground/Sources/ArrayLimitedQueue.swift:19-28 | the trim keeps a suffix of the list (newest items, in order); when `0 <= m < count` that suffix has `m - 1` items, otherwise the list is unchanged |
| `QueueSpec.TrimInBoundsExactly` | ArrayLimitedQueue/ArrayLimitedQueueExample.playground/Sources/ArrayLimitedQueue.swift:21-25 | the inclusive loop removes no more items than are stored exactly when `TrimInBounds` holds; otherwise (cap 0, non-empty list) it asks for `count + 1` removals, one past the end |
| `QueueSpec.TrimDropsOneExtra` | ArrayLimitedQueue/ArrayLimitedQueueExample.playground/Sources/ArrayLimitedQueue.swift:21-25 | for `1 <= m < count` the list splits into what `removableItems(forMaxSize: m)` announces, one more item, and what the trim keeps (`m - 1` items) |
| `QueueSpec.TrimIntended` | ArrayLimitedQueue/ArrayLimitedQueueExample.playground/Sources/ArrayLimitedQueue.swift:23 | with an exclusive loop the trim keeps the newest `m` items when `0 <= m < count`, the whole list otherwise |
| `QueueSpec.TrimIntendedAgreesWithRemovable` | ArrayLimitedQueue/ArrayLimitedQueueExample.playground/Sources/ArrayLimitedQueue.swift:21-25 | with an exclusive loop, what `removableItems(forMaxSize: m)` returns followed by what stays is the old list, for every `m >= 0` |
| `LimitedQueue.ArrayLimitedQueue.SetDeleteExisting` | ArrayLimitedQueue/ArrayLimitedQueueExample.playground/Sources/ArrayLimitedQueue.swift:50-68 | assigning false leaves the list unchanged; assigning true runs the nested loops and leaves `DedupAsWritten(old list)`, provided they stay in bounds, which for a non-empty list is the old front item followed by `KeepLast` of the rest |
| `QueueSpec.DedupKeepsEnds` | ArrayLimitedQueue/ArrayLimitedQueueExample.playground/Sources/ArrayLimitedQueue.swift:57-65 | a completed pass never removes the front item (index 0 is never compared) nor the last item (only the earlier copy `j < i` is removed) |
| `QueueSpec.DedupKeepsValues` | ArrayLimitedQueue/ArrayLimitedQueueExample.playground/Sources/ArrayLimitedQueue.swift:57-65 | a completed pass only removes copies: the same values remain stored and no item is added (multiset inclusion) |
| `QueueSpec.DedupKeepsLastCopies` | ArrayLimitedQueue/ArrayLimitedQueueExample.playground/Sources/ArrayLimitedQueue.swift:57-65 | a completed pass leaves the old list read at increasing positions (survivors keep their order), and those positions include the last copy of every value: only earlier copies are ever removed |
| `QueueSpec.DedupOfDistinct` | ArrayLimitedQueue/ArrayLimitedQueueExample.playground/Sources/ArrayLimitedQueue.swift:57-65 | a list without duplicates passes through the loops in bounds and unchanged |
| `QueueSpec.DedupSkipsFront` | ArrayLimitedQueue/ArrayLimitedQueueExample.playground/Sources/ArrayLimitedQueue.swift:57-59 | `[a, a]` comes out of the pass as `[a, a]`: the duplicate at the front is kept |
| `QueueSpec.DedupTrapsOnTrailingPair` | ArrayLimitedQueue/ArrayLimitedQueueExample.playground/Sources/ArrayLimitedQueue.swift:57-63 | any list of 4 or more items whose last two are equal makes the pass read `list[i]` past the end (e.g. `[a, b, b, b]`) |
| `QueueSpec.KeepLastDeduplicates` | ArrayLimitedQueue/ArrayLimitedQueueExample.playground/Sources/ArrayLimitedQueue.swift:50-53 | the documented de-duplication ("leaves the last value"): no duplicates remain, every value stays, nothing is added, and the last item is kept; which copy stays and in what order is `KeepLastKeepsExactlyLastCopies` |
| `QueueSpec.KeepLastIgnoresEarlierCopy` | ArrayLimitedQueue/ArrayLimitedQueueExample.playground/Sources/ArrayLimitedQueue.swift:59-62 | removing an item that has a later copy does not change the documented de-duplication of the list |
| `QueueSpec.DedupSettles` | ArrayLimitedQueue/ArrayLimitedQueueExample.playground/Sources/ArrayLimitedQueue.swift:57-65 | once the loops have completed, no two items past the front are equal: every duplicate among them has been removed |
| `QueueSpec.DedupCompletedKeepsLastPastFront` | ArrayLimitedQueue/ArrayLimitedQueueExample.playground/Sources/ArrayLimitedQueue.swift:57-65 | a completed as-written pass leaves the front item followed by the documented de-duplication of the rest. It removes every earlier copy past the front, so it differs from the documented behaviour only in skipping the front, and otherwise only by trapping |
| `QueueSpec.KeepLastKeepsExactlyLastCopies` | ArrayLimitedQueue/ArrayLimitedQueueExample.playground/Sources/ArrayLimitedQueue.swift:50-53 | the documented de-duplication is the list read at increasing positions that are exactly the last copies of its values: each value keeps its last copy, and the survivors keep their relative order |
| `QueueSpec.KeepLastOfDistinct` | ArrayLimitedQueue/ArrayLimitedQueueExample.playground/Sources/ArrayLimitedQueue.swift:50-53 | the documented de-duplication leaves a list without duplicates unchanged |
| `LimitedQueue.ArrayLimitedQueue.Add` | ArrayLimitedQueue/ArrayLimitedQueueExample.playground/Sources/ArrayLimitedQueue.swift:101-121 | the new list and the returned item are those of `Added(old list, cap, deleteExisting, item)`; the settings are unchanged |
| `QueueSpec.Added` | ArrayLimitedQueue/ArrayLimitedQueueExample.playground/Sources/ArrayLimitedQueue.swift:101-121 | with `deleteExisting` and the item present: the first copy is removed and returned, the item is not appended, and the other items keep their order. Otherwise the item becomes the last one, and when `0 < cap <= old count` exactly the old front item is evicted and returned; else nothing is returned and nothing else changes |
| `LimitedQueue.ArrayLimitedQueue.CheckSize` | ArrayLimitedQueue/ArrayLimitedQueueExample.playground/Sources/ArrayLimitedQueue.swift:148-159 | the new list and the returned item are those of `Evicted(old list, cap)` |
| `QueueSpec.Evicted` | ArrayLimitedQueue/ArrayLimitedQueueExample.playground/Sources/ArrayLimitedQueue.swift:148-159 | an item is returned iff `0 < cap < count`; it is the front item, and the rest of the list stays; otherwise the list is unchanged |
| `QueueSpec.AddKeepsCapacity` | ArrayLimitedQueue/ArrayLimitedQueueExample.playground/Sources/ArrayLimitedQueue.swift:117-120 | with a cap of at least 1 and the count within it, the count stays within it after an add, and it changes by at most one |
| `QueueSpec.AddAllKeepsCapacity` | ArrayLimitedQueue/ArrayLimitedQueueExample.playground/Sources/ArrayLimitedQueue.swift:101-121 | the capacity bound holds after any sequence of adds |
| `QueueSpec.AddKeepsDistinct` | ArrayLimitedQueue/ArrayLimitedQueueExample.playground/Sources/ArrayLimitedQueue.swift:103-108 | under `deleteExisting` an add keeps a duplicate-free list duplicate-free |
| `QueueSpec.AddAllKeepsDistinct` | ArrayLimitedQueue/ArrayLimitedQueueExample.playground/Sources/ArrayLimitedQueue.swift:101-121 | under `deleteExisting` any sequence of adds keeps a duplicate-free list duplicate-free |
| `LimitedQueue.ArrayLimitedQueue.RemovableItems` | ArrayLimitedQueue/ArrayLimitedQueueExample.playground/Sources/ArrayLimitedQueue.swift:125-145 | changes nothing and returns `Removable(list, size)` |
| `QueueSpec.Removable` | ArrayLimitedQueue/ArrayLimitedQueueExample.playground/Sources/ArrayLimitedQueue.swift:125-145 | a prefix of the list in list order: the first `count - size` items for `0 <= size < count`, none for `size >= count`, all of them for `size < 0` |
| `LimitedQueue.ArrayLimitedQueue.IndexOf` | ArrayLimitedQueue/ArrayLimitedQueueExample.playground/Sources/ArrayLimitedQueue.swift:166-169 | a position is returned iff the item is stored; it holds the item and no earlier position does |
| `LimitedQueue.ArrayLimitedQueue.Exists` | ArrayLimitedQueue/ArrayLimitedQueueExample.playground/Sources/ArrayLimitedQueue.swift:161-164 | true iff the item is stored |
| `LimitedQueue.ExistsIffIndexed` | ArrayLimitedQueue/ArrayLimitedQueueExample.playground/Sources/ArrayLimitedQueue.swift:77-169 | `exists(item)` iff `indexOf(item) != nil`; `isEmpty` iff no item exists |
| `LimitedQueue.CountAgreesWithQueries` | ArrayLimitedQueue/ArrayLimitedQueueExample.playground/Sources/ArrayLimitedQueue.swift:82-86 | `count` is the number of positions `node(atIndex:)` accepts, the number of items `removableItems(forMaxSize: 0)` returns, and `isEmpty` holds exactly when that cap would push out nothing |
| `LimitedQueue.ArrayLimitedQueue.IsEmpty` | ArrayLimitedQueue/ArrayLimitedQueueExample.playground/Sources/ArrayLimitedQueue.swift:77-80 | empty iff the count is 0 |
| `LimitedQueue.ArrayLimitedQueue.ItemAt` | ArrayLimitedQueue/ArrayLimitedQueueExample.playground/Sources/ArrayLimitedQueue.swift:175-180 | for `0 <= index < count`, the item at that position; it exists, and its first position is at or before `index` |
| `LimitedQueue.ArrayLimitedQueue.RemoveAllItems` | ArrayLimitedQueue/ArrayLimitedQueueExample.playground/Sources/ArrayLimitedQueue.swift:171-173 | the queue is empty afterwards and the settings are unchanged |
| `AStarGrid.FillNodes` | A-Star/Tests/AStarTests.swift:129-157 | it returns 35 nodes. Node `k` is on the 7×5 grid at slot `x*5 + y = k`, and `points[x*5 + y]` has coordinates `(x, y)`, so every cell appears exactly once. A node is busy iff its symbol `data[y*7 + x]` is the black circle. `start` (`end`) is a node of the list on a red (blue) cell, and no later node is on one |
| `AStarGrid.CellCovered` | A-Star/Tests/AStarTests.swift:135-153 | once all 35 nodes are built, every position of the picture is the cell of some node |

## Left out

- The linked list itself is not part of this model. `LinkedList<T>` is abstracted as a sequence with standard `append`, `remove(atIndex:)`, `index(of:)` and `node(atIndex:)`.
- `AStar.find` and the `ASNode` class are not part of this model, so the search, its heuristic, its tie-breaking, path reconstruction and the paths the tests expect are not modelled.
- `AStarGrid.FillNodes`: `ASNode` is a class and the nodes are references. The model uses values. The one in-place update (`node.type = .busy`) happens on a freshly made node before it is shared, so nothing observable is lost. "`start` is the same object as an element of `points`" is stated as equality with an element.
- `AStarGrid.FillNodes`: symbols are compared code point by code point, whereas Swift compares strings by canonical equivalence. The four symbols involved have no other canonical form.
- The XCTest scaffolding (`setUp`, `tearDown`, the `XCTAssert` calls) and the `measure` loop of the performance test are test plumbing.
- The commented-out code in the queue (`positiveValues`, `zeroValue`, `internalArray`, `maxValue`, `minValue`) is dead code.
- Only `==` of `Comparable` is used by the queue, so the element type needs equality only.
- Element equality is Dafny's built-in equality (reflexive, and true only of identical values), not the element type's own `==`. A user-defined `==` that equates distinct values, or one that is not reflexive (`Double.nan == .nan` is false), is not modelled: with it, `exists(nan)` would be false for a stored NaN and `add(nan)` would append another copy, which `LimitedQueue.ArrayLimitedQueue.Exists` and `QueueSpec.Added` do not capture.
- Traps are not modelled as values. An out-of-range list access aborts the process in Swift; here it is a precondition the caller must meet.
- `LimitedQueue.ArrayLimitedQueue.SetMaxStoredItems`: Swift's `Int` is 64 bits wide and `list.count - maxStoredItems` traps on overflow for a cap near `Int.min`. The model's integers are unbounded.
- `LimitedQueue.ArrayLimitedQueue.RemovableItems`: likewise, `list.count - size` overflows for a size near `Int.min`; not modelled.
- `ArrayLimitedQueue` is a Swift struct, and its `list` field holds a `LinkedList`, which may be a class. The model is a single class instance, so copies of a queue, and any `LinkedList` those copies may share, are not modelled.

## Findings

| source | as written | input that shows it | evidently intended | confidence | as-written member | corrected member |
|---|---|---|---|---|---|---|
| ArrayLimitedQueue/ArrayLimitedQueueExample.playground/Sources/ArrayLimitedQueue.swift:23 | `for _ in 0 ... sizeDiff` removes `sizeDiff + 1` items, one more than the cap requires (and one past the end when the cap is set to 0 on a non-empty list) | 3 items stored, `maxStoredItems = 2`: 1 item is left | `0 ..< sizeDiff`: the newest `maxStoredItems` items stay, exactly what `removableItems(forMaxSize:)` predicts | not executed | `QueueSpec.TrimDropsOneExtra` | `QueueSpec.TrimIntendedAgreesWithRemovable` |
| ArrayLimitedQueue/ArrayLimitedQueueExample.playground/Sources/ArrayLimitedQueue.swift:57-59 | both strides stop before index 0, so the front item is never compared | `[a, a]`, then `deleteExisting = true`: the list stays `[a, a]` | the earlier copy is dropped, leaving `[a]`. DedupCompletedKeepsLastPastFront links the two: a completed pass is the front item followed by the corrected result for the rest | not executed | `QueueSpec.DedupSkipsFront` | `QueueSpec.KeepLastKeepsExactlyLastCopies` |
| ArrayLimitedQueue/ArrayLimitedQueueExample.playground/Sources/ArrayLimitedQueue.swift:59-62 | after `list.remove(atIndex: j)` the inner loop keeps comparing against `list[i]` with the unchanged `i`, which now names the next item or lies past the end | `[a, b, b, b]`, then `deleteExisting = true`: `list[3]` is read on a 3-item list | each item is compared against the item that was at `i` before the removal; no read past the end. By DedupCompletedKeepsLastPastFront, when the pass does complete, its result past the front already equals the corrected result | not executed | `QueueSpec.DedupTrapsOnTrailingPair` | `QueueSpec.KeepLastKeepsExactlyLastCopies` |
