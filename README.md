# Graphical core, modelled in Dafny

This project models the sequential core of the Graphical geometry library (C#) and proves what its code promises. It covers five pieces:

- **`PriorityQ`** (`priority_queue.dfy`, module `PriorityQueues`). An indexed binary heap: an array of (item, value) slots plus the reverse index `heapIndices` from each item to its slot. The class keeps two facts as its invariant `Valid()`:
  - the index agrees exactly with the occupied slots;
  - the occupied slots are heap-ordered for the queue's heap type (min or max).

  The public operations `Add`, `GetValue`, `UpdateValue`, `Peek`, `PeekValue`, `Take` and `Clear` preserve `Valid()`. Each is specified by what it does to `Contents()`, the map from stored item to value, and its precondition is stated on `Contents()` as well, so a caller can chain them (`AddTwiceThenTake` does). `Peek` and `Take` both answer slot 0, so `Take` removes the item `Peek` has just returned (`PeekThenTake`). The overridden `Swap` and the base heap's sifts run in the middle of an operation, while heap order is broken. They keep only the index exact, over a bound that may exceed `size`, and the sifts restore heap order.
- **`ListExtensions`** (`list_extensions.dfy`). Bisect-right binary search, sorted insertion of one item or many into a `List<T>` that is changed in place, and `Chop` into fixed-length chunks.
  - The searches are proved against a linear reference (`UpperBound`).
  - The insertions are proved against the value-level `InsertSorted` and `InsertAll`.
- **`SweepVertex.CompareTo`** and its four operators (`sweep_line.dfy`, module `SweepLine`). The comparison is by X, then by Y, both under the kernel's tolerance.
- **`gBoundingBox`** (`bounding_box.dfy`, module `BoundingBoxes`). The constructor's validation, `ByMinVertexMaxVertex` and `Intersects`.
- **`gPolygon`** (`polygon.dfy`, module `Polygons`). A class owning a vertex list and an edge list:
  - `ByVertices`, the two `AddVertex` overloads, `Clone` and `ComputeBoundingBox`;
  - the closed ring of edges (`CyclicEdges`) that the first two build.

Three supporting modules stand in for code this model does not include:

- `wrappers.dfy`: `Option`, `Result` and `Outcome`, used for null and for exceptions.
- `collections.dfy`: the .NET `List<T>` as a class over a `seq`, plus `IndexOf`.
- `geometry.dfy`: `gVertex` as a class with constant coordinates and a mutable `polygonId`, and `gEdge` as a value.

## Model

| member | source | states |
|---|---|---|
| `PriorityQueues.PriorityQ.constructor` | Graphical/src/DataStructures/PriorityQ.cs:42-45 | a new queue of the given type and capacity is valid and empty |
| `PriorityQueues.PriorityQ.MinPriorityQ` | Graphical/src/DataStructures/PriorityQ.cs:166 | only fixes the heap type to MinHeap; valid and empty |
| `PriorityQueues.PriorityQ.MaxPriorityQ` | Graphical/src/DataStructures/PriorityQ.cs:188 | only fixes the heap type to MaxHeap; valid and empty |
| `PriorityQueues.PriorityQ.Swap` | Graphical/src/DataStructures/PriorityQ.cs:50-58 | the two slots are exchanged, the two items' index entries point at their new slots, nothing else changes, the index stays exact and the contents are unchanged |
| `PriorityQueues.SwapKeepsIndex` | Graphical/src/DataStructures/PriorityQ.cs:50-58 | after a swap with both index updates, every stored item's index entry is its actual slot again, and the item-to-value map is the same |
| `PriorityQueues.PriorityQ.HeapifyUp` | Graphical/src/DataStructures/PriorityQ.cs:102 | sifting up through `Swap` turns "only the edge above slot k is broken" into full heap order, keeping the index exact and the contents unchanged |
| `PriorityQueues.PriorityQ.HeapifyDown` | Graphical/src/DataStructures/PriorityQ.cs:106 | sifting down through `Swap` turns "only the edges below slot k are broken" into full heap order, keeping the index exact and the contents unchanged |
| `PriorityQueues.SiftUpStep` | Graphical/src/DataStructures/PriorityQ.cs:102 | one swap with a worse parent moves the single breach of heap order one level up |
| `PriorityQueues.SiftUpDone` | Graphical/src/DataStructures/PriorityQ.cs:102 | sift-up stopping at the root or under a parent that is not worse leaves the heap ordered |
| `PriorityQueues.BetterChild` | Graphical/src/DataStructures/PriorityQ.cs:106 | the child chosen for sift-down is a child of k that precedes every child of k |
| `PriorityQueues.SiftDownStep` | Graphical/src/DataStructures/PriorityQ.cs:106 | one swap with a better best child moves the breach of heap order one level down |
| `PriorityQueues.SiftDownDone` | Graphical/src/DataStructures/PriorityQ.cs:106 | sift-down stopping when no child is better leaves the heap ordered |
| `PriorityQueues.PriorityQ.Add` | Graphical/src/DataStructures/PriorityQ.cs:66-70 | for an item not in the contents, the queue stays valid (index exact, heap ordered), grows by one, and its contents gain exactly item ↦ value |
| `PriorityQueues.AppendKeepsIndex` | Graphical/src/DataStructures/PriorityQ.cs:68-69 | recording the new item at slot `Size` before appending it there keeps the index exact and adds exactly that entry |
| `PriorityQueues.AppendStartsSiftUp` | Graphical/src/DataStructures/PriorityQ.cs:69 | a slot appended to a heap-ordered prefix can breach heap order only towards its parent |
| `PriorityQueues.PriorityQ.Grow` | Graphical/src/DataStructures/PriorityQ.cs:69 | a full array is replaced by a fresh, longer one holding the same occupied slots |
| `PriorityQueues.PrefixKeepsIndex` | Graphical/src/DataStructures/PriorityQ.cs:69 | the index, the heap order and the contents depend only on the occupied prefix, so growing the array keeps them |
| `PriorityQueues.PriorityQ.GetValue` | Graphical/src/DataStructures/PriorityQ.cs:77-82 | `ArgumentException` exactly when the item is not in the queue; otherwise the value stored for it |
| `PriorityQueues.IndexedEntries` | Graphical/src/DataStructures/PriorityQ.cs:79-81 | under an exact index, the items with a value are exactly the indexed items, each with its slot's value, and the queue is empty exactly when no slot is occupied |
| `PriorityQueues.PriorityQ.UpdateValue` | Graphical/src/DataStructures/PriorityQ.cs:89-108 | `ArgumentException` and no change for an absent item; otherwise the queue stays valid and the item's value, and only it, becomes the new value |
| `PriorityQueues.SetValueKeepsIndex` | Graphical/src/DataStructures/PriorityQ.cs:92-95 | writing a new value into the item's slot keeps the index exact and changes only that item's value |
| `PriorityQueues.ImprovedStartsSiftUp` | Graphical/src/DataStructures/PriorityQ.cs:97-103 | a strictly better value (smaller in a min-heap, larger in a max-heap) can breach heap order only towards the parent, which is why sifting up is enough |
| `PriorityQueues.WorsenedStartsSiftDown` | Graphical/src/DataStructures/PriorityQ.cs:104-107 | a value that is not strictly better, equal included, can breach heap order only towards the children, which is why sifting down is enough |
| `PriorityQueues.RootPrecedesAll` | Graphical/src/DataStructures/PriorityQ.cs:114-126 | in a heap-ordered prefix, slot 0 precedes every slot (≤ in a min-heap, ≥ in a max-heap) |
| `PriorityQueues.PriorityQ.TopIsBest` | Graphical/src/DataStructures/PriorityQ.cs:114-126 | in a valid non-empty queue, slot 0 holds a stored item whose value precedes every stored value |
| `PriorityQueues.PriorityQ.PeekValue` | Graphical/src/DataStructures/PriorityQ.cs:114-117 | on a non-empty queue, the value in slot 0, which is a stored value that precedes every stored value (the minimum of a min-queue); an error exactly when the queue is empty |
| `PriorityQueues.PriorityQ.Peek` | Graphical/src/DataStructures/PriorityQ.cs:123-126 | on a non-empty queue, the item in slot 0, which is stored and whose value precedes every stored value; an error exactly when the queue is empty |
| `PriorityQueues.PriorityQ.Take` | Graphical/src/DataStructures/PriorityQ.cs:132-137 | returns the item that was in slot 0 (the one `Peek` returns, ties included), whose value was best, removes exactly that item from the contents (so `GetValue` on it then fails), and keeps the queue valid |
| `PriorityQueues.RemoveRootStartsSiftDown` | Graphical/src/DataStructures/PriorityQ.cs:134 | moving the last slot to the root and dropping the last slot breaches heap order only below the root |
| `PriorityQueues.DropLastKeepsIndex` | Graphical/src/DataStructures/PriorityQ.cs:134-135 | removing the taken item's index entry leaves an exact index over the shorter heap, with that item gone from the contents |
| `PriorityQueues.PriorityQ.Clear` | Graphical/src/DataStructures/PriorityQ.cs:142-146 | both the index and the heap are emptied; the queue is valid and holds nothing |
| `ListExtensions.CompareTo` | Graphical/src/Extensions/ListExtensions.cs:30 | negative exactly when the item's key is smaller, zero exactly when the keys are equal |
| `ListExtensions.UpperBound` | Graphical/src/Extensions/ListExtensions.cs:65-81 | the linear reference for bisect-right: every element before it is not greater than x, and the element at it is greater |
| `ListExtensions.UpperBoundSplits` | Graphical/src/Extensions/ListExtensions.cs:67-79 | on an ascending list, everything before the reference position is not greater than x and everything from it on is greater |
| `ListExtensions.SplitIsUpperBound` | Graphical/src/Extensions/ListExtensions.cs:67-79 | on an ascending list, any index that splits it into not-greater and greater is the reference position |
| `ListExtensions.BisectIndex` | Graphical/src/Extensions/ListExtensions.cs:65-81 | the result is in [0, Count]; on an ascending list every element before it is not greater than the item and every element from it on is greater |
| `ListExtensions.AddItemSorted` | Graphical/src/Extensions/ListExtensions.cs:23-40 | the item is inserted at some position with no other element moving; Count grows by one and the multiset by the item; on an ascending list the result is `InsertSorted` (bisect-right position) |
| `ListExtensions.InsertedMultiset` | Graphical/src/Extensions/ListExtensions.cs:39 | inserting anywhere adds exactly the item to the multiset |
| `ListExtensions.InsertSortedIsSorted` | Graphical/src/Extensions/ListExtensions.cs:23-40 | inserting at the bisect-right position keeps an ascending list ascending |
| `ListExtensions.InsertSortedAfterEquals` | Graphical/src/Extensions/ListExtensions.cs:30-37 | on an ascending list, the new item lands after every element that compares equal to it; the list grows by exactly that item |
| `ListExtensions.AddItemsSorted` | Graphical/src/Extensions/ListExtensions.cs:49-55 | Count grows by the number of items and the multiset by exactly the items; an ascending list stays ascending and becomes `InsertAll` of the items |
| `ListExtensions.InsertAllStep` | Graphical/src/Extensions/ListExtensions.cs:51-54 | one more loop iteration inserts the next item into the result so far |
| `ListExtensions.InsertAllIsSorted` | Graphical/src/Extensions/ListExtensions.cs:49-55 | inserting any sequence of items keeps an ascending list ascending, with length and multiset extended by exactly the items |
| `ListExtensions.Chop` | Graphical/src/Extensions/ListExtensions.cs:91-98 | divide-by-zero exactly when the length is 0 and the list is not empty |
| `ListExtensions.ChunksShape` | Graphical/src/Extensions/ListExtensions.cs:91-98 | the chunks concatenate back to the list, there are none exactly for an empty list, every chunk but the last has exactly the given length, and the last has between 1 and that length |
| `ListExtensions.ChunkAt` | Graphical/src/Extensions/ListExtensions.cs:94-96 | element c·n + p (p < n) is element p of chunk c |
| `ListExtensions.ChopGroupsByIndex` | Graphical/src/Extensions/ListExtensions.cs:94-96 | for any non-zero length, negative included, element i lands in the group keyed by the truncated quotient i / length, at position i mod the length's absolute value |
| `SweepLine.CompareTo` | Graphical/src/Core/SweepLine.cs:29-49 | the result is -1, 0 or 1; -1 against null; 0 exactly for the same position (`Equals`, or X and Y both within threshold, whatever Z); -1 exactly when the vertex comes first by X, or by Y when only X is within threshold |
| `SweepLine.Less` | Graphical/src/Core/SweepLine.cs:51-54 | `sw1 < sw2` is the test `CompareTo == -1`: true exactly when `sw2` is null or `sw1` is at a different position and sweeps before it; `OperatorsConsistent` and `NullIsLast` relate it to the other three |
| `SweepLine.Greater` | Graphical/src/Core/SweepLine.cs:56-59 | `sw1 > sw2` is the test `CompareTo == 1`: true exactly when `sw2` is not null and `sw1` is at a different position and does not sweep before it; `OperatorsConsistent` and `NullIsLast` relate it to the other three |
| `SweepLine.AtMost` | Graphical/src/Core/SweepLine.cs:61-64 | `sw1 <= sw2` is the test `CompareTo <= 0`: true exactly when `sw2` is null, or the two share a position, or `sw1` sweeps before it; `OperatorsConsistent` and `NullIsLast` relate it to the other three |
| `SweepLine.AtLeast` | Graphical/src/Core/SweepLine.cs:66-69 | `sw1 >= sw2` is the test `CompareTo >= 0`: true exactly when `sw2` is not null and the two share a position or `sw1` does not sweep before it; `OperatorsConsistent` and `NullIsLast` relate it to the other three |
| `SweepLine.EqualVerticesCompareZero` | Graphical/src/Core/SweepLine.cs:32 | vertices that are `Equals` compare 0 |
| `SweepLine.ZIgnored` | Graphical/src/Core/SweepLine.cs:34-48 | two vertices differing only in Z compare the same against any vertex that `Equals` both of them or neither |
| `SweepLine.Antisymmetric` | Graphical/src/Core/SweepLine.cs:29-48 | `a.CompareTo(b) == -b.CompareTo(a)` for non-null operands, given a symmetric and reflexive `Threshold` and a symmetric `Equals` |
| `SweepLine.NeedsReflexiveThreshold` | Graphical/src/Core/SweepLine.cs:34-43 | for any tolerance under which a shared X coordinate is not within threshold of itself, two vertices at the same X and Y that are not `Equals` either way compare 1 both ways, so antisymmetry fails |
| `SweepLine.OperatorsConsistent` | Graphical/src/Core/SweepLine.cs:51-69 | given a symmetric and reflexive `Threshold` and an `Equals` symmetric on `a` and `b` (the conditions of `Antisymmetric`): `a < b` iff `b > a`; `a <= b` iff `b >= a`; `<=` is the negation of `>` and `>=` of `<`; one of `<=` and `>=` always holds, and both hold exactly at the same position |
| `SweepLine.NullIsLast` | Graphical/src/Core/SweepLine.cs:31 | against null, `<` and `<=` hold and `>` and `>=` do not |
| `SweepLine.NotTransitive` | Graphical/src/Core/SweepLine.cs:34-40 | with tolerance 1, X = 0 compares 0 with X = 1, and X = 1 with X = 2, but X = 0 comes before X = 2 |
| `BoundingBoxes.New` | Graphical/src/Geometry/gBoundingBox.cs:39-44 | `ArgumentException` exactly when either array does not hold 3 coordinates; otherwise a box with exactly those corners |
| `BoundingBoxes.ByMinVertexMaxVertex` | Graphical/src/Geometry/gBoundingBox.cs:54-57 | the corners hold the X, Y, Z of the two vertices, in that order |
| `BoundingBoxes.ByMinVertexMaxVertexContainsCorners` | Graphical/src/Geometry/gBoundingBox.cs:54-57 | when the first vertex is below the second on each axis, the box is proper and contains both vertices |
| `BoundingBoxes.Intersects` | Graphical/src/Geometry/gBoundingBox.cs:66-72 | true exactly when the closed intervals of the two boxes overlap on each of the three axes |
| `BoundingBoxes.IntersectsSymmetric` | Graphical/src/Geometry/gBoundingBox.cs:66-72 | `a.Intersects(b) == b.Intersects(a)` |
| `BoundingBoxes.TouchingBoxesIntersect` | Graphical/src/Geometry/gBoundingBox.cs:69-71 | the comparisons are not strict: proper boxes that meet on the X axis and overlap on Y and Z intersect, so a shared face, edge or corner is enough |
| `BoundingBoxes.CornerTouchingBoxesIntersect` | Graphical/src/Geometry/gBoundingBox.cs:69-71 | proper boxes whose only common point is a corner intersect |
| `BoundingBoxes.SelfIntersects` | Graphical/src/Geometry/gBoundingBox.cs:69-71 | a box intersects itself exactly when min ≤ max on every axis |
| `BoundingBoxes.CommonPointIntersects` | Graphical/src/Geometry/gBoundingBox.cs:68-71 | boxes with a common point intersect |
| `BoundingBoxes.IntersectingBoxesShareAPoint` | Graphical/src/Geometry/gBoundingBox.cs:68-71 | intersecting proper boxes share a point |
| `BoundingBoxes.IntersectsIffCommonPoint` | Graphical/src/Geometry/gBoundingBox.cs:66-72 | for proper boxes, `Intersects` holds exactly when some point lies in both |
| `Collections.IndexOf` | Graphical/src/Geometry/gPolygon.cs:120 | the first position whose vertex `Equals` the one sought, or -1 exactly when there is none |
| `Polygons.Polygon.constructor` | Graphical/src/Geometry/gPolygon.cs:73-77 | the given id and flag, and fresh empty vertex and edge lists |
| `Polygons.Polygon.ByVertices` | Graphical/src/Geometry/gPolygon.cs:87-100 | id -1, the given boundary flag (false when omitted), the caller's own vertex list, and a fresh edge list that is the closed ring through the vertices |
| `Polygons.CyclicEdgesRing` | Graphical/src/Geometry/gPolygon.cs:91-98 | the ring has one edge per vertex; each edge ends where the next starts; the last closes back to the first vertex; the edges' starts give the vertex list back |
| `Polygons.EdgeAt` | Graphical/src/Geometry/gPolygon.cs:94-97 | edge j runs from vertex j to the next vertex round the ring |
| `Polygons.Polygon.AddVertex` | Graphical/src/Geometry/gPolygon.cs:104-108 | the vertex now carries this polygon's id and is appended; the edges are unchanged |
| `Polygons.Polygon.Clone` | Graphical/src/Geometry/gPolygon.cs:223-229 | same id and flag, and fresh lists with the same elements in the same order |
| `Polygons.Polygon.AddVertexOnEdge` | Graphical/src/Geometry/gPolygon.cs:110-133 | returns a fresh clone with v inserted at `IndexOf(edge start) + 1` (the front when absent) and its edges the ring through the new vertices; v carries this polygon's id; this polygon's lists are unchanged; when its edges were its ring, the clone's edges are those edges with the one leaving the start vertex split at v |
| `Polygons.Polygon.RebuildEdges` | Graphical/src/Geometry/gPolygon.cs:124-130 | the edge list becomes the closed ring through the vertices |
| `Polygons.InsertAfterSplitsEdge` | Graphical/src/Geometry/gPolygon.cs:120-130 | inserting v after vertex j and rebuilding the ring replaces edge j by the two edges through v and keeps every other edge in place |
| `Polygons.InsertAtFrontReplacesClosingEdge` | Graphical/src/Geometry/gPolygon.cs:120-130 | inserting v at the front (start vertex not found) prepends an edge from v and replaces the closing edge by one into v |
| `Polygons.SeqMin` | Graphical/src/Geometry/gPolygon.cs:243 | LINQ `Min`: an element of the list, not above any element |
| `Polygons.SeqMax` | Graphical/src/Geometry/gPolygon.cs:244 | LINQ `Max`: an element of the list, not below any element |
| `Polygons.Polygon.ComputeBoundingBox` | Graphical/src/Geometry/gPolygon.cs:231-246 | `InvalidOperationException` exactly for a polygon without vertices; otherwise a 3-coordinate box that contains every vertex, and each of its faces touches some vertex |
| `Polygons.AxisBound` | Graphical/src/Geometry/gPolygon.cs:236-245 | on one axis, the minimum and maximum of the collected coordinates bound every vertex's coordinate and are each some vertex's coordinate |
| `Polygons.CoordinatesBound` | Graphical/src/Geometry/gPolygon.cs:236-245 | the box built from the per-axis minima and maxima of the collected coordinates contains every vertex, and each face touches one |

## Left out

- `BinaryHeap`, the base class of `PriorityQ`, is not part of this model. Its `HeapifyUp`, `HeapifyDown`, `base.Add`, `base.Take`, `base.Peek` and `base.Clear` are modelled as a standard array heap whose every element move goes through the overridden `Swap`. Its growth rule is taken to be twice the length plus one. The default capacity of the capacity-less constructors is unknown, so those constructors are left out.
- The heap's `IComparable` value type is modelled as `int` under its natural order.
- The item's `IEquatable`/hash-code equality is modelled as Dafny equality on the item type.
- `HeapItem.SetValue` mutates the slot object in place. The model writes a new slot value instead, which is the same thing because nothing else holds a reference to a heap slot.
- `PriorityQueues.PriorityQ.Add`: requires the item to be absent from the contents. On a duplicate the source overwrites its index entry and stores a second slot, which breaks the index invariant.
- `PriorityQueues.PriorityQ.PeekValue`: returns an `EmptyHeap` error on an empty queue. The source reads slot 0 without a check, and what that yields depends on the unseen base class.
- `PriorityQueues.PriorityQ.Peek` and `PriorityQueues.PriorityQ.Take`: an empty queue gives an `EmptyHeap` error, standing for the base class's unseen behaviour.
- The public `HeapIndices` getter, documented as for testing only, is not modelled. The field itself is.
- `ListExtensions`: `IComparable<T>.CompareTo` is modelled by an integer key per element. Elements may share a key, so which of several equal elements goes first stays observable.
- `ListExtensions.AddItemSorted`, `ListExtensions.AddItemsSorted` and `ListExtensions.BisectIndex`: because the comparison is by an integer key, only a consistent, transitive comparator is modelled. Nothing is claimed for a comparator that is not transitive, such as `SweepVertex.CompareTo` under tolerance (see `SweepLine.NotTransitive`).
- `ListExtensions`: the 32-bit overflow of `(lo + hi) / 2` is not modelled. It needs a list of more than 2^30 elements.
- `ListExtensions.AddItemsSorted` takes the source's `T[]` as a sequence, since the array is only read.
- `ListExtensions.Chop` takes and returns sequences rather than `List` objects, since nothing is mutated.
- `SweepLine`: `gBase.Threshold` and `gVertex.Equals` are not part of this model. They are parameters (`Tolerance`).
- Null references in general: the model's types are not nullable and a capacity is a `nat`, so the source's failures on a null or negative argument are not modelled. These are a null list or vertex (`vertices.Count` at gPolygon.cs:91, `vertex.polygonId` at gPolygon.cs:106, `min.Count()` at gBoundingBox.cs:41, `Chop` or `AddItemSorted` on a null list) and a negative `PriorityQ` capacity (PriorityQ.cs:42-44), which the unseen base heap or `Dictionary(int)` would reject.
- `SweepLine.CompareTo` and the four operators: a null left operand (SweepLine.cs:53, 58, 63, 68) or a null `Vertex` field (SweepLine.cs:24, read at 32 and 34) throws `NullReferenceException` in the source. The model's types rule both out: the left operand is a `SweepVertex` value and its vertex is not optional. Only a null right operand is modelled, as `None`.
- `SweepLine.Antisymmetric`: needs `Threshold` to be reflexive as well as symmetric. `NeedsReflexiveThreshold` shows that it fails otherwise.
- The sweep-line engine (`SweepLine` is an empty class) and the `Pair` field of `SweepVertex`, which `CompareTo` never reads, are left out.
- `gBoundingBox.MinVertex`/`MaxVertex` use `gVertex.ByCoordinatesArray`, which is not part of this model.
- `gBoundingBox` stores the caller's arrays themselves. The model stores their values, so later writes through the caller's arrays are not modelled.
- `gPolygon.ContainsVertex`, `ContainsEdge`, `IsClosed`, `IsPlanar` and `Coplanar` depend on the unseen `gEdge.Intersection`, `gVertex.DistanceTo`, `OnEdge` and `Coplanar`, and on floating-point ray construction.
- `gPolygon()`, the parameterless constructor, is unused by the modelled code.
- The `Vertices`/`Edges` getters just return the fields.
- `NumericExtensions.Map` is pure floating-point arithmetic that divides by `max - min`; it is not part of the core.
- Coordinates are reals, not IEEE-754 doubles. Only comparisons are used, so NaN and infinities are the only divergence.
- In `AddVertex(v, intersectingEdge)`, `List.IndexOf` compares with `gVertex.Equals`, which is passed in as a parameter.
