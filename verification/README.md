# split tree: a Dafny model

This project models the spatial index in `sources/` and the geometry under it.
It is a "split tree": a quadtree generalised to D dimensions, where every cell
has up to 2^D children, one per half-box of its own box. Entities are stored
by their axis-aligned bounding box (AABB), in the deepest cell that still
contains the box.

The modules follow the source files:

- `Vectors` (vector.dfy), for `Vector.js`. Vectors are `seq<real>`.
  `plus` and `minus` zero-extend the shorter operand. `mapToVector`
  builds its result through the `Vector` constructor, which turns the
  empty array into `[0]`, so every mapped vector has a component. The comparison
  predicates keep the JavaScript reading of a missing component:
  `x !== undefined` is true and `x >= undefined` is false.
- `Boxes` (aabb.dfy), for `AABB.js`. It has:
  - the constructor from centre and extents;
  - the `position`, `extents` and `halfExtents` getters;
  - `__points`, `points`, `localPoints`, `partitions` and `partition`;
  - `containsPoint`, `containsAABB` and `collideAABB`.

  Each of these is written the way the library computes it, and lemmas
  give it its closed form. Corner j takes `max` on axis b exactly when
  bit b of j is set (`Bits`, bits.dfy). Partition j is the lower or
  upper half of each axis by the same rule.
- `BoxCache` (aabb_cache.dfy), for the two lazy caches of an AABB object
  and the `position` setter that empties them.
- `Spaces` (space.dfy), for `Space.js`: the axis labels, the size, and
  the origin-centred root box.
- `SplitTree` (split_tree.dfy), for the node operations of
  `SplitTree.js`. A node is an immutable value: a box, an optional
  entity list, and an optional array of optional child slots. Parent
  pointers become paths of slot indices from the root. Entities are
  named by ids. Throws become `Failure` values of `Outcomes.Result`
  (outcomes.dfy).
- `SplitTreeProps` (split_tree_props.dfy), for the properties of
  `insert`, `detachEntity`/`clean` and `containingNode`. Two structural
  invariants appear there:
  - `Shaped`: the child in slot i is over partition i of its parent;
  - `Pruned`: no non-root node is empty.
- `Traversal` (traversal.dfy), for `forEach`, `some` and
  `someEntities`. They are compared with `Visit`, the list of all node
  paths in pre-order.
- `Entities` (entity.dfy), for `Entity.js`.
- `TreeIndex` (tree_index.dfy), for the tree together with the entity
  records its lists name. `parent` is a path. Operations on that pair:
  - `insert`, `detachEntity`, `reinsert`, `moveEntity`;
  - `Entity.move`;
  - `collideAABB`, `collide`.

  Its invariant `Inv` says all of the following:
  - the tree is shaped and pruned;
  - every listed entity is listed exactly once, in exactly one node;
  - that node's box contains the entity's box and none of its partitions
    does, the test at which `insert` stops;
  - the entity's `parent` names that node.

## Model

| member | source | states |
|---|---|---|
| Vectors.MapToVector | sources/Vector.js:37-39 | the result has the receiver's length, but at least one component: component i is f applied to component i and index i, and the empty vector maps to `[0]`, the one-element vector the array species builds for length 0 |
| Vectors.PlusScalar | sources/Vector.js:43-45 | the scalar is added to every component; the length is kept, and the empty vector gives `[0]` |
| Vectors.MinusScalar | sources/Vector.js:46-48 | the scalar is subtracted from every component; the length is kept, and the empty vector gives `[0]` |
| Vectors.Scale | sources/Vector.js:64-66 | every component is multiplied by the scalar; the length is kept, and the empty vector gives `[0]` |
| Vectors.Multiply | sources/Vector.js:40-42 | the componentwise product, of the receiver's length; the empty receiver gives `[0]` |
| Vectors.Plus | sources/Vector.js:52-60 | the length is the larger of the two, at least one; component i is the sum of both components, a missing one counting as 0 |
| Vectors.Minus | sources/Vector.js:61-63 | the length is the larger of the two, at least one; component i is the difference, a missing component counting as 0 |
| Vectors.Construct | sources/Vector.js:3-9 | every argument list builds the vector of exactly those components in order; a single argument is stored as the component, not read as an array length |
| Vectors.X | sources/Vector.js:28-30 | `x` is the first component; for a one-component vector it is also `time` |
| Vectors.Time | sources/Vector.js:24-26 | `time` is the last component |
| Vectors.Inequal | sources/Vector.js:75-77 | `inequal` holds exactly when the receiver is not a prefix of the other vector |
| Vectors.DifferenceIffNotPrefix | sources/Vector.js:75-77 | some component of the receiver differs from the other's, a missing one always differing, exactly when the receiver is not a prefix of the other |
| Vectors.Equal | sources/Vector.js:78-80 | `equal` holds exactly when the receiver is a prefix of the other vector |
| Vectors.Lesser | sources/Vector.js:81-83 | `lesser` holds exactly when every component present in both vectors is strictly smaller in the receiver |
| Vectors.LesserOrEqual | sources/Vector.js:84-87 | `lesserOrEqual` holds exactly when the receiver is a prefix of the other or `lesser` holds |
| Vectors.Greater | sources/Vector.js:88-90 | `greater` holds exactly when the receiver is not a prefix of the other and some component present in both is not smaller in the receiver |
| Vectors.GreaterOrEqual | sources/Vector.js:92-95 | `greaterOrEqual` holds exactly when the receiver is a prefix of the other or `lesser` fails |
| Vectors.SingleArgument | sources/Vector.js:3-30 | one argument builds a one-component vector whose `x` and `time` are that argument |
| Vectors.PlusScalarRoundTrip | sources/Vector.js:43-48 | `minusScalar(s)` after `plusScalar(s)` gives back the vector; the empty vector comes back as `[-s]` |
| Vectors.PlusCommutes | sources/Vector.js:52-60 | `plus` is symmetric whichever operand is longer |
| Vectors.PlusEmpty | sources/Vector.js:52-60 | adding the empty vector, on either side, copies the other; two empty vectors give `[0]` |
| Vectors.MinusSelf | sources/Vector.js:61-66 | `v.minus(v)` is all zeros, of v's length but at least one |
| Vectors.MinusPlusRoundTrip | sources/Vector.js:52-66 | adding b back after subtracting it gives a, zero-extended to the longer length, at least one |
| Vectors.ScaleRoundTrip | sources/Vector.js:64-66 | scaling by a non-zero factor and then by its inverse gives the vector back, `[0]` for the empty vector |
| Vectors.ScaleIsMultiply | sources/Vector.js:40-66 | `scale(s)` equals `multiply` by the vector holding s in every component |
| Vectors.MultiplyCommutes | sources/Vector.js:40-42 | for equal lengths `multiply` is symmetric |
| Vectors.MapToVectorFuses | sources/Vector.js:37-39 | two `mapToVector` calls in a row equal one call with the composed function, except on the empty vector, where the second call sees `[0]` |
| Vectors.EqualSymmetryNeedsLengths | sources/Vector.js:75-80 | `equal` is reflexive; it holds both ways exactly for identical vectors, and it is symmetric exactly for equal lengths |
| Vectors.EqualNotSymmetric | sources/Vector.js:75-80 | `equal([1], [1, 2])` holds while `equal([1, 2], [1])` does not |
| Vectors.LesserIsStrict | sources/Vector.js:81-83 | for equal lengths `lesser` is the strict order on every component |
| Vectors.LesserIgnoresMissing | sources/Vector.js:81-83 | a missing component never blocks `lesser`: every vector is lesser than the empty one |
| Vectors.LesserOrEqualIsNotComponentwise | sources/Vector.js:84-90 | (1, 2) against (1, 3) is not `lesserOrEqual`, so it is `greater` |
| Vectors.GreaterOrEqualIsNotLesser | sources/Vector.js:92-95 | `greaterOrEqual` is `equal` or not `lesser` |
| Boxes.FromCentre | sources/AABB.js:25-29 | the box has as many axes as the longer input, at least one; min is position minus half the extents and max is position plus half, on every axis |
| Boxes.Dim | sources/AABB.js:103-105 | `dimensionsCount` is the length of min, which is the length of max and at least one |
| Boxes.Position | sources/AABB.js:44-46 | the `position` getter is the midpoint of every axis |
| Boxes.Extents | sources/AABB.js:52-54 | `extents` is max minus min on every axis |
| Boxes.HalfExtents | sources/AABB.js:48-50 | `halfExtents` is half of max minus min on every axis |
| Boxes.CentreRoundTrip | sources/AABB.js:25-54 | the centre and extents given to the constructor read back, zero-extended to the box's dimension |
| Boxes.CentreRoundTripSameLength | sources/AABB.js:25-54 | for non-empty inputs of equal length, `position` and `extents` read back exactly; empty inputs give the one-axis box at 0 |
| Boxes.RebuildFromCentre | sources/AABB.js:76-77 | rebuilding a box from its own position and extents gives the same box |
| Boxes.MoveAxis | sources/AABB.js:8-11 | the step of `__points` adds the extent on the one axis and keeps every other component |
| Boxes.CornerWalk | sources/AABB.js:7-18 | `__points` over d axes yields 2^d vectors, the first of them the start point |
| Boxes.CornerWalkSpec | sources/AABB.js:7-18 | `__points` over d axes yields 2^d vectors; vector j adds the extent exactly on the axes whose bit is set in j |
| Boxes.Points | sources/AABB.js:84-92 | `points` has 2^D entries |
| Boxes.PointsAreCorners | sources/AABB.js:84-92 | point j takes max on the axes whose bit is set in j and min elsewhere; point 0 is min and the last point is max |
| Boxes.LocalMin | sources/AABB.js:94-97 | `localMin` is, on every axis, minus half the extent: min relative to the centre |
| Boxes.LocalPoints | sources/AABB.js:99-101 | `localPoints` has 2^D entries |
| Boxes.LocalPointsAreOffsets | sources/AABB.js:94-101 | local point j is corner j minus the box's centre |
| Boxes.Partitions | sources/AABB.js:60-68 | `partitions` has 2^D boxes |
| Boxes.PartitionsAreHalves | sources/AABB.js:60-68 | partition j spans the upper half of axis b when bit b of j is set and the lower half otherwise |
| Boxes.PartitionShape | sources/AABB.js:60-78 | every partition has the parent's `halfExtents` as extents and, in a box with min <= max, lies inside the parent |
| Boxes.PartitionsCover | sources/AABB.js:60-68 | every point of the box lies in some partition |
| Boxes.PartitionsMeetOnlyAtMidpoints | sources/AABB.js:60-68 | a point in two different partitions lies on a midpoint plane |
| Boxes.HalvesMeetOnlyAtMidpoints | sources/AABB.js:60-68 | a point in two different halves lies on the midpoint plane of an axis where their indices differ |
| Boxes.PartitionCount | sources/AABB.js:60-68 | the number of partitions, 2^D, is the length of `partitions` |
| Boxes.PartitionsCount | sources/AABB.js:80-82 | `partitionsCount` equals the number of partitions exactly when D is 2 or 4 |
| Boxes.SquareMeetsPow2 | sources/AABB.js:80-82 | for d >= 1, d squared equals 2^d exactly when d is 2 or 4 |
| Boxes.PartitionsCountMismatch | sources/AABB.js:80-82 | for D = 1 and D = 3 the square that `partitionsCount` returns is not the length of `partitions` |
| Boxes.PartitionIsCopy | sources/AABB.js:70-78 | `partition(i)` has the same min and max as `partitions[i]`, the i-th half |
| Boxes.Partition | sources/AABB.js:70-78 | `partition(i)` is the i-th half of the box and has the box's dimension |
| Boxes.ContainsPoint | sources/AABB.js:107-116 | throws exactly on a point of another length; otherwise holds iff min <= p <= max on every axis |
| Boxes.ContainsAabb | sources/AABB.js:118-125 | throws exactly on a box of another dimension; otherwise holds iff both the other min and the other max are contained points |
| Boxes.CollideAabb | sources/AABB.js:56-58 | throws exactly on another dimension; otherwise holds iff some corner of the other box is inside this one |
| Boxes.EnclosesReflexive | sources/AABB.js:118-125 | a box contains itself exactly when min <= max on every axis |
| Boxes.EnclosesTransitive | sources/AABB.js:118-125 | containment is transitive |
| Boxes.EnclosesAllPoints | sources/AABB.js:118-125 | for an ordered box, containment is containment of every point of it |
| Boxes.CollidesViaCorners | sources/AABB.js:56-58 | colliding is having a corner, in closed form, inside the box |
| Boxes.EnclosesImpliesCollides | sources/AABB.js:56-58 | a contained box collides |
| Boxes.SelfCollides | sources/AABB.js:56-58 | a box with min <= max collides with itself |
| Boxes.CollisionIsAsymmetric | sources/AABB.js:56-58 | a big box collides with a small one inside it, but not the other way round |
| Boxes.CrossingBoxesAreMissed | sources/AABB.js:56-58 | two overlapping boxes crossing like a plus sign do not collide either way |
| BoxCache.New | sources/AABB.js:25-29 | a new box has both caches empty, has as many axes as the longer input (at least one), and reads back its centre and extents zero-extended to that, exactly for inputs of the same non-zero length |
| BoxCache.GetPoints | sources/AABB.js:84-92 | the `points` getter fills the points cache; from a coherent state it answers the corners and stays coherent |
| BoxCache.GetPartitions | sources/AABB.js:60-68 | the `partitions` getter fills the partitions cache; from a coherent state it answers the partitions and stays coherent |
| BoxCache.SetPosition | sources/AABB.js:36-42 | the setter empties both caches, keeps the extents and sets the centre, each zero-extended when the new position is longer than the box |
| BoxCache.PartialInvalidationIsStale | sources/AABB.js:36-42 | emptying the points cache alone would leave stale partitions after a move |
| Spaces.New | sources/Space.js:7-12 | a new space keeps its labels in order and has size 1 |
| Spaces.OriginVector | sources/Space.js:16-18 | one zero per axis label |
| Spaces.Extents | sources/Space.js:19-21 | the size once per axis label; `[0]` for a space without labels |
| Spaces.RootBox | sources/Space.js:22-24 | min is -size/2 and max is size/2 on every labelled axis; the box is centred on the origin, has the space's extents, and has one axis per label, at least one |
| Spaces.RootBoxWithoutLabels | sources/Space.js:16-24 | without labels the root box is the one-axis box at 0 |
| Spaces.RootBoxOrdered | sources/Space.js:22-24 | a space of non-negative size has min <= max on every axis |
| SplitTree.IsRoot | sources/SplitTree.js:298-300 | `isRoot` holds exactly when the node's path is not a parent path extended by one slot, that is, when there is no parent link |
| SplitTree.Parent | sources/SplitTree.js:285-288 | the parent of a non-root node is its path without the last slot |
| SplitTree.Depth | sources/SplitTree.js:285-288 | `depth` is the number of parent links up to the root |
| SplitTree.RootOf | sources/SplitTree.js:310-314 | following parent links from any node ends at the empty path, the node for which `isRoot` holds |
| SplitTree.NewRoot | sources/SplitTree.js:40-46 | a new tree is a single node over the space's box, listing nothing |
| SplitTree.NewChild | sources/SplitTree.js:34-39 | the child for slot i is over partition i of the parent, empty, and inside an ordered parent |
| SplitTree.Assign | sources/SplitTree.js:225-228 | storing in slot i grows the array with empty slots up to i and keeps every other slot |
| SplitTree.EnsureEntitiesIsDefined | sources/SplitTree.js:212-214 | an absent list becomes empty; a present list is kept unchanged |
| SplitTree.EnsureChildsIsDefined | sources/SplitTree.js:216-218 | an absent child array becomes empty; every slot is kept |
| SplitTree.EnsureChildIsDefined | sources/SplitTree.js:220-230 | slot i holds a child afterwards, a new child over partition i when it was empty; other slots are kept |
| SplitTree.Push | sources/SplitTree.js:56-58 | the id is appended to the node's list; the box and children are kept |
| SplitTree.FirstEnclosing | sources/SplitTree.js:150-156 | the reduce returns -1 when no partition from `from` on contains the box, else the first index that does |
| SplitTree.ContainingPartitionIndex | sources/SplitTree.js:149-157 | the least partition index whose half contains the box, or -1 exactly when none does |
| SplitTree.Insert | sources/SplitTree.js:49-67 | `DimensionMismatch` for another dimension, `OutOfBoundInsert` when the box is not contained, no other failure; the root box is kept |
| SplitTree.IndexOf | sources/SplitTree.js:175-175 | the first position of the element, or -1 exactly when it is absent |
| SplitTree.Remove | sources/SplitTree.js:175-178 | one occurrence of the id leaves the list, counted as a multiset; a list without the id is returned unchanged |
| SplitTree.Clean | sources/SplitTree.js:159-169 | an emptied child deletes itself from its parent's slot; an occupied one stays; other slots are kept |
| SplitTree.Detach | sources/SplitTree.js:171-180 | fails with `EntityNotFound` exactly when the node at the path does not list the id; the root box is kept |
| SplitTree.AssertHasEntity | sources/SplitTree.js:246-250 | succeeds exactly when the list holds the id, else `EntityNotFound` |
| SplitTree.ContainingChildFrom | sources/SplitTree.js:104-114 | the reduce returns the first slot from `from` on whose child contains the box, or nothing when none does |
| SplitTree.ContainingChild | sources/SplitTree.js:104-114 | the first child in slot order containing the box, or nothing when no child does |
| SplitTree.ContainingNode | sources/SplitTree.js:96-102 | the path leads to a node containing the box, none of whose children contains it, and each step of it goes from the node reached so far to its first child containing the box |
| SplitTree.DirectionOf | sources/SplitTree.js:252-256 | `BranchFunctionOnLeaf` exactly when there is no child array; else the first slot holding the child, or -1 exactly when none does |
| SplitTree.HasChild | sources/SplitTree.js:262-265 | `hasChild(i)` holds exactly when the child array is defined and slot i holds a node |
| SplitTree.HasEntities | sources/SplitTree.js:302-304 | `hasEntities` holds exactly when the list is defined and not empty |
| SplitTree.HasChilds | sources/SplitTree.js:306-308 | `hasChilds` holds exactly when the child array is defined and some slot of it holds a node, that is, when `hasChild(i)` holds for some i |
| SplitTree.IsLeaf | sources/SplitTree.js:294-296 | `isLeaf` holds exactly when `hasChild(i)` fails for every i |
| SplitTreeProps.InsertPlaces | sources/SplitTree.js:49-67 | after a successful insert the node at the returned path exists; its box contains the entity's box and no partition of it does |
| SplitTreeProps.InsertFrame | sources/SplitTree.js:52-65 | insert appends the id to the list at the returned path only; every other list is unchanged and every old node keeps its box |
| SplitTreeProps.InsertSucceeds | sources/SplitTree.js:49-51 | in a shaped tree insert succeeds exactly when the root contains the box |
| SplitTreeProps.InsertKeepsInvariants | sources/SplitTree.js:49-67 | insert keeps the tree shaped and pruned and leaves the root occupied |
| SplitTreeProps.DetachFrame | sources/SplitTree.js:171-180 | detach removes one occurrence of the id from the list at the path; every other list is unchanged and every remaining node keeps its box |
| SplitTreeProps.DetachKeepsInvariants | sources/SplitTree.js:159-180 | detach with `clean` keeps the tree shaped and pruned |
| SplitTreeProps.ChildHoldsEntity | sources/SplitTree.js:159-169 | in a pruned tree every child subtree lists some entity |
| SplitTreeProps.DetachLastEntity | sources/SplitTree.js:159-180 | detaching the only entity leaves just the root, listing nothing |
| SplitTreeProps.ShapedBelow | sources/SplitTree.js:34-39 | every node of a shaped tree is shaped and has the root's dimension |
| SplitTreeProps.ChildInsideParent | sources/SplitTree.js:220-229 | every child is over `partition(i)` of its parent and lies inside an ordered parent |
| SplitTreeProps.ContainingNodeFindsPlacement | sources/SplitTree.js:96-114 | `containingNode` of an inserted box is the node insert listed it at |
| Traversal.VisitSound | sources/SplitTree.js:232-236 | every listed path leads to a node |
| Traversal.VisitComplete | sources/SplitTree.js:232-236 | every node of the tree is listed |
| Traversal.BeforeIrreflexive | sources/SplitTree.js:232-236 | no path comes before itself |
| Traversal.VisitSorted | sources/SplitTree.js:232-236 | nodes are listed in pre-order: a node before its descendants, siblings in slot order |
| Traversal.ForEachFollowsVisit | sources/SplitTree.js:232-236 | `forEach` (Traversal.ForEach) hands func the nodes in exactly that pre-order |
| Traversal.SomeScanStops | sources/SplitTree.js:238-244 | `some` (Traversal.SomeScan) calls func on a prefix of the pre-order; every call but the last misses; it stops at the first hit and calls func on every node when there is none |
| Traversal.AnyNodeExists | sources/SplitTree.js:238-244 | `some` is true exactly when func holds at some node |
| Traversal.SomeEntitiesExists | sources/SplitTree.js:80-86 | `someEntities` (Traversal.SomeEntities) is true exactly when some list at or below the node has an id the callback accepts |
| Traversal.SomeEntitiesFromExists | sources/SplitTree.js:83-85 | the scan of the slots from i on is true exactly when some list below those slots has an accepted id |
| Entities.New | sources/Entity.js:15-25 | position, extents and colour are kept as given; not ghosted; no parent |
| Entities.EntityBox | sources/Entity.js:36-38 | the entity's box has as many axes as the longer of its position and extents, at least one |
| Entities.EntityBoxReadsBack | sources/Entity.js:36-38 | the entity's box reads back its position and extents zero-extended to its dimension, and exactly when both have the same non-zero length |
| Entities.SolidIffSized | sources/Entity.js:36-38 | the box has min != max exactly when some extent is not zero |
| Entities.MoveUnlinked | sources/Entity.js:30-33 | an entity without a parent takes the new position and answers false; nothing else changes |
| Entities.MoveKeepsSize | sources/Entity.js:27-34 | moving keeps whether the entity's box has a size |
| Entities.MovedBox | sources/SplitTree.js:206-206 | the box `moveEntity` checks has as many axes as the longer of the new position and the current box |
| Entities.MovedBoxIsNewBox | sources/SplitTree.js:198-207 | the box `moveEntity` checks is the box of the moved entity exactly when the position is not longer than the longer of the new position and the extents (at least one) |
| TreeIndex.NewIndex | sources/SplitTree.js:40-46 | a new tree records nothing and keeps the invariant |
| TreeIndex.ListedOnce | sources/SplitTree.js:55-59 | under the invariant an entity is listed in one node only, and once there |
| TreeIndex.InsertEntity | sources/SplitTree.js:49-67 | the insert failures; on success the entity is recorded with its fields and a parent link, and no other record changes |
| TreeIndex.InsertEntityFails | sources/SplitTree.js:49-51 | under the invariant insert fails exactly when the root does not contain the entity's box |
| TreeIndex.InsertEntityKeepsInv | sources/SplitTree.js:52-65 | insert keeps the invariant; the entity's parent names the one node listing it, where its box fits; no other list changed |
| TreeIndex.DetachEntity | sources/SplitTree.js:171-180 | `EntityNotFound` exactly when the node does not list the entity; on success the entity's parent is empty, nothing else in its record changes, and no other record changes |
| TreeIndex.DetachEntityKeepsInv | sources/SplitTree.js:171-180 | detach keeps the invariant; afterwards no list names the entity, and only the list at the path changed |
| TreeIndex.Reinsert | sources/SplitTree.js:198-203 | fails when the node does not list the entity; on success the entity has the new position and keeps its other fields except the parent link, and no other record changes |
| TreeIndex.ReinsertKeepsInv | sources/SplitTree.js:198-203 | reinsert keeps the invariant and stores the entity where its new box fits |
| TreeIndex.MoveEntity | sources/SplitTree.js:205-210 | another dimension throws; a box outside the root answers false and changes nothing; a successful answer is true exactly when the root contains the box, and then the index is what `reinsert` gives, with only the entity's record changed, to the new position |
| TreeIndex.MoveEntitySucceeds | sources/SplitTree.js:205-210 | under the invariant a move to a position with one component per axis never fails, and answers true whenever the root contains the moved box |
| TreeIndex.MoveEntityKeepsInv | sources/SplitTree.js:205-210 | a true answer keeps the invariant and stores the entity at its new position where its box fits |
| TreeIndex.Move | sources/Entity.js:27-34 | an entity without a parent takes the position and answers false; one with a parent answers what `moveEntity` on that node answers |
| TreeIndex.MoveUnlinkedKeepsInv | sources/Entity.js:30-33 | moving an entity no node lists keeps the invariant |
| TreeIndex.CollideAabb | sources/SplitTree.js:140-143 | throws exactly for another dimension; false for a query the root does not contain |
| TreeIndex.Collide | sources/SplitTree.js:145-147 | throws exactly when the entity's box has another dimension than the tree |
| TreeIndex.Scan | sources/SplitTree.js:118-123 | the callback accepts exactly a recorded entity other than `ignored` whose box `collideAABB` answers true for the query |
| TreeIndex.AncestorsScanExists | sources/SplitTree.js:127-136 | the loop over the ancestors (TreeIndex.AncestorsScan) finds a hit exactly when the own list of one of them has an id the callback accepts |
| TreeIndex.CollideSound | sources/SplitTree.js:116-138 | a true answer names a listed entity other than `ignored` that has a corner of the query inside its box, in the containing node's subtree or on one of its ancestors |
| TreeIndex.CollideFindsOther | sources/SplitTree.js:145-147 | `collide` is true only when some other listed entity has a corner of this entity's box inside its own |
| TreeIndex.ScanNeverThrows | sources/SplitTree.js:118-122 | under the invariant the callback's `collideAABB` never meets a box of another dimension |

## Findings

| source | as written | input that shows it | evidently intended | confidence | as-written member | corrected member |
|---|---|---|---|---|---|---|
| sources/AABB.js:80-82 | `partitionsCount` is `Math.pow(dimensionsCount, 2)`, the square D² | a 1-D box: `partitionsCount` is 1 but `partitions` has 2 boxes; a 3-D box: 9 against 8 | the number of partitions, 2^D (the two agree only for D = 2 and D = 4) | not executed | Boxes.PartitionsCountMismatch | Boxes.PartitionCount |

`partitionsCount` is read only by the commented-out bound check in
`partition`. The model uses `Boxes.PartitionCount` wherever a partition
index is bounded.

## Left out

- Vectors.Multiply: requires `other` to be at least as long as the receiver. A shorter `other` gives NaN components in JavaScript, and the reals have no NaN.
- `normalize` uses a square root and `reverseVector` reverses in place. Neither is used by the index.
- `toString`, `cutFuncName` and the error message texts are not modelled. Errors are the four `Outcomes.Error` values.
- The `array` getter and the `y` accessors are plain component access.
- Zero-dimension vectors are accepted, because the constructor's check for them is commented out. Every `mapToVector` result has at least one component, though, so every box has at least one axis.
- Vectors.X: requires a component, and so does Vectors.Time. On the empty vector the source reads `undefined`.
- Spaces.OriginVector: `this.map(() => 0)` on the `Space` array is read as one zero per label. The construction of the mapped array through the `Space` constructor is not modelled.
- Floating point: coordinates are `real`, so IEEE rounding is not modelled.
- SplitTree.Insert: requires a box with min != max, and so does TreeIndex.InsertEntity, which requires an extent that is not zero. For a single-point box every partition around the point still contains it, and the source recursion never ends.
- SplitTree.ContainingNode: requires the node to contain the box instead of modelling the plain `Error` thrown otherwise. Every caller checks the root first.
- SplitTree.ContainingChild: a child of another dimension would make `containsAABB` throw, but the model's containment is simply false there. In a shaped tree every child has the parent's dimension.
- Sparse arrays: `delete` in `detachEntity` and `clean` leaves a hole, and the `entity &&` guard in the scan callback skips it. Entity lists are modelled as sequences where removal keeps the order of the rest, and child slots as `Option` values.
- `Object.defineProperty` in the `ensure*` methods is modelled as plain assignment.
- `reduceEntities` and `containingNodes` are not used by the operations modelled.
- The `size`, `extents` and `position` getters of a node are not modelled separately. They are `Boxes.Extents` and `Boxes.Position` of the node's box.
- The child-construction guard in the constructor is a bare string expression with no effect. Children are created only through `ensureChildIsDefined`.
- `averageCollisions`, `collisionCount` and `logAverageCollisions` are a process-global diagnostic average and do not affect any answer.
- TreeIndex.CollideAabb: requires the tree invariant. On a tree holding an entity box of another dimension, the source's scan callback would throw partway through the scan, while the model's corner check is false.
- TreeIndex.CollideSound: states soundness only. The scan uses corner containment and reads only the ancestors' own lists, so overlapping boxes can be missed (`Boxes.CrossingBoxesAreMissed`).
- TreeIndex.Reinsert: a failure returns only the error. In the source, a throw from `insert` after a successful `detachEntity` leaves the entity detached.
  - This is reachable only when the box `moveEntity` checks and the moved entity's box differ (`Entities.MovedBoxIsNewBox`).
  - TreeIndex.MoveEntitySucceeds therefore asks for a new position with one component per axis.
- TreeIndex.Inv: records the test at which `insert` stops, not that the node is the one its first-fit descent reaches. A box on a midpoint plane passes that test in more than one node.
- TreeIndex.InsertEntityKeepsInv: requires that no node lists the entity yet. The source would list an entity a second time.
- TreeIndex.Move: requires, for an entity with a parent link only, that the link leads to a node and that the entity has a size; the invariant guarantees both.
- Callbacks of `forEach`, `some` and `someEntities` are pure. The effect of a `forEach` callback is a state threaded through the walk.
- Object identity is replaced by ids and paths:
  - `entity !== ignored` compares ids;
  - `parent` is the node's path;
  - the `root` getter follows the path to its empty prefix.
- The root-level copies of the sources, the named spaces table, the WebGL/DOM rendering code and the demo game logic are not part of this model.
