# Custom-GameEngine octree and instance bookkeeping in Dafny

This project models the parts of the engine that decide where objects
live and when they go away:

- **The dynamic octree** (`Octree::node`). It is a spatial index of object
  bounding regions. `build` splits a node's objects over its eight octants.
  `insert` places one object, handing it up the tree when the node does
  not contain it. `update` runs once per frame. It counts the node's
  lifespan down, drops regions of dead instances, prunes expired empty
  children, and re-homes moved objects through the pending queue,
  reporting their collisions. `processPending` drains that queue.
  `checkCollisionsRay` searches the tree for the nearest hit. `destroy`
  empties a subtree.
- **The bit-flag helpers** (`States::…`) over the `unsigned char` flag
  words that the octree (`activeOctants`) and the instances (`state`)
  use.
- **Vertex decoding** (`Vertex::genList`) and the index and count
  bookkeeping of tangent averaging (`Vertex::calcTanVectors`).
- **Scene instance bookkeeping**: the base-26 id counter
  (`Scene::generateId`) and deferred deletion (`Scene::markForDeletion`,
  `Scene::clearDeadInstances`).

The octree is a class `Octree.Tree` that owns an arena
`nodes: seq<Node>`:

- A node pointer is the node's index in the arena, and `Null` (-1) is
  `nullptr`.
- `new node(...)` appends a node. `free` unlinks it and leaves it in the
  arena, unreachable.
- `Nodes.Linked` is the shape every operation keeps:
  - a child's handle is larger than its parent's, and the child points
    back to the parent;
  - the child covers its octant of the parent's box;
  - the child is present exactly when its bit of `activeOctants` is set;
  - only a node that is not too small has children.
- `Nodes.AllCells` says every stored region's `cell` names the node that
  holds it.

The geometric tests are parameters, given as function values in
`Collisions.Env` and `Collisions.RayTests`:

- `intersectsWith`;
- the face tests of a collision mesh;
- `transform`;
- the ray tests.

Containment of a region in a node's box is modelled directly, as the
per-axis comparison of the region's extent.

Modules:

| file | module | contents |
|---|---|---|
| `states.dfy` | `States` | the flag helpers on `bv8`; walking a flag word by `>>= 1` |
| `bounds.dfy` | `Bounds` | boxes, regions, containment, `calculateBounds` and the octant geometry |
| `partition.dfy` | `Partition` | the first-fit octant assignment shared by `build` and `insert` |
| `nodes.dfy` | `Nodes` | the node record and the arena invariant |
| `subtree.dfy` | `Subtree` | subtrees of the arena: the parent chain, the child links, and the multiset of objects a subtree holds |
| `collisions.dfy` | `Collisions` | the collision gating of `checkCollisionsSelf` |
| `lifecycle.dfy` | `Lifecycle` | lifespan countdown, dead removal, moved-object stack, requeueing |
| `octree.dfy` | `Octree` | `Octree.Tree` and every `node::` operation |
| `mesh.dfy` | `Mesh` | `genList` and the counts of `calcTanVectors` |
| `scene.dfy` | `Scene` | the id counter and deferred deletion |

## Model

| member | source | states |
|---|---|---|
| States.IndexMask | LearnOpenGl/src/algorithms/states.hpp:29 | `1 << target` narrowed to the 8-bit word has exactly bit `target` set, and no bit at all for a target of 8 or more |
| States.IsIndexActive | LearnOpenGl/src/algorithms/states.hpp:17-30 | true exactly when the word has bit `target` set |
| States.ActivateIndex | LearnOpenGl/src/algorithms/states.hpp:33-46 | bit `target` is set afterwards, and every other bit is as before |
| States.UniquelyActivateIndex | LearnOpenGl/src/algorithms/states.hpp:49-67 | exactly bit `target` is set afterwards, and every other bit is clear |
| States.DeactivateIndex | LearnOpenGl/src/algorithms/states.hpp:70-84 | bit `target` is clear afterwards, and every other bit is as before |
| States.ToggleIndex | LearnOpenGl/src/algorithms/states.hpp:87-100 | bit `target` is flipped, and every other bit is as before |
| States.IsActive | LearnOpenGl/src/algorithms/states.hpp:103-106 | true exactly when the word and `state` have a set bit in common |
| States.Activate | LearnOpenGl/src/algorithms/states.hpp:109-112 | a bit is set afterwards exactly when it was set in the word or in `state` |
| States.UniquelyActivate | LearnOpenGl/src/algorithms/states.hpp:115-118 | as written (`&=`): a bit is set afterwards exactly when it was set in both; no bit is ever set |
| States.UniquelyActivateIntended | LearnOpenGl/src/algorithms/states.hpp:115-118 | corrected: afterwards the word's bits are exactly those of `state` |
| States.UniquelyActivateIntendedActivates | LearnOpenGl/src/algorithms/states.hpp:115-118 | after the corrected helper, a non-empty `state` reads active and equals the whole word |
| States.UniquelyActivateLosesState | LearnOpenGl/src/algorithms/states.hpp:115-118 | on the empty word, the helper as written leaves bit 0 inactive, while the corrected one activates it |
| States.Deactivate | LearnOpenGl/src/algorithms/states.hpp:121-124 | a bit is set afterwards exactly when it was set in the word and not in `state` |
| States.Toggle | LearnOpenGl/src/algorithms/states.hpp:127-130 | exactly the bits of `state` are flipped |
| States.ActivateIndexIdempotent | LearnOpenGl/src/algorithms/states.hpp:33-46 | activating a bit twice is activating it once, and the bit then reads active |
| States.ToggleIndexTwice | LearnOpenGl/src/algorithms/states.hpp:87-100 | toggling the same bit twice gives back the word |
| States.ActivateThenDeactivate | LearnOpenGl/src/algorithms/states.hpp:103-124 | a non-empty mask reads active after `activate` and inactive after `deactivate` |
| States.SpanIsHighestBit | LearnOpenGl/src/algorithms/octree.cpp:537-538 | a flag word reaches zero by `>>= 1` after one step more than its highest set bit, and after at most 8 steps |
| States.ShiftNext | LearnOpenGl/src/algorithms/octree.cpp:193-198 | in a `flags >>= 1, i++` walk, testing bit 0 of the shifted word tests bit `i` of the original, and `i` stays below 8 |
| States.ShiftEnd | LearnOpenGl/src/algorithms/octree.cpp:193-197 | when the shifted word reads zero, no bit at `i` or above was set |
| Bounds.Center | LearnOpenGl/src/algorithms/octree.cpp:8 | the centre of a well-formed box lies in the box |
| Bounds.Octant | LearnOpenGl/src/algorithms/octree.cpp:6-34 | octant `i` of a well-formed box is a well-formed box inside it, half as wide on each axis |
| Bounds.OctantHalves | LearnOpenGl/src/algorithms/octree.cpp:10-33 | on each axis, octant `i` spans one half of the parent, cut at the centre: O1 is `[center, max]` and O7 is `[min, center]` |
| Bounds.OctantsCover | LearnOpenGl/src/algorithms/octree.cpp:6-34 | every point of the parent lies in some octant |
| Bounds.OctantsOverlapOnlyOnFaces | LearnOpenGl/src/algorithms/octree.cpp:6-34 | a point strictly inside one octant is strictly inside no other |
| Bounds.OctantsDistinct | LearnOpenGl/src/algorithms/octree.cpp:6-34 | the eight octants of a box that is not too small are eight different boxes |
| Bounds.OctantShrinks | LearnOpenGl/src/algorithms/octree.cpp:89-94 | an octant of a box at least `MIN_BOUNDS` wide holds `MIN_BOUNDS` strictly fewer times, so splitting ends |
| Bounds.OctantOf | LearnOpenGl/src/algorithms/octree.cpp:6-34 | every choice of halves is covered by exactly one octant |
| Partition.Octants | LearnOpenGl/src/algorithms/octree.cpp:97-99 | the eight octant boxes of a node, in the order O1..O8 |
| Partition.FirstFit | LearnOpenGl/src/algorithms/octree.cpp:104-115 | the first octant from `j` on that contains the region: it contains it and none before it does; 8 when none does |
| Partition.TargetIs | LearnOpenGl/src/algorithms/octree.cpp:104-115 | the target of a region is the unique octant that contains it with no earlier octant containing it |
| Partition.FindOctant | LearnOpenGl/src/algorithms/octree.cpp:104-115 | the inner loop returns the lowest-index octant that contains the region, or 8 |
| Partition.BucketMembers | LearnOpenGl/src/algorithms/octree.cpp:102-116 | list `j` holds exactly the objects whose first containing octant is `j`; list 8 holds those that fit none |
| Partition.BucketFits | LearnOpenGl/src/algorithms/octree.cpp:104-110 | every object sent to octant `j` lies inside octant `j` |
| Partition.BucketCount | LearnOpenGl/src/algorithms/octree.cpp:102-116 | list `j` holds an object as many times as the node did when its first containing octant is `j` (8: none), and otherwise not at all |
| Partition.BucketsPartition | LearnOpenGl/src/algorithms/octree.cpp:102-116 | the object lists of the node and its eight octants together are, as a multiset, exactly the objects before the pass |
| Partition.AssignOctants | LearnOpenGl/src/algorithms/octree.cpp:102-116 | the erase-in-place loop leaves in the node exactly the objects that fit no octant, in order, and in list `j` those whose target is `j`, in order; `insert` also stamps their cells |
| Partition.WithCell | LearnOpenGl/src/algorithms/octree.cpp:135-137 | every object keeps everything but its `cell`, which names the node |
| Partition.BucketsBare | LearnOpenGl/src/algorithms/octree.cpp:102-116 | the objects that stay and those of the eight octant lists together, cells set aside, are the objects the pass started with |
| Partition.BucketWithCell | LearnOpenGl/src/algorithms/octree.cpp:102-137 | stamping the objects with a cell and assigning them to octants commute |
| Nodes.ChildLower | LearnOpenGl/src/algorithms/octree.cpp:119-127 | in a linked arena a child has a valid handle and is strictly shorter than its parent |
| Nodes.ChildrenDistinct | LearnOpenGl/src/algorithms/octree.cpp:119-127 | two slots of a node never hold the same child |
| Nodes.AddChild | LearnOpenGl/src/algorithms/octree.cpp:122-124 | linking a new child into slot `i` and setting bit `i` keeps the arena linked |
| Nodes.RemoveChild | LearnOpenGl/src/algorithms/octree.cpp:206-208 | nulling slot `i` and clearing bit `i` keeps the arena linked |
| Nodes.KeepLinks | LearnOpenGl/src/algorithms/octree.cpp:141-278 | changing only objects, queues and lifespans keeps the arena linked |
| Collisions.FaceHits | LearnOpenGl/src/algorithms/octree.cpp:404-419 | at most one report per face of the stored region, and none exactly when no face of it hits a face of the moved object |
| Collisions.ReportsGated | LearnOpenGl/src/algorithms/octree.cpp:385-466 | a stored region is reported at all exactly when it is of another instance and passes the coarse test and, when either side has mesh faces, the face test |
| Collisions.SelfEventsExactly | LearnOpenGl/src/algorithms/octree.cpp:384-468 | a collision is reported exactly for each stored region of another instance that passes the coarse test and, when either side has mesh faces, the face test |
| Collisions.SelfEventsCount | LearnOpenGl/src/algorithms/octree.cpp:384-468 | each stored region is reported as many times as it is stored, times once per colliding face when both sides carry a mesh (case 1 leaves only the inner face loop) and at most once otherwise |
| Collisions.SelfEventsSkipOwnInstance | LearnOpenGl/src/algorithms/octree.cpp:386-388 | a region is never reported as colliding with a region of its own instance |
| Lifecycle.LifeSpanStepKeeps | LearnOpenGl/src/algorithms/octree.cpp:146-167 | the countdown stays within `-1..maxLifeSpan`, never rises once started, and `maxLifeSpan` never falls and stays at most 256 |
| Lifecycle.IdleReachesZero | LearnOpenGl/src/algorithms/octree.cpp:147-158 | an empty leaf whose countdown has not started reaches 0 after exactly `maxLifeSpan + 1` frames and stays there |
| Lifecycle.IdleCountsDown | LearnOpenGl/src/algorithms/octree.cpp:154-157 | from a started countdown `c`, `k` idle frames leave `c - k`, floored at 0 |
| Lifecycle.WithoutMembers | LearnOpenGl/src/algorithms/octree.cpp:170-178 | after dead removal an object remains exactly when it was there and its instance is not dead |
| Lifecycle.WithoutCounts | LearnOpenGl/src/algorithms/octree.cpp:170-178 | dead removal keeps the multiplicity of every live object and drops every dead one |
| Lifecycle.RemoveDead | LearnOpenGl/src/algorithms/octree.cpp:170-178 | the erase loop with its `i--, listSize--` fix-up leaves exactly the live objects, in order |
| Lifecycle.FlaggedIsActive | LearnOpenGl/src/algorithms/octree.cpp:172-183 | a region carries a flag exactly when `States::isActive` reads that flag on its instance's state word |
| Lifecycle.MovedIndicesSound | LearnOpenGl/src/algorithms/octree.cpp:181-187 | every index on the stack names a moved object, and the indices rise strictly from bottom to top |
| Lifecycle.MovedIndexOf | LearnOpenGl/src/algorithms/octree.cpp:181-187 | every moved object's index is on the stack |
| Lifecycle.TopOfStack | LearnOpenGl/src/algorithms/octree.cpp:231-238 | the index on top of a non-empty stack names a moved object at or above the one below it |
| Lifecycle.CollectMoved | LearnOpenGl/src/algorithms/octree.cpp:181-190 | every moved object is transformed in place, the others kept, and the stack holds the moved indices |
| Lifecycle.EraseStep | LearnOpenGl/src/algorithms/octree.cpp:238-257 | erasing at the top index of the stack erases the moved object that index named, because nothing below it has been erased yet |
| Lifecycle.Attached | LearnOpenGl/src/algorithms/octree.cpp:60-67 | each queued region belongs to the instance and keeps its mesh and cell |
| Lifecycle.Requeued | LearnOpenGl/src/algorithms/octree.cpp:291-303 | the loop puts back at most as many objects as were queued |
| Lifecycle.RequeuedStep | LearnOpenGl/src/algorithms/octree.cpp:292-302 | each turn keeps the queue as the objects not yet visited followed by what the visited ones put back |
| Lifecycle.RequeuedMembers | LearnOpenGl/src/algorithms/octree.cpp:291-303 | a queued object the node does not contain is put back transformed |
| Lifecycle.RequeuedOnlyOutside | LearnOpenGl/src/algorithms/octree.cpp:291-303 | whatever is put back is a transformed queued object that the node does not contain |
| Lifecycle.Admitted | LearnOpenGl/src/algorithms/octree.cpp:291-303 | an object is inserted at the node exactly when it was queued and the node's region contains it |
| Lifecycle.AdmittedOrRequeued | LearnOpenGl/src/algorithms/octree.cpp:291-303 | every queued object is either inserted or put back: none is lost and none is doubled |
| Octree.InsertTarget | LearnOpenGl/src/algorithms/octree.cpp:315-330 | the node `insert` works on is the first one up from `n` that is empty, too small or containing the object, or none |
| Octree.Home | LearnOpenGl/src/algorithms/octree.cpp:239-248 | the node a moved object is queued at is at or above its node and contains it, unless it is the root |
| Octree.HomeKept | LearnOpenGl/src/algorithms/octree.cpp:239-248 | growing the arena does not change where a moved object is queued |
| Octree.SplitHolds | LearnOpenGl/src/algorithms/octree.cpp:97-127 | a childless node split by `build` holds, in the objects that stayed and its new children, exactly the objects it started with |
| Octree.PlacedHolds | LearnOpenGl/src/algorithms/octree.cpp:316-324 | placing an object directly grows the node's subtree by that object and changes nothing outside it |
| Octree.RedistributeHolds | LearnOpenGl/src/algorithms/octree.cpp:331-378 | a node whose objects and the new one were re-partitioned, and whose slots each gained their octant list, holds what it held and the new object besides |
| Octree.GrewByAdmitted | LearnOpenGl/src/algorithms/octree.cpp:291-303 | a subtree that gained the admitted objects of a queue prefix and then the next object when the region contains it gained the admitted objects of the longer prefix |
| Octree.PushedHas | LearnOpenGl/src/algorithms/octree.cpp:229-257 | the object of every popped index is among those pushed onto the queue of its home |
| Octree.PushedOnly | LearnOpenGl/src/algorithms/octree.cpp:229-257 | only objects of popped indices whose home is that node are pushed onto a node's queue |
| Octree.ChildUpdated | LearnOpenGl/src/algorithms/octree.cpp:214-227 | updating one active child keeps the loop invariant: the child is ticked, and its siblings, the node and everything outside the node's subtree lie outside the child's subtree |
| Octree.PrunedOutside | LearnOpenGl/src/algorithms/octree.cpp:192-211 | pruning changes nothing outside the node's subtree |
| Octree.StoredInChild | LearnOpenGl/src/algorithms/octree.cpp:471-483 | a region stored in the subtree of a child is stored strictly below the node |
| Octree.StoredAtParent | LearnOpenGl/src/algorithms/octree.cpp:269-272 | a region of the parent of a node on the way up is stored at a proper ancestor |
| Octree.LinkedIsShaped | LearnOpenGl/src/algorithms/octree.cpp:552-574 | a linked arena has the shape `destroy` needs |
| Octree.ClearedByTrans | LearnOpenGl/src/algorithms/octree.cpp:552-574 | clearing twice is clearing, and an emptied node stays empty |
| Octree.RayScanReachesNull | LearnOpenGl/src/algorithms/octree.cpp:537-544 | a linked root whose only child is in octant 1 makes the child loop as written read the null slot 0 |
| Octree.Tree.constructor | LearnOpenGl/src/algorithms/octree.cpp:45-53 | a new tree is one empty, unbuilt root with no children, and is linked |
| Octree.Tree.Build | LearnOpenGl/src/algorithms/octree.cpp:70-138 | a leaf (≤1 object or too small) keeps its children and bits; otherwise the node keeps the objects that fit no octant and gets a new built child for each octant that received objects. Either way the node ends built and ready, with every object's cell naming it; other old nodes are unchanged and the arena stays linked. A node without children ends up holding, over its whole subtree, exactly the objects it started with (as a multiset, cells set aside) |
| Octree.Tree.Split | LearnOpenGl/src/algorithms/octree.cpp:97-127 | the node keeps exactly the objects that fit no octant, and each non-empty octant gets a new child handle; a node without children then holds over its subtree exactly the objects it started with |
| Octree.Tree.SetVars | LearnOpenGl/src/algorithms/octree.cpp:129-137 | the node ends built and ready with every object's cell naming it, and holds over its subtree what it held; a leaf without children holds exactly its objects |
| Octree.Tree.PopulateNew | LearnOpenGl/src/algorithms/octree.cpp:118-127 | each octant with a non-empty list gets a new built child in its slot, and that slot then holds exactly the list; other slots keep their child and what it held |
| Octree.Tree.BuildChild | LearnOpenGl/src/algorithms/octree.cpp:120-126 | a new child is linked into slot `i` and built, so that slot holds exactly the list; the other slots hold what they held |
| Octree.Tree.Insert | LearnOpenGl/src/algorithms/octree.cpp:308-381 | true exactly when some node from `n` up is empty, too small or contains the object; false leaves the tree unchanged. The target node either takes the object with its cell set, or keeps the re-partitioned objects that fit no octant, with a child (the existing one kept) in each octant that received objects. The target's subtree then holds what it held and the object besides, nothing outside that subtree changes, and queues and lifespans are untouched |
| Octree.Tree.Place | LearnOpenGl/src/algorithms/octree.cpp:316-324 | the object is appended to the node with its cell set; the subtree holds what it held and the object besides, and nothing else changes |
| Octree.Tree.Redistribute | LearnOpenGl/src/algorithms/octree.cpp:331-378 | the node and the object are re-partitioned with their cells stamped, every octant that received objects ends with a child, the node's subtree holds what it held and the object besides, and nothing outside that subtree changes |
| Octree.Tree.Reassign | LearnOpenGl/src/algorithms/octree.cpp:344-360 | the object joins the node, every object is stamped with the node, the node keeps those that fit no octant, and list `j` holds, in order, those whose first containing octant is `j` |
| Octree.Tree.AddBuiltChild | LearnOpenGl/src/algorithms/octree.cpp:371-376 | an empty slot gets a new built child and its bit is set; that slot then holds exactly the list, the other slots what they held, and no other old node changes |
| Octree.Tree.PopulateInsert | LearnOpenGl/src/algorithms/octree.cpp:361-378 | an octant list goes into the existing child or into a new built child, and each slot then holds what it held and its octant list besides; empty octants keep their slot, and nothing outside the node's subtree changes |
| Octree.Tree.PopulateSlot | LearnOpenGl/src/algorithms/octree.cpp:363-377 | slot `i` grows by exactly its list, through the existing child or a new built one; an empty list changes nothing, and the other slots and everything outside the node's subtree are kept |
| Octree.Tree.InsertAll | LearnOpenGl/src/algorithms/octree.cpp:365-369 | inserting an octant's objects into its child grows that slot by exactly the list, leaves the other slots as they held, and changes nothing outside the child's subtree |
| Octree.Tree.InsertEach | LearnOpenGl/src/algorithms/octree.cpp:366-368 | inserting each object of a list into a node that contains them all grows its subtree by exactly the list and changes nothing outside it |
| Octree.Tree.ChildOctants | LearnOpenGl/src/algorithms/octree.cpp:332-342 | taking an octant from the child when there is one gives the same boxes as `calculateBounds` |
| Octree.Tree.Update | LearnOpenGl/src/algorithms/octree.cpp:141-278 | the tree stays valid, the node ends built, its lifespans follow the countdown step, every node outside its subtree only gains queued objects, and every reported collision is a gated one |
| Octree.Tree.UpdateBuilt | LearnOpenGl/src/algorithms/octree.cpp:146-273 | on a built and ready node: the tree stays valid and the node built, its lifespans follow the countdown step, every node outside its subtree only gains queued objects, and every reported collision is gated |
| Octree.Tree.UpdateChildren | LearnOpenGl/src/algorithms/octree.cpp:214-227 | every active child that was built and ready takes its own countdown step; the node itself and every node outside its subtree only gain queued objects; every reported collision is gated |
| Octree.Tree.UpdateSlot | LearnOpenGl/src/algorithms/octree.cpp:219-224 | one slot of the child loop keeps its invariant: the child reached takes its countdown step, and the nodes outside its subtree only gain queued objects |
| Octree.Tree.Tick | LearnOpenGl/src/algorithms/octree.cpp:146-167 | only the node's `currentLifeSpan` and `maxLifeSpan` change, as the countdown step gives them |
| Octree.Tree.SortObjects | LearnOpenGl/src/algorithms/octree.cpp:169-190 | the node keeps its live objects in order, the moved ones transformed, and the stack holds the moved indices |
| Octree.Tree.Prune | LearnOpenGl/src/algorithms/octree.cpp:192-211 | each active child at lifespan 0 is reset to -1 when it holds objects and is otherwise unlinked, with its bit cleared; nothing else changes |
| Octree.Tree.PruneSlot | LearnOpenGl/src/algorithms/octree.cpp:198-209 | one slot of the dead-branch loop, as above |
| Octree.Tree.Rehome | LearnOpenGl/src/algorithms/octree.cpp:229-273 | the node loses exactly its moved objects, in order, and each moved object is queued at its home. The queue of every node ends as its old queue followed by exactly the moved objects whose home it is, in the order they were popped; nothing else changes |
| Octree.Tree.RehomeTop | LearnOpenGl/src/algorithms/octree.cpp:231-273 | popping the top index keeps the loop invariant: the node has lost the objects of every popped index, and every queue is its old queue followed by exactly the popped objects whose home it is |
| Octree.Tree.MoveOut | LearnOpenGl/src/algorithms/octree.cpp:238-272 | the object at `top` is erased from the node and pushed onto its home's queue, and every collision reported names it and is gated |
| Octree.Tree.FindHome | LearnOpenGl/src/algorithms/octree.cpp:239-248 | the walk up ends at the first node that contains the object, or at the root |
| Octree.Tree.CheckSelf | LearnOpenGl/src/algorithms/octree.cpp:384-468 | the collisions reported are the gated ones against the node's objects, in list order, each region reported once, or once per face of it that hits a face of the moved object when both carry a collision mesh |
| Octree.Tree.CheckChildren | LearnOpenGl/src/algorithms/octree.cpp:471-483 | every collision reported is gated and is against a region stored in a descendant of `n` that its child links reach |
| Octree.Tree.CheckAncestors | LearnOpenGl/src/algorithms/octree.cpp:269-272 | every collision reported is gated and is against a region stored at a proper ancestor of `n` on its parent chain |
| Octree.Tree.ProcessPending | LearnOpenGl/src/algorithms/octree.cpp:281-305 | an unbuilt node appends its whole queue, in order, to its objects and is built; when it had no children its subtree then holds exactly its old objects and queue. A built node keeps on its queue exactly the queued objects it does not contain, transformed and in order, its subtree gains exactly the ones it contains, and its counters are unchanged. Nothing outside its subtree changes |
| Octree.Tree.DrainQueue | LearnOpenGl/src/algorithms/octree.cpp:284-287 | the queue is moved to the end of the objects in FIFO order and left empty |
| Octree.Tree.RetryQueue | LearnOpenGl/src/algorithms/octree.cpp:291-303 | after exactly the original queue length of turns, the queue holds the requeued objects and the subtree has gained exactly the admitted ones; nothing outside it changes |
| Octree.Tree.RetryFront | LearnOpenGl/src/algorithms/octree.cpp:292-302 | the front object is inserted, growing the subtree by it, or pushed back transformed, then popped |
| Octree.Tree.RetryHead | LearnOpenGl/src/algorithms/octree.cpp:292-301 | the front object is inserted when the node contains it, growing the subtree by it, or otherwise pushed back transformed |
| Octree.Tree.AddToPending | LearnOpenGl/src/algorithms/octree.cpp:60-67 | the model's regions, attached to the instance and transformed, are appended to the queue in order; nothing else changes |
| Octree.Tree.Ray | LearnOpenGl/src/algorithms/octree.cpp:486-549 | (corrected child loop) `tmin` never grows, and there is a hit exactly when it shrank. A hit is stored in the subtree reached by child links, at the distance reported for it. A box missed or entered at or after `tmin` gives no hit. No object of the node hits nearer than the result |
| Octree.Tree.RayChildren | LearnOpenGl/src/algorithms/octree.cpp:537-548 | (corrected child loop) the best distance never grows, there is a hit exactly when it is below `tmin`, and a hit is stored in the subtree reached by child links at the distance reported for it |
| Octree.Tree.RaySlot | LearnOpenGl/src/algorithms/octree.cpp:540-543 | one child's search: the best distance never grows, a hit is below `tmin` and stored in the subtree, and a new hit is stored in that child's subtree |
| Octree.Tree.RayObjects | LearnOpenGl/src/algorithms/octree.cpp:502-534 | the nearest object of the node hit before `tmin`, at its reported distance, with no object passed over hitting nearer |
| Octree.Tree.RayScanSlots | LearnOpenGl/src/algorithms/octree.cpp:537-544 | as written: the loop follows every slot below one past the highest active octant, without a bit test |
| Octree.Tree.Destroy | LearnOpenGl/src/algorithms/octree.cpp:552-574 | the node and each active child it had end with no objects and nothing queued, and its active slots are null while its bits are kept. Nodes before it are untouched, and no node is changed beyond being emptied and having slots nulled |
| Octree.Tree.DestroySlot | LearnOpenGl/src/algorithms/octree.cpp:558-563 | the child is destroyed and its slot nulled |
| Octree.Tree.EmptyNode | LearnOpenGl/src/algorithms/octree.cpp:568-573 | the node's objects and queue are emptied |
| Octree.Tree.NewChild | LearnOpenGl/src/algorithms/octree.cpp:122-124 | a new unbuilt child covering octant `i` is appended, linked into slot `i` with bit `i` set, and is strictly shorter than its parent |
| Octree.CalculateOctants | LearnOpenGl/src/algorithms/octree.cpp:97-99 | the eight octant boxes, in order |
| Octree.StampCells | LearnOpenGl/src/algorithms/octree.cpp:135-137 | every object keeps everything but its `cell`, which names the node |
| Mesh.GenList | LearnOpenGl/src/graphics/objects/mesh.cpp:4-28 | vertex `i` takes its position from floats `8i..8i+2`, its normal from `8i+3..8i+5` and its texture coordinate from `8i+6..8i+7`; its tangent is zero |
| Mesh.FlattenDecoded | LearnOpenGl/src/graphics/objects/mesh.cpp:4-28 | storing the decoded vertices again gives back the first `8n` floats |
| Mesh.DecodedFlatten | LearnOpenGl/src/graphics/objects/mesh.cpp:4-28 | storing vertices and decoding them again gives back everything but the tangents |
| Mesh.CountFaces | LearnOpenGl/src/graphics/objects/mesh.cpp:31-68 | each vertex's `unsigned char` count ends as the number of its occurrences in the index list, modulo 256 |
| Mesh.AverageAsWritten | LearnOpenGl/src/graphics/objects/mesh.cpp:70-72 | as written: a vertex is divided once per occurrence among the first `list.size()` indices |
| Mesh.AverageAsWrittenMissesVertex | LearnOpenGl/src/graphics/objects/mesh.cpp:70-72 | with indices `[0,1,2,0,2,3]` over 4 vertices, vertex 0 is divided twice and vertex 3, which is in a face, never |
| Mesh.AverageEach | LearnOpenGl/src/graphics/objects/mesh.cpp:70-72 | corrected: every vertex is divided exactly once |
| Scene.Succ | LearnOpenGl/src/scene.cpp:725-737 | the next id has the same length and is again made of 'a'..'z' |
| Scene.SuccValue | LearnOpenGl/src/scene.cpp:725-737 | the next id, read as a base-26 number, is one more than the last, wrapping to 0 after all 'z' |
| Scene.SuccShape | LearnOpenGl/src/scene.cpp:726-735 | the last character that is not 'z' goes up by one, the 'z's after it become 'a', and the characters before it stay |
| Scene.SuccWraps | LearnOpenGl/src/scene.cpp:726-735 | an id of only 'z' becomes all 'a' |
| Scene.IterValue | LearnOpenGl/src/scene.cpp:725-737 | until the counter wraps, `k` calls advance the id's value by `k` |
| Scene.IdsDistinct | LearnOpenGl/src/scene.cpp:725-737 | ids handed out are pairwise different until the counter wraps (`26^8` ids from "aaaaaaaa") |
| Scene.AllAIsZero | LearnOpenGl/src/scene.cpp:27-28 | the counter of a new scene reads zero |
| Scene.FirstId | LearnOpenGl/src/scene.cpp:27-28 | the first id a new scene hands out is "aaaaaaab" |
| Scene.StatesOf | LearnOpenGl/src/scene.cpp:705-713 | the state word the octree reads for each instance is the instance's `state` |
| Scene.MarkedIsDead | LearnOpenGl/src/scene.cpp:705-713 | marking keeps every instance and every bit, makes the marked instance's regions read dead, and leaves other instances' deadness unchanged |
| Scene.Scene.constructor | LearnOpenGl/src/scene.cpp:27-28 | a new scene's counter is "aaaaaaaa", with no instances and nothing to delete |
| Scene.Scene.GenerateId | LearnOpenGl/src/scene.cpp:725-737 | the right-to-left walk leaves the counter at its successor and returns it |
| Scene.Scene.RemoveInstance | LearnOpenGl/src/scene.cpp:684-703 | the instance leaves the trie, and nothing else changes |
| Scene.Scene.MarkForDeletion | LearnOpenGl/src/scene.cpp:705-713 | `INSTANCE_DEAD` is set on the instance, its other bits are kept, and it is queued for deletion |
| Scene.Scene.ClearDeadInstances | LearnOpenGl/src/scene.cpp:716-722 | every queued instance, and no other, leaves the trie, and the queue is emptied |

## Left out

- Rendering, OpenGL and logging. The `Box` centre and size pushes in `update` (octree.cpp:143-144, 188-189) are purely observational and are not modelled, nor is the `std::cout` output.
- Floating-point geometry is not modelled. Coordinates are `real`, and `intersectsWith`, the face and sphere tests, `transform` and the ray tests are uninterpreted function values (`Collisions.Env`, `Collisions.RayTests`).
- Collision response is not modelled. `handleCollision` is a call into `RigidBody`, which is not part of this model, so a collision is recorded as a `Collisions.Collision` event.
- `bounds.cpp` is not part of this model. `containsRegion` is the per-axis comparison of the region's extent with the box, and a sphere's extent is its bounding cube.
- `octree.h` is not part of this model. `MIN_BOUNDS` and the default lifespan are the tree constants `minBounds` (> 0) and `lifeSpan`.
- `rigidbody.h` is not part of this model. `INSTANCE_DEAD` and `INSTANCE_MOVED` are taken to be the distinct single bits 0x01 and 0x02.
- An instance's `state` word is read from a map from instance id to word. Regions name their instance by id.
- Memory management is not modelled. `new node` appends to the arena, and `free` unlinks a node and leaves it in the arena. A pruned child that still has children of its own therefore leaks its subtree exactly as in the source.
- Octree.Tree.Update: its contract (and that of `Octree.Tree.UpdateBuilt`) states the invariants, the node's own countdown, that nodes outside its subtree only gain queued objects, and the gating of every reported event. The per-object effects are stated by the members it calls (`Octree.Tree.SortObjects`, `Octree.Tree.Prune`, `Octree.Tree.Rehome`, `Octree.Tree.ProcessPending`), not composed into one postcondition.
- Octree.Tree.UpdateChildren: states the countdown step of each active child and the queue-only frame; what each child's own update does below it is stated by `Octree.Tree.Update` for that child, not repeated here.
- Octree.Tree.Build: the promise that the subtree holds exactly the node's old objects is stated for a node without children. `build` is only ever called on such a node: a fresh child (octree.cpp:125, 375) or a node that was never built (octree.cpp:288).
- Octree.Tree.ProcessPending: on an unbuilt node the same promise is likewise stated for a node without children.
- States.IndexMask: the `States::` helpers are templates over any integer word (states.hpp:16-17); only the `unsigned char` instantiation (`bv8`) that `activeOctants` and the instance `state` use is modelled. `main.cpp`, which also applies them to the wider light masks, is not part of this model; on such a word `1 << target` is not narrowed, so a target of 8 or more does name a bit there.
- Octree.Tree.Destroy: stated one level deep. The node and its direct active children end empty, and every node is at most emptied. That every deeper descendant ends empty is not stated.
- Octree.Tree.CheckChildren: states what each reported collision is, not that every collision in the subtree is reported.
- Octree.Tree.CheckAncestors: states what each reported collision is, not that every collision in an ancestor is reported.
- Octree.Tree.Ray: the "no nearer hit" guarantee is stated for the node's own objects, not for the whole subtree.
- `Octree::node::insert` on an empty node appends the object without checking containment, even at the root (octree.cpp:316-324). The model does the same.
- A non-empty node never resets `currentLifeSpan` (octree.cpp:160-167). `maxLifeSpan <<= 2` is modelled as `* 4`, which is exact for the values reached (at most 256).
- Pruning looks only at the child's own `objects` (octree.cpp:200), as in the source.
- The collision checks for a moved object start from `movedObj.cell`, the node it left, not the node where it was queued (octree.cpp:262-272), as in the source.
- `destroy` nulls the active slots but leaves `activeOctants` as it was (octree.cpp:552-574), so the arena after it is only `Octree.Shaped`, not linked. The model keeps that.
- In the ray object loop, a region entered later than `tmin` is skipped. With a mesh, the mesh distance must beat `tmin`. Without one, the entry must be strictly nearer. This follows octree.cpp:507-529.
- `Model::removeInstance` and the AVL of models are not part of this model. `Scene.Scene.RemoveInstance` only removes the id from the trie, which is modelled as a map.
- `instancesToDelete` holds `RigidBody*` in the source and ids here.
- Scene.Scene.ClearDeadInstances requires every queued id to be distinct and still in the trie. The source looks each one up, dereferences it and frees it, so a repeated or missing id is a use-after-free.
- Mesh.GenList: the vertices of `std::vector<Vertex>(noVertices)` are taken to start all zero (`mesh.h` is not part of this model), and the float array is a `seq<real>` at least `8 * noVertices` long. It requires `noVertices >= 0`: in the source a negative count makes the `std::vector` constructor throw, and that exception is not modelled.
- Mesh.CountFaces requires whole faces (`|indices| % 3 == 0`) and every index to name a vertex, because the source reads `indices[i+1]` and `indices[i+2]` and indexes `list` and `counts` with them.
- Mesh.AverageAsWritten requires at least `list.size()` indices, because the source reads `indices[i]` for every vertex `i`.
- The tangent arithmetic of `calcTanVectors` (the edge and UV products, the `+=`, the `/=`) is floating point and is not modelled. Only which counts result and which vertices are divided is modelled. A vertex in no face is divided by a zero count in the source. That division is not modelled.

## Findings

| source | as written | input that shows it | evidently intended | confidence | as-written member | corrected member |
|---|---|---|---|---|---|---|
| LearnOpenGl/src/algorithms/octree.cpp:537-544 | the child loop of `checkCollisionsRay` calls `children[i]->checkCollisionsRay` for every `i` until the shifted mask reads zero, with no bit test or null check | a root whose only child is in octant 1: `activeOctants` is 0x02, the loop runs for `i` = 0 and 1, and slot 0 is null | test `isIndexActive(&flags, 0)` and skip null slots, as the other `activeOctants` loops do | not executed | Octree.RayScanReachesNull | Octree.Tree.Ray |
| LearnOpenGl/src/algorithms/states.hpp:115-118 | `uniquelyActivate` computes `*states &= state`, which can only clear bits | the word 0x00 with `state` 0x01 stays 0x00, so the state does not read active | activate `state`, then mask every other bit off, as `uniquelyActivateIndex` does | not executed | States.UniquelyActivateLosesState | States.UniquelyActivateIntended |
| LearnOpenGl/src/graphics/objects/mesh.cpp:70-72 | the averaging loop runs `i` over `list.size()` but divides vertex `indices[i]` | 4 vertices with indices `[0,1,2,0,2,3]`: vertex 0 is divided twice and vertex 3 never | divide each vertex `i` of the list by its own count once | not executed | Mesh.AverageAsWrittenMissesVertex | Mesh.AverageEach |
