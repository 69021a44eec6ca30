# SpTree: a verified model of the Barnes-Hut space-partitioning tree

This project models the structural half of deeplearning4j's `SpTree`, the
2^D-ary tree that Barnes-Hut t-SNE uses to group points. Each node owns:

- an axis-aligned box: a corner (the centre) and a half-width per axis;
- a one-slot buffer of point indices (`QT_NODE_CAPACITY = 1`);
- the flags and counters that insertion updates in place: `isLeaf`,
  `size` and `cumSize`;
- its list of children.

The model is imperative where the source is:

- `SpTree` is a class with those fields, and `index` stays an array.
- `insert`, `subDivide` and `fill` are methods over a dynamic frame
  (`Repr`, `Valid()`).
- Every loop of the modelled code is a `for` loop with its invariants, except
  the `numChildren` loop of `init` (line 63). It starts at d = 1 and so
  runs zero times when D is 0, which a Dafny `for` cannot express. It is
  a `while` loop in `CountChildren`.
- `depth` and `isCorrect` are recursive functions, each with a loop
  method proved equal to it.

Files:

- `cells.dfy` (module `Cells`) covers boxes and their octants:
  - `Contains`, the closed per-axis box test;
  - the `numChildren` loop;
  - the per-axis loop that builds child slot i's box from bit d of i.

  It also proves that the 2^D child boxes cover the parent, lie inside it
  and meet only on its mid-planes.
- `rootbox.dfy` (module `RootBox`) covers the root box. Its corner is the
  per-axis mean. Its half-width follows the rule
  `max(max - mean, mean - min + EPS_THRESHOLD)`.
- `separation.dfy` (module `Separation`) covers the duplicate test, which
  reads coordinates 0 and 1 only. It also defines the measure that makes
  `insert`'s recursion terminate:
  - `MinSep` is the least separation between non-duplicate points.
  - A full leaf that subdivides holds two non-duplicate points, so its box
    is at least `MinSep` wide on axis 0 or 1.
  - Halving the box therefore lowers `Rank`.

  No fuel or depth bound is needed.
- `sptree.dfy` (module `SpTrees`) covers the class `SpTree`:
  - its two constructors;
  - `insert` and `subDivide`, split into one method per loop or step;
  - `fill`, `depth` and `isCorrect`.

  A ghost field `Inserted` records the indices a subtree has accepted,
  duplicates included. `cumSize` is always its length. In a leaf, the
  buffer is determined by it: a leaf holds nothing until its first
  accepted point and then holds that point's index, and every later index
  it accepted names a duplicate of that point.

Properties proved:

- A point outside the box is rejected and nothing changes.
- Every node whose box accepts the point counts it exactly once.
- An empty leaf stores the point.
- A duplicate of the stored point is absorbed with the buffer unchanged.
- Any other point turns a leaf into an internal node.
- An internal node hands the point to the first child slot whose box holds
  it, and only to that one.
- Such a slot always exists. So, with coordinates as real numbers, the
  closing `return false` of `insert` (line 114, "this should never
  happen") is unreachable in a well-formed tree. With doubles it is not;
  see "Left out".
- `subDivide` puts 2^D fresh leaves in front of the children, with the
  boxes of slots 0..2^D-1. It re-inserts the stored index into the first
  new child that accepts it and clears its buffer slot.
- A tree built by the constructors and `insert` has exactly 2^D children
  at every internal node (`Exact`), because only a leaf is subdivided.
  `subDivide` itself may be called on an internal node and then adds
  2^D more in front.
- `isLeaf` never returns to true, and a leaf stays a leaf for as long as
  every point it accepts is a duplicate of its first.
- `fill(n)` on the root accepts all of 0..n-1, because the root box holds
  every point. The root ends as a leaf exactly when points 0..n-1 agree
  with point 0 on axes 0 and 1, and it then holds index 0.
- The counter step of `insert` (line 80) comes before the buffer and the
  children are touched. The model takes it just before each path that
  returns true, which leaves the same state whenever the point is
  accepted.

## Model

| member | source | states |
|---|---|---|
| Cells.CountChildren | deeplearning4j-core/src/main/java/org/deeplearning4j/clustering/sptree/SpTree.java:63-64 | the child count starts at 2 (line 31) and doubles for each axis after the first, giving 2^D for D >= 1 and 2 for D = 0 |
| Cells.ChildBox | deeplearning4j-core/src/main/java/org/deeplearning4j/clustering/sptree/SpTree.java:122-131 | the per-axis loop builds child i's box. Each half-width is half the parent's. On axis d the corner is moved down by half the width when bit (i / 2^d) % 2 is 1, and up otherwise |
| Cells.ChildrenCover | deeplearning4j-core/src/main/java/org/deeplearning4j/clustering/sptree/SpTree.java:108-114 | every point of a box lies in the box of some child slot below 2^D, so the loop over the children always finds one that accepts |
| Cells.ChildWithinParent | deeplearning4j-core/src/main/java/org/deeplearning4j/clustering/sptree/SpTree.java:122-131 | every point of a child box lies in the parent box |
| Cells.ChildrenMeetOnMidplanes | deeplearning4j-core/src/main/java/org/deeplearning4j/clustering/sptree/SpTree.java:122-131 | two different child boxes share only points on one of the parent's mid-planes, so away from them exactly one child accepts |
| Cells.FirstFromFacts | deeplearning4j-core/src/main/java/org/deeplearning4j/clustering/sptree/SpTree.java:108-111 | every slot before the one the scan stops at refuses the point, and the slot it stops at accepts the point when that slot is below 2^D |
| Cells.FirstChildExists | deeplearning4j-core/src/main/java/org/deeplearning4j/clustering/sptree/SpTree.java:108-111 | for a point of the box, the first accepting slot exists and is below 2^D |
| Cells.FirstFromIs | deeplearning4j-core/src/main/java/org/deeplearning4j/clustering/sptree/SpTree.java:108-111 | a left-to-right scan that stops at slot k, after every earlier slot refused, stops at the first accepting slot |
| RootBox.ColumnMin | deeplearning4j-core/src/main/java/org/deeplearning4j/clustering/sptree/SpTree.java:46 | the column minimum is at most every coordinate on that axis and is one of them |
| RootBox.ColumnMax | deeplearning4j-core/src/main/java/org/deeplearning4j/clustering/sptree/SpTree.java:47 | the column maximum is at least every coordinate on that axis and is one of them |
| RootBox.ComputeRootWidths | deeplearning4j-core/src/main/java/org/deeplearning4j/clustering/sptree/SpTree.java:49-52 | the loop sets half-width d to max(max - mean, mean - min + EPS_THRESHOLD) on every axis |
| RootBox.ComputeRootCell | deeplearning4j-core/src/main/java/org/deeplearning4j/clustering/sptree/SpTree.java:45-54 | the root box is centred on the mean and has the half-widths of the root rule, with D axes |
| RootBox.RootCellContainsAll | deeplearning4j-core/src/main/java/org/deeplearning4j/clustering/sptree/SpTree.java:45-54 | every point lies in the root box, strictly above its lower face on every axis |
| RootBox.RootCellUpperFaceTouched | deeplearning4j-core/src/main/java/org/deeplearning4j/clustering/sptree/SpTree.java:48-51 | the margin sits inside the second argument of the max (line 51), not outside it as the comment at line 48 says, so the largest coordinate of an axis can lie exactly on the upper face |
| Separation.SepXY | deeplearning4j-core/src/main/java/org/deeplearning4j/clustering/sptree/SpTree.java:94-97 | the separation on axes 0 and 1 is zero exactly when the duplicate test holds |
| Separation.RankOfChild | deeplearning4j-core/src/main/java/org/deeplearning4j/clustering/sptree/SpTree.java:119-131 | a child box, with half the parent's widths, never ranks above its parent |
| Separation.RankDrops | deeplearning4j-core/src/main/java/org/deeplearning4j/clustering/sptree/SpTree.java:94-104 | a box holding two non-duplicate points ranks strictly above each of its children, so the recursion through a subdividing leaf ends |
| SpTrees.SpTree.Child | deeplearning4j-core/src/main/java/org/deeplearning4j/clustering/sptree/SpTree.java:35-37 | the child constructor (init at lines 60-72) gives a valid empty leaf with the given box |
| SpTrees.SpTree.Root | deeplearning4j-core/src/main/java/org/deeplearning4j/clustering/sptree/SpTree.java:40-58 | the root constructor builds the root box and then fills indices 0..n-1, n standing for the N field read at line 55. All of them are accepted and cumSize is n. The root is a leaf exactly when points 0..n-1 agree with point 0 on axes 0 and 1, and then it holds index 0 (nothing for n = 0). Every internal node of the tree built has exactly 2^D children |
| SpTrees.SpTree.FilledShape | deeplearning4j-core/src/main/java/org/deeplearning4j/clustering/sptree/SpTree.java:264-267 | a node that has accepted exactly 0..n-1, and stayed a leaf if they were all duplicates, is a leaf exactly when they were, and then holds index 0 |
| SpTrees.SpTree.AcceptedIsFilter | deeplearning4j-core/src/main/java/org/deeplearning4j/clustering/sptree/SpTree.java:264-267 | the indices fill(n) has a subtree accept are exactly those below n whose points lie in its box, in increasing order |
| SpTrees.SpTree.AcceptedAll | deeplearning4j-core/src/main/java/org/deeplearning4j/clustering/sptree/SpTree.java:264-267 | when the box holds every point below n, fill(n) accepts 0..n-1 in order |
| SpTrees.SpTree.Fill | deeplearning4j-core/src/main/java/org/deeplearning4j/clustering/sptree/SpTree.java:264-267 | fill inserts 0..n-1 in order. The subtree accepts exactly the indices whose points it contains, and cumSize grows by their number. A leaf that accepted only duplicates of its first point is still a leaf, an internal node stays internal, and a tree with exactly 2^D children per internal node keeps that shape |
| SpTrees.SpTree.Insert | deeplearning4j-core/src/main/java/org/deeplearning4j/clustering/sptree/SpTree.java:75-115 | a point outside the box gives false and leaves the whole subtree unchanged. Otherwise it gives true and counts the point once. A leaf with a free slot stores it. A duplicate on axes 0 and 1 leaves the leaf and its buffer as they were. Any other point turns a leaf into an internal node with 2^D children: the stored index goes to the first new slot whose box holds it, the point to the first slot whose box holds it, and the other slots stay empty. An internal node passes the point to the first accepting child only. A node never becomes a leaf again, and a leaf whose accepted points are all duplicates stays a leaf. An empty leaf child that receives the point holds just it. A tree with exactly 2^D children per internal node keeps that shape |
| SpTrees.SpTree.Count | deeplearning4j-core/src/main/java/org/deeplearning4j/clustering/sptree/SpTree.java:80 | an accepted point increments cumSize by one and is recorded; a leaf counts it this way only when it duplicates the stored point |
| SpTrees.SpTree.Split | deeplearning4j-core/src/main/java/org/deeplearning4j/clustering/sptree/SpTree.java:103-111 | at a full leaf, a point that is no duplicate of the stored one is counted and the leaf becomes an internal node with buffer [-1] and 2^D children. The stored index goes to the first slot whose box holds it, the point to the first slot whose box holds it. Every other slot is an empty leaf; the slot of the stored index, if the point went elsewhere, is a leaf holding just that index; the point's slot, if it differs, is a leaf holding just the point. The node then has exactly 2^D children at every internal node below it |
| SpTrees.SpTree.LeafBuffer | deeplearning4j-core/src/main/java/org/deeplearning4j/clustering/sptree/SpTree.java:86-89 | a well-formed leaf that has accepted nothing has size 0; one that has accepted something has size 1 and holds the first index it accepted |
| SpTrees.SpTree.Store | deeplearning4j-core/src/main/java/org/deeplearning4j/clustering/sptree/SpTree.java:80-89 | a leaf with a free slot counts the point (line 80), writes the index into slot size and increments size |
| SpTrees.SpTree.Descend | deeplearning4j-core/src/main/java/org/deeplearning4j/clustering/sptree/SpTree.java:107-114 | the children loop always ends with an acceptance, by the first slot whose box holds the point, and an empty leaf there stores it. Every other child's whole subtree is unchanged |
| SpTrees.SpTree.Offer | deeplearning4j-core/src/main/java/org/deeplearning4j/clustering/sptree/SpTree.java:109 | offering point i to slot j succeeds exactly when child j's box holds it, and an empty leaf child then stores the index. Every other child's whole subtree is unchanged |
| SpTrees.SpTree.InsertInChild | deeplearning4j-core/src/main/java/org/deeplearning4j/clustering/sptree/SpTree.java:109 | the recursive insert into child j, seen from the child: its contract restricted to that child |
| SpTrees.SpTree.NewChildren | deeplearning4j-core/src/main/java/org/deeplearning4j/clustering/sptree/SpTree.java:122-137 | the loop creates one fresh empty leaf per slot, in slot order, child l having the box of slot l; their footprints are disjoint |
| SpTrees.SpTree.AddChildren | deeplearning4j-core/src/main/java/org/deeplearning4j/clustering/sptree/SpTree.java:122-136 | the child loops create one fresh empty leaf per slot and put them in front of the old children, changing no other field of the node |
| SpTrees.SpTree.Prepend | deeplearning4j-core/src/main/java/org/deeplearning4j/clustering/sptree/SpTree.java:132-135 | adding child i at position i for each slot puts the new children in front of any existing ones |
| SpTrees.SpTree.SubDivide | deeplearning4j-core/src/main/java/org/deeplearning4j/clustering/sptree/SpTree.java:119-152 | subDivide puts 2^D fresh leaves in front of the old children. The stored index goes to the first new slot whose box holds it, which becomes a leaf of size 1 holding it; the other new slots are empty leaves of size 0. The buffer slot is set to -1, and the node becomes an internal node with size 0. On a node with an empty buffer, such as an internal node, everything below the node itself, old children included, is left unchanged |
| SpTrees.SpTree.MoveAll | deeplearning4j-core/src/main/java/org/deeplearning4j/clustering/sptree/SpTree.java:139-147 | every stored index is moved to the first new child that accepts it, which then holds just that index; every other new child stays an empty leaf, and the slot is set to -1. With an empty buffer, nothing at all changes |
| SpTrees.SpTree.MoveDown | deeplearning4j-core/src/main/java/org/deeplearning4j/clustering/sptree/SpTree.java:141-145 | the success flag loop stores the index in the first new child whose box holds it. No other child's accepted indices change, and every new child stays a leaf |
| SpTrees.SpTree.BecomeInternal | deeplearning4j-core/src/main/java/org/deeplearning4j/clustering/sptree/SpTree.java:149-151 | emptying the node and clearing isLeaf keeps the tree well formed |
| SpTrees.SpTree.Depth | deeplearning4j-core/src/main/java/org/deeplearning4j/clustering/sptree/SpTree.java:252-262 | depth is at least 1, and exactly 1 for a leaf |
| SpTrees.SpTree.ComputeDepth | deeplearning4j-core/src/main/java/org/deeplearning4j/clustering/sptree/SpTree.java:252-262 | the loop of depth returns 1 plus the largest of child 0's depth, taken once per child, which is what Depth states |
| SpTrees.SpTree.Height | deeplearning4j-core/src/main/java/org/deeplearning4j/clustering/sptree/SpTree.java:252-262 | the height a depth query is meant to return: 1 plus the greatest child height, at least 1 |
| SpTrees.SpTree.MaxChildHeight | deeplearning4j-core/src/main/java/org/deeplearning4j/clustering/sptree/SpTree.java:257-258 | the maximum over all children, as the loop over i evidently intends, bounds every child's height and is attained |
| SpTrees.SpTree.DepthAtMostHeight | deeplearning4j-core/src/main/java/org/deeplearning4j/clustering/sptree/SpTree.java:252-262 | depth as written never exceeds the height |
| SpTrees.SpTree.DepthMissesDeeperChild | deeplearning4j-core/src/main/java/org/deeplearning4j/clustering/sptree/SpTree.java:257-258 | when child 0 is a leaf and child 1 is internal, depth is 2 while the height exceeds 2 |
| SpTrees.SpTree.CheckCorrect | deeplearning4j-core/src/main/java/org/deeplearning4j/clustering/sptree/SpTree.java:233-246 | the loops of isCorrect compute IsCorrect: the points data[0..size-1] lie in the box, and so on recursively for the first numChildren children |
| SpTrees.SpTree.ValidIsIndexedCorrect | deeplearning4j-core/src/main/java/org/deeplearning4j/clustering/sptree/SpTree.java:233-246 | every well-formed tree passes the check as intended, which reads the stored points data[index[n]] |
| SpTrees.IsCorrectRejectsValidLeaf | deeplearning4j-core/src/main/java/org/deeplearning4j/clustering/sptree/SpTree.java:235 | isCorrect rejects a well-formed leaf: it reads data[0] while the leaf stores index 1 |

## Left out

- computeNonEdgeForces and computeEdgeForces (lines 156-230) are not modelled. They are floating-point kernels (Student-t weights, sqrt, dot products) with an AtomicDouble accumulator meant for parallel callers.
- The centre-of-mass running mean (lines 81-84) is not modelled; it is floating-point arithmetic on INDArray.
- Coordinates are real numbers, not doubles. Nd4j's mean, min and max along the rows (lines 45-47) are modelled as exact column functions.
- EPS_THRESHOLD belongs to Nd4j, which is not part of this model. The value 1e-5 is the one the comment at line 48 uses.
- Cell.java is not part of this model. Cell.contains is taken to be the closed per-axis box test |p[d] - corner[d]| <= width[d]. Points of another dimension are outside.
- The aliasing in subDivide is not modelled: one newCorner/newWidth pair is reused for every child (lines 120-121, 68-69), and each modelled child holds its own box. If Cell.setCorner and Cell.setWidth kept the reference instead of copying it, every child would share the last slot's box.
- The parent back-reference (lines 29, 61), the buf scratch array and Serializable are not modelled. None of them is read by the modelled code. The N field is read once, by the call fill(N) at line 55; the root constructor's parameter n stands for it.
- SpTrees.SpTree.Descend: the proof that some child accepts holds for real coordinates only. With doubles, take a box with corner 1 + 2^-52 and half-width 2^-52 on one axis: its children's corners round to 1 and 1 + 2^-51, so the point 1 + 2^-52 lies in the box but in no child box. Then insert reaches the closing return false at line 114, and subDivide's loop at lines 139-146 clears the buffer slot without storing the index in any child, so the index is lost.
- Java's 32-bit int is not modelled: cumSize, size and numChildren are unbounded. numChildren = 2^D overflows for D >= 31.
- D >= 2 is required. The duplicate test reads coordinate 1, which a one-dimensional point does not have.
- SpTrees.SpTree.Insert requires i to be a row of data; data.slice would fail otherwise. The root constructor likewise requires n <= number of rows and at least one row.
- SpTrees.SpTree.SubDivide states the child boxes through the tree invariant Valid, not in its own ensures.
- The unused anyDuplicate flag (lines 92, 100-101) has no counterpart; its test can never succeed.

## Findings

| source | as written | input that shows it | evidently intended | confidence | as-written member | corrected member |
|---|---|---|---|---|---|---|
| deeplearning4j-core/src/main/java/org/deeplearning4j/clustering/sptree/SpTree.java:235 | isCorrect tests data.slice(n), the n-th point of the whole set | a leaf with box corner (3,3), half-width (1,1), over points [(0,0), (3,3)], holding index 1: the stored point is in the box, but isCorrect reads point 0 and reports false | test data.slice(index[n]), the stored point | high, not executed | SpTrees.IsCorrectRejectsValidLeaf | SpTrees.SpTree.ValidIsIndexedCorrect |
| deeplearning4j-core/src/main/java/org/deeplearning4j/clustering/sptree/SpTree.java:258 | depth takes children.get(0).depth() for every i | an internal node whose child 0 is a leaf while child 1 is internal: depth reports 2 | children.get(i).depth(), the maximum over all children | high, not executed | SpTrees.SpTree.DepthMissesDeeperChild | SpTrees.SpTree.MaxChildHeight |
