/** The Barnes-Hut space-partitioning tree: a 2^D-ary tree whose nodes own a
    box, a one-slot buffer of point indices and the counters that insertion
    updates in place. */
module SpTrees {
  import opened Cells
  import opened RootBox
  import opened Separation

  lemma ModBelow(j: nat, n: nat)
    requires j < n
    ensures j % n == j
  {
  }

  lemma ModShift(j: nat, n: nat)
    requires n > 0
    ensures (j + n) % n == j % n
  {
    var q, r := j / n, j % n;
    assert j == n * q + r;
    DivUnique(j + n, n, q + 1, r);
  }

  /** How many point indices a leaf holds directly. */
  const QtNodeCapacity: nat := 1

  class SpTree {
    const D: nat
    /** The point set, one row of D coordinates per point; shared by all nodes. */
    const data: seq<seq<real>>
    const boundary: Cell
    const numChildren: nat
    const index: array<int>
    var isLeaf: bool
    var size: nat
    var cumSize: nat
    var children: seq<SpTree>
    /** The indices this subtree accepted, in order, duplicates included. */
    ghost var Inserted: seq<nat>
    ghost var Repr: set<object>

    /** The dimensions agree: D >= 2 axes (the duplicate test reads two), a box
        and points of D coordinates, 2^D children per internal node. */
    ghost predicate Shaped()
    {
      2 <= D && numChildren == Pow2(D) &&
      |boundary.corner| == D && |boundary.width| == D &&
      Uniform(data, D)
    }

    /** The termination measure of insertion: the size of the box relative to
        the least separation between non-duplicate points. */
    ghost function BoxRank(): nat
      requires Shaped()
    {
      assert AtLeastTwo(data);
      Rank(boundary.width, MinSep(data, data))
    }

    ghost predicate Valid()
      reads this, Repr
      decreases Repr, 1
    {
      this in Repr && index in Repr && index.Length == QtNodeCapacity &&
      Shaped() &&
      size <= QtNodeCapacity &&
      cumSize == |Inserted| &&
      (forall k | 0 <= k < |Inserted| :: Inserted[k] < |data| && Contains(boundary, data[Inserted[k]])) &&
      (forall k | 0 <= k < size ::
         0 <= index[k] < |data| && Contains(boundary, data[index[k]]) &&
         (isLeaf ==> k < |Inserted| && index[k] == Inserted[k])) &&
      (isLeaf ==> children == []) &&
      (isLeaf ==> size == (if |Inserted| == 0 then 0 else 1)) &&
      (isLeaf ==> AllSameXY(Inserted)) &&
      (!isLeaf ==> size == 0 && numChildren <= |children|) &&
      ChildrenValid()
    }

    /** Every internal node of the subtree has exactly 2^D children, which is
        what insert builds: only a leaf is ever subdivided. */
    ghost predicate Exact()
      requires Valid()
      reads Repr
      decreases Repr
    {
      assert ChildrenValid();
      !isLeaf ==> |children| == numChildren && forall j | 0 <= j < |children| :: children[j].Exact()
    }

    /** Every index of s names a point with the same coordinates 0 and 1 as
        the first: what a leaf holds, since a leaf keeps one point and
        absorbs only its duplicates. */
    ghost predicate AllSameXY(s: seq<nat>)
      requires Shaped() && forall k | 0 <= k < |s| :: s[k] < |data|
    {
      forall k | 0 <= k < |s| :: SameXY(data[s[k]], data[s[0]])
    }

    /** One index whose point differs from the first's in coordinate 0 or 1
        is enough to break AllSameXY. */
    lemma NotAllSameXY(s: seq<nat>, k: nat)
      requires Shaped() && (forall m | 0 <= m < |s| :: s[m] < |data|)
      requires k < |s| && !SameXY(data[s[k]], data[s[0]])
      ensures !AllSameXY(s)
    {
    }

    /** A leaf's buffer is determined by what it accepted: empty until its
        first point, then holding that point's index. */
    lemma LeafBuffer()
      requires Valid() && isLeaf
      ensures Inserted == [] ==> size == 0
      ensures Inserted != [] ==> size == 1 && index[..] == [Inserted[0] as int]
    {
    }

    /** Every child is a valid node over the same points, owns a footprint
        apart from this node's and its siblings', and has the box of its slot. */
    ghost predicate ChildrenValid()
      reads this`children, this`Repr, Repr - {this, index}
      decreases Repr, 0
    {
      this in Repr && Shaped() &&
      (forall j | 0 <= j < |children| ::
         children[j] in Repr && children[j].Repr <= Repr &&
         children[j] in children[j].Repr && children[j].index in children[j].Repr &&
         this !in children[j].Repr && index !in children[j].Repr &&
         children[j].D == D && children[j].data == data &&
         children[j].boundary == ChildCell(boundary, j % numChildren) &&
         children[j].Valid()) &&
      (forall j, k | 0 <= j < k < |children| :: children[j].Repr !! children[k].Repr)
    }

    /** The constructor used for children: an empty leaf with the given box. */
    constructor Child(dims: nat, points: seq<seq<real>>, cell: Cell)
      requires 2 <= dims && |cell.corner| == dims && |cell.width| == dims
      requires Uniform(points, dims)
      ensures Valid() && fresh(Repr)
      ensures D == dims && data == points && boundary == cell
      ensures isLeaf && size == 0 && cumSize == 0 && children == [] && Inserted == []
      ensures Exact()
    {
      var n := CountChildren(dims);
      D := dims;
      data := points;
      boundary := cell;
      numChildren := n;
      index := new int[QtNodeCapacity];
      isLeaf := true;
      size := 0;
      cumSize := 0;
      children := [];
      Inserted := [];
      new;
      Repr := {this, index};
    }

    /** The root constructor: the box is centred on the per-axis mean of the
        points, its half-widths follow the root half-width rule, and the first
        n points are inserted in order. Every point lies in the root box, so
        all n are accepted. */
    constructor Root(dims: nat, points: seq<seq<real>>, n: nat)
      requires 2 <= dims && 1 <= |points| && Uniform(points, dims) && n <= |points|
      ensures Valid() && fresh(Repr)
      ensures D == dims && data == points && boundary == RootCell(points, dims)
      ensures Inserted == seq(n, k => k) && cumSize == n
      ensures isLeaf <==> forall k | 0 <= k < n :: SameXY(points[k], points[0])
      ensures isLeaf ==> size == (if n == 0 then 0 else 1) && (n > 0 ==> index[..] == [0])
      ensures Exact()
    {
      var cell := ComputeRootCell(points, dims);
      var c := CountChildren(dims);
      D := dims;
      data := points;
      boundary := cell;
      numChildren := c;
      index := new int[QtNodeCapacity];
      isLeaf := true;
      size := 0;
      cumSize := 0;
      children := [];
      Inserted := [];
      new;
      Repr := {this, index};
      RootCellContainsAll(points, dims);
      AcceptedAll(n);
      ghost var r0 := Repr;
      Fill(n);
      assert fresh(Repr) by {
        assert Repr == r0 + (Repr - r0);
      }
      FilledShape(n);
    }

    /** The indices below n whose points lie in this node's box, in the order fill offers them. */
    ghost function Accepted(n: nat): seq<nat>
      requires n <= |data|
    {
      if n == 0 then []
      else Accepted(n - 1) + (if Contains(boundary, data[n - 1]) then [n - 1] else [])
    }

    /** Accepted(n) holds exactly the indices below n whose points lie in the
        box, in increasing order. */
    lemma {:induction false} AcceptedIsFilter(n: nat)
      requires n <= |data|
      ensures forall k: nat :: k in Accepted(n) <==> k < n && Contains(boundary, data[k])
      ensures forall a, b | 0 <= a < b < |Accepted(n)| :: Accepted(n)[a] < Accepted(n)[b]
    {
      if n > 0 {
        AcceptedIsFilter(n - 1);
        var prev := Accepted(n - 1);
        assert forall a | 0 <= a < |prev| :: prev[a] in prev;
      }
    }

    /** When the box holds every one of the first n points, all of them are accepted. */
    lemma {:induction false} AcceptedAll(n: nat)
      requires n <= |data|
      requires forall k | 0 <= k < n :: Contains(boundary, data[k])
      ensures Accepted(n) == seq(n, k => k)
    {
      if n > 0 {
        AcceptedAll(n - 1);
        assert seq(n, k => k) == seq(n - 1, k => k) + [n - 1];
      }
    }

    /** fill: indices 0 .. n-1 are inserted in order; the subtree takes exactly
        those whose points lie in its box. */
    method Fill(n: nat)
      requires Valid() && n <= |data|
      modifies Repr
      ensures Valid() && fresh(Repr - old(Repr))
      ensures Inserted == old(Inserted) + Accepted(n)
      ensures cumSize == old(cumSize) + |Accepted(n)|
      ensures old(isLeaf) && AllSameXY(Inserted) ==> isLeaf
      ensures isLeaf ==> old(isLeaf)
      ensures old(Exact()) ==> Exact()
    {
      for i := 0 to n
        invariant Valid() && fresh(Repr - old(Repr))
        invariant Inserted == old(Inserted) + Accepted(i)
        invariant old(isLeaf) && AllSameXY(Inserted) ==> isLeaf
        invariant isLeaf ==> old(isLeaf)
        invariant old(Exact()) ==> Exact()
      {
        ghost var before := Inserted;
        var accepted := Insert(i);
        AllSameXYPrefix(before, Inserted[|before|..]);
      }
    }

    /** A node that has accepted exactly points 0 .. n-1, and stayed a leaf
        if they were all duplicates, is a leaf exactly when they were, and
        then holds point 0 (or nothing, for n = 0). */
    lemma FilledShape(n: nat)
      requires Valid() && n <= |data| && Inserted == seq(n, k => k)
      requires AllSameXY(Inserted) ==> isLeaf
      ensures isLeaf <==> forall k | 0 <= k < n :: SameXY(data[k], data[0])
      ensures isLeaf ==> size == (if n == 0 then 0 else 1) && (n > 0 ==> index[..] == [0])
    {
      AllSameXYOfPrefix(Inserted);
      if isLeaf {
        LeafBuffer();
      }
    }

    /** The first n indices all name duplicates exactly when every one of
        the first n points agrees with point 0 in coordinates 0 and 1. */
    lemma AllSameXYOfPrefix(s: seq<nat>)
      requires Shaped() && |s| <= |data| && forall m | 0 <= m < |s| :: s[m] == m
      ensures AllSameXY(s) <==> forall k | 0 <= k < |s| :: SameXY(data[k], data[0])
    {
      forall k | 0 <= k < |s|
        ensures SameXY(data[s[k]], data[s[0]]) == SameXY(data[k], data[0])
      {
        assert s[k] == k && s[0] == 0;
      }
    }

    /** A leaf that ends up holding only duplicates of one point held only
        duplicates at every earlier moment. */
    lemma AllSameXYPrefix(s: seq<nat>, t: seq<nat>)
      requires Shaped() && (forall m | 0 <= m < |s + t| :: (s + t)[m] < |data|)
      ensures (forall m | 0 <= m < |s| :: s[m] < |data|) && (AllSameXY(s + t) ==> AllSameXY(s))
    {
      assert forall m | 0 <= m < |s| :: s[m] == (s + t)[m];
    }

    /** Insertion of point i into this subtree. Returns false exactly when the
        point lies outside this node's box, and then changes nothing. */
    method Insert(i: nat) returns (ok: bool)
      requires Valid() && i < |data|
      modifies Repr
      decreases BoxRank(), if isLeaf && size == 0 then 0 else 1, Repr, 3
      ensures Valid() && fresh(Repr - old(Repr))
      ensures ok <==> Contains(boundary, data[i])
      ensures Inserted == old(Inserted) + (if ok then [i] else [])
      ensures cumSize == old(cumSize) + (if ok then 1 else 0)
      ensures !ok ==> Repr == old(Repr) && unchanged(old(Repr))
      ensures old(isLeaf) && old(size) == 0 ==> Repr == old(Repr)
      ensures old(isLeaf) && old(size) == 0 && ok ==> isLeaf && size == 1 && index[0] == i
      ensures old(isLeaf) && old(size) == 1 && ok && SameXY(data[i], data[old(index[0])]) ==>
                isLeaf && size == 1 && index[0] == old(index[0]) && Repr == old(Repr)
      ensures old(isLeaf) && old(size) == 1 && ok && !SameXY(data[i], data[old(index[0])]) ==>
                !isLeaf && size == 0 && index[..] == [-1] && |children| == numChildren &&
                var g := FirstChild(boundary, data[old(index[0])], numChildren);
                var f := FirstChild(boundary, data[i], numChildren);
                (forall l | 0 <= l < numChildren ::
                   children[l].Inserted ==
                     (if l == g then [old(index[0]) as nat] else []) + (if l == f then [i] else [])) &&
                (forall l | 0 <= l < numChildren && l != f ::
                   children[l].isLeaf &&
                   if l == g then children[l].size == 1 && children[l].index[..] == [old(index[0])]
                   else children[l].size == 0) &&
                f < numChildren &&
                (f != g ==> children[f].isLeaf && children[f].size == 1 && children[f].index[..] == [i])
      ensures !old(isLeaf) ==> !isLeaf && children == old(children)
      ensures !old(isLeaf) && ok ==>
                var f := FirstChild(boundary, data[i], numChildren);
                f < numChildren && children[f].Inserted == old(children[f].Inserted) + [i] &&
                (old(children[f].isLeaf) && old(children[f].size) == 0 ==>
                   children[f].isLeaf && children[f].size == 1 && children[f].index[..] == [i]) &&
                forall l | 0 <= l < |children| && l != f ::
                  children[l].Repr == old(children[l].Repr) && unchanged(old(children[l].Repr)) &&
                  children[l].Inserted == old(children[l].Inserted)
      ensures isLeaf ==> old(isLeaf)
      ensures old(isLeaf) && AllSameXY(Inserted) ==> isLeaf
      ensures old(Exact()) ==> Exact()
    {
      var point := data[i];
      if !Contains(boundary, point) {
        return false;
      }
      if isLeaf && size < QtNodeCapacity {
        Store(i);
        return true;
      }
      // A point whose first two coordinates equal a stored point's is absorbed.
      for k := 0 to size
        invariant forall l | 0 <= l < k :: !SameXY(point, data[index[l]])
      {
        if SameXY(point, data[index[k]]) {
          Count(i);
          return true;
        }
      }
      if isLeaf {
        ghost var p := index[0];
        assert Inserted[0] == p;
        ok := Split(i);
        NotAllSameXY(Inserted, |Inserted| - 1);
      } else {
        Count(i);
        ok := Descend(i, point, false);
      }
    }

    /** The end of insert at a full leaf whose point differs from point i:
        the leaf subdivides, which moves its point into the child whose box
        holds it, counts point i, and hands it to the first child whose box
        holds it. */
    method Split(i: nat) returns (ok: bool)
      requires Valid() && isLeaf && size == QtNodeCapacity
      requires i < |data| && Contains(boundary, data[i]) && !SameXY(data[i], data[index[0]])
      modifies Repr
      decreases BoxRank(), 1, Repr, 2
      ensures Valid() && fresh(Repr - old(Repr)) && ok
      ensures Inserted == old(Inserted) + [i] && cumSize == old(cumSize) + 1
      ensures !isLeaf && size == 0 && index[..] == [-1] && |children| == numChildren && Exact()
      ensures var g := FirstChild(boundary, data[old(index[0])], numChildren);
              var f := FirstChild(boundary, data[i], numChildren);
              (forall l | 0 <= l < numChildren ::
                 children[l].Inserted ==
                   (if l == g then [old(index[0]) as nat] else []) + (if l == f then [i] else [])) &&
              (forall l | 0 <= l < numChildren && l != f ::
                 children[l].isLeaf &&
                 if l == g then children[l].size == 1 && children[l].index[..] == [old(index[0])]
                 else children[l].size == 0) &&
              f < numChildren &&
              (f != g ==> children[f].isLeaf && children[f].size == 1 && children[f].index[..] == [i])
    {
      ghost var q := data[index[0]];
      assert Inserted[0] == index[0];
      SubDivide();
      LeafChildrenExact();
      Count(i);
      ok := Descend(i, q, true);
    }

    /** A node whose children are exactly 2^D leaves, as subDivide leaves a
        leaf, has exactly 2^D children at every internal node. */
    lemma LeafChildrenExact()
      requires Valid() && |children| == numChildren
      requires forall l | 0 <= l < numChildren :: children[l].isLeaf
      ensures Exact()
    {
      assert ChildrenValid();
    }

    /** The counter step of insert: a node whose box holds point i counts it.
        A leaf counts only a duplicate of the point it holds; any other point
        is counted once the leaf has been subdivided. */
    method Count(i: nat)
      requires Valid() && i < |data| && Contains(boundary, data[i])
      requires isLeaf ==> size > 0 && SameXY(data[i], data[index[0]])
      modifies this`cumSize, this`Inserted
      ensures Valid()
      ensures cumSize == old(cumSize) + 1 && Inserted == old(Inserted) + [i]
      ensures old(Exact()) ==> Exact()
    {
      cumSize := cumSize + 1;
      Inserted := Inserted + [i];
    }

    /** The leaf step of insert: the point is counted and index i goes into
        the first free slot of the buffer. */
    method Store(i: nat)
      requires Valid() && isLeaf && size < QtNodeCapacity
      requires i < |data| && Contains(boundary, data[i])
      modifies index, this`size, this`cumSize, this`Inserted
      ensures Valid()
      ensures cumSize == old(cumSize) + 1 && Inserted == old(Inserted) + [i]
      ensures size == old(size) + 1 && index[..] == old(index[..])[old(size) := i]
    {
      cumSize := cumSize + 1;
      Inserted := Inserted + [i];
      index[size] := i;
      size := size + 1;
    }

    /** The loop of insert that offers point i to the children in slot order
        until one accepts it. Some child always does: the children's boxes
        cover this node's box. When split holds, this node was a full leaf
        holding q, which is what makes the descent terminate. */
    method Descend(i: nat, ghost q: seq<real>, ghost split: bool) returns (ok: bool)
      requires Valid() && !isLeaf && i < |data| && Contains(boundary, data[i])
      requires split ==> Contains(boundary, q) && !SameXY(data[i], q) && MinSep(data, data) <= SepXY(data[i], q)
      modifies Repr - {this, index}, this`Repr
      decreases BoxRank(), if split then 0 else 1, Repr, 2
      ensures Valid() && fresh(Repr - old(Repr)) && ok
      ensures FirstChild(boundary, data[i], numChildren) < numChildren
      ensures var f := FirstChild(boundary, data[i], numChildren);
              children[f].Inserted == old(children[f].Inserted) + [i] &&
              (old(children[f].isLeaf) && old(children[f].size) == 0 ==>
                 children[f].isLeaf && children[f].size == 1 && children[f].index[..] == [i]) &&
              forall l | 0 <= l < |children| && l != f ::
                children[l].Repr == old(children[l].Repr) && unchanged(old(children[l].Repr)) &&
                children[l].Inserted == old(children[l].Inserted) && children[l].isLeaf == old(children[l].isLeaf) &&
                children[l].size == old(children[l].size) && children[l].index[..] == old(children[l].index[..])
      ensures old(Exact()) ==> Exact()
    {
      var point := data[i];
      for j := 0 to numChildren
        invariant Valid() && Repr == old(Repr) && unchanged(old(Repr))
        invariant forall l | 0 <= l < j :: !Contains(ChildCell(boundary, l), point)
      {
        ok := Offer(j, i, q, split);
        if ok {
          FirstFromIs(boundary, point, 0, numChildren, j);
          return;
        }
      }
      ChildrenCover(boundary, point);
      assert false;
      return false;
    }

    /** One step of the child loops of insert and subDivide: point i is offered
        to child slot j, which takes it exactly when its box contains it. */
    method Offer(j: nat, i: nat, ghost q: seq<real>, ghost split: bool) returns (ok: bool)
      requires ChildrenValid() && j < numChildren <= |children| && i < |data|
      requires split ==> Contains(boundary, data[i]) && Contains(boundary, q) &&
                         !SameXY(data[i], q) && MinSep(data, data) <= SepXY(data[i], q)
      modifies Repr - {this, index}, this`Repr
      decreases BoxRank(), if split || (children[j].isLeaf && children[j].size == 0) then 0 else 1, Repr, 1
      ensures ChildrenValid() && old(Repr) <= Repr && fresh(Repr - old(Repr))
      ensures ok <==> Contains(ChildCell(boundary, j), data[i])
      ensures !ok ==> Repr == old(Repr) && unchanged(old(Repr))
      ensures children[j].Inserted == old(children[j].Inserted) + (if ok then [i] else [])
      ensures forall l | 0 <= l < |children| && l != j ::
                children[l].Repr == old(children[l].Repr) && unchanged(old(children[l].Repr)) &&
                children[l].Inserted == old(children[l].Inserted) && children[l].isLeaf == old(children[l].isLeaf) &&
                children[l].size == old(children[l].size) && children[l].index[..] == old(children[l].index[..])
      ensures ok && old(children[j].isLeaf) && old(children[j].size) == 0 ==>
                children[j].isLeaf && children[j].size == 1 && children[j].index[..] == [i]
      ensures forall l | 0 <= l < |children| :: old(children[l].Exact()) ==> children[l].Exact()
    {
      var child := children[j];
      ok := InsertInChild(j, i, q, split);
      if ok {
        Repr := Repr + child.Repr;
        forall k | 0 <= k < |children| && k != j
          ensures children[k].Repr == old(children[k].Repr) && unchanged(old(children[k].Repr))
          ensures children[k].Inserted == old(children[k].Inserted) && children[k].isLeaf == old(children[k].isLeaf)
          ensures children[k].size == old(children[k].size) && children[k].index[..] == old(children[k].index[..])
          ensures children[k].Valid() == old(children[k].Valid())
          ensures children[k].Exact() == old(children[k].Exact())
          ensures children[k].Repr !! child.Repr
        {
          assert old(children[k].Repr) !! old(child.Repr);
        }
      }
    }

    /** The call children.get(j).insert(i) itself, seen from this node: what
        the child's insertion promises about the child alone. */
    method InsertInChild(j: nat, i: nat, ghost q: seq<real>, ghost split: bool) returns (ok: bool)
      requires ChildrenValid() && j < numChildren <= |children| && i < |data|
      requires split ==> Contains(boundary, data[i]) && Contains(boundary, q) &&
                         !SameXY(data[i], q) && MinSep(data, data) <= SepXY(data[i], q)
      modifies children[j].Repr
      decreases BoxRank(), if split || (children[j].isLeaf && children[j].size == 0) then 0 else 1, Repr, 0
      ensures children[j].Valid() && fresh(children[j].Repr - old(children[j].Repr))
      ensures ok <==> Contains(ChildCell(boundary, j), data[i])
      ensures !ok ==> children[j].Repr == old(children[j].Repr) && unchanged(old(children[j].Repr))
      ensures children[j].Inserted == old(children[j].Inserted) + (if ok then [i] else [])
      ensures ok && old(children[j].isLeaf) && old(children[j].size) == 0 ==>
                children[j].isLeaf && children[j].size == 1 && children[j].index[..] == [i]
      ensures old(children[j].Exact()) ==> children[j].Exact()
    {
      var child := children[j];
      if split {
        RankDrops(boundary, j, data[i], q, MinSep(data, data));
      } else {
        RankOfChild(boundary, j, MinSep(data, data));
      }
      ModBelow(j, numChildren);
      assert child.boundary == ChildCell(boundary, j);
      ok := child.Insert(i);
    }

    /** The loop of subDivide that builds one empty leaf per child slot, in slot order. */
    method NewChildren() returns (kids: seq<SpTree>, ghost kidsRepr: set<object>)
      requires Shaped()
      ensures |kids| == numChildren && fresh(kidsRepr)
      ensures forall l | 0 <= l < numChildren ::
        fresh(kids[l]) && kids[l].Repr <= kidsRepr && kids[l] in kidsRepr &&
        kids[l].Valid() && kids[l].D == D && kids[l].data == data &&
        kids[l].boundary == ChildCell(boundary, l) &&
        kids[l].isLeaf && kids[l].size == 0 && kids[l].Inserted == [] && kids[l].children == []
      ensures forall l, m | 0 <= l < m < numChildren :: kids[l].Repr !! kids[m].Repr
    {
      kids, kidsRepr := [], {};
      for j := 0 to numChildren
        invariant |kids| == j
        invariant fresh(kidsRepr)
        invariant forall l | 0 <= l < j ::
          fresh(kids[l]) && kids[l].Repr <= kidsRepr && kids[l] in kidsRepr &&
          kids[l].Valid() && kids[l].D == D && kids[l].data == data &&
          kids[l].boundary == ChildCell(boundary, l) &&
          kids[l].isLeaf && kids[l].size == 0 && kids[l].Inserted == [] && kids[l].children == []
        invariant forall l, m | 0 <= l < m < j :: kids[l].Repr !! kids[m].Repr
      {
        var corner, width := ChildBox(boundary, j);
        var child := new SpTree.Child(D, data, Cell(corner, width));
        kids := kids + [child];
        kidsRepr := kidsRepr + child.Repr;
      }
    }

    /** Subdivision: 2^D fresh empty leaves are put in front of the children,
        the stored index is handed to the first of them that accepts it, and
        the node becomes an empty internal node. */
    method SubDivide()
      requires Valid()
      modifies Repr
      decreases BoxRank(), 1, Repr, 0
      ensures Valid() && fresh(Repr - old(Repr))
      ensures !isLeaf && size == 0
      ensures cumSize == old(cumSize) && Inserted == old(Inserted)
      ensures |children| == numChildren + |old(children)| && children[numChildren..] == old(children)
      ensures forall l | 0 <= l < numChildren :: fresh(children[l]) && children[l].isLeaf
      ensures forall l | 0 <= l < numChildren ::
                children[l].Inserted ==
                  if old(size) == 1 && l == FirstChild(boundary, data[old(index[0])], numChildren)
                  then [old(index[0]) as nat] else []
      ensures forall l | 0 <= l < numChildren ::
                if old(size) == 1 && l == FirstChild(boundary, data[old(index[0])], numChildren)
                then children[l].size == 1 && children[l].index[..] == [old(index[0])]
                else children[l].size == 0
      ensures forall k | 0 <= k < old(size) :: index[k] == -1
      ensures old(size) == 0 ==> unchanged(old(Repr) - {this})
    {
      // Below an internal node (size 0) nothing but this node changes.
      ghost var others := Repr - {this};
      ghost var internal := size == 0;
      AddChildren();
      MoveAll();
      assert internal ==> unchanged(others);
      BecomeInternal();
    }

    /** The child loops of subDivide: one fresh empty leaf per slot, each
        with its slot's box, put in front of the children. */
    method AddChildren()
      requires ChildrenValid() && index in Repr
      modifies this
      ensures ChildrenValid() && old(Repr) <= Repr && fresh(Repr - old(Repr))
      ensures |children| == numChildren + |old(children)| && children[numChildren..] == old(children)
      ensures forall l | 0 <= l < numChildren ::
                fresh(children[l]) && children[l].isLeaf && children[l].size == 0 && children[l].Inserted == []
      ensures isLeaf == old(isLeaf) && size == old(size) && cumSize == old(cumSize) && Inserted == old(Inserted)
    {
      var kids: seq<SpTree>;
      ghost var kidsRepr: set<object>;
      kids, kidsRepr := NewChildren();
      Prepend(kids, kidsRepr);
    }

    /** The last step of subDivide: the node, whose buffer has been emptied
        into the children, stops being a leaf. */
    method BecomeInternal()
      requires ChildrenValid() && index in Repr && index.Length == QtNodeCapacity
      requires numChildren <= |children| && cumSize == |Inserted|
      requires forall k | 0 <= k < |Inserted| :: Inserted[k] < |data| && Contains(boundary, data[Inserted[k]])
      modifies this`size, this`isLeaf
      ensures Valid() && !isLeaf && size == 0
    {
      size := 0;
      isLeaf := false;
    }

    /** The loop of subDivide that moves every stored index down to the
        first new child that accepts it and clears its slot. */
    method MoveAll()
      requires ChildrenValid() && index in Repr && index.Length == QtNodeCapacity && size <= QtNodeCapacity
      requires numChildren <= |children|
      requires forall k | 0 <= k < size :: 0 <= index[k] < |data| && Contains(boundary, data[index[k]])
      requires forall l | 0 <= l < numChildren ::
                 children[l].isLeaf && children[l].size == 0 && children[l].Inserted == []
      modifies Repr - {this}, this`Repr
      decreases BoxRank(), 0, Repr, 3
      ensures ChildrenValid() && old(Repr) <= Repr && fresh(Repr - old(Repr))
      ensures size == 0 ==> Repr == old(Repr) && unchanged(old(Repr))
      ensures forall k | 0 <= k < size :: index[k] == -1
      ensures forall l | 0 <= l < numChildren ::
                children[l].Inserted ==
                  if size == 1 && l == FirstChild(boundary, data[old(index[0])], numChildren)
                  then [old(index[0]) as nat] else []
      ensures forall l | 0 <= l < numChildren ::
                if size == 1 && l == FirstChild(boundary, data[old(index[0])], numChildren)
                then children[l].size == 1 && children[l].index[..] == [old(index[0])]
                else children[l].size == 0
      ensures forall l | numChildren <= l < |children| :: children[l].Inserted == old(children[l].Inserted)
      ensures forall l | 0 <= l < numChildren :: children[l].isLeaf
    {
      for k := 0 to size
        invariant ChildrenValid() && index in Repr && old(Repr) <= Repr && fresh(Repr - old(Repr))
        invariant k == 0 ==> Repr == old(Repr) && unchanged(old(Repr))
        invariant forall l | 0 <= l < k :: index[l] == -1
        invariant k == 1 ==> forall l | 0 <= l < numChildren ::
                    children[l].Inserted ==
                      if l == FirstChild(boundary, data[old(index[0])], numChildren)
                      then [old(index[0]) as nat] else []
        invariant k == 1 ==> forall l | numChildren <= l < |children| :: children[l].Inserted == old(children[l].Inserted)
        invariant forall l | 0 <= l < numChildren :: children[l].isLeaf
      {
        MoveDown(index[k]);
        index[k] := -1;
      }
      LeafChildBuffers();
    }

    /** LeafBuffer for every child slot that holds a leaf. */
    lemma LeafChildBuffers()
      requires ChildrenValid() && numChildren <= |children|
      requires forall l | 0 <= l < numChildren :: children[l].isLeaf
      ensures forall l | 0 <= l < numChildren ::
                (children[l].Inserted == [] ==> children[l].size == 0) &&
                (children[l].Inserted != [] ==>
                   children[l].size == 1 && children[l].index[..] == [children[l].Inserted[0] as int])
    {
      forall l | 0 <= l < numChildren
        ensures children[l].Inserted == [] ==> children[l].size == 0
        ensures children[l].Inserted != [] ==>
                  children[l].size == 1 && children[l].index[..] == [children[l].Inserted[0] as int]
      {
        children[l].LeafBuffer();
      }
    }

    /** The inner loop of subDivide: point i is offered to the new, still
        empty, child slots in order; once one has accepted it the rest are
        skipped. */
    method MoveDown(i: nat)
      requires ChildrenValid() && index in Repr && numChildren <= |children|
      requires i < |data| && Contains(boundary, data[i])
      requires forall l | 0 <= l < numChildren :: children[l].isLeaf && children[l].size == 0
      modifies Repr - {this, index}, this`Repr
      decreases BoxRank(), 0, Repr, 2
      ensures ChildrenValid() && old(Repr) <= Repr && fresh(Repr - old(Repr))
      ensures var f := FirstChild(boundary, data[i], numChildren);
              f < numChildren &&
              children[f].isLeaf && children[f].size == 1 && children[f].index[..] == [i] &&
              children[f].Inserted == old(children[f].Inserted) + [i] &&
              forall l | 0 <= l < |children| && l != f :: children[l].Inserted == old(children[l].Inserted)
      ensures forall l | 0 <= l < numChildren :: children[l].isLeaf
    {
      ghost var f := FirstChild(boundary, data[i], numChildren);
      FirstChildExists(boundary, data[i]);
      FirstFromFacts(boundary, data[i], 0, numChildren);
      var success := false;
      for j := 0 to numChildren
        invariant ChildrenValid() && index in Repr && fresh(Repr - old(Repr)) && old(Repr) <= Repr
        invariant success <==> f < j
        invariant !success ==> Repr == old(Repr) && unchanged(old(Repr))
        invariant success ==>
                    children[f].isLeaf && children[f].size == 1 && children[f].index[..] == [i] &&
                    children[f].Inserted == old(children[f].Inserted) + [i]
        invariant forall l | 0 <= l < |children| && (l != f || !success) ::
                    children[l].Inserted == old(children[l].Inserted)
        invariant forall l | 0 <= l < numChildren :: children[l].isLeaf
      {
        if !success {
          success := Offer(j, i, [], false);
        }
      }
    }

    /** Java's children.add(i, child) for every slot i: the new leaves go in
        front of any children already there. */
    method Prepend(kids: seq<SpTree>, ghost kidsRepr: set<object>)
      requires ChildrenValid() && index in Repr && |kids| == numChildren && kidsRepr !! Repr
      requires forall l | 0 <= l < numChildren ::
        kids[l] in kidsRepr && kids[l].Repr <= kidsRepr && kids[l].Valid() &&
        kids[l].D == D && kids[l].data == data && kids[l].boundary == ChildCell(boundary, l)
      requires forall l, m | 0 <= l < m < numChildren :: kids[l].Repr !! kids[m].Repr
      modifies this
      ensures ChildrenValid() && Repr == old(Repr) + kidsRepr && children == kids + old(children)
      ensures isLeaf == old(isLeaf) && size == old(size) && cumSize == old(cumSize) && Inserted == old(Inserted)
    {
      children := kids + children;
      Repr := Repr + kidsRepr;
      forall j | 0 <= j < |children|
        ensures children[j].boundary == ChildCell(boundary, j % numChildren)
        ensures children[j].Repr !! kidsRepr || j < numChildren
        ensures children[j].Valid()
      {
        if j < numChildren {
          ModBelow(j, numChildren);
        } else {
          ModShift(j - numChildren, numChildren);
          assert children[j] == old(children[j - numChildren]);
          assert old(children[j - numChildren].Valid());
        }
      }
    }

    // -------------------------------------------------------------------
    // Read-only queries

    /** depth as written: 1 for a leaf; otherwise 1 plus the depth of child 0,
        which the loop over the children consults every time. */
    function Depth(): (r: nat)
      requires Valid()
      reads Repr
      decreases Repr
      ensures r >= 1
      ensures isLeaf ==> r == 1
    {
      assert ChildrenValid();
      if isLeaf then 1
      else 1 + (if |children| == 0 then 0 else children[0].Depth())
    }

    /** The loop of depth: Math.max over every child slot of child 0's depth. */
    method ComputeDepth() returns (r: nat)
      requires Valid()
      decreases Repr
      ensures r == Depth()
    {
      if isLeaf {
        return 1;
      }
      var depth := 1;
      var maxChildDepth := 0;
      for i := 0 to |children|
        invariant maxChildDepth == if i == 0 then 0 else children[0].Depth()
      {
        var d := children[0].ComputeDepth();
        maxChildDepth := if maxChildDepth < d then d else maxChildDepth;
      }
      r := depth + maxChildDepth;
    }

    /** The height of the subtree: 1 plus the greatest height among all children. */
    ghost function Height(): (r: nat)
      requires Valid()
      reads Repr
      decreases Repr, 1
      ensures r >= 1
    {
      assert ChildrenValid();
      if isLeaf then 1 else 1 + MaxChildHeight(|children|)
    }

    /** The greatest height among the first k children (0 if k is 0). */
    ghost function MaxChildHeight(k: nat): (r: nat)
      requires Valid() && ChildrenValid() && k <= |children|
      reads Repr
      decreases Repr, 0, k
      ensures forall j | 0 <= j < k :: children[j].Height() <= r
      ensures k == 0 || exists j | 0 <= j < k :: children[j].Height() == r
    {
      assert ChildrenValid();
      if k == 0 then 0
      else
        var m := MaxChildHeight(k - 1);
        var h := children[k - 1].Height();
        if m < h then h else m
    }

    /** depth never exceeds the height of the subtree. */
    lemma {:induction false} DepthAtMostHeight()
      requires Valid()
      ensures Depth() <= Height()
      decreases Repr
    {
      if !isLeaf && |children| > 0 {
        children[0].DepthAtMostHeight();
      }
    }

    /** When child 0 is a leaf but child 1 has children of its own, depth
        reports a subtree shallower than it is. */
    lemma DepthMissesDeeperChild()
      requires Valid() && !isLeaf && children[0].isLeaf && !children[1].isLeaf
      ensures Depth() == 2 && Height() > 2
    {
      var c := children[1];
      assert c.Valid() && c.ChildrenValid() && |c.children| > 0;
      assert c.children[0].Height() <= c.MaxChildHeight(|c.children|);
      assert c.Height() >= 2;
    }

    /** isCorrect as written: tests the points data[0 .. size-1] rather than
        the stored indices, then the first numChildren children. */
    function IsCorrect(): bool
      requires Valid()
      reads Repr
      decreases Repr
    {
      assert ChildrenValid();
      assert size > 0 ==> index[0] < |data|;
      (forall n | 0 <= n < size :: Contains(boundary, data[n])) &&
      (!isLeaf ==> forall i | 0 <= i < numChildren :: children[i].IsCorrect())
    }

    /** The loops of isCorrect. */
    method CheckCorrect() returns (ok: bool)
      requires Valid()
      decreases Repr
      ensures ok == IsCorrect()
    {
      assert size > 0 ==> index[0] < |data|;
      for n := 0 to size
        invariant forall m | 0 <= m < n :: Contains(boundary, data[m])
      {
        if !Contains(boundary, data[n]) {
          return false;
        }
      }
      if !isLeaf {
        var correct := true;
        for i := 0 to numChildren
          invariant correct == forall l | 0 <= l < i :: children[l].IsCorrect()
        {
          if correct {
            correct := children[i].CheckCorrect();
          }
        }
        return correct;
      }
      return true;
    }

    /** isCorrect as intended: the stored points data[index[n]] lie in the box,
        and so on down the first numChildren children. */
    ghost predicate IndexedCorrect()
      requires Valid()
      reads Repr
      decreases Repr
    {
      assert ChildrenValid();
      (forall n | 0 <= n < size :: Contains(boundary, data[index[n]])) &&
      (!isLeaf ==> forall i | 0 <= i < numChildren :: children[i].IndexedCorrect())
    }

    /** Every well-formed tree passes the intended check. */
    lemma {:induction false} ValidIsIndexedCorrect()
      requires Valid()
      ensures IndexedCorrect()
      decreases Repr
    {
      if !isLeaf {
        forall i | 0 <= i < numChildren
          ensures children[i].IndexedCorrect()
        {
          children[i].ValidIsIndexedCorrect();
        }
      }
    }
  }

  /** A well-formed leaf that isCorrect rejects: its box holds its stored
      point data[1] but not data[0], which is the point isCorrect reads. */
  method IsCorrectRejectsValidLeaf() returns (t: SpTree)
    ensures t.Valid() && t.isLeaf && t.size == 1
    ensures !t.IsCorrect() && t.IndexedCorrect()
  {
    t := new SpTree.Child(2, [[0.0, 0.0], [3.0, 3.0]], Cell([3.0, 3.0], [1.0, 1.0]));
    var ok := t.Insert(1);
    assert t.data[0][0] < t.boundary.corner[0] - t.boundary.width[0];
    t.ValidIsIndexedCorrect();
  }
}
