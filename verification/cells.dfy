/** Axis-aligned boxes of the space-partitioning tree.
    A box is a centre point ("corner") and one half-width per axis; the
    2^D children of a box are its octants, child i taking the lower or upper
    half of axis d according to bit d of i. */
module Cells {

  datatype Cell = Cell(corner: seq<real>, width: seq<real>)

  function Max(a: real, b: real): real { if a < b then b else a }

  /** Cell.contains: on every axis the point lies within one half-width of
      the corner (a closed box). A point of the wrong dimension is outside. */
  predicate Contains(c: Cell, p: seq<real>)
  {
    |p| == |c.corner| == |c.width| &&
    forall d | 0 <= d < |p| :: c.corner[d] - c.width[d] <= p[d] <= c.corner[d] + c.width[d]
  }

  function Pow2(n: nat): (r: nat)
    ensures r >= 1
  {
    if n == 0 then 1 else 2 * Pow2(n - 1)
  }

  /** Bit d of i, read as the source reads it: (i / div) % 2 with div = 2^d. */
  function Bit(i: nat, d: nat): nat
  {
    (i / Pow2(d)) % 2
  }

  /** The box of child slot i: half the width on every axis, the corner moved
      down by half the parent's width where bit d of i is 1 and up otherwise. */
  function ChildCell(c: Cell, i: nat): Cell
    requires |c.corner| == |c.width|
  {
    var n := |c.width|;
    Cell(seq(n, d requires 0 <= d < n =>
               if Bit(i, d) == 1 then c.corner[d] - 0.5 * c.width[d]
               else c.corner[d] + 0.5 * c.width[d]),
         seq(n, d requires 0 <= d < n => 0.5 * c.width[d]))
  }

  /** The number of children a node gets: the source starts from 2 and doubles
      once for every axis after the first. */
  method CountChildren(dims: nat) returns (n: nat)
    ensures dims >= 1 ==> n == Pow2(dims)
    ensures dims == 0 ==> n == 2
  {
    n := 2;
    var d := 1;
    while d < dims
      invariant 1 <= d
      invariant dims >= 1 ==> d <= dims
      invariant dims == 0 ==> d == 1
      invariant n == Pow2(d)
    {
      n := n * 2;
      d := d + 1;
    }
  }

  /** The per-axis loop that fills in the corner and width of child slot i,
      keeping the divisor div equal to 2^d. */
  method ChildBox(c: Cell, i: nat) returns (corner: seq<real>, width: seq<real>)
    requires |c.corner| == |c.width|
    ensures Cell(corner, width) == ChildCell(c, i)
  {
    var n := |c.width|;
    corner, width := [], [];
    var div := 1;
    for d := 0 to n
      invariant div == Pow2(d)
      invariant |corner| == |width| == d
      invariant forall e | 0 <= e < d :: width[e] == ChildCell(c, i).width[e]
      invariant forall e | 0 <= e < d :: corner[e] == ChildCell(c, i).corner[e]
    {
      width := width + [0.5 * c.width[d]];
      if (i / div) % 2 == 1 {
        corner := corner + [c.corner[d] - 0.5 * c.width[d]];
      } else {
        corner := corner + [c.corner[d] + 0.5 * c.width[d]];
      }
      div := div * 2;
    }
  }

  // ---------------------------------------------------------------------
  // Bits of a child slot

  lemma DivUnique(x: nat, m: nat, q: nat, s: nat)
    requires m > 0 && s < m && x == m * q + s
    ensures x / m == q && x % m == s
  {
    var q', s' := x / m, x % m;
    assert x == m * q' + s';
    if q' < q {
      assert m * q >= m * (q' + 1) by { MulMono(m, q' + 1, q); }
    } else if q' > q {
      assert m * q' >= m * (q + 1) by { MulMono(m, q + 1, q'); }
    }
  }

  lemma MulMono(m: nat, a: nat, b: nat)
    requires a <= b
    ensures m * a <= m * b
  {
  }

  /** Bit d + 1 of i is bit d of i / 2. */
  lemma BitShift(i: nat, d: nat)
    ensures Bit(i, d + 1) == Bit(i / 2, d)
    ensures Bit(i, 0) == i % 2
  {
    var m := Pow2(d);
    var a, b := (i / 2) / m, (i / 2) % m;
    assert i / 2 == m * a + b;
    assert i == (2 * m) * a + (2 * b + i % 2);
    DivUnique(i, 2 * m, a, 2 * b + i % 2);
  }

  /** The slot whose bit d says whether the point lies below the corner on axis d. */
  function Octant(below: seq<bool>): nat
  {
    if below == [] then 0 else (if below[0] then 1 else 0) + 2 * Octant(below[1..])
  }

  lemma {:induction false} OctantBits(below: seq<bool>)
    ensures Octant(below) < Pow2(|below|)
    ensures forall d | 0 <= d < |below| :: Bit(Octant(below), d) == if below[d] then 1 else 0
  {
    if below != [] {
      var i := Octant(below);
      OctantBits(below[1..]);
      assert i / 2 == Octant(below[1..]) && i % 2 == (if below[0] then 1 else 0);
      forall d | 0 <= d < |below|
        ensures Bit(i, d) == if below[d] then 1 else 0
      {
        BitShift(i, 0);
        if d > 0 {
          BitShift(i, d - 1);
          assert below[1..][d - 1] == below[d];
        }
      }
    }
  }

  /** Two different slots below 2^n differ in one of their first n bits. */
  lemma {:induction false} SlotsDifferInABit(i: nat, j: nat, n: nat)
    requires i != j && i < Pow2(n) && j < Pow2(n)
    ensures exists d :: 0 <= d < n && Bit(i, d) != Bit(j, d)
  {
    BitShift(i, 0);
    BitShift(j, 0);
    if i % 2 == j % 2 {
      assert n > 0;
      SlotsDifferInABit(i / 2, j / 2, n - 1);
      var d :| 0 <= d < n - 1 && Bit(i / 2, d) != Bit(j / 2, d);
      BitShift(i, d);
      BitShift(j, d);
      assert Bit(i, d + 1) != Bit(j, d + 1);
    } else {
      assert Bit(i, 0) != Bit(j, 0);
    }
  }

  // ---------------------------------------------------------------------
  // The children of a box partition it

  /** The slot of the child box a point of c falls into: lower half exactly
      on the axes where it lies strictly below the corner. */
  function OctantOf(c: Cell, p: seq<real>): nat
    requires |p| == |c.corner|
  {
    Octant(seq(|p|, d requires 0 <= d < |p| => p[d] < c.corner[d]))
  }

  /** Every point of a box lies in the child box of slot OctantOf, which is
      one of the 2^D slots: the children cover the parent. */
  lemma ChildrenCover(c: Cell, p: seq<real>)
    requires Contains(c, p)
    ensures OctantOf(c, p) < Pow2(|p|)
    ensures Contains(ChildCell(c, OctantOf(c, p)), p)
  {
    var below := seq(|p|, d requires 0 <= d < |p| => p[d] < c.corner[d]);
    OctantBits(below);
    var k := OctantOf(c, p);
    forall d | 0 <= d < |p|
      ensures ChildCell(c, k).corner[d] - ChildCell(c, k).width[d] <= p[d] <= ChildCell(c, k).corner[d] + ChildCell(c, k).width[d]
    {
      assert Bit(k, d) == if below[d] then 1 else 0;
    }
  }

  /** Every point of a child box lies in the parent box. */
  lemma ChildWithinParent(c: Cell, i: nat, p: seq<real>)
    requires |c.corner| == |c.width|
    requires Contains(ChildCell(c, i), p)
    ensures Contains(c, p)
  {
  }

  /** Two different child boxes meet only on the parent's mid-planes: a point
      in both lies on the corner's coordinate along some axis. */
  lemma ChildrenMeetOnMidplanes(c: Cell, i: nat, j: nat, p: seq<real>)
    requires |c.corner| == |c.width|
    requires i != j && i < Pow2(|c.width|) && j < Pow2(|c.width|)
    requires Contains(ChildCell(c, i), p) && Contains(ChildCell(c, j), p)
    ensures exists d :: 0 <= d < |p| && p[d] == c.corner[d]
  {
    SlotsDifferInABit(i, j, |c.width|);
    var d :| 0 <= d < |c.width| && Bit(i, d) != Bit(j, d);
    assert ChildCell(c, i).corner[d] - ChildCell(c, i).width[d] <= p[d] <= ChildCell(c, i).corner[d] + ChildCell(c, i).width[d];
    assert ChildCell(c, j).corner[d] - ChildCell(c, j).width[d] <= p[d] <= ChildCell(c, j).corner[d] + ChildCell(c, j).width[d];
  }

  // ---------------------------------------------------------------------
  // The first child that accepts a point

  /** The least slot in [from, n) whose child box contains p, or n if none. */
  function FirstFrom(c: Cell, p: seq<real>, from: nat, n: nat): (k: nat)
    requires |c.corner| == |c.width|
    decreases n - from
    ensures from <= k <= n || (from > n && k == n)
  {
    if from >= n then n
    else if Contains(ChildCell(c, from), p) then from
    else FirstFrom(c, p, from + 1, n)
  }

  /** The slot the source hands a point to: the first of the n child slots whose box contains it. */
  function FirstChild(c: Cell, p: seq<real>, n: nat): nat
    requires |c.corner| == |c.width|
  {
    FirstFrom(c, p, 0, n)
  }

  /** The scan skips only slots that refuse p and stops at one that accepts it. */
  lemma {:induction false} FirstFromFacts(c: Cell, p: seq<real>, from: nat, n: nat)
    requires |c.corner| == |c.width|
    ensures var k := FirstFrom(c, p, from, n);
            (forall l | from <= l < k && l < n :: !Contains(ChildCell(c, l), p)) &&
            (k < n ==> Contains(ChildCell(c, k), p))
    decreases n - from
  {
    if from < n && !Contains(ChildCell(c, from), p) {
      FirstFromFacts(c, p, from + 1, n);
    }
  }

  /** A point of a box is always taken by one of its 2^D child slots. */
  lemma FirstChildExists(c: Cell, p: seq<real>)
    requires Contains(c, p)
    ensures FirstChild(c, p, Pow2(|p|)) < Pow2(|p|)
    ensures Contains(ChildCell(c, FirstChild(c, p, Pow2(|p|))), p)
  {
    ChildrenCover(c, p);
    FirstFromFacts(c, p, 0, Pow2(|p|));
  }

  /** The first slot that accepts is the one a left-to-right scan stops at. */
  lemma {:induction false} FirstFromIs(c: Cell, p: seq<real>, from: nat, n: nat, k: nat)
    requires |c.corner| == |c.width|
    requires from <= k < n
    requires forall l | from <= l < k :: !Contains(ChildCell(c, l), p)
    requires Contains(ChildCell(c, k), p)
    ensures FirstFrom(c, p, from, n) == k
    decreases k - from
  {
    if from < k {
      FirstFromIs(c, p, from + 1, n, k);
    }
  }
}
