/** The duplicate test of insertion and the separation it guarantees.
    Two points are duplicates when their first two coordinates agree; any two
    points of a finite set that are not duplicates are at least MinSep apart
    on axis 0 or axis 1. Rank turns a box's size into a natural number that
    drops when the box is halved while holding two non-duplicate points: the
    measure that bounds how deep an insertion descends. */
module Separation {
  import opened Cells

  function Abs(x: real): real { if x < 0.0 then -x else x }

  function Min(a: real, b: real): real { if a < b then a else b }

  /** The duplicate test: coordinates 0 and 1 agree (other axes are ignored). */
  predicate SameXY(p: seq<real>, q: seq<real>)
    requires |p| >= 2 && |q| >= 2
  {
    p[0] == q[0] && p[1] == q[1]
  }

  /** How far apart two points are on the two axes the duplicate test reads. */
  function SepXY(p: seq<real>, q: seq<real>): (r: real)
    requires |p| >= 2 && |q| >= 2
    ensures r >= 0.0
    ensures r == 0.0 <==> SameXY(p, q)
  {
    Max(Abs(p[0] - q[0]), Abs(p[1] - q[1]))
  }

  predicate AtLeastTwo(rows: seq<seq<real>>)
  {
    forall k | 0 <= k < |rows| :: |rows[k]| >= 2
  }

  /** The least separation of p from the points of qs that are not its duplicates (1 if none). */
  function MinSepFrom(p: seq<real>, qs: seq<seq<real>>): (r: real)
    requires |p| >= 2 && AtLeastTwo(qs)
    ensures r > 0.0
    ensures forall k | 0 <= k < |qs| :: !SameXY(p, qs[k]) ==> r <= SepXY(p, qs[k])
  {
    if qs == [] then 1.0
    else
      var rest := MinSepFrom(p, qs[1..]);
      assert forall k | 1 <= k < |qs| :: qs[1..][k - 1] == qs[k];
      if SameXY(p, qs[0]) then rest else Min(rest, SepXY(p, qs[0]))
  }

  /** The least separation between a point of ps and a non-duplicate point of qs (1 if none). */
  function MinSep(ps: seq<seq<real>>, qs: seq<seq<real>>): (r: real)
    requires AtLeastTwo(ps) && AtLeastTwo(qs)
    ensures r > 0.0
    ensures forall j, k | 0 <= j < |ps| && 0 <= k < |qs| ::
              !SameXY(ps[j], qs[k]) ==> r <= SepXY(ps[j], qs[k])
  {
    if ps == [] then 1.0
    else
      var rest := MinSep(ps[1..], qs);
      assert forall j | 1 <= j < |ps| :: ps[1..][j - 1] == ps[j];
      Min(MinSepFrom(ps[0], qs), rest)
  }

  /** The size of a box relative to a separation: floor(2 * max(0, w0, w1) / sep). */
  function Rank(w: seq<real>, sep: real): nat
    requires |w| >= 2 && sep > 0.0
  {
    var x := 2.0 * Max(0.0, Max(w[0], w[1])) / sep;
    assert x >= 0.0;
    x.Floor
  }

  lemma FloorHalf(x: real)
    requires x >= 0.0
    ensures (x / 2.0).Floor <= x.Floor
    ensures x >= 1.0 ==> (x / 2.0).Floor < x.Floor
  {
  }

  lemma DivAtLeastOne(a: real, b: real)
    requires a >= b > 0.0
    ensures a / b >= 1.0
  {
  }

  lemma HalfDiv(a: real, b: real)
    requires b > 0.0
    ensures (0.5 * a) / b == (a / b) / 2.0
  {
  }

  /** A child box never ranks above its parent. */
  lemma RankOfChild(c: Cell, i: nat, sep: real)
    requires |c.corner| == |c.width| >= 2 && sep > 0.0
    ensures Rank(ChildCell(c, i).width, sep) <= Rank(c.width, sep)
  {
    var m := Max(0.0, Max(c.width[0], c.width[1]));
    assert Max(0.0, Max(ChildCell(c, i).width[0], ChildCell(c, i).width[1])) == 0.5 * m;
    HalfDiv(2.0 * m, sep);
    assert 2.0 * (0.5 * m) == 0.5 * (2.0 * m);
    FloorHalf(2.0 * m / sep);
  }

  /** A box holding two non-duplicate points at least sep apart ranks above
      each of its children. */
  lemma RankDrops(c: Cell, i: nat, p: seq<real>, q: seq<real>, sep: real)
    requires |c.corner| == |c.width| >= 2 && sep > 0.0
    requires Contains(c, p) && Contains(c, q)
    requires !SameXY(p, q) && sep <= SepXY(p, q)
    ensures Rank(ChildCell(c, i).width, sep) < Rank(c.width, sep)
  {
    var m := Max(0.0, Max(c.width[0], c.width[1]));
    assert SepXY(p, q) <= 2.0 * m;
    DivAtLeastOne(2.0 * m, sep);
    assert Max(0.0, Max(ChildCell(c, i).width[0], ChildCell(c, i).width[1])) == 0.5 * m;
    HalfDiv(2.0 * m, sep);
    assert 2.0 * (0.5 * m) == 0.5 * (2.0 * m);
    FloorHalf(2.0 * m / sep);
  }
}
