/** The box of the root node, computed from the whole point set: the corner is
    the per-axis mean of the points and the half-width on each axis is
    max(max - mean, mean - min + EPS_THRESHOLD). */
module RootBox {
  import opened Cells

  /** Nd4j's EPS_THRESHOLD, the small margin added on the lower side. */
  const EpsThreshold: real := 0.00001

  /** Every point of the set has the same number of coordinates. */
  predicate Uniform(rows: seq<seq<real>>, dims: nat)
  {
    forall k | 0 <= k < |rows| :: |rows[k]| == dims
  }

  function ColumnSum(rows: seq<seq<real>>, d: nat): real
    requires forall k | 0 <= k < |rows| :: d < |rows[k]|
  {
    if rows == [] then 0.0 else rows[0][d] + ColumnSum(rows[1..], d)
  }

  /** The least coordinate d of the points (Nd4j's min along the rows). */
  function ColumnMin(rows: seq<seq<real>>, d: nat): (r: real)
    requires |rows| >= 1
    requires forall k | 0 <= k < |rows| :: d < |rows[k]|
    ensures forall k | 0 <= k < |rows| :: r <= rows[k][d]
    ensures exists k :: 0 <= k < |rows| && r == rows[k][d]
  {
    if |rows| == 1 then rows[0][d]
    else
      var rest := ColumnMin(rows[1..], d);
      assert forall k | 1 <= k < |rows| :: rows[1..][k - 1] == rows[k];
      if rows[0][d] <= rest then rows[0][d] else rest
  }

  /** The greatest coordinate d of the points (Nd4j's max along the rows). */
  function ColumnMax(rows: seq<seq<real>>, d: nat): (r: real)
    requires |rows| >= 1
    requires forall k | 0 <= k < |rows| :: d < |rows[k]|
    ensures forall k | 0 <= k < |rows| :: rows[k][d] <= r
    ensures exists k :: 0 <= k < |rows| && r == rows[k][d]
  {
    if |rows| == 1 then rows[0][d]
    else
      var rest := ColumnMax(rows[1..], d);
      assert forall k | 1 <= k < |rows| :: rows[1..][k - 1] == rows[k];
      if rest <= rows[0][d] then rows[0][d] else rest
  }

  function Means(rows: seq<seq<real>>, dims: nat): seq<real>
    requires |rows| >= 1 && Uniform(rows, dims)
  {
    seq(dims, d requires 0 <= d < dims => ColumnSum(rows, d) / (|rows| as real))
  }

  function Lows(rows: seq<seq<real>>, dims: nat): seq<real>
    requires |rows| >= 1 && Uniform(rows, dims)
  {
    seq(dims, d requires 0 <= d < dims => ColumnMin(rows, d))
  }

  function Highs(rows: seq<seq<real>>, dims: nat): seq<real>
    requires |rows| >= 1 && Uniform(rows, dims)
  {
    seq(dims, d requires 0 <= d < dims => ColumnMax(rows, d))
  }

  /** The root half-width on one axis. The margin sits inside the second
      argument of the max only. */
  function HalfWidth(mean: real, lo: real, hi: real): real
  {
    Max(hi - mean, mean - lo + EpsThreshold)
  }

  function RootWidths(mean: seq<real>, lo: seq<real>, hi: seq<real>): seq<real>
    requires |lo| == |mean| && |hi| == |mean|
  {
    seq(|mean|, d requires 0 <= d < |mean| => HalfWidth(mean[d], lo[d], hi[d]))
  }

  /** The loop of the root constructor that fills in the half-width of every axis. */
  method ComputeRootWidths(mean: seq<real>, lo: seq<real>, hi: seq<real>) returns (width: seq<real>)
    requires |lo| == |mean| && |hi| == |mean|
    ensures width == RootWidths(mean, lo, hi)
  {
    width := [];
    for i := 0 to |mean|
      invariant |width| == i
      invariant forall d | 0 <= d < i :: width[d] == HalfWidth(mean[d], lo[d], hi[d])
    {
      width := width + [Max(hi[i] - mean[i], mean[i] - lo[i] + EpsThreshold)];
    }
  }

  function RootCell(rows: seq<seq<real>>, dims: nat): Cell
    requires |rows| >= 1 && Uniform(rows, dims)
  {
    var mean := Means(rows, dims);
    Cell(mean, RootWidths(mean, Lows(rows, dims), Highs(rows, dims)))
  }

  /** The root box as the root constructor builds it: Nd4j's mean, min and
      max along the rows, then the half-width loop. */
  method ComputeRootCell(rows: seq<seq<real>>, dims: nat) returns (c: Cell)
    requires |rows| >= 1 && Uniform(rows, dims)
    ensures c == RootCell(rows, dims)
    ensures |c.corner| == dims && |c.width| == dims
  {
    var meanY := Means(rows, dims);
    var width := ComputeRootWidths(meanY, Lows(rows, dims), Highs(rows, dims));
    c := Cell(meanY, width);
  }

  /** Every point of the set lies in the root box, and strictly inside its
      lower face on every axis. */
  lemma RootCellContainsAll(rows: seq<seq<real>>, dims: nat)
    requires |rows| >= 1 && Uniform(rows, dims)
    ensures forall k | 0 <= k < |rows| :: Contains(RootCell(rows, dims), rows[k])
    ensures forall k, d | 0 <= k < |rows| && 0 <= d < dims ::
              RootCell(rows, dims).corner[d] - RootCell(rows, dims).width[d] < rows[k][d]
  {
  }

  /** The largest point of an axis may lie exactly on the root box's upper
      face: the margin does not reach that side. */
  lemma RootCellUpperFaceTouched()
    ensures var rows := [[0.0, 0.0], [0.0, 0.0], [3.0, 3.0]];
            RootCell(rows, 2).corner[0] + RootCell(rows, 2).width[0] == rows[2][0]
  {
  }
}
