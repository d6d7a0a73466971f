/** Underserved-UE heatmaps: a two-dimensional histogram of positions per timestamp, and
    the hotspot centroid. */
module Heatmaps {
  import opened Common

  /** One axis of the grid: `n` bins of equal width from `lo` to `hi`. */
  datatype Axis = Axis(lo: real, hi: real, n: nat)

  datatype Grid = Grid(east: Axis, north: Axis)

  ghost predicate ValidAxis(a: Axis) {
    a.n > 0 && a.lo <= a.hi
  }

  ghost predicate ValidGrid(g: Grid) {
    ValidAxis(g.east) && ValidAxis(g.north)
  }

  // ----- bins

  /** Edge `i` of `np.linspace(lo, hi, n + 1)`; the last edge is `hi` itself. */
  function Edge(a: Axis, i: nat): real
    requires a.n > 0
  {
    if i == a.n then a.hi else a.lo + i as real * ((a.hi - a.lo) / a.n as real)
  }

  lemma EdgeStep(a: Axis, i: nat)
    requires ValidAxis(a) && i < a.n
    ensures Edge(a, i) <= Edge(a, i + 1)
  {
    var w := (a.hi - a.lo) / a.n as real;
    assert w >= 0.0;
    LastEdge(a);
    assert (i + 1) as real * w == i as real * w + w;
  }

  lemma LastEdge(a: Axis)
    requires ValidAxis(a)
    ensures a.lo + a.n as real * ((a.hi - a.lo) / a.n as real) == a.hi
  {
  }

  lemma {:induction false} EdgesGrow(a: Axis, i: nat, j: nat)
    requires ValidAxis(a) && i <= j <= a.n
    ensures Edge(a, i) <= Edge(a, j)
  {
    if i < j {
      EdgesGrow(a, i, j - 1);
      EdgeStep(a, j - 1);
    }
  }

  /** Bins are half open, except the last, which includes the upper end of the axis. */
  predicate InBin(a: Axis, i: nat, v: real)
    requires a.n > 0
  {
    i < a.n && ((Edge(a, i) <= v < Edge(a, i + 1)) || (i == a.n - 1 && v == a.hi))
  }

  predicate Inside(a: Axis, v: real) {
    a.lo <= v <= a.hi
  }

  lemma BinUnique(a: Axis, i: nat, j: nat, v: real)
    requires ValidAxis(a) && InBin(a, i, v) && InBin(a, j, v)
    ensures i == j
  {
    if i < j {
      EdgesGrow(a, i + 1, j);
      EdgesGrow(a, j, a.n);
    } else if j < i {
      EdgesGrow(a, j + 1, i);
      EdgesGrow(a, i, a.n);
    }
  }

  lemma BinIsInside(a: Axis, i: nat, v: real)
    requires ValidAxis(a) && InBin(a, i, v)
    ensures Inside(a, v)
  {
    EdgesGrow(a, 0, i);
    EdgesGrow(a, i + 1, a.n);
    assert Edge(a, 0) == a.lo;
  }

  /** Bin `k` of `n` holds the values whose distance from `lo` is at least k/n and less than
      (k + 1)/n of the axis; the last bin also holds the upper end. */
  predicate Falls(a: Axis, k: nat, v: real) {
    k < a.n &&
    (|| k as real * (a.hi - a.lo) <= (v - a.lo) * a.n as real < (k + 1) as real * (a.hi - a.lo)
     || (k == a.n - 1 && v == a.hi))
  }

  lemma Scaled(x: real, y: real, n: real)
    requires n > 0.0
    ensures x <= y <==> x * n <= y * n
  {
  }

  /** An edge divides the values in proportion to its number. */
  lemma EdgeDivides(a: Axis, i: nat, v: real)
    requires a.n > 0 && i <= a.n
    ensures Edge(a, i) <= v <==> i as real * (a.hi - a.lo) <= (v - a.lo) * a.n as real
  {
    var n, w := a.n as real, (a.hi - a.lo) / a.n as real;
    assert w * n == a.hi - a.lo;
    if i == a.n {
      Scaled(a.hi - a.lo, v - a.lo, n);
    } else {
      Scaled(i as real * w, v - a.lo, n);
      assert i as real * w * n == i as real * (w * n);
    }
  }

  /** The bins between the edges are the equal parts of the axis. */
  lemma BinIff(a: Axis, k: nat, v: real)
    requires a.n > 0
    ensures InBin(a, k, v) <==> Falls(a, k, v)
  {
    if k < a.n {
      EdgeDivides(a, k, v);
      EdgeDivides(a, k + 1, v);
    }
  }

  /** `np.histogram` on one axis: the number of edges not above the value, corrected
      when the value is the last edge, gives the bin; 0 and n + 1 are outside. */
  method FindBin(a: Axis, v: real) returns (bin: Option<nat>)
    requires ValidAxis(a)
    ensures bin.Some? <==> Inside(a, v)
    ensures bin.Some? ==> InBin(a, bin.value, v)
    ensures forall k: nat :: bin == Some(k) <==> Falls(a, k, v)
  {
    var lo, hi := 0, a.n + 1;
    while lo < hi
      invariant 0 <= lo <= hi <= a.n + 1
      invariant lo > 0 ==> Edge(a, lo - 1) <= v
      invariant hi <= a.n ==> v < Edge(a, hi)
    {
      var mid := (lo + hi) / 2;
      if Edge(a, mid) <= v {
        lo := mid + 1;
      } else {
        hi := mid;
      }
    }
    assert Edge(a, 0) == a.lo;
    var k := if v == a.hi then lo - 1 else lo;
    if lo <= a.n {
      EdgesGrow(a, lo, a.n);
    }
    if lo > 0 {
      EdgesGrow(a, 0, lo - 1);
    }
    if 1 <= k <= a.n {
      bin := Some(k - 1);
    } else {
      bin := None;
    }
    forall k: nat ensures bin == Some(k) <==> Falls(a, k, v) {
      BinIff(a, k, v);
      if InBin(a, k, v) {
        BinIsInside(a, k, v);
        BinUnique(a, k, bin.value, v);
      }
    }
  }

  // ----- the histogram

  datatype Row = Row(time: real, node: string, east: real, north: real)

  type Heatmap = seq<seq<nat>>

  ghost predicate Shape(g: Grid, h: Heatmap) {
    |h| == g.north.n && forall i :: 0 <= i < |h| ==> |h[i]| == g.east.n
  }

  function RowSum(r: seq<nat>): nat {
    if r == [] then 0 else RowSum(r[..|r| - 1]) + r[|r| - 1]
  }

  function Total(h: Heatmap): nat {
    if h == [] then 0 else Total(h[..|h| - 1]) + RowSum(h[|h| - 1])
  }

  /** `np.isclose(a, b)`. */
  predicate IsClose(a: real, b: real) {
    var d := if a >= b then a - b else b - a;
    d <= 0.00000001 + 0.00001 * (if b >= 0.0 then b else -b)
  }

  predicate Selected(row: Row, t: real, nodes: set<string>) {
    IsClose(row.time, t) && row.node in nodes
  }

  predicate InGrid(g: Grid, row: Row) {
    Inside(g.east, row.east) && Inside(g.north, row.north)
  }

  predicate InCell(g: Grid, row: Row, i: nat, j: nat)
    requires g.east.n > 0 && g.north.n > 0
  {
    InBin(g.north, i, row.north) && InBin(g.east, j, row.east)
  }

  /** The selected rows inside the grid rectangle. */
  function CountInGrid(g: Grid, rows: seq<Row>, t: real, nodes: set<string>): nat {
    if rows == [] then 0
    else
      var n := |rows| - 1;
      CountInGrid(g, rows[..n], t, nodes) + (if Selected(rows[n], t, nodes) && InGrid(g, rows[n]) then 1 else 0)
  }

  /** The selected rows in one cell. */
  function CountInCell(g: Grid, rows: seq<Row>, t: real, nodes: set<string>, i: nat, j: nat): nat
    requires g.east.n > 0 && g.north.n > 0
  {
    if rows == [] then 0
    else
      var n := |rows| - 1;
      CountInCell(g, rows[..n], t, nodes, i, j) +
      (if Selected(rows[n], t, nodes) && InCell(g, rows[n], i, j) then 1 else 0)
  }

  ghost predicate Counts(g: Grid, rows: seq<Row>, t: real, nodes: set<string>, h: Heatmap)
    requires ValidGrid(g)
  {
    && Shape(g, h)
    && (forall i, j :: 0 <= i < g.north.n && 0 <= j < g.east.n ==> h[i][j] == CountInCell(g, rows, t, nodes, i, j))
    && Total(h) == CountInGrid(g, rows, t, nodes)
  }

  function Bump(h: Heatmap, i: nat, j: nat): Heatmap
    requires i < |h| && j < |h[i]|
  {
    h[i := h[i][j := h[i][j] + 1]]
  }

  lemma {:induction false} RowSumBump(r: seq<nat>, j: nat)
    requires j < |r|
    ensures RowSum(r[j := r[j] + 1]) == RowSum(r) + 1
  {
    var n, s := |r| - 1, r[j := r[j] + 1];
    if j < n {
      RowSumBump(r[..n], j);
      assert s[..n] == r[..n][j := r[j] + 1];
    } else {
      assert s[..n] == r[..n];
    }
  }

  lemma {:induction false} TotalBump(h: Heatmap, i: nat, j: nat)
    requires i < |h| && j < |h[i]|
    ensures Total(Bump(h, i, j)) == Total(h) + 1
  {
    var n, b := |h| - 1, Bump(h, i, j);
    if i < n {
      TotalBump(h[..n], i, j);
      assert b[..n] == Bump(h[..n], i, j);
    } else {
      assert b[..n] == h[..n];
      RowSumBump(h[i], j);
    }
  }

  lemma {:induction false} ZeroRow(n: nat)
    ensures RowSum(seq(n, _ => 0)) == 0
  {
    if n > 0 {
      ZeroRow(n - 1);
      assert seq(n, _ => 0)[..n - 1] == seq(n - 1, _ => 0);
    }
  }

  lemma {:induction false} ZeroTotal(m: nat, row: seq<nat>)
    requires RowSum(row) == 0
    ensures Total(seq(m, _ => row)) == 0
  {
    if m > 0 {
      ZeroTotal(m - 1, row);
      assert seq(m, _ => row)[..m - 1] == seq(m - 1, _ => row);
    }
  }

  lemma CountStep(g: Grid, rows: seq<Row>, k: nat, t: real, nodes: set<string>)
    requires ValidGrid(g) && k < |rows|
    ensures CountInGrid(g, rows[..k + 1], t, nodes) ==
            CountInGrid(g, rows[..k], t, nodes) + (if Selected(rows[k], t, nodes) && InGrid(g, rows[k]) then 1 else 0)
    ensures forall i: nat, j: nat ::
              CountInCell(g, rows[..k + 1], t, nodes, i, j) ==
              CountInCell(g, rows[..k], t, nodes, i, j) +
              (if Selected(rows[k], t, nodes) && InCell(g, rows[k], i, j) then 1 else 0)
  {
    assert rows[..k + 1][..k] == rows[..k];
  }

  lemma CountSkip(g: Grid, rows: seq<Row>, k: nat, t: real, nodes: set<string>, h: Heatmap)
    requires ValidGrid(g) && k < |rows| && Counts(g, rows[..k], t, nodes, h)
    requires !Selected(rows[k], t, nodes) || !InGrid(g, rows[k])
    ensures Counts(g, rows[..k + 1], t, nodes, h)
  {
    CountStep(g, rows, k, t, nodes);
    forall i, j | 0 <= i < g.north.n && 0 <= j < g.east.n
      ensures h[i][j] == CountInCell(g, rows[..k + 1], t, nodes, i, j)
    {
      if InCell(g, rows[k], i, j) {
        BinIsInside(g.north, i, rows[k].north);
        BinIsInside(g.east, j, rows[k].east);
      }
    }
  }

  lemma CountHit(g: Grid, rows: seq<Row>, k: nat, t: real, nodes: set<string>, h: Heatmap, a: nat, b: nat)
    requires ValidGrid(g) && k < |rows| && Counts(g, rows[..k], t, nodes, h)
    requires Selected(rows[k], t, nodes) && InGrid(g, rows[k]) && InCell(g, rows[k], a, b)
    ensures Counts(g, rows[..k + 1], t, nodes, Bump(h, a, b))
  {
    CountStep(g, rows, k, t, nodes);
    TotalBump(h, a, b);
    forall i, j | 0 <= i < g.north.n && 0 <= j < g.east.n
      ensures Bump(h, a, b)[i][j] == CountInCell(g, rows[..k + 1], t, nodes, i, j)
    {
      if InCell(g, rows[k], i, j) {
        BinUnique(g.north, i, a, rows[k].north);
        BinUnique(g.east, j, b, rows[k].east);
      }
    }
  }

  /** The row's time is `t` up to the tolerance of 1e-8 + 1e-5 |t|, and its node is among `nodes`. */
  predicate Concerns(row: Row, t: real, nodes: set<string>) {
    100000000.0 * Abs(row.time - t) <= 1.0 + 1000.0 * Abs(t) && row.node in nodes
  }

  predicate InCellOf(g: Grid, row: Row, t: real, nodes: set<string>, i: nat, j: nat) {
    Concerns(row, t, nodes) && Falls(g.north, i, row.north) && Falls(g.east, j, row.east)
  }

  predicate InRectangle(g: Grid, row: Row, t: real, nodes: set<string>) {
    && Concerns(row, t, nodes)
    && g.east.lo <= row.east <= g.east.hi && g.north.lo <= row.north <= g.north.hi
  }

  /** The numbers of the rows for which `p` holds. */
  ghost function Where(rows: seq<Row>, p: Row -> bool): set<nat> {
    set r: nat | r < |rows| && p(rows[r])
  }

  lemma WhereSnoc(rows: seq<Row>, p: Row -> bool)
    requires rows != []
    ensures var n := |rows| - 1; |Where(rows, p)| == |Where(rows[..n], p)| + (if p(rows[n]) then 1 else 0)
  {
    var n := |rows| - 1;
    assert Where(rows, p) == Where(rows[..n], p) + (if p(rows[n]) then {n} else {});
  }

  /** The rows that a cell is to count. */
  ghost function CellRows(g: Grid, rows: seq<Row>, t: real, nodes: set<string>, i: nat, j: nat): set<nat> {
    Where(rows, row => InCellOf(g, row, t, nodes, i, j))
  }

  /** The rows that the whole heatmap is to count. */
  ghost function GridRows(g: Grid, rows: seq<Row>, t: real, nodes: set<string>): set<nat> {
    Where(rows, row => InRectangle(g, row, t, nodes))
  }

  lemma InCellIff(g: Grid, row: Row, t: real, nodes: set<string>, i: nat, j: nat)
    requires ValidGrid(g)
    ensures InCellOf(g, row, t, nodes, i, j) <==> Selected(row, t, nodes) && InCell(g, row, i, j)
  {
    BinIff(g.north, i, row.north);
    BinIff(g.east, j, row.east);
  }

  lemma {:induction false} CellCountIs(g: Grid, rows: seq<Row>, t: real, nodes: set<string>, i: nat, j: nat)
    requires ValidGrid(g)
    ensures CountInCell(g, rows, t, nodes, i, j) == |CellRows(g, rows, t, nodes, i, j)|
  {
    if rows != [] {
      var n := |rows| - 1;
      CellCountIs(g, rows[..n], t, nodes, i, j);
      InCellIff(g, rows[n], t, nodes, i, j);
      WhereSnoc(rows, row => InCellOf(g, row, t, nodes, i, j));
    }
  }

  lemma {:induction false} GridCountIs(g: Grid, rows: seq<Row>, t: real, nodes: set<string>)
    ensures CountInGrid(g, rows, t, nodes) == |GridRows(g, rows, t, nodes)|
  {
    if rows != [] {
      var n := |rows| - 1;
      GridCountIs(g, rows[..n], t, nodes);
      WhereSnoc(rows, row => InRectangle(g, row, t, nodes));
    }
  }

  /** What the counts of a heatmap are, from the coordinates alone. */
  ghost predicate CellsCount(g: Grid, rows: seq<Row>, t: real, nodes: set<string>, h: Heatmap) {
    && Shape(g, h) && Total(h) == |GridRows(g, rows, t, nodes)|
    && forall i, j :: 0 <= i < g.north.n && 0 <= j < g.east.n ==> h[i][j] == |CellRows(g, rows, t, nodes, i, j)|
  }

  lemma CountsAreCells(g: Grid, rows: seq<Row>, t: real, nodes: set<string>, h: Heatmap)
    requires ValidGrid(g) && Counts(g, rows, t, nodes, h)
    ensures CellsCount(g, rows, t, nodes, h)
  {
    GridCountIs(g, rows, t, nodes);
    forall i, j | 0 <= i < g.north.n && 0 <= j < g.east.n ensures h[i][j] == |CellRows(g, rows, t, nodes, i, j)| {
      CellCountIs(g, rows, t, nodes, i, j);
    }
  }

  /** The heatmap of one timestamp: every cell holds the number of selected rows in it,
      and the cells sum up to the selected rows inside the closed rectangle. */
  method BuildHeatmap(g: Grid, rows: seq<Row>, t: real, nodes: set<string>) returns (h: Heatmap)
    requires ValidGrid(g)
    ensures Counts(g, rows, t, nodes, h) && CellsCount(g, rows, t, nodes, h)
  {
    h := seq(g.north.n, _ => seq(g.east.n, _ => 0));
    ZeroRow(g.east.n);
    ZeroTotal(g.north.n, seq(g.east.n, _ => 0));
    assert rows[..0] == [];
    for k := 0 to |rows|
      invariant Counts(g, rows[..k], t, nodes, h)
    {
      var row := rows[k];
      var a := FindBin(g.north, row.north);
      var b := FindBin(g.east, row.east);
      if Selected(row, t, nodes) && a.Some? && b.Some? {
        CountHit(g, rows, k, t, nodes, h, a.value, b.value);
        h := Bump(h, a.value, b.value);
      } else {
        CountSkip(g, rows, k, t, nodes, h);
      }
    }
    assert rows[..|rows|] == rows;
    CountsAreCells(g, rows, t, nodes, h);
  }

  /** Each selected row inside the rectangle is counted in exactly one cell. */
  lemma ExactlyOneCell(g: Grid, row: Row) returns (i: nat, j: nat)
    requires ValidGrid(g) && InGrid(g, row)
    ensures InCell(g, row, i, j)
    ensures forall a: nat, b: nat :: InCell(g, row, a, b) ==> a == i && b == j
  {
    i := BinExists(g.north, row.north);
    j := BinExists(g.east, row.east);
    forall a: nat, b: nat | InCell(g, row, a, b) ensures a == i && b == j {
      BinUnique(g.north, a, i, row.north);
      BinUnique(g.east, b, j, row.east);
    }
  }

  lemma BinExists(a: Axis, v: real) returns (i: nat)
    requires ValidAxis(a) && Inside(a, v)
    ensures InBin(a, i, v)
  {
    if v == a.hi {
      i := a.n - 1;
    } else {
      i := 0;
      assert Edge(a, 0) == a.lo;
      while !(v < Edge(a, i + 1))
        invariant i < a.n && Edge(a, i) <= v
        decreases a.n - i
      {
        i := i + 1;
      }
    }
  }

  // ----- the centroid

  type Field = seq<seq<real>>  // a heatmap with real-valued cells

  function Center(a: Axis, i: nat): real
    requires i < a.n
  {
    0.5 * (Edge(a, i) + Edge(a, i + 1))
  }

  /** The centres of all bins. */
  function Centers(a: Axis): (cs: seq<real>)
    ensures |cs| == a.n && forall i :: 0 <= i < a.n ==> cs[i] == Center(a, i)
  {
    seq(a.n, i requires 0 <= i < a.n => Center(a, i))
  }

  /** The sum of weights times positions. */
  function Moment(cs: seq<real>, r: seq<real>): real
    requires |r| <= |cs|
  {
    if r == [] then 0.0
    else
      var n := |r| - 1;
      Moment(cs, r[..n]) + r[n] * cs[n]
  }

  function Masses(f: Field): (r: seq<real>)
    ensures |r| == |f| && forall i :: 0 <= i < |f| ==> r[i] == Sum(f[i])
  {
    seq(|f|, i requires 0 <= i < |f| => Sum(f[i]))
  }

  function Moments(cs: seq<real>, f: Field): (r: seq<real>)
    requires forall i :: 0 <= i < |f| ==> |f[i]| <= |cs|
    ensures |r| == |f| && forall i :: 0 <= i < |f| ==> r[i] == Moment(cs, f[i])
  {
    seq(|f|, i requires 0 <= i < |f| => Moment(cs, f[i]))
  }

  /** One weight per pair of positions. */
  ghost predicate Fits(xs: seq<real>, ys: seq<real>, f: Field) {
    |f| == |ys| && forall i :: 0 <= i < |f| ==> |f[i]| == |xs|
  }

  ghost predicate FieldShape(g: Grid, f: Field) {
    |f| == g.north.n && forall i :: 0 <= i < |f| ==> |f[i]| == g.east.n
  }

  ghost predicate NonNegative(r: seq<real>) {
    forall i :: 0 <= i < |r| ==> r[i] >= 0.0
  }

  /** The weighted mean position (east, north), or nothing for an empty heatmap. */
  function CentroidOf(xs: seq<real>, ys: seq<real>, f: Field): Option<(real, real)>
    requires Fits(xs, ys, f)
  {
    var total := Sum(Masses(f));
    if total <= 0.0 then None
    else Some((Sum(Moments(xs, f)) / total, Moment(ys, Masses(f)) / total))
  }

  function Centroid(g: Grid, f: Field): Option<(real, real)>
    requires FieldShape(g, f)
  {
    CentroidOf(Centers(g.east), Centers(g.north), f)
  }

  lemma CenterInside(a: Axis, i: nat)
    requires ValidAxis(a) && i < a.n
    ensures Inside(a, Center(a, i))
  {
    EdgesGrow(a, 0, i);
    EdgeStep(a, i);
    EdgesGrow(a, i + 1, a.n);
    assert Edge(a, 0) == a.lo;
  }

  /** `x` is what mass `w` can contribute when its positions lie between `lo` and `hi`. */
  ghost predicate Carries(lo: real, hi: real, w: real, x: real) {
    lo * w <= x <= hi * w
  }

  lemma CarriesOne(lo: real, hi: real, w: real, x: real)
    requires w >= 0.0 && lo <= x <= hi
    ensures Carries(lo, hi, w, w * x)
  {
  }

  lemma CarriesSum(lo: real, hi: real, w: real, x: real, v: real, y: real)
    requires Carries(lo, hi, w, x) && Carries(lo, hi, v, y)
    ensures Carries(lo, hi, w + v, x + y)
  {
    assert lo * (w + v) == lo * w + lo * v;
    assert hi * (w + v) == hi * w + hi * v;
  }

  lemma CarriesMean(lo: real, hi: real, w: real, x: real)
    requires w > 0.0 && Carries(lo, hi, w, x)
    ensures lo <= x / w <= hi
  {
    Divided(lo, w);
    Divided(hi, w);
    DivideMonotone(lo * w, x, w);
    DivideMonotone(x, hi * w, w);
  }

  lemma Divided(a: real, w: real)
    requires w > 0.0
    ensures (a * w) / w == a
  {
  }

  lemma DivideMonotone(a: real, b: real, w: real)
    requires w > 0.0 && a <= b
    ensures a / w <= b / w
  {
  }

  ghost predicate Between(lo: real, hi: real, cs: seq<real>) {
    forall i :: 0 <= i < |cs| ==> lo <= cs[i] <= hi
  }

  /** A non-negative weighting of positions stays within their range. */
  lemma {:induction false} MomentCarries(cs: seq<real>, r: seq<real>, lo: real, hi: real)
    requires |r| <= |cs| && NonNegative(r) && Between(lo, hi, cs)
    ensures Sum(r) >= 0.0 && Carries(lo, hi, Sum(r), Moment(cs, r))
  {
    if r != [] {
      var n := |r| - 1;
      MomentCarries(cs, r[..n], lo, hi);
      CarriesOne(lo, hi, r[n], cs[n]);
      CarriesSum(lo, hi, Sum(r[..n]), Moment(cs, r[..n]), r[n], r[n] * cs[n]);
    }
  }

  lemma {:induction false} MassCarries(ms: seq<real>, xs: seq<real>, lo: real, hi: real)
    requires |ms| == |xs| && forall i :: 0 <= i < |ms| ==> Carries(lo, hi, ms[i], xs[i])
    ensures Carries(lo, hi, Sum(ms), Sum(xs))
  {
    if ms != [] {
      var n := |ms| - 1;
      MassCarries(ms[..n], xs[..n], lo, hi);
      CarriesSum(lo, hi, Sum(ms[..n]), Sum(xs[..n]), ms[n], xs[n]);
    }
  }

  lemma EastCarries(xs: seq<real>, f: Field, lo: real, hi: real)
    requires forall i :: 0 <= i < |f| ==> |f[i]| == |xs| && NonNegative(f[i])
    requires Between(lo, hi, xs)
    ensures NonNegative(Masses(f)) && Carries(lo, hi, Sum(Masses(f)), Sum(Moments(xs, f)))
  {
    forall i | 0 <= i < |f| ensures Masses(f)[i] >= 0.0 && Carries(lo, hi, Masses(f)[i], Moments(xs, f)[i]) {
      MomentCarries(xs, f[i], lo, hi);
    }
    MassCarries(Masses(f), Moments(xs, f), lo, hi);
  }

  lemma CentroidBetween(xs: seq<real>, ys: seq<real>, f: Field, e: Axis, n: Axis)
    requires Fits(xs, ys, f) && forall i :: 0 <= i < |f| ==> NonNegative(f[i])
    requires Between(e.lo, e.hi, xs) && Between(n.lo, n.hi, ys)
    ensures CentroidOf(xs, ys, f).Some? <==> Sum(Masses(f)) > 0.0
    ensures CentroidOf(xs, ys, f).Some? ==>
              Inside(e, CentroidOf(xs, ys, f).value.0) && Inside(n, CentroidOf(xs, ys, f).value.1)
  {
    var total := Sum(Masses(f));
    if total > 0.0 {
      EastCarries(xs, f, e.lo, e.hi);
      MomentCarries(ys, Masses(f), n.lo, n.hi);
      CarriesMean(e.lo, e.hi, total, Sum(Moments(xs, f)));
      CarriesMean(n.lo, n.hi, total, Moment(ys, Masses(f)));
    }
  }

  lemma CentersBetween(a: Axis)
    requires ValidAxis(a)
    ensures Between(a.lo, a.hi, Centers(a))
  {
    forall i | 0 <= i < a.n ensures a.lo <= Centers(a)[i] <= a.hi {
      CenterInside(a, i);
    }
  }

  /** The centroid of a non-negative heatmap exists exactly when its sum is positive,
      and then lies inside the grid rectangle. */
  lemma CentroidInside(g: Grid, f: Field)
    requires ValidGrid(g) && FieldShape(g, f) && forall i :: 0 <= i < |f| ==> NonNegative(f[i])
    ensures Centroid(g, f).Some? <==> Sum(Masses(f)) > 0.0
    ensures Centroid(g, f).Some? ==>
              Inside(g.east, Centroid(g, f).value.0) && Inside(g.north, Centroid(g, f).value.1)
  {
    CentersBetween(g.east);
    CentersBetween(g.north);
    CentroidBetween(Centers(g.east), Centers(g.north), f, g.east, g.north);
  }

  /** Everything in one place. */
  ghost predicate OnlyAt(r: seq<real>, k: nat, w: real) {
    k < |r| && forall i :: 0 <= i < |r| ==> r[i] == if i == k then w else 0.0
  }

  ghost predicate Nothing(r: seq<real>) {
    forall i :: 0 <= i < |r| ==> r[i] == 0.0
  }

  lemma {:induction false} NothingWeighs(cs: seq<real>, r: seq<real>)
    requires |r| <= |cs| && Nothing(r)
    ensures Sum(r) == 0.0 && Moment(cs, r) == 0.0
  {
    if r != [] {
      NothingWeighs(cs, r[..|r| - 1]);
    }
  }

  lemma {:induction false} OneWeighs(cs: seq<real>, r: seq<real>, k: nat, w: real)
    requires |r| <= |cs| && OnlyAt(r, k, w)
    ensures Sum(r) == w && Moment(cs, r) == w * cs[k]
  {
    var n := |r| - 1;
    if k == n {
      NothingWeighs(cs, r[..n]);
    } else {
      OneWeighs(cs, r[..n], k, w);
    }
  }

  lemma QuotientOf(w: real, x: real)
    requires w > 0.0
    ensures (w * x) / w == x
  {
  }

  /** Only row `i` has anything in it. */
  ghost predicate OnlyRow(f: Field, i: nat) {
    i < |f| && forall k :: 0 <= k < |f| && k != i ==> Nothing(f[k])
  }

  lemma OneRowSums(xs: seq<real>, f: Field, i: nat)
    requires OnlyRow(f, i) && forall k :: 0 <= k < |f| ==> |f[k]| == |xs|
    ensures OnlyAt(Masses(f), i, Sum(f[i])) && OnlyAt(Moments(xs, f), i, Moment(xs, f[i]))
  {
    forall k | 0 <= k < |f| && k != i
      ensures Sum(f[k]) == 0.0 && Moment(xs, f[k]) == 0.0
    {
      NothingWeighs(xs, f[k]);
    }
  }

  lemma MassOnlyAt(r: seq<real>, k: nat, w: real)
    requires OnlyAt(r, k, w)
    ensures Sum(r) == w
  {
    OneWeighs(r, r, k, w);
  }

  lemma EastOfOne(xs: seq<real>, f: Field, i: nat, j: nat, w: real)
    requires OnlyRow(f, i) && (forall k :: 0 <= k < |f| ==> |f[k]| == |xs|) && OnlyAt(f[i], j, w)
    ensures OnlyAt(Masses(f), i, w) && Sum(Moments(xs, f)) == w * xs[j]
  {
    OneRowSums(xs, f, i);
    MassOnlyAt(Moments(xs, f), i, Moment(xs, f[i]));
    OneWeighs(xs, f[i], j, w);
  }

  lemma CentroidOfOne(xs: seq<real>, ys: seq<real>, f: Field, i: nat, j: nat, w: real)
    requires Fits(xs, ys, f) && OnlyRow(f, i) && w > 0.0 && OnlyAt(f[i], j, w)
    ensures CentroidOf(xs, ys, f) == Some((xs[j], ys[i]))
  {
    EastOfOne(xs, f, i, j, w);
    OneWeighs(ys, Masses(f), i, w);
    CentroidFrom(xs, ys, f, w, xs[j], ys[i]);
  }

  lemma CentroidFrom(xs: seq<real>, ys: seq<real>, f: Field, w: real, x: real, y: real)
    requires Fits(xs, ys, f) && w > 0.0 && Sum(Masses(f)) == w
    requires Sum(Moments(xs, f)) == w * x && Moment(ys, Masses(f)) == w * y
    ensures CentroidOf(xs, ys, f) == Some((x, y))
  {
    QuotientOf(w, x);
    QuotientOf(w, y);
  }

  /** The middle of the `k`-th of `n` equal parts of an axis. */
  function Middle(a: Axis, k: nat): real
    requires a.n > 0
  {
    a.lo + (k as real + 0.5) * ((a.hi - a.lo) / a.n as real)
  }

  lemma HalfWay(lo: real, k: real, w: real)
    ensures 0.5 * ((lo + k * w) + (lo + (k + 1.0) * w)) == lo + (k + 0.5) * w
  {
    assert (k + 1.0) * w == k * w + w;
    assert (k + 0.5) * w == k * w + 0.5 * w;
  }

  lemma CenterIsMiddle(a: Axis, k: nat)
    requires k < a.n
    ensures Center(a, k) == Middle(a, k)
  {
    var w := (a.hi - a.lo) / a.n as real;
    assert a.lo + a.n as real * w == a.hi;
    assert Edge(a, k) == a.lo + k as real * w && Edge(a, k + 1) == a.lo + (k as real + 1.0) * w;
    HalfWay(a.lo, k as real, w);
  }

  /** A hotspot in a single cell has its centroid in the middle of that cell. */
  lemma CentroidOfOneCell(g: Grid, f: Field, i: nat, j: nat, w: real)
    requires FieldShape(g, f) && OnlyRow(f, i) && w > 0.0 && OnlyAt(f[i], j, w)
    ensures Centroid(g, f) == Some((Middle(g.east, j), Middle(g.north, i)))
  {
    CentroidOfOne(Centers(g.east), Centers(g.north), f, i, j, w);
    CenterIsMiddle(g.east, j);
    CenterIsMiddle(g.north, i);
  }

  // ----- centroids of sums

  ghost predicate RowAdds(r: seq<real>, s: seq<real>, q: seq<real>) {
    |r| == |s| == |q| && forall i :: 0 <= i < |q| ==> q[i] == r[i] + s[i]
  }

  /** `h` is the sum of the heatmaps `f` and `e`, cell by cell. */
  ghost predicate Adds(f: Field, e: Field, h: Field) {
    |f| == |e| == |h| && forall i :: 0 <= i < |h| ==> RowAdds(f[i], e[i], h[i])
  }

  lemma {:induction false} SumAdds(r: seq<real>, s: seq<real>, q: seq<real>)
    requires RowAdds(r, s, q)
    ensures Sum(q) == Sum(r) + Sum(s)
  {
    if q != [] {
      var n := |q| - 1;
      SumAdds(r[..n], s[..n], q[..n]);
    }
  }

  lemma {:induction false} MomentAdds(cs: seq<real>, r: seq<real>, s: seq<real>, q: seq<real>)
    requires RowAdds(r, s, q) && |q| <= |cs|
    ensures Moment(cs, q) == Moment(cs, r) + Moment(cs, s)
  {
    if q != [] {
      var n := |q| - 1;
      MomentAdds(cs, r[..n], s[..n], q[..n]);
      assert q[n] * cs[n] == r[n] * cs[n] + s[n] * cs[n];
    }
  }

  lemma MassesAdd(f: Field, e: Field, h: Field)
    requires Adds(f, e, h)
    ensures RowAdds(Masses(f), Masses(e), Masses(h))
  {
    forall i | 0 <= i < |h| ensures Sum(h[i]) == Sum(f[i]) + Sum(e[i]) {
      SumAdds(f[i], e[i], h[i]);
    }
  }

  lemma MomentsAdd(cs: seq<real>, f: Field, e: Field, h: Field)
    requires Adds(f, e, h) && forall i :: 0 <= i < |h| ==> |h[i]| <= |cs|
    ensures RowAdds(Moments(cs, f), Moments(cs, e), Moments(cs, h))
  {
    forall i | 0 <= i < |h| ensures Moment(cs, h[i]) == Moment(cs, f[i]) + Moment(cs, e[i]) {
      MomentAdds(cs, f[i], e[i], h[i]);
    }
  }

  lemma MeanTimesMass(x: real, w: real)
    requires w > 0.0
    ensures w * (x / w) == x
  {
  }

  lemma SumsAdd(xs: seq<real>, ys: seq<real>, f: Field, e: Field, h: Field)
    requires Fits(xs, ys, f) && Fits(xs, ys, e) && Fits(xs, ys, h) && Adds(f, e, h)
    ensures Sum(Masses(h)) == Sum(Masses(f)) + Sum(Masses(e))
    ensures Sum(Moments(xs, h)) == Sum(Moments(xs, f)) + Sum(Moments(xs, e))
    ensures Moment(ys, Masses(h)) == Moment(ys, Masses(f)) + Moment(ys, Masses(e))
  {
    MassesAdd(f, e, h);
    MomentsAdd(xs, f, e, h);
    SumAdds(Masses(f), Masses(e), Masses(h));
    SumAdds(Moments(xs, f), Moments(xs, e), Moments(xs, h));
    MomentAdds(ys, Masses(f), Masses(e), Masses(h));
  }

  /** A point and a mass that together have these moments. */
  ghost predicate HasMoments(c: Option<(real, real)>, w: real, x: real, y: real) {
    c.Some? && w * c.value.0 == x && w * c.value.1 == y
  }

  lemma CentroidHasMoments(xs: seq<real>, ys: seq<real>, f: Field)
    requires Fits(xs, ys, f) && Sum(Masses(f)) > 0.0
    ensures HasMoments(CentroidOf(xs, ys, f), Sum(Masses(f)), Sum(Moments(xs, f)), Moment(ys, Masses(f)))
  {
    MeanTimesMass(Sum(Moments(xs, f)), Sum(Masses(f)));
    MeanTimesMass(Moment(ys, Masses(f)), Sum(Masses(f)));
  }

  lemma WeightedFrom(a: Option<(real, real)>, b: Option<(real, real)>, c: Option<(real, real)>, v: real, w: real,
                     x1: real, y1: real, x2: real, y2: real)
    requires HasMoments(a, v, x1, y1) && HasMoments(b, w, x2, y2) && HasMoments(c, v + w, x1 + x2, y1 + y2)
    ensures Weighted(a, b, c, v, w)
  {
  }

  /** `c` is the mean of `a` and `b` with weights `v` and `w`. */
  ghost predicate Weighted(a: Option<(real, real)>, b: Option<(real, real)>, c: Option<(real, real)>, v: real, w: real) {
    && a.Some? && b.Some? && c.Some?
    && (v + w) * c.value.0 == v * a.value.0 + w * b.value.0
    && (v + w) * c.value.1 == v * a.value.1 + w * b.value.1
  }

  /** The centroid of two heatmaps laid over each other is the mean of their centroids,
      weighted with their masses. Together with `CentroidOfOneCell` this fixes it. */
  lemma CentroidOfSum(g: Grid, f: Field, e: Field, h: Field)
    requires FieldShape(g, f) && FieldShape(g, e) && FieldShape(g, h) && Adds(f, e, h)
    requires Sum(Masses(f)) > 0.0 && Sum(Masses(e)) > 0.0
    ensures Weighted(Centroid(g, f), Centroid(g, e), Centroid(g, h), Sum(Masses(f)), Sum(Masses(e)))
  {
    var xs, ys := Centers(g.east), Centers(g.north);
    SumsAdd(xs, ys, f, e, h);
    CentroidHasMoments(xs, ys, f);
    CentroidHasMoments(xs, ys, e);
    CentroidHasMoments(xs, ys, h);
    WeightedFrom(Centroid(g, f), Centroid(g, e), Centroid(g, h), Sum(Masses(f)), Sum(Masses(e)),
                 Sum(Moments(xs, f)), Moment(ys, Masses(f)), Sum(Moments(xs, e)), Moment(ys, Masses(e)));
  }
}
