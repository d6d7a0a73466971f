/** The sequence of heatmaps: one per timestamp of the position trace. */
module HeatmapSeries {
  import opened Common
  import opened Heatmaps
  import EventAlignment

  /** The nodes that are underserved at a time. */
  function NodesAt(events: EventAlignment.Events, t: real): set<string> {
    EventAlignment.Nodes(events, EventAlignment.Time(t))
  }

  ghost predicate Increasing(times: seq<real>) {
    forall i, j :: 0 <= i < j < |times| ==> times[i] < times[j]
  }

  /** The distinct times of the rows, in increasing order. */
  ghost predicate TimesOf(rows: seq<Row>, times: seq<real>) {
    && Increasing(times)
    && (forall k :: 0 <= k < |rows| ==> rows[k].time in times)
    && (forall t :: t in times ==> exists k :: 0 <= k < |rows| && rows[k].time == t)
  }

  lemma InsertTime(rows: seq<Row>, row: Row, times: seq<real>, k: nat)
    requires TimesOf(rows, times) && k <= |times|
    requires forall j :: 0 <= j < k ==> times[j] < row.time
    requires k < |times| ==> row.time < times[k]
    ensures TimesOf(rows + [row], times[..k] + [row.time] + times[k..])
  {
    var more, all := times[..k] + [row.time] + times[k..], rows + [row];
    forall t | t in more ensures exists j :: 0 <= j < |all| && all[j].time == t {
      if t == row.time {
        assert all[|rows|].time == t;
      } else {
        assert t in times;
        var j :| 0 <= j < |rows| && rows[j].time == t;
        assert all[j].time == t;
      }
    }
    forall j | 0 <= j < |all| ensures all[j].time in more {
      if j < |rows| {
        var i :| 0 <= i < |times| && times[i] == rows[j].time;
        assert more[if i < k then i else i + 1] == times[i];
      } else {
        assert more[k] == row.time;
      }
    }
  }

  lemma RepeatTime(rows: seq<Row>, row: Row, times: seq<real>, k: nat)
    requires TimesOf(rows, times) && k < |times| && times[k] == row.time
    ensures TimesOf(rows + [row], times)
  {
    var all := rows + [row];
    forall t | t in times ensures exists j :: 0 <= j < |all| && all[j].time == t {
      var j :| 0 <= j < |rows| && rows[j].time == t;
      assert all[j].time == t;
    }
  }

  /** `np.sort` of the unique times. */
  method SortedTimes(rows: seq<Row>) returns (times: seq<real>)
    ensures TimesOf(rows, times)
  {
    times := [];
    for i := 0 to |rows|
      invariant TimesOf(rows[..i], times)
    {
      var t, k := rows[i].time, 0;
      while k < |times| && times[k] < t
        invariant 0 <= k <= |times| && forall j :: 0 <= j < k ==> times[j] < t
      {
        k := k + 1;
      }
      assert rows[..i + 1] == rows[..i] + [rows[i]];
      if k < |times| && times[k] == t {
        RepeatTime(rows[..i], rows[i], times, k);
      } else {
        InsertTime(rows[..i], rows[i], times, k);
        times := times[..k] + [t] + times[k..];
      }
    }
    assert rows[..|rows|] == rows;
  }

  lemma NoTimesIff(rows: seq<Row>, times: seq<real>)
    requires TimesOf(rows, times)
    ensures times == [] <==> rows == []
  {
    if rows != [] {
      assert rows[0].time in times;
    }
    if times != [] {
      assert times[0] in times;
    }
  }

  datatype Series = Series(heatmaps: seq<Heatmap>, times: seq<real>, underserved: seq<nat>)

  /** One heatmap for each of the first `n` times. */
  ghost predicate Built(g: Grid, rows: seq<Row>, events: EventAlignment.Events, times: seq<real>, n: nat,
                        heatmaps: seq<Heatmap>, underserved: seq<nat>)
    requires ValidGrid(g)
  {
    && n <= |times| && |heatmaps| == |underserved| == n
    && (forall k :: 0 <= k < n ==> Counts(g, rows, times[k], NodesAt(events, times[k]), heatmaps[k]))
    && (forall k :: 0 <= k < n ==> underserved[k] == |NodesAt(events, times[k])|)
  }

  /** The loop over the times. */
  method OnePerTime(g: Grid, rows: seq<Row>, events: EventAlignment.Events, times: seq<real>)
    returns (heatmaps: seq<Heatmap>, underserved: seq<nat>)
    requires ValidGrid(g)
    ensures Built(g, rows, events, times, |times|, heatmaps, underserved)
  {
    heatmaps, underserved := [], [];
    for n := 0 to |times|
      invariant Built(g, rows, events, times, n, heatmaps, underserved)
    {
      var nodes := NodesAt(events, times[n]);
      var h := BuildHeatmap(g, rows, times[n], nodes);
      heatmaps, underserved := heatmaps + [h], underserved + [|nodes|];
    }
  }

  /** Every cell of every heatmap counts the rows that fall into it, from the coordinates alone. */
  ghost predicate AllCellsCount(g: Grid, rows: seq<Row>, events: EventAlignment.Events, s: Series) {
    && |s.heatmaps| == |s.times|
    && forall k :: 0 <= k < |s.times| ==> CellsCount(g, rows, s.times[k], NodesAt(events, s.times[k]), s.heatmaps[k])
  }

  lemma BuiltCellsCount(g: Grid, rows: seq<Row>, events: EventAlignment.Events, s: Series)
    requires ValidGrid(g) && Built(g, rows, events, s.times, |s.times|, s.heatmaps, s.underserved)
    ensures AllCellsCount(g, rows, events, s)
  {
    forall k | 0 <= k < |s.times| ensures CellsCount(g, rows, s.times[k], NodesAt(events, s.times[k]), s.heatmaps[k]) {
      CountsAreCells(g, rows, s.times[k], NodesAt(events, s.times[k]), s.heatmaps[k]);
    }
  }

  /** One heatmap per distinct time of the trace, in time order, each counting the rows of
      the nodes underserved at that time, those for which there are none included; an
      empty trace is refused. */
  method BuildUnderservedHeatmaps(g: Grid, rows: seq<Row>, events: EventAlignment.Events) returns (r: Result<Series, string>)
    requires ValidGrid(g)
    ensures r.Failure? <==> rows == []
    ensures r.Success? ==>
              && TimesOf(rows, r.value.times)
              && Built(g, rows, events, r.value.times, |r.value.times|, r.value.heatmaps, r.value.underserved)
              && AllCellsCount(g, rows, events, r.value)
  {
    var times := SortedTimes(rows);
    NoTimesIff(rows, times);
    var heatmaps, underserved := OnePerTime(g, rows, events, times);
    if heatmaps == [] {
      return Failure("No underserved heatmaps could be built.");
    }
    BuiltCellsCount(g, rows, events, Series(heatmaps, times, underserved));
    return Success(Series(heatmaps, times, underserved));
  }

  // ----- conservation

  /** Times that the comparison of floating-point numbers keeps apart. */
  ghost predicate Separated(times: seq<real>) {
    forall i, j :: 0 <= i < |times| && 0 <= j < |times| && IsClose(times[i], times[j]) ==> i == j
  }

  function SumTotals(heatmaps: seq<Heatmap>): nat {
    if heatmaps == [] then 0 else SumTotals(heatmaps[..|heatmaps| - 1]) + Total(heatmaps[|heatmaps| - 1])
  }

  /** The node of the row is underserved at the row's own time, and the row is in the grid. */
  predicate Hit(g: Grid, row: Row, events: EventAlignment.Events) {
    row.node in NodesAt(events, row.time) && InGrid(g, row)
  }

  function Hits(g: Grid, rows: seq<Row>, events: EventAlignment.Events): nat {
    if rows == [] then 0
    else Hits(g, rows[..|rows| - 1], events) + (if Hit(g, rows[|rows| - 1], events) then 1 else 0)
  }

  /** What the heatmaps of the first `n` times count among `rows`. */
  function Counted(g: Grid, rows: seq<Row>, events: EventAlignment.Events, times: seq<real>, n: nat): nat
    requires n <= |times|
  {
    if n == 0 then 0
    else Counted(g, rows, events, times, n - 1) + CountInGrid(g, rows, times[n - 1], NodesAt(events, times[n - 1]))
  }

  lemma {:induction false} TotalsAreCounted(g: Grid, rows: seq<Row>, events: EventAlignment.Events, times: seq<real>, n: nat,
                                            heatmaps: seq<Heatmap>, underserved: seq<nat>)
    requires ValidGrid(g) && Built(g, rows, events, times, n, heatmaps, underserved)
    ensures SumTotals(heatmaps) == Counted(g, rows, events, times, n)
  {
    if n > 0 {
      TotalsAreCounted(g, rows, events, times, n - 1, heatmaps[..n - 1], underserved[..n - 1]);
      assert Counts(g, rows, times[n - 1], NodesAt(events, times[n - 1]), heatmaps[n - 1]);
    }
  }

  /** The row is in the grid and selected for a time other than its own. */
  predicate Stray(g: Grid, row: Row, events: EventAlignment.Events, times: seq<real>, j: nat) {
    && j < |times| && times[j] != row.time && IsClose(row.time, times[j])
    && row.node in NodesAt(events, times[j]) && InGrid(g, row)
  }

  /** For how many of the first `n` times the row is a stray. */
  function StrayCount(g: Grid, row: Row, events: EventAlignment.Events, times: seq<real>, n: nat): nat
    requires n <= |times|
  {
    if n == 0 then 0
    else StrayCount(g, row, events, times, n - 1) + (if Stray(g, row, events, times, n - 1) then 1 else 0)
  }

  function Strays(g: Grid, rows: seq<Row>, events: EventAlignment.Events, times: seq<real>): nat {
    if rows == [] then 0
    else
      var n := |rows| - 1;
      Strays(g, rows[..n], events, times) + StrayCount(g, rows[n], events, times, |times|)
  }

  lemma OwnTimeIsClose(t: real)
    ensures IsClose(t, t)
  {
  }

  /** What a row adds to the heatmap of one time. */
  function Contribution(g: Grid, row: Row, events: EventAlignment.Events, t: real): nat {
    if Selected(row, t, NodesAt(events, t)) && InGrid(g, row) then 1 else 0
  }

  lemma OwnContribution(g: Grid, row: Row, events: EventAlignment.Events)
    ensures Contribution(g, row, events, row.time) == if Hit(g, row, events) then 1 else 0
  {
    OwnTimeIsClose(row.time);
  }

  lemma ForeignContribution(g: Grid, row: Row, events: EventAlignment.Events, times: seq<real>, j: nat)
    requires j < |times| && times[j] != row.time
    ensures Contribution(g, row, events, times[j]) == if Stray(g, row, events, times, j) then 1 else 0
  {
  }

  lemma CountOneMore(g: Grid, rows: seq<Row>, row: Row, events: EventAlignment.Events, t: real)
    ensures CountInGrid(g, rows + [row], t, NodesAt(events, t)) ==
            CountInGrid(g, rows, t, NodesAt(events, t)) + Contribution(g, row, events, t)
  {
    var all := rows + [row];
    assert all[..|all| - 1] == rows;
  }

  /** One more row is counted in the heatmap of its own time when it is a hit, and in those
      of the times where it is a stray. */
  lemma {:induction false} OneMoreRow(g: Grid, rows: seq<Row>, row: Row, events: EventAlignment.Events,
                                      times: seq<real>, m: nat, n: nat)
    requires Increasing(times) && m < |times| && times[m] == row.time && n <= |times|
    ensures Counted(g, rows + [row], events, times, n) ==
            Counted(g, rows, events, times, n) + (if m < n && Hit(g, row, events) then 1 else 0) +
            StrayCount(g, row, events, times, n)
  {
    if n > 0 {
      var k := n - 1;
      OneMoreRow(g, rows, row, events, times, m, k);
      CountOneMore(g, rows, row, events, times[k]);
      TimeContribution(g, row, events, times, m, k);
    }
  }

  lemma TimeContribution(g: Grid, row: Row, events: EventAlignment.Events, times: seq<real>, m: nat, k: nat)
    requires Increasing(times) && m < |times| && times[m] == row.time && k < |times|
    ensures Contribution(g, row, events, times[k]) ==
            (if m == k && Hit(g, row, events) then 1 else 0) + (if Stray(g, row, events, times, k) then 1 else 0)
  {
    if k == m {
      OwnContribution(g, row, events);
    } else {
      assert times[k] != times[m];
      ForeignContribution(g, row, events, times, k);
    }
  }

  lemma {:induction false} CountedAreHitsAndStrays(g: Grid, rows: seq<Row>, events: EventAlignment.Events, times: seq<real>)
    requires Increasing(times) && forall k :: 0 <= k < |rows| ==> rows[k].time in times
    ensures Counted(g, rows, events, times, |times|) == Hits(g, rows, events) + Strays(g, rows, events, times)
  {
    if rows == [] {
      NothingCounted(g, events, times, |times|);
    } else {
      var n := |rows| - 1;
      CountedAreHitsAndStrays(g, rows[..n], events, times);
      var m :| 0 <= m < |times| && times[m] == rows[n].time;
      OneMoreRow(g, rows[..n], rows[n], events, times, m, |times|);
      assert rows == rows[..n] + [rows[n]];
    }
  }

  lemma {:induction false} NothingCounted(g: Grid, events: EventAlignment.Events, times: seq<real>, n: nat)
    requires n <= |times|
    ensures Counted(g, [], events, times, n) == 0
  {
    if n > 0 {
      NothingCounted(g, events, times, n - 1);
    }
  }

  lemma {:induction false} NoStrayIff(g: Grid, row: Row, events: EventAlignment.Events, times: seq<real>, n: nat)
    requires n <= |times|
    ensures StrayCount(g, row, events, times, n) == 0 <==> forall j :: 0 <= j < n ==> !Stray(g, row, events, times, j)
  {
    if n > 0 {
      NoStrayIff(g, row, events, times, n - 1);
    }
  }

  ghost predicate HasStray(g: Grid, rows: seq<Row>, events: EventAlignment.Events, times: seq<real>) {
    exists k, j :: 0 <= k < |rows| && 0 <= j < |times| && Stray(g, rows[k], events, times, j)
  }

  lemma {:induction false} NoStraysIff(g: Grid, rows: seq<Row>, events: EventAlignment.Events, times: seq<real>)
    ensures Strays(g, rows, events, times) == 0 <==> !HasStray(g, rows, events, times)
  {
    if rows != [] {
      var n := |rows| - 1;
      NoStraysIff(g, rows[..n], events, times);
      NoStrayIff(g, rows[n], events, times, |times|);
      if k, j :| 0 <= k < |rows| && 0 <= j < |times| && Stray(g, rows[k], events, times, j) {
        assert k < n ==> Stray(g, rows[..n][k], events, times, j);
      }
      if k, j :| 0 <= k < n && 0 <= j < |times| && Stray(g, rows[..n][k], events, times, j) {
        assert Stray(g, rows[k], events, times, j);
      }
    }
  }

  /** What the heatmaps count: every row of a node underserved at the row's own time, once,
      and on top of that every stray, once for each foreign time. */
  lemma SumIsHitsAndStrays(g: Grid, rows: seq<Row>, events: EventAlignment.Events, s: Series)
    requires ValidGrid(g) && TimesOf(rows, s.times)
    requires Built(g, rows, events, s.times, |s.times|, s.heatmaps, s.underserved)
    ensures SumTotals(s.heatmaps) == Hits(g, rows, events) + Strays(g, rows, events, s.times)
  {
    TotalsAreCounted(g, rows, events, s.times, |s.times|, s.heatmaps, s.underserved);
    CountedAreHitsAndStrays(g, rows, events, s.times);
  }

  /** The heatmaps count exactly the rows of nodes underserved at the row's own time if and
      only if no row in the grid lies close to a foreign time at which its node is
      underserved; otherwise they count more. */
  lemma CountedOnceIff(g: Grid, rows: seq<Row>, events: EventAlignment.Events, s: Series)
    requires ValidGrid(g) && TimesOf(rows, s.times)
    requires Built(g, rows, events, s.times, |s.times|, s.heatmaps, s.underserved)
    ensures SumTotals(s.heatmaps) >= Hits(g, rows, events)
    ensures SumTotals(s.heatmaps) == Hits(g, rows, events) <==> !HasStray(g, rows, events, s.times)
  {
    SumIsHitsAndStrays(g, rows, events, s);
    NoStraysIff(g, rows, events, s.times);
  }

  /** In particular, whatever the events, when no two times of the trace are close. */
  lemma EveryRowCountedOnce(g: Grid, rows: seq<Row>, events: EventAlignment.Events, s: Series)
    requires ValidGrid(g) && TimesOf(rows, s.times) && Separated(s.times)
    requires Built(g, rows, events, s.times, |s.times|, s.heatmaps, s.underserved)
    ensures SumTotals(s.heatmaps) == Hits(g, rows, events)
  {
    CountedOnceIff(g, rows, events, s);
    forall k, j | 0 <= k < |rows| && 0 <= j < |s.times| ensures !Stray(g, rows[k], events, s.times, j) {
      var i :| 0 <= i < |s.times| && s.times[i] == rows[k].time;
      assert IsClose(s.times[i], s.times[j]) ==> i == j;
    }
  }

  /** A trace that is miscounted: one node at the corner of the grid, at two times half a
      millisecond apart after a hundred seconds, and underserved at both. */
  lemma CloseTimesMiscount(g: Grid, rows: seq<Row>, events: EventAlignment.Events, s: Series)
    requires ValidGrid(g) && TimesOf(rows, s.times)
    requires rows == [Row(100.0, "ue", g.east.lo, g.north.lo), Row(100.0005, "ue", g.east.lo, g.north.lo)]
    requires events == map[EventAlignment.Time(100.0) := {"ue"}, EventAlignment.Time(100.0005) := {"ue"}]
    requires Built(g, rows, events, s.times, |s.times|, s.heatmaps, s.underserved)
    ensures SumTotals(s.heatmaps) > Hits(g, rows, events)
  {
    assert rows[1].time in s.times;
    var j :| 0 <= j < |s.times| && s.times[j] == 100.0005;
    assert Stray(g, rows[0], events, s.times, j);
    CountedOnceIff(g, rows, events, s);
  }
}
