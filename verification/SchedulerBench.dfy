/** The scheduler benchmark: a population of self-rescheduling events over an event
    queue ordered by time and insertion, and the running statistics of its results. */
module SchedulerBench {
  import opened Common

  // ----- running mean and second moment, over the reals

  function SumSquares(xs: seq<real>): real {
    if xs == [] then 0.0 else SumSquares(xs[..|xs| - 1]) + xs[|xs| - 1] * xs[|xs| - 1]
  }

  function Mean(xs: seq<real>): real
    requires xs != []
  {
    Sum(xs) / |xs| as real
  }

  /** The sum of squared deviations from `c`. */
  function Spread(xs: seq<real>, c: real): real {
    if xs == [] then 0.0
    else
      var d := xs[|xs| - 1] - c;
      Spread(xs[..|xs| - 1], c) + d * d
  }

  /** One use of the accumulation macro: new average and new second moment. */
  function Accumulate(x: real, average: real, moment2: real, count: nat): (real, real)
    requires count > 0
  {
    var pre := x - average;
    var next := average + pre / count as real;
    var post := x - next;
    (next, moment2 + pre * post)
  }

  /** `a` is the mean of `n` samples with sum `s`, and `m` the sum of squared deviations
      from it, in terms of the sum of squares. */
  ghost predicate Centred(n: real, s: real, squares: real, a: real, m: real) {
    n * a == s && m == squares - n * (a * a)
  }

  /** The two variables hold the exact mean and the exact sum of squared deviations from
      it (see `AccurateIsMean`); before the first sample the average may be anything. */
  ghost predicate Accurate(xs: seq<real>, average: real, moment2: real) {
    if xs == [] then moment2 == 0.0
    else Centred(|xs| as real, Sum(xs), SumSquares(xs), average, moment2)
  }

  lemma SquareStep(x: real, c: real)
    ensures (x - c) * (x - c) == x * x - 2.0 * (c * x) + c * c
  {
  }

  lemma Distribute(a: real, b: real, c: real)
    ensures a * (b + c) == a * b + a * c
  {
  }

  ghost predicate Expanded(spread: real, squares: real, c: real, s: real, n: real) {
    spread == squares - 2.0 * (c * s) + n * (c * c)
  }

  /** One more sample in the expanded form of the spread, over plain numbers. */
  lemma ExpandStep(spread: real, squares: real, c: real, s: real, n: real, x: real)
    requires Expanded(spread, squares, c, s, n)
    ensures Expanded(spread + (x - c) * (x - c), squares + x * x, c, s + x, n + 1.0)
  {
    SquareStep(x, c);
    Distribute(c, s, x);
    Distribute(c * c, n, 1.0);
  }

  lemma ExpandedEmpty(c: real)
    ensures Expanded(0.0, 0.0, c, 0.0, 0.0)
  {
    Zeros(c);
  }

  /** The three sums of a sequence, taken apart at its last sample. */
  ghost predicate Unfolded(xs: seq<real>, c: real, x: real, spread: real, squares: real, s: real, n: real) {
    && Spread(xs, c) == spread + (x - c) * (x - c)
    && SumSquares(xs) == squares + x * x
    && Sum(xs) == s + x
    && |xs| as real == n + 1.0
  }

  lemma Unfold(xs: seq<real>, c: real)
    requires xs != []
    ensures var init := xs[..|xs| - 1];
            Unfolded(xs, c, xs[|xs| - 1], Spread(init, c), SumSquares(init), Sum(init), |init| as real)
  {
  }

  lemma ExpandUnfolded(xs: seq<real>, c: real, x: real, spread: real, squares: real, s: real, n: real)
    requires Unfolded(xs, c, x, spread, squares, s, n) && Expanded(spread, squares, c, s, n)
    ensures Expanded(Spread(xs, c), SumSquares(xs), c, Sum(xs), |xs| as real)
  {
    ExpandStep(spread, squares, c, s, n, x);
  }

  lemma {:induction false} SpreadExpands(xs: seq<real>, c: real)
    ensures Expanded(Spread(xs, c), SumSquares(xs), c, Sum(xs), |xs| as real)
  {
    if xs == [] {
      ExpandedEmpty(c);
    } else {
      var init := xs[..|xs| - 1];
      SpreadExpands(init, c);
      Unfold(xs, c);
      ExpandUnfolded(xs, c, xs[|xs| - 1], Spread(init, c), SumSquares(init), Sum(init), |init| as real);
    }
  }

  lemma Zeros(c: real)
    ensures c * 0.0 == 0.0 && 0.0 * (c * c) == 0.0
  {
  }

  lemma Quotient(a: real, k: real)
    requires k > 0.0
    ensures k * (a / k) == a
  {
  }

  lemma CentreStep(spread: real, squares: real, n: real, c: real, s: real)
    requires n * c == s && Expanded(spread, squares, c, s, n)
    ensures spread == squares - n * (c * c)
  {
    assert c * s == n * (c * c);
  }

  /** About its mean, the spread is the sum of squares less n times the squared mean. */
  lemma SpreadAboutMean(xs: seq<real>, c: real)
    requires |xs| as real * c == Sum(xs)
    ensures Spread(xs, c) == SumSquares(xs) - |xs| as real * (c * c)
  {
    SpreadExpands(xs, c);
    CentreStep(Spread(xs, c), SumSquares(xs), |xs| as real, c, Sum(xs));
  }

  /** The identity behind the update: with (n + 1) b = n a + x. */
  lemma UpdateIdentity(n: real, a: real, b: real, x: real)
    requires (n + 1.0) * b == n * a + x
    ensures (x - a) * (x - b) == x * x + n * (a * a) - (n + 1.0) * (b * b)
  {
    assert (n + 1.0) * (b * b) == b * (n * a + x) by { assert ((n + 1.0) * b) * b == (n * a + x) * b; }
    assert b * (n * a + x) == n * (a * b) + b * x;
    assert a * ((n + 1.0) * b) == a * (n * a + x);
    assert a * (n * a + x) == n * (a * a) + a * x;
    assert a * ((n + 1.0) * b) == n * (a * b) + a * b;
    assert (x - a) * (x - b) == x * x - x * b - a * x + a * b;
  }

  lemma AverageStep(n: real, s: real, a: real, x: real)
    requires n >= 0.0 && n * a == s
    ensures (n + 1.0) * (a + (x - a) / (n + 1.0)) == s + x
  {
    var k := n + 1.0;
    Quotient(x - a, k);
    Distribute(k, a, (x - a) / k);
    Distribute(a, n, 1.0);
  }

  /** The update over plain numbers. */
  lemma UpdateStep(n: real, s: real, squares: real, a: real, m: real, x: real, b: real)
    requires n > 0.0 && Centred(n, s, squares, a, m) && b == a + (x - a) / (n + 1.0)
    ensures Centred(n + 1.0, s + x, squares + x * x, b, m + (x - a) * (x - b))
  {
    AverageStep(n, s, a, x);
    UpdateIdentity(n, a, b, x);
  }

  lemma FirstStep(x: real, a: real, b: real)
    requires b == a + (x - a) / 1.0
    ensures Centred(1.0, x, x * x, b, (x - a) * (x - b))
  {
    assert (x - a) / 1.0 == x - a;
    Zeros(x - a);
  }

  lemma Snoc(xs: seq<real>, x: real)
    ensures Sum(xs + [x]) == Sum(xs) + x && SumSquares(xs + [x]) == SumSquares(xs) + x * x
  {
    assert (xs + [x])[..|xs|] == xs;
  }

  lemma AccurateFirst(x: real, average: real, next: real)
    requires next == average + (x - average) / 1.0
    ensures Accurate([x], next, (x - average) * (x - next))
  {
    FirstStep(x, average, next);
    Snoc([], x);
    assert [] + [x] == [x];
  }

  lemma AccurateNext(xs: seq<real>, x: real, average: real, moment2: real, next: real)
    requires xs != [] && Accurate(xs, average, moment2)
    requires next == average + (x - average) / (|xs| + 1) as real
    ensures Accurate(xs + [x], next, moment2 + (x - average) * (x - next))
  {
    var n := |xs| as real;
    Snoc(xs, x);
    UpdateStep(n, Sum(xs), SumSquares(xs), average, moment2, x, next);
    assert |xs + [x]| as real == n + 1.0;
  }

  /** One accumulation step keeps the variables exact. */
  lemma AccurateStep(xs: seq<real>, x: real, average: real, moment2: real)
    requires Accurate(xs, average, moment2)
    ensures var r := Accumulate(x, average, moment2, |xs| + 1); Accurate(xs + [x], r.0, r.1)
  {
    var next := Accumulate(x, average, moment2, |xs| + 1).0;
    if xs == [] {
      AccurateFirst(x, average, next);
      assert xs + [x] == [x];
    } else {
      AccurateNext(xs, x, average, moment2, next);
    }
  }

  ghost predicate Exact(xs: seq<real>, average: real, moment2: real)
    requires xs != []
  {
    average == Mean(xs) && moment2 == Spread(xs, Mean(xs)) && moment2 >= 0.0
  }

  /** Read with the mean: average and second moment over all samples. */
  lemma AccurateIsMean(xs: seq<real>, average: real, moment2: real)
    requires xs != [] && Accurate(xs, average, moment2)
    ensures Exact(xs, average, moment2)
  {
    Divide(average, |xs| as real, Sum(xs));
    SpreadAboutMean(xs, average);
    SpreadNonNegative(xs, average);
  }

  lemma Divide(q: real, k: real, s: real)
    requires k > 0.0 && k * q == s
    ensures q == s / k
  {
  }

  lemma {:induction false} SpreadNonNegative(xs: seq<real>, c: real)
    ensures Spread(xs, c) >= 0.0
  {
    if xs != [] {
      SpreadNonNegative(xs[..|xs| - 1], c);
      var d := xs[|xs| - 1] - c;
      assert d * d >= 0.0;
    }
  }

  datatype Phase = Phase(time: real, rate: real, period: real)
  datatype RunResult = RunResult(init: Phase, run: Phase)

  function Times(rs: seq<Phase>): (xs: seq<real>)
    ensures |xs| == |rs| && forall i :: 0 <= i < |rs| ==> xs[i] == rs[i].time
  {
    seq(|rs|, i requires 0 <= i < |rs| => rs[i].time)
  }

  function Rates(rs: seq<Phase>): (xs: seq<real>)
    ensures |xs| == |rs| && forall i :: 0 <= i < |rs| ==> xs[i] == rs[i].rate
  {
    seq(|rs|, i requires 0 <= i < |rs| => rs[i].rate)
  }

  function Periods(rs: seq<Phase>): (xs: seq<real>)
    ensures |xs| == |rs| && forall i :: 0 <= i < |rs| ==> xs[i] == rs[i].period
  {
    seq(|rs|, i requires 0 <= i < |rs| => rs[i].period)
  }

  ghost predicate AccuratePhase(rs: seq<Phase>, average: Phase, moment2: Phase) {
    && Accurate(Times(rs), average.time, moment2.time)
    && Accurate(Rates(rs), average.rate, moment2.rate)
    && Accurate(Periods(rs), average.period, moment2.period)
  }

  /** Exact mean and exact sum of squared deviations, in all three fields. */
  ghost predicate ExactPhase(rs: seq<Phase>, average: Phase, moment2: Phase)
    requires rs != []
  {
    && Exact(Times(rs), average.time, moment2.time)
    && Exact(Rates(rs), average.rate, moment2.rate)
    && Exact(Periods(rs), average.period, moment2.period)
  }

  lemma AccuratePhaseIsExact(rs: seq<Phase>, average: Phase, moment2: Phase)
    requires rs != [] && AccuratePhase(rs, average, moment2)
    ensures ExactPhase(rs, average, moment2)
  {
    AccurateIsMean(Times(rs), average.time, moment2.time);
    AccurateIsMean(Rates(rs), average.rate, moment2.rate);
    AccurateIsMean(Periods(rs), average.period, moment2.period);
  }

  /** The three accumulations of one phase. */
  method AccumulatePhase(ghost rs: seq<Phase>, x: Phase, average: Phase, moment2: Phase, count: nat)
    returns (average': Phase, moment2': Phase)
    requires count == |rs| + 1 && AccuratePhase(rs, average, moment2)
    ensures AccuratePhase(rs + [x], average', moment2')
  {
    AccurateStep(Times(rs), x.time, average.time, moment2.time);
    AccurateStep(Rates(rs), x.rate, average.rate, moment2.rate);
    AccurateStep(Periods(rs), x.period, average.period, moment2.period);
    assert Times(rs + [x]) == Times(rs) + [x.time];
    assert Rates(rs + [x]) == Rates(rs) + [x.rate];
    assert Periods(rs + [x]) == Periods(rs) + [x.period];
    var (t, tm) := Accumulate(x.time, average.time, moment2.time, count);
    var (r, rm) := Accumulate(x.rate, average.rate, moment2.rate, count);
    var (p, pm) := Accumulate(x.period, average.period, moment2.period, count);
    average', moment2' := Phase(t, r, p), Phase(tm, rm, pm);
  }

  function Inits(rs: seq<RunResult>): (xs: seq<Phase>)
    ensures |xs| == |rs| && forall i :: 0 <= i < |rs| ==> xs[i] == rs[i].init
  {
    seq(|rs|, i requires 0 <= i < |rs| => rs[i].init)
  }

  function Runs(rs: seq<RunResult>): (xs: seq<Phase>)
    ensures |xs| == |rs| && forall i :: 0 <= i < |rs| ==> xs[i] == rs[i].run
  {
    seq(|rs|, i requires 0 <= i < |rs| => rs[i].run)
  }

  /** The loop of `Log`: after all results both phases hold exact means and spreads.
      `first` stands for the arbitrary initial average. */
  method Statistics(results: seq<RunResult>, first: RunResult) returns (average: RunResult, moment2: RunResult)
    ensures results != [] ==> ExactPhase(Inits(results), average.init, moment2.init)
    ensures results != [] ==> ExactPhase(Runs(results), average.run, moment2.run)
  {
    average, moment2 := first, RunResult(Phase(0.0, 0.0, 0.0), Phase(0.0, 0.0, 0.0));
    for n := 0 to |results|
      invariant AccuratePhase(Inits(results[..n]), average.init, moment2.init)
      invariant AccuratePhase(Runs(results[..n]), average.run, moment2.run)
    {
      var r := results[n];
      var a, m := AccumulatePhase(Inits(results[..n]), r.init, average.init, moment2.init, n + 1);
      var b, k := AccumulatePhase(Runs(results[..n]), r.run, average.run, moment2.run, n + 1);
      assert Inits(results[..n + 1]) == Inits(results[..n]) + [r.init];
      assert Runs(results[..n + 1]) == Runs(results[..n]) + [r.run];
      average, moment2 := RunResult(a, b), RunResult(m, k);
    }
    assert results[..|results|] == results;
    if results != [] {
      AccuratePhaseIsExact(Inits(results), average.init, moment2.init);
      AccuratePhaseIsExact(Runs(results), average.run, moment2.run);
    }
  }

  // ----- the event population

  /** A scheduled callback; events at one time run in the order of scheduling. */
  datatype Event = Event(ts: nat, uid: nat)

  predicate Before(a: Event, b: Event) {
    a.ts < b.ts || (a.ts == b.ts && a.uid < b.uid)
  }

  ghost predicate InOrder(log: seq<Event>) {
    forall i, j :: 0 <= i < j < |log| ==> Before(log[i], log[j])
  }

  /** Scheduled times by event number. */
  type Queue = map<nat, nat>

  predicate IsFirst(queue: Queue, uid: nat) {
    uid in queue && forall v :: v in queue && v != uid ==> Before(Event(queue[uid], uid), Event(queue[v], v))
  }

  lemma {:induction false} FirstExists(queue: Queue)
    requires queue != map[]
    ensures exists uid :: IsFirst(queue, uid)
    decreases |queue|
  {
    var x :| x in queue;
    var rest := queue - {x};
    if rest == map[] {
      assert forall v :: v in queue ==> v == x || v in rest;
      assert IsFirst(queue, x);
    } else {
      assert |rest| < |queue| by { assert rest.Keys == queue.Keys - {x}; }
      FirstExists(rest);
      var y :| IsFirst(rest, y);
      assert forall v :: v in queue ==> v == x || (v in rest && queue[v] == rest[v]);
      assert IsFirst(queue, if Before(Event(queue[x], x), Event(queue[y], y)) then x else y);
    }
  }

  /** `last`, the latest executed event, comes before every scheduled one. */
  ghost predicate Leads(last: Event, queue: Queue, nextUid: nat, now: nat) {
    && last.uid < nextUid && last.ts <= now
    && forall v :: v in queue ==> Before(last, Event(queue[v], v))
  }

  /** Events to come are later than every executed one, and executed ones are in order. */
  ghost predicate OrderedAt(queue: Queue, nextUid: nat, now: nat, log: seq<Event>) {
    && InOrder(log)
    && (forall v :: v in queue ==> v < nextUid && queue[v] >= now)
    && (log != [] ==> Leads(log[|log| - 1], queue, nextUid, now))
  }

  lemma ScheduleKeeps(queue: Queue, nextUid: nat, now: nat, log: seq<Event>, ts: nat)
    requires OrderedAt(queue, nextUid, now, log) && ts >= now
    ensures |queue[nextUid := ts]| == |queue| + 1 && OrderedAt(queue[nextUid := ts], nextUid + 1, now, log)
  {
    assert nextUid !in queue;
  }

  lemma PopKeeps(queue: Queue, nextUid: nat, now: nat, log: seq<Event>, uid: nat)
    requires OrderedAt(queue, nextUid, now, log) && IsFirst(queue, uid)
    ensures |queue - {uid}| == |queue| - 1
    ensures OrderedAt(queue - {uid}, nextUid, queue[uid], log + [Event(queue[uid], uid)])
  {
    assert (queue - {uid}).Keys == queue.Keys - {uid};
  }

  /** One queue length per callback: full before callback number `total`, one short there. */
  ghost predicate Steady(levels: seq<nat>, population: nat, total: nat) {
    forall i :: 0 <= i < |levels| ==> levels[i] == if i < total then population else population - 1
  }

  /** The benchmark object together with the simulator it drives. The delays come from
      a random stream; `log` records the executed events. */
  class Bench {
    const population: nat
    const total: nat
    const delays: nat -> nat
    var drawn: nat
    var count: nat
    var queue: Queue
    var nextUid: nat
    var now: nat
    var stopped: bool
    ghost var log: seq<Event>

    constructor (population: nat, total: nat, delays: nat -> nat)
      ensures this.population == population && this.total == total && this.delays == delays
      ensures Clean() && count == 0 && drawn == 0
    {
      this.population, this.total, this.delays := population, total, delays;
      count, drawn, queue, nextUid, now, stopped, log := 0, 0, map[], 0, 0, false, [];
    }

    /** The simulator as it is before its first event and after `Simulator::Destroy`. */
    ghost predicate Clean()
      reads this
    {
      queue == map[] && nextUid == 0 && now == 0 && !stopped && log == []
    }

    ghost predicate Ordered()
      reads this
    {
      OrderedAt(queue, nextUid, now, log)
    }

    method Schedule()
      requires Ordered()
      modifies this`queue, this`nextUid, this`drawn
      ensures Ordered() && |queue| == |old(queue)| + 1
      ensures queue == old(queue)[old(nextUid) := now + delays(old(drawn))]
      ensures nextUid == old(nextUid) + 1 && drawn == old(drawn) + 1
    {
      var delay := delays(drawn);
      ScheduleKeeps(queue, nextUid, now, log, now + delay);
      queue := queue[nextUid := now + delay];
      nextUid, drawn := nextUid + 1, drawn + 1;
    }

    /** The callback: stop when enough events have run, otherwise schedule another. */
    method Cb()
      requires Ordered()
      modifies this`queue, this`nextUid, this`drawn, this`count, this`stopped
      ensures Ordered()
      ensures if old(count) >= total
              then stopped && count == old(count) && queue == old(queue) && drawn == old(drawn)
              else stopped == old(stopped) && count == old(count) + 1 && |queue| == |old(queue)| + 1 && drawn == old(drawn) + 1
    {
      if count >= total {
        stopped := true;
        return;
      }
      Schedule();
      count := count + 1;
    }

    /** Takes the first event out of the queue and makes its time the current one. */
    method Pop() returns (uid: nat)
      requires Ordered() && queue != map[]
      modifies this`queue, this`now, this`log
      ensures Ordered() && IsFirst(old(queue), uid) && |queue| == |old(queue)| - 1
      ensures queue == old(queue) - {uid} && now == old(queue)[uid] && log == old(log) + [Event(now, uid)]
    {
      FirstExists(queue);
      uid :| IsFirst(queue, uid);
      PopKeeps(queue, nextUid, now, log, uid);
      now := queue[uid];
      queue := queue - {uid};
      log := log + [Event(now, uid)];
    }

    method Destroy()
      modifies this`queue, this`nextUid, this`now, this`stopped, this`log
      ensures Clean()
    {
      queue, nextUid, now, stopped, log := map[], 0, 0, false, [];
    }

    /** A run with a positive population executes `total + 1` callbacks, the last of them
        the stopping one, and counts `total`; one with an empty population executes none.
        The events in `executed` are in order of time, ties in order of scheduling.
        `levels` are the queue lengths after the callbacks: the whole population until the
        stopping one. The random stream carries on, and the simulator is clean again. */
    method Run() returns (events: nat, ghost executed: seq<Event>, ghost levels: seq<nat>)
      requires Clean()
      modifies this
      ensures Clean() && events == count && InOrder(executed)
      ensures population > 0 ==> events == total && |executed| == |levels| == total + 1
      ensures population > 0 ==> Steady(levels, population, total) && drawn == old(drawn) + population + total
      ensures population == 0 ==> events == 0 && executed == [] && drawn == old(drawn)
    {
      count, levels := 0, [];
      for i := 0 to population
        invariant Ordered() && |queue| == i && log == [] && count == 0 && !stopped && drawn == old(drawn) + i
      {
        Schedule();
      }
      while queue != map[] && !stopped
        invariant Ordered() && count <= total && drawn == old(drawn) + population + count
        invariant |levels| == |log| == count + (if stopped then 1 else 0)
        invariant stopped ==> count == total && population > 0
        invariant !stopped ==> |queue| == population
        invariant Steady(levels, population, total)
        invariant population == 0 ==> log == [] && count == 0
        decreases total - count, !stopped
      {
        var uid := Pop();
        Cb();
        levels := levels + [|queue|];
      }
      executed := log;
      Destroy();
      events := count;
    }
  }

  /** The suite: a priming run whose result is dropped, and then the data runs, all on one
      object. With a positive population every data run counts `total` events, and run
      `i` starts at its own place in the random stream. */
  method RunSuite(population: nat, total: nat, runs: nat, delays: nat -> nat) returns (counts: seq<nat>, ghost starts: seq<nat>)
    ensures |counts| == |starts| == runs
    ensures forall i :: 0 <= i < runs ==> counts[i] == if population > 0 then total else 0
    ensures forall i :: 0 <= i < runs ==> starts[i] == if population > 0 then (i + 1) * (population + total) else 0
  {
    var bench := new Bench(population, total, delays);
    var prime, _, _ := bench.Run();
    counts, starts := [], [];
    for i := 0 to runs
      invariant bench.Clean() && fresh(bench) && bench.population == population && bench.total == total
      invariant bench.drawn == if population > 0 then (i + 1) * (population + total) else 0
      invariant |counts| == |starts| == i
      invariant forall j :: 0 <= j < i ==> counts[j] == if population > 0 then total else 0
      invariant forall j :: 0 <= j < i ==> starts[j] == if population > 0 then (j + 1) * (population + total) else 0
    {
      starts := starts + [bench.drawn];
      var events, _, _ := bench.Run();
      counts := counts + [events];
    }
  }
}
