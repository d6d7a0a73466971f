/** One run of the load-aware handover logic module: from the reports in the data
    repository and its own memory it issues handover commands, reserving target
    capacity as it goes. Times are in nanoseconds and may be negative differences. */
module LoadAwareHandover {
  import opened Common

  type Ue = nat
  type Cell = nat
  type Time = int

  datatype Config = Config(
    hysteresisDb: real, warmup: Time, minHoInterval: Time, hoAttemptTimeout: Time, timeToTrigger: Time,
    maxUesPerCell: nat, tryNextBest: bool, minAcceptableRsrpDbm: real, lowRsrpRecheck: Time,
    cellCapacity: map<Cell, nat>)

  datatype Measurement = Measurement(rnti: nat, cellId: Cell, rsrp: real, isServing: bool, ccId: nat)
  datatype UeInfo = UeInfo(nodeId: Ue, cellId: Cell)
  datatype GnbInfo = GnbInfo(nodeId: nat, cellId: Cell)

  /** What the data repository reports at one query. */
  datatype Snapshot = Snapshot(now: Time, ues: seq<UeInfo>, gnbs: seq<GnbInfo>, reports: map<Ue, seq<Measurement>>)

  /** What the module remembers between queries (its static maps). */
  datatype Memory = Memory(
    lastHoCmdTime: map<Ue, Time>, pendingHoTarget: map<Ue, Cell>,
    lowRsrpBlockUntil: map<Ue, Time>, tttState: map<Ue, (Cell, Time)>)

  /** A command names the source gNB, the RNTI and the target cell; `ue` is the node it is about. */
  datatype Command = Command(ue: Ue, sourceGnb: nat, rnti: nat, target: Cell)

  datatype Cand = Cand(cellId: Cell, rsrp: real)

  type Loads = map<Cell, nat>

  /** The capacity of a cell; 0 means no limit. */
  function Cap(cfg: Config, c: Cell): nat {
    if c in cfg.cellCapacity then cfg.cellCapacity[c] else cfg.maxUesPerCell
  }

  /** A cell may hold `n` UEs: at most its own limit if it has one, and at most the common limit
      otherwise; a limit of 0 is no limit. */
  predicate Allows(cfg: Config, c: Cell, n: nat) {
    || (c in cfg.cellCapacity && (n <= cfg.cellCapacity[c] || cfg.cellCapacity[c] == 0))
    || (c !in cfg.cellCapacity && (n <= cfg.maxUesPerCell || cfg.maxUesPerCell == 0))
  }

  /** Some limit applies to the cell. */
  predicate Limited(cfg: Config, c: Cell) {
    if c in cfg.cellCapacity then cfg.cellCapacity[c] != 0 else cfg.maxUesPerCell != 0
  }

  function LoadOf(loads: Loads, c: Cell): nat {
    if c in loads then loads[c] else 0
  }

  predicate Full(cfg: Config, loads: Loads, c: Cell) {
    Cap(cfg, c) > 0 && LoadOf(loads, c) >= Cap(cfg, c)
  }

  function Reports(snap: Snapshot, ue: Ue): seq<Measurement> {
    if ue in snap.reports then snap.reports[ue] else []
  }

  // ----- reading the measurements

  function FirstServing(ms: seq<Measurement>): Option<Measurement> {
    if ms == [] then None
    else if ms[0].ccId == 0 && ms[0].isServing then Some(ms[0])
    else FirstServing(ms[1..])
  }

  function LastServing(ms: seq<Measurement>): Option<Measurement> {
    if ms == [] then None
    else
      var m := ms[|ms| - 1];
      if m.ccId == 0 && m.isServing then Some(m) else LastServing(ms[..|ms| - 1])
  }

  /** The best RSRP reported for a cell on the first component carrier. */
  function Best(ms: seq<Measurement>, c: Cell): Option<real> {
    if ms == [] then None
    else
      var m, b := ms[|ms| - 1], Best(ms[..|ms| - 1], c);
      if m.ccId == 0 && m.cellId == c && (b.None? || m.rsrp > b.value) then Some(m.rsrp) else b
  }

  predicate Relevant(m: Measurement, c: Cell) {
    m.ccId == 0 && m.cellId == c
  }

  /** `Best` is the maximum over the relevant measurements, when there are any. */
  lemma {:induction false} BestIsMaximum(ms: seq<Measurement>, c: Cell)
    ensures Best(ms, c).None? <==> forall m :: m in ms ==> !Relevant(m, c)
    ensures Best(ms, c).Some? ==>
              && (exists m :: m in ms && Relevant(m, c) && m.rsrp == Best(ms, c).value)
              && (forall m :: m in ms && Relevant(m, c) ==> m.rsrp <= Best(ms, c).value)
  {
    if ms != [] {
      var n := |ms| - 1;
      BestIsMaximum(ms[..n], c);
      assert ms == ms[..n] + [ms[n]] && ms[n] in ms;
      if Best(ms, c).Some? && Best(ms, c) == Best(ms[..n], c) {
        var m :| m in ms[..n] && Relevant(m, c) && m.rsrp == Best(ms[..n], c).value;
        assert m in ms;
      }
    }
  }

  /** The cell a UE counts for: its serving cell, or the registered cell when no
      serving measurement is usable; 0 when neither is known. */
  function AttachedCell(snap: Snapshot, u: UeInfo): Cell {
    var s := FirstServing(Reports(snap, u.nodeId));
    if s.Some? && s.value.cellId != 0 && s.value.rnti != 0 then s.value.cellId else u.cellId
  }

  /** How many of the first `n` UEs count for cell `c`. */
  function Attached(snap: Snapshot, n: nat, c: Cell): nat
    requires n <= |snap.ues|
  {
    if n == 0 then 0
    else Attached(snap, n - 1, c) + (if c != 0 && AttachedCell(snap, snap.ues[n - 1]) == c then 1 else 0)
  }

  // ----- pending handovers

  predicate Live(cfg: Config, last: map<Ue, Time>, now: Time, ue: Ue) {
    ue in last && now - last[ue] < cfg.hoAttemptTimeout
  }

  function Pruned(cfg: Config, mem: Memory, now: Time): map<Ue, Cell> {
    map u | u in mem.pendingHoTarget && Live(cfg, mem.lastHoCmdTime, now, u) :: mem.pendingHoTarget[u]
  }

  /** The UEs whose pending handover leads to `c`. */
  function Heading(pending: map<Ue, Cell>, c: Cell): set<Ue> {
    set u | u in pending && pending[u] == c
  }

  /** Load after reservations: they stop at the capacity. */
  function Reserved(cap: nat, served: nat, pending: nat): nat {
    if cap == 0 || served + pending <= cap then served + pending
    else if served >= cap then served
    else cap
  }

  /** How many of the commands lead to `c`. */
  function Commanded(cmds: seq<Command>, c: Cell): nat {
    if cmds == [] then 0
    else Commanded(cmds[..|cmds| - 1], c) + (if cmds[|cmds| - 1].target == c then 1 else 0)
  }

  // ----- the steps before the decisions

  /** One cell's load set to `n`, the others as before. */
  ghost predicate Changed(before: Loads, after: Loads, k: Cell, n: nat) {
    forall c: Cell :: LoadOf(after, c) == if c == k then n else LoadOf(before, c)
  }

  lemma PutLoadAt(loads: Loads, k: Cell, n: nat, c: Cell)
    ensures LoadOf(loads[k := n], c) == if c == k then n else LoadOf(loads, c)
  {
  }

  lemma PutLoad(loads: Loads, k: Cell, n: nat)
    ensures Changed(loads, loads[k := n], k, n)
  {
    forall c: Cell ensures LoadOf(loads[k := n], c) == if c == k then n else LoadOf(loads, c) {
      PutLoadAt(loads, k, n, c);
    }
  }

  method CountServing(snap: Snapshot) returns (loads: Loads)
    ensures forall c: Cell :: LoadOf(loads, c) == Attached(snap, |snap.ues|, c)
  {
    loads := map[];
    for i := 0 to |snap.gnbs|
      invariant forall c: Cell :: LoadOf(loads, c) == 0
    {
      PutLoad(loads, snap.gnbs[i].cellId, 0);
      loads := loads[snap.gnbs[i].cellId := 0];
    }
    for i := 0 to |snap.ues|
      invariant forall c: Cell :: LoadOf(loads, c) == Attached(snap, i, c)
    {
      var serving := ServingCell(snap.ues[i], Reports(snap, snap.ues[i].nodeId));
      assert serving == AttachedCell(snap, snap.ues[i]);
      if serving != 0 {
        PutLoad(loads, serving, LoadOf(loads, serving) + 1);
        loads := loads[serving := LoadOf(loads, serving) + 1];
      }
    }
  }

  method ServingCell(u: UeInfo, ms: seq<Measurement>) returns (cell: Cell)
    ensures var s := FirstServing(ms);
            cell == if s.Some? && s.value.cellId != 0 && s.value.rnti != 0 then s.value.cellId else u.cellId
  {
    var servingCell, servingRnti := 0, 0;
    var i := 0;
    while i < |ms|
      invariant 0 <= i <= |ms| && servingCell == 0
      invariant FirstServing(ms) == FirstServing(ms[i..])
    {
      assert ms[i..][1..] == ms[i + 1..];
      if ms[i].ccId == 0 && ms[i].isServing {
        servingCell, servingRnti := ms[i].cellId, ms[i].rnti;
        break;
      }
      i := i + 1;
    }
    cell := if servingCell != 0 && servingRnti != 0 then servingCell else u.cellId;
  }

  function Only(pending: map<Ue, Cell>, part: set<Ue>): map<Ue, Cell> {
    map v | v in pending && v in part :: pending[v]
  }

  lemma HeadingStep(pending: map<Ue, Cell>, part: set<Ue>, u: Ue, c: Cell)
    requires u in pending && u !in part
    ensures |Heading(Only(pending, part + {u}), c)| ==
            |Heading(Only(pending, part), c)| + (if pending[u] == c then 1 else 0)
  {
    if pending[u] == c {
      assert Heading(Only(pending, part + {u}), c) == Heading(Only(pending, part), c) + {u};
    } else {
      assert Heading(Only(pending, part + {u}), c) == Heading(Only(pending, part), c);
    }
  }

  ghost predicate ReservedSoFar(cfg: Config, loads: Loads, pending: map<Ue, Cell>, effective: Loads) {
    forall c: Cell :: LoadOf(effective, c) == Reserved(Cap(cfg, c), LoadOf(loads, c), |Heading(pending, c)|)
  }

  lemma NothingReserved(cfg: Config, loads: Loads, pending: map<Ue, Cell>)
    ensures ReservedSoFar(cfg, loads, Only(pending, {}), loads)
  {
    assert forall c: Cell :: Heading(Only(pending, {}), c) == {};
  }

  lemma EverythingReserved(pending: map<Ue, Cell>, part: set<Ue>)
    requires part == pending.Keys
    ensures Only(pending, part) == pending
  {
  }

  lemma ReserveStep(cfg: Config, loads: Loads, pending: map<Ue, Cell>, part: set<Ue>, u: Ue,
                    before: Loads, after: Loads)
    requires u in pending && u !in part && ReservedSoFar(cfg, loads, Only(pending, part), before)
    requires var t := pending[u];
             if Cap(cfg, t) == 0 || LoadOf(before, t) < Cap(cfg, t)
             then Changed(before, after, t, LoadOf(before, t) + 1) else after == before
    ensures ReservedSoFar(cfg, loads, Only(pending, part + {u}), after)
  {
    forall c: Cell
      ensures LoadOf(after, c) == Reserved(Cap(cfg, c), LoadOf(loads, c), |Heading(Only(pending, part + {u}), c)|)
    {
      HeadingStep(pending, part, u, c);
      assert LoadOf(before, c) == Reserved(Cap(cfg, c), LoadOf(loads, c), |Heading(Only(pending, part), c)|);
    }
  }

  /** Adds the pending handovers to the loads, never beyond a capacity. */
  method Reserve(cfg: Config, loads: Loads, pending: map<Ue, Cell>) returns (effective: Loads)
    ensures ReservedSoFar(cfg, loads, pending, effective)
  {
    effective := loads;
    var todo := pending.Keys;
    ghost var part: set<Ue> := {};
    NothingReserved(cfg, loads, pending);
    while todo != {}
      invariant part !! todo && part + todo == pending.Keys
      invariant ReservedSoFar(cfg, loads, Only(pending, part), effective)
      decreases |todo|
    {
      var u :| u in todo;
      var tgt := pending[u];
      var cap := Cap(cfg, tgt);
      ghost var before := effective;
      if cap == 0 || LoadOf(effective, tgt) < cap {
        PutLoad(effective, tgt, LoadOf(effective, tgt) + 1);
        effective := effective[tgt := LoadOf(effective, tgt) + 1];
      }
      ReserveStep(cfg, loads, pending, part, u, before, effective);
      todo, part := todo - {u}, part + {u};
    }
    EverythingReserved(pending, part);
  }

  // ----- choosing a target

  predicate Known(snap: Snapshot, c: Cell) {
    exists i :: 0 <= i < |snap.gnbs| && snap.gnbs[i].cellId == c
  }

  /** The node of the first gNB with the cell, or 0. */
  function GnbOf(gnbs: seq<GnbInfo>, c: Cell): nat {
    if gnbs == [] then 0 else if gnbs[0].cellId == c then gnbs[0].nodeId else GnbOf(gnbs[1..], c)
  }

  ghost predicate IsCandidate(snap: Snapshot, ms: seq<Measurement>, x: Cand) {
    Known(snap, x.cellId) && Best(ms, x.cellId) == Some(x.rsrp)
  }

  ghost predicate Descending(s: seq<Cand>) {
    forall i, j :: 0 <= i < j < |s| ==> s[i].rsrp >= s[j].rsrp
  }

  lemma InsertCand(r: seq<Cand>, k: nat, x: Cand)
    requires k <= |r| && Descending(r)
    requires forall j :: 0 <= j < k ==> r[j].rsrp >= x.rsrp
    requires k < |r| ==> r[k].rsrp < x.rsrp
    ensures Descending(r[..k] + [x] + r[k..])
    ensures forall y :: y in r[..k] + [x] + r[k..] <==> y == x || y in r
  {
    assert r == r[..k] + r[k..];
  }

  method SortDescending(s: seq<Cand>) returns (r: seq<Cand>)
    ensures Descending(r) && forall x :: x in r <==> x in s
  {
    r := [];
    for i := 0 to |s|
      invariant Descending(r)
      invariant forall x :: x in r <==> x in s[..i]
    {
      var k := 0;
      while k < |r| && r[k].rsrp >= s[i].rsrp
        invariant 0 <= k <= |r|
        invariant forall j :: 0 <= j < k ==> r[j].rsrp >= s[i].rsrp
      {
        k := k + 1;
      }
      InsertCand(r, k, s[i]);
      assert s[..i + 1] == s[..i] + [s[i]];
      r := r[..k] + [s[i]] + r[k..];
    }
    assert s[..|s|] == s;
  }

  ghost predicate BestMap(ms: seq<Measurement>, best: map<Cell, real>) {
    forall c: Cell :: (c in best <==> Best(ms, c).Some?) && (c in best ==> best[c] == Best(ms, c).value)
  }

  /** The last serving measurement and the best RSRP of every measured cell. */
  method Collect(ms: seq<Measurement>) returns (serving: Option<Measurement>, best: map<Cell, real>)
    ensures serving == LastServing(ms)
    ensures BestMap(ms, best)
  {
    serving, best := None, map[];
    for i := 0 to |ms|
      invariant serving == LastServing(ms[..i])
      invariant BestMap(ms[..i], best)
    {
      var m := ms[i];
      assert ms[..i + 1][..i] == ms[..i] && ms[..i + 1][i] == m;
      if m.ccId == 0 {
        if m.isServing {
          serving := Some(m);
        }
        if m.cellId !in best || m.rsrp > best[m.cellId] {
          best := best[m.cellId := m.rsrp];
        }
      }
    }
    assert ms[..|ms|] == ms;
  }

  /** The known measured cells, best first. */
  method Candidates(snap: Snapshot, ms: seq<Measurement>, best: map<Cell, real>) returns (cands: seq<Cand>)
    requires BestMap(ms, best)
    ensures Descending(cands) && forall x :: x in cands <==> IsCandidate(snap, ms, x)
  {
    cands := [];
    var todo := best.Keys;
    while todo != {}
      invariant todo <= best.Keys
      invariant forall x :: x in cands <==> x.cellId !in todo && IsCandidate(snap, ms, x)
      decreases |todo|
    {
      var c :| c in todo;
      if Known(snap, c) {
        cands := cands + [Cand(c, best[c])];
      }
      todo := todo - {c};
    }
    cands := SortDescending(cands);
  }

  datatype Pick = Keep | LowRsrp | Target(cell: Cell)

  /** The serving cell of the UE under evaluation and its RSRP. */
  datatype Serving = Serving(cell: Cell, rsrp: real)

  predicate Beats(cfg: Config, s: Serving, x: Cand) {
    x.cellId != s.cell && x.rsrp > s.rsrp + cfg.hysteresisDb
  }

  /** Candidates ahead of `k` that beat the serving cell are all acceptable but full,
      and there are none of them without next-best fallback. */
  ghost predicate PassedOver(cfg: Config, cands: seq<Cand>, s: Serving, loads: Loads, k: nat)
    requires k <= |cands|
  {
    forall j :: 0 <= j < k && Beats(cfg, s, cands[j]) ==>
      cfg.tryNextBest && cands[j].rsrp >= cfg.minAcceptableRsrpDbm && Full(cfg, loads, cands[j].cellId)
  }

  /** The first candidate that beats the serving cell and is not passed over decides. */
  ghost predicate Picked(cfg: Config, cands: seq<Cand>, s: Serving, loads: Loads, p: Pick) {
    (p == Keep && PassedOver(cfg, cands, s, loads, |cands|)) ||
    exists k :: 0 <= k < |cands| && Beats(cfg, s, cands[k]) && PassedOver(cfg, cands, s, loads, k) &&
      (!cfg.tryNextBest || cands[k].rsrp < cfg.minAcceptableRsrpDbm || !Full(cfg, loads, cands[k].cellId)) &&
      p == if cands[k].rsrp < cfg.minAcceptableRsrpDbm then LowRsrp
           else if Full(cfg, loads, cands[k].cellId) then Keep
           else Target(cands[k].cellId)
  }

  method PickTarget(cfg: Config, cands: seq<Cand>, s: Serving, loads: Loads) returns (p: Pick)
    ensures Picked(cfg, cands, s, loads, p)
  {
    var i := 0;
    while i < |cands|
      invariant 0 <= i <= |cands|
      invariant PassedOver(cfg, cands, s, loads, i)
    {
      var c := cands[i];
      if Beats(cfg, s, c) {
        if c.rsrp < cfg.minAcceptableRsrpDbm {
          return LowRsrp;
        }
        if Full(cfg, loads, c.cellId) {
          if !cfg.tryNextBest {
            return Keep;
          }
        } else {
          return Target(c.cellId);
        }
      }
      i := i + 1;
    }
    return Keep;
  }

  // ----- one UE

  /** What one run decides about a UE. */
  datatype Decision =
    | Shut                   // a pacing gate is closed
    | Unserved               // no usable serving measurement, or no gNB for it
    | TooWeak                // the best improvement is below the acceptable RSRP
    | Kept                   // no improvement, or only full cells
    | Waiting(cell: Cell)    // a target is found, time-to-trigger is running
    | Issued(cmd: Command)

  /** Warm-up, low-RSRP back-off, pending handover and cool-down. */
  predicate GatesOpen(cfg: Config, now: Time, mem: Memory, ue: Ue) {
    && now >= cfg.warmup
    && (ue in mem.lowRsrpBlockUntil ==> now >= mem.lowRsrpBlockUntil[ue])
    && (ue in mem.pendingHoTarget ==> !Live(cfg, mem.lastHoCmdTime, now, ue))
    && (ue in mem.lastHoCmdTime ==> now - mem.lastHoCmdTime[ue] >= cfg.minHoInterval)
  }

  /** A back-off that has run out is forgotten after warm-up. */
  function Unblocked(cfg: Config, now: Time, mem: Memory, ue: Ue): Memory {
    if now >= cfg.warmup && ue in mem.lowRsrpBlockUntil && now >= mem.lowRsrpBlockUntil[ue]
    then mem.(lowRsrpBlockUntil := mem.lowRsrpBlockUntil - {ue})
    else mem
  }

  predicate Served(snap: Snapshot, ue: Ue) {
    var s := LastServing(Reports(snap, ue));
    s.Some? && s.value.cellId != 0 && s.value.rnti != 0 && GnbOf(snap.gnbs, s.value.cellId) != 0
  }

  /** A known cell other than the serving one that beats it by the hysteresis. */
  ghost predicate Improves(cfg: Config, snap: Snapshot, ue: Ue, c: Cell)
    requires Served(snap, ue)
  {
    var ms := Reports(snap, ue);
    var s := LastServing(ms).value;
    Known(snap, c) && c != s.cellId && Best(ms, c).Some? && Best(ms, c).value > s.rsrp + cfg.hysteresisDb
  }

  ghost predicate Acceptable(cfg: Config, snap: Snapshot, ue: Ue, c: Cell) {
    var b := Best(Reports(snap, ue), c);
    b.Some? && b.value >= cfg.minAcceptableRsrpDbm
  }

  ghost predicate Stronger(snap: Snapshot, ue: Ue, c: Cell, d: Cell) {
    var ms := Reports(snap, ue);
    Best(ms, c).Some? && Best(ms, d).Some? && Best(ms, c).value > Best(ms, d).value
  }

  /** A target must improve, be acceptable and have room; stronger improving cells are
      passed over only when they are full and fallback is allowed. */
  ghost predicate Eligible(cfg: Config, snap: Snapshot, ue: Ue, loads: Loads, c: Cell)
    requires Served(snap, ue)
  {
    && Improves(cfg, snap, ue, c) && Acceptable(cfg, snap, ue, c) && !Full(cfg, loads, c)
    && forall d: Cell :: Improves(cfg, snap, ue, d) && Stronger(snap, ue, d, c) ==>
         cfg.tryNextBest && Full(cfg, loads, d)
  }

  /** When the stopwatch for target `c` started. */
  function Started(mem: Memory, now: Time, ue: Ue, c: Cell): Time {
    if ue in mem.tttState && mem.tttState[ue].0 == c then mem.tttState[ue].1 else now
  }

  /** What each decision past the gates means, and what it leaves in memory. */
  ghost predicate DecisionTaken(cfg: Config, snap: Snapshot, ue: Ue, m: Memory, loads: Loads,
                                mem': Memory, loads': Loads, d: Decision)
    requires Served(snap, ue)
  {
    var now := snap.now;
    match d
    case Shut => false
    case Unserved => false
    case TooWeak =>
      && PickMeans(cfg, snap, ue, loads, LowRsrp)
      && mem' == m.(lowRsrpBlockUntil := m.lowRsrpBlockUntil[ue := now + cfg.lowRsrpRecheck], tttState := m.tttState - {ue})
    case Kept =>
      PickMeans(cfg, snap, ue, loads, Keep) && mem' == m.(tttState := m.tttState - {ue})
    case Waiting(c) =>
      && Eligible(cfg, snap, ue, loads, c) && now - Started(m, now, ue, c) < cfg.timeToTrigger
      && mem' == m.(tttState := m.tttState[ue := (c, Started(m, now, ue, c))])
    case Issued(x) =>
      && x.ue == ue && x.rnti == LastServing(Reports(snap, ue)).value.rnti
      && x.sourceGnb == GnbOf(snap.gnbs, LastServing(Reports(snap, ue)).value.cellId)
      && Eligible(cfg, snap, ue, loads, x.target) && now - Started(m, now, ue, x.target) >= cfg.timeToTrigger
      && mem' == m.(lastHoCmdTime := m.lastHoCmdTime[ue := now],
                    pendingHoTarget := m.pendingHoTarget[ue := x.target], tttState := m.tttState - {ue})
      && Changed(loads, loads', x.target, LoadOf(loads, x.target) + 1)
  }

  /** The decision, the memory and the loads after evaluating one UE. */
  ghost predicate UeOutcome(cfg: Config, snap: Snapshot, ue: Ue, mem: Memory, loads: Loads,
                            mem': Memory, loads': Loads, d: Decision)
  {
    var m := Unblocked(cfg, snap.now, mem, ue);
    && (d.Shut? <==> !GatesOpen(cfg, snap.now, mem, ue))
    && (d.Unserved? <==> GatesOpen(cfg, snap.now, mem, ue) && !Served(snap, ue))
    && (!d.Issued? ==> loads' == loads)
    && if d.Shut? || d.Unserved? then mem' == m
       else Served(snap, ue) && DecisionTaken(cfg, snap, ue, m, loads, mem', loads', d)
  }

  lemma Evaluated(cfg: Config, snap: Snapshot, ue: Ue, mem: Memory, m: Memory, loads: Loads,
                  mem': Memory, loads': Loads, d: Decision)
    requires m == Unblocked(cfg, snap.now, mem, ue) && GatesOpen(cfg, snap.now, mem, ue) && Served(snap, ue)
    requires !d.Shut? && !d.Unserved? && (!d.Issued? ==> loads' == loads)
    requires DecisionTaken(cfg, snap, ue, m, loads, mem', loads', d)
    ensures UeOutcome(cfg, snap, ue, mem, loads, mem', loads', d)
  {
  }

  function ClearReached(pending: map<Ue, Cell>, ue: Ue, cell: Cell): map<Ue, Cell> {
    if ue in pending && pending[ue] == cell then pending - {ue} else pending
  }

  /** The candidate list of a UE, best first. */
  ghost predicate CandidatesOf(snap: Snapshot, ue: Ue, cands: seq<Cand>) {
    Descending(cands) && forall x :: x in cands <==> IsCandidate(snap, Reports(snap, ue), x)
  }

  lemma CandidateAt(cfg: Config, snap: Snapshot, ue: Ue, cands: seq<Cand>, k: nat)
    requires Served(snap, ue) && CandidatesOf(snap, ue, cands) && k < |cands|
    ensures var s := LastServing(Reports(snap, ue)).value;
            var c := cands[k].cellId;
            && Best(Reports(snap, ue), c) == Some(cands[k].rsrp)
            && (Beats(cfg, Serving(s.cellId, s.rsrp), cands[k]) <==> Improves(cfg, snap, ue, c))
  {
    assert cands[k] in cands;
  }

  /** An improving cell stands in the list, behind every stronger one. */
  lemma ImprovingStands(cfg: Config, snap: Snapshot, ue: Ue, cands: seq<Cand>, c: Cell) returns (k: nat)
    requires Served(snap, ue) && CandidatesOf(snap, ue, cands) && Improves(cfg, snap, ue, c)
    ensures k < |cands| && cands[k].cellId == c && cands[k].rsrp == Best(Reports(snap, ue), c).value
  {
    var x := Cand(c, Best(Reports(snap, ue), c).value);
    assert IsCandidate(snap, Reports(snap, ue), x);
    k :| 0 <= k < |cands| && cands[k] == x;
  }

  /** What a search result says about the reported cells. The cases exclude each other, and
      determine the result when no two improving cells tie; see `PickDetermined`. */
  ghost predicate PickMeans(cfg: Config, snap: Snapshot, ue: Ue, loads: Loads, p: Pick)
    requires Served(snap, ue)
  {
    match p
    case Target(c) => Eligible(cfg, snap, ue, loads, c)
    case LowRsrp =>
      && (exists c: Cell :: Improves(cfg, snap, ue, c) && !Acceptable(cfg, snap, ue, c))
      && (forall c: Cell :: Improves(cfg, snap, ue, c) && Acceptable(cfg, snap, ue, c) ==>
            cfg.tryNextBest && Full(cfg, loads, c))
    case Keep =>
      && (cfg.tryNextBest ==> forall c: Cell :: Improves(cfg, snap, ue, c) ==>
            Acceptable(cfg, snap, ue, c) && Full(cfg, loads, c))
      && (!cfg.tryNextBest ==>
            (forall c: Cell :: !Improves(cfg, snap, ue, c)) || (exists b: Cell :: Blocks(cfg, snap, ue, loads, b)))
  }

  /** A strongest improving cell that is acceptable but full. */
  ghost predicate Blocks(cfg: Config, snap: Snapshot, ue: Ue, loads: Loads, b: Cell)
    requires Served(snap, ue)
  {
    && Improves(cfg, snap, ue, b) && Acceptable(cfg, snap, ue, b) && Full(cfg, loads, b)
    && forall c: Cell :: Improves(cfg, snap, ue, c) ==> !Stronger(snap, ue, c, b)
  }

  lemma TargetMeans(cfg: Config, snap: Snapshot, ue: Ue, cands: seq<Cand>, loads: Loads, k: nat)
    requires Served(snap, ue) && CandidatesOf(snap, ue, cands) && k < |cands|
    requires var s := LastServing(Reports(snap, ue)).value;
             var serving := Serving(s.cellId, s.rsrp);
             Beats(cfg, serving, cands[k]) && PassedOver(cfg, cands, serving, loads, k)
    requires cands[k].rsrp >= cfg.minAcceptableRsrpDbm && !Full(cfg, loads, cands[k].cellId)
    ensures Eligible(cfg, snap, ue, loads, cands[k].cellId)
  {
    var c := cands[k].cellId;
    CandidateAt(cfg, snap, ue, cands, k);
    forall d: Cell | Improves(cfg, snap, ue, d) && Stronger(snap, ue, d, c)
      ensures cfg.tryNextBest && Full(cfg, loads, d)
    {
      var j := ImprovingStands(cfg, snap, ue, cands, d);
      CandidateAt(cfg, snap, ue, cands, j);
      assert j < k;
    }
  }

  lemma LowMeans(cfg: Config, snap: Snapshot, ue: Ue, cands: seq<Cand>, loads: Loads, k: nat)
    requires Served(snap, ue) && CandidatesOf(snap, ue, cands) && k < |cands|
    requires var s := LastServing(Reports(snap, ue)).value;
             var serving := Serving(s.cellId, s.rsrp);
             Beats(cfg, serving, cands[k]) && PassedOver(cfg, cands, serving, loads, k)
    requires cands[k].rsrp < cfg.minAcceptableRsrpDbm
    ensures PickMeans(cfg, snap, ue, loads, LowRsrp)
  {
    CandidateAt(cfg, snap, ue, cands, k);
    forall c: Cell | Improves(cfg, snap, ue, c) && Acceptable(cfg, snap, ue, c)
      ensures cfg.tryNextBest && Full(cfg, loads, c)
    {
      var j := ImprovingStands(cfg, snap, ue, cands, c);
      CandidateAt(cfg, snap, ue, cands, j);
      assert j < k;
    }
  }

  lemma AllPassedMeans(cfg: Config, snap: Snapshot, ue: Ue, cands: seq<Cand>, loads: Loads)
    requires Served(snap, ue) && CandidatesOf(snap, ue, cands)
    requires var s := LastServing(Reports(snap, ue)).value;
             PassedOver(cfg, cands, Serving(s.cellId, s.rsrp), loads, |cands|)
    ensures PickMeans(cfg, snap, ue, loads, Keep)
  {
    forall c: Cell | Improves(cfg, snap, ue, c)
      ensures cfg.tryNextBest && Acceptable(cfg, snap, ue, c) && Full(cfg, loads, c)
    {
      var j := ImprovingStands(cfg, snap, ue, cands, c);
      CandidateAt(cfg, snap, ue, cands, j);
    }
  }

  /** Without fallback, a full candidate ends the search. */
  lemma FullOneMeans(cfg: Config, snap: Snapshot, ue: Ue, cands: seq<Cand>, loads: Loads, k: nat)
    requires Served(snap, ue) && CandidatesOf(snap, ue, cands) && k < |cands| && !cfg.tryNextBest
    requires var s := LastServing(Reports(snap, ue)).value;
             var serving := Serving(s.cellId, s.rsrp);
             Beats(cfg, serving, cands[k]) && PassedOver(cfg, cands, serving, loads, k)
    requires cands[k].rsrp >= cfg.minAcceptableRsrpDbm && Full(cfg, loads, cands[k].cellId)
    ensures PickMeans(cfg, snap, ue, loads, Keep)
  {
    var b := cands[k].cellId;
    CandidateAt(cfg, snap, ue, cands, k);
    forall c: Cell | Improves(cfg, snap, ue, c) ensures !Stronger(snap, ue, c, b) {
      var j := ImprovingStands(cfg, snap, ue, cands, c);
      CandidateAt(cfg, snap, ue, cands, j);
      assert j >= k;
    }
    assert Blocks(cfg, snap, ue, loads, b);
  }

  // ----- the search result is determined

  /** Two improving cells are never equally strong. */
  ghost predicate NoTies(cfg: Config, snap: Snapshot, ue: Ue)
    requires Served(snap, ue)
  {
    forall c: Cell, d: Cell :: Improves(cfg, snap, ue, c) && Improves(cfg, snap, ue, d) && c != d ==>
      Stronger(snap, ue, c, d) || Stronger(snap, ue, d, c)
  }

  ghost predicate SameLoads(a: Loads, b: Loads) {
    forall c: Cell :: LoadOf(a, c) == LoadOf(b, c)
  }

  lemma SameFull(cfg: Config, a: Loads, b: Loads, c: Cell)
    requires SameLoads(a, b)
    ensures Full(cfg, a, c) == Full(cfg, b, c)
  {
    assert LoadOf(a, c) == LoadOf(b, c);
  }

  /** Without fallback, an eligible cell is the strongest and not full. */
  lemma EligibleTops(cfg: Config, snap: Snapshot, ue: Ue, loads: Loads, c: Cell, b: Cell)
    requires Served(snap, ue) && NoTies(cfg, snap, ue) && !cfg.tryNextBest
    requires Eligible(cfg, snap, ue, loads, c) && Improves(cfg, snap, ue, b)
    ensures b == c || Stronger(snap, ue, c, b)
  {
  }

  lemma TargetExcludesKeep(cfg: Config, snap: Snapshot, ue: Ue, loads: Loads, c: Cell)
    requires Served(snap, ue) && NoTies(cfg, snap, ue) && Eligible(cfg, snap, ue, loads, c)
    ensures !PickMeans(cfg, snap, ue, loads, Keep)
  {
    assert Improves(cfg, snap, ue, c) && !Full(cfg, loads, c);
    if !cfg.tryNextBest {
      forall b: Cell ensures !Blocks(cfg, snap, ue, loads, b) {
        if Improves(cfg, snap, ue, b) {
          EligibleTops(cfg, snap, ue, loads, c, b);
        }
      }
    }
  }

  lemma TargetsAgree(cfg: Config, snap: Snapshot, ue: Ue, loads: Loads, c: Cell, d: Cell)
    requires Served(snap, ue) && NoTies(cfg, snap, ue)
    requires Eligible(cfg, snap, ue, loads, c) && Eligible(cfg, snap, ue, loads, d)
    ensures c == d
  {
    assert Improves(cfg, snap, ue, c) && Improves(cfg, snap, ue, d);
    assert c == d || Stronger(snap, ue, c, d) || Stronger(snap, ue, d, c);
  }

  lemma AcceptableExcludesLow(cfg: Config, snap: Snapshot, ue: Ue, loads: Loads, b: Cell)
    requires Served(snap, ue) && Improves(cfg, snap, ue, b) && Acceptable(cfg, snap, ue, b)
    requires !cfg.tryNextBest || !Full(cfg, loads, b)
    ensures !PickMeans(cfg, snap, ue, loads, LowRsrp)
  {
  }

  lemma KeepExcludesLow(cfg: Config, snap: Snapshot, ue: Ue, loads: Loads)
    requires Served(snap, ue) && PickMeans(cfg, snap, ue, loads, Keep)
    ensures !PickMeans(cfg, snap, ue, loads, LowRsrp)
  {
    if b: Cell :| !cfg.tryNextBest && Blocks(cfg, snap, ue, loads, b) {
      AcceptableExcludesLow(cfg, snap, ue, loads, b);
    }
  }

  lemma TargetExcludesLow(cfg: Config, snap: Snapshot, ue: Ue, loads: Loads, c: Cell)
    requires Served(snap, ue) && Eligible(cfg, snap, ue, loads, c)
    ensures !PickMeans(cfg, snap, ue, loads, LowRsrp)
  {
    AcceptableExcludesLow(cfg, snap, ue, loads, c);
  }

  lemma OnlyTarget(cfg: Config, snap: Snapshot, ue: Ue, loads: Loads, c: Cell, q: Pick)
    requires Served(snap, ue) && NoTies(cfg, snap, ue)
    requires Eligible(cfg, snap, ue, loads, c) && PickMeans(cfg, snap, ue, loads, q)
    ensures q == Target(c)
  {
    TargetExcludesLow(cfg, snap, ue, loads, c);
    TargetExcludesKeep(cfg, snap, ue, loads, c);
    if q.Target? {
      TargetsAgree(cfg, snap, ue, loads, c, q.cell);
    }
  }

  /** What the search returns is determined by the reports and the loads when no two
      improving cells tie. */
  lemma PickDetermined(cfg: Config, snap: Snapshot, ue: Ue, loads: Loads, p: Pick, q: Pick)
    requires Served(snap, ue) && NoTies(cfg, snap, ue)
    requires PickMeans(cfg, snap, ue, loads, p) && PickMeans(cfg, snap, ue, loads, q)
    ensures p == q
  {
    if p.Target? {
      OnlyTarget(cfg, snap, ue, loads, p.cell, q);
    } else if q.Target? {
      OnlyTarget(cfg, snap, ue, loads, q.cell, p);
    } else {
      LowIsLow(cfg, snap, ue, loads, p, q);
    }
  }

  /** Low RSRP is told apart from the other results even when cells tie. */
  lemma LowIsLow(cfg: Config, snap: Snapshot, ue: Ue, loads: Loads, p: Pick, q: Pick)
    requires Served(snap, ue) && PickMeans(cfg, snap, ue, loads, p) && PickMeans(cfg, snap, ue, loads, q)
    ensures p == LowRsrp <==> q == LowRsrp
  {
    OthersExcludeLow(cfg, snap, ue, loads, p);
    OthersExcludeLow(cfg, snap, ue, loads, q);
  }

  lemma OthersExcludeLow(cfg: Config, snap: Snapshot, ue: Ue, loads: Loads, p: Pick)
    requires Served(snap, ue) && PickMeans(cfg, snap, ue, loads, p)
    ensures p == LowRsrp || !PickMeans(cfg, snap, ue, loads, LowRsrp)
  {
    if p.Target? {
      TargetExcludesLow(cfg, snap, ue, loads, p.cell);
    } else if p.Keep? {
      KeepExcludesLow(cfg, snap, ue, loads);
    }
  }

  // ----- a whole query

  ghost predicate DistinctUes(ues: seq<UeInfo>) {
    forall i, j :: 0 <= i < j < |ues| ==> ues[i].nodeId != ues[j].nodeId
  }

  function At<V>(m: map<Ue, V>, u: Ue): Option<V> {
    if u in m then Some(m[u]) else None
  }

  /** The commands among the decisions, in order. */
  function Commands(ds: seq<Decision>): seq<Command> {
    if ds == [] then []
    else
      var d := ds[|ds| - 1];
      Commands(ds[..|ds| - 1]) + (if d.Issued? then [d.cmd] else [])
  }

  lemma CommandsSnoc(ds: seq<Decision>, d: Decision)
    ensures Commands(ds + [d]) == Commands(ds) + (if d.Issued? then [d.cmd] else [])
  {
    var more := ds + [d];
    assert more[..|more| - 1] == ds;
  }

  /** The stopwatch of a UE after a decision about it. */
  function Stopwatch(before: Option<(Cell, Time)>, now: Time, d: Decision): Option<(Cell, Time)> {
    match d
    case Shut => before
    case Unserved => before
    case TooWeak => None
    case Kept => None
    case Waiting(c) => if before.Some? && before.value.0 == c then before else Some((c, now))
    case Issued(_) => None
  }

  /** The decision about the `k`-th UE, read against the memory at the start of the query
      and the loads when its turn comes. */
  ghost predicate Decided(cfg: Config, snap: Snapshot, start: Memory, k: nat, mem: Memory, loads: Loads, d: Decision)
    requires k < |snap.ues|
  {
    var ue := snap.ues[k].nodeId;
    && Remembered(cfg, snap.now, start, ue, mem, d)
    && (d.Shut? <==> !GatesOpen(cfg, snap.now, start, ue))
    && (d.Unserved? <==> GatesOpen(cfg, snap.now, start, ue) && !Served(snap, ue))
    && (!d.Shut? && !d.Unserved? ==> Served(snap, ue) && Justified(cfg, snap, start, ue, loads, d))
  }

  /** What the four maps hold for a UE after a decision about it. */
  ghost predicate Remembered(cfg: Config, now: Time, start: Memory, ue: Ue, mem: Memory, d: Decision) {
    && At(mem.tttState, ue) == Stopwatch(At(start.tttState, ue), now, d)
    && At(mem.lastHoCmdTime, ue) == (if d.Issued? then Some(now) else At(start.lastHoCmdTime, ue))
    && At(mem.pendingHoTarget, ue) == (if d.Issued? then Some(d.cmd.target) else At(start.pendingHoTarget, ue))
    && At(mem.lowRsrpBlockUntil, ue) == Backoff(cfg, At(start.lowRsrpBlockUntil, ue), now, d)
  }

  /** Why a UE past the gates is treated as it is. */
  ghost predicate Justified(cfg: Config, snap: Snapshot, start: Memory, ue: Ue, loads: Loads, d: Decision)
    requires Served(snap, ue)
  {
    match d
    case Shut => true
    case Unserved => true
    case TooWeak => PickMeans(cfg, snap, ue, loads, LowRsrp)
    case Kept => PickMeans(cfg, snap, ue, loads, Keep)
    case Waiting(c) =>
      Eligible(cfg, snap, ue, loads, c) && snap.now - Started(start, snap.now, ue, c) < cfg.timeToTrigger
    case Issued(x) => IssuedWell(cfg, snap, start, ue, loads, x)
  }

  /** The low-RSRP back-off of a UE after a decision about it. */
  function Backoff(cfg: Config, before: Option<Time>, now: Time, d: Decision): Option<Time> {
    if d.TooWeak? then Some(now + cfg.lowRsrpRecheck)
    else if now >= cfg.warmup && before.Some? && now >= before.value then None
    else before
  }

  /** A command goes to the source gNB with the UE's RNTI there; its target is eligible
      and has been the choice for the time-to-trigger. */
  ghost predicate IssuedWell(cfg: Config, snap: Snapshot, start: Memory, ue: Ue, loads: Loads, x: Command)
    requires Served(snap, ue)
  {
    var s := LastServing(Reports(snap, ue)).value;
    && x.ue == ue && x.rnti == s.rnti && x.sourceGnb == GnbOf(snap.gnbs, s.cellId)
    && ue !in start.pendingHoTarget && Eligible(cfg, snap, ue, loads, x.target)
    && snap.now - Started(start, snap.now, ue, x.target) >= cfg.timeToTrigger
  }

  /** Loads are the reported ones plus reservations plus this query's commands, and a
      capped cell that was given a command is not beyond its capacity. */
  ghost predicate LoadsTally(cfg: Config, pending: map<Ue, Cell>, realLoad: Loads, loads: Loads, cmds: seq<Command>) {
    forall c: Cell ::
      && LoadOf(loads, c) == Reserved(Cap(cfg, c), LoadOf(realLoad, c), |Heading(pending, c)|) + Commanded(cmds, c)
      && (Cap(cfg, c) > 0 && Commanded(cmds, c) > 0 ==> LoadOf(loads, c) <= Cap(cfg, c))
  }

  /** UEs that have not been reached are as they were. */
  ghost predicate Untouched(snap: Snapshot, start: Memory, n: nat, mem: Memory)
    requires n <= |snap.ues|
  {
    forall u: Ue :: (forall k :: 0 <= k < n ==> snap.ues[k].nodeId != u) ==> SameFor(start, mem, u)
  }

  ghost predicate SameFor(start: Memory, mem: Memory, u: Ue) {
    && At(mem.tttState, u) == At(start.tttState, u)
    && At(mem.lowRsrpBlockUntil, u) == At(start.lowRsrpBlockUntil, u)
    && At(mem.lastHoCmdTime, u) == At(start.lastHoCmdTime, u)
    && At(mem.pendingHoTarget, u) == At(start.pendingHoTarget, u)
  }

  /** The loads before each UE's turn, and after the last: those commanded so far included. */
  ghost predicate Trail(cfg: Config, pending: map<Ue, Cell>, realLoad: Loads, trail: seq<Loads>, ds: seq<Decision>) {
    && |trail| == |ds| + 1
    && forall k :: 0 <= k < |trail| ==> LoadsTally(cfg, pending, realLoad, trail[k], Commands(ds[..k]))
  }

  ghost predicate AllDecided(cfg: Config, snap: Snapshot, start: Memory, mem: Memory, trail: seq<Loads>, ds: seq<Decision>)
    requires |ds| <= |snap.ues| && |ds| < |trail|
  {
    forall k :: 0 <= k < |ds| ==> Decided(cfg, snap, start, k, mem, trail[k], ds[k])
  }

  ghost predicate TickSoFar(cfg: Config, snap: Snapshot, start: Memory, n: nat, mem: Memory,
                            realLoad: Loads, trail: seq<Loads>, ds: seq<Decision>)
    requires n <= |snap.ues|
  {
    && |ds| == n
    && (forall u :: u in start.pendingHoTarget ==> Live(cfg, start.lastHoCmdTime, snap.now, u))
    && Trail(cfg, start.pendingHoTarget, realLoad, trail, ds)
    && Untouched(snap, start, n, mem)
    && AllDecided(cfg, snap, start, mem, trail, ds)
  }

  /** The effective load of a cell before the `k`-th decision: UEs attached, handovers
      reserved, commands given so far. */
  ghost predicate EffectiveAt(cfg: Config, snap: Snapshot, pending: map<Ue, Cell>, ds: seq<Decision>, k: nat, loads: Loads)
    requires k <= |ds|
  {
    forall c: Cell :: LoadOf(loads, c) ==
      Reserved(Cap(cfg, c), Attached(snap, |snap.ues|, c), |Heading(pending, c)|) + Commanded(Commands(ds[..k]), c)
  }

  /** What a whole query does: every decision is right for the effective loads at its
      turn. The capacity clause: a capped cell that receives commands ends up, counting
      the UEs it serves, the pending handovers into it and the new ones, within its
      capacity. */
  ghost predicate TickOutcome(cfg: Config, snap: Snapshot, mem: Memory, mem': Memory,
                              ds: seq<Decision>, cmds: seq<Command>)
  {
    var start := mem.(pendingHoTarget := Pruned(cfg, mem, snap.now));
    && |ds| == |snap.ues| && cmds == Commands(ds)
    && Untouched(snap, start, |snap.ues|, mem')
    && (forall k :: 0 <= k < |ds| ==> DecidedInTurn(cfg, snap, start, k, mem', ds))
    && (forall c: Cell :: Commanded(cmds, c) > 0 ==>
          Allows(cfg, c, Attached(snap, |snap.ues|, c) + |Heading(start.pendingHoTarget, c)| + Commanded(cmds, c)))
  }

  ghost predicate DecidedInTurn(cfg: Config, snap: Snapshot, start: Memory, k: nat, mem: Memory, ds: seq<Decision>)
    requires k < |ds| == |snap.ues|
  {
    exists loads: Loads ::
      EffectiveAt(cfg, snap, start.pendingHoTarget, ds, k, loads) && Decided(cfg, snap, start, k, mem, loads, ds[k])
  }

  lemma TickStart(cfg: Config, snap: Snapshot, start: Memory, realLoad: Loads, loads: Loads)
    requires forall u :: u in start.pendingHoTarget ==> Live(cfg, start.lastHoCmdTime, snap.now, u)
    requires ReservedSoFar(cfg, realLoad, start.pendingHoTarget, loads)
    ensures TickSoFar(cfg, snap, start, 0, start, realLoad, [loads], [])
  {
  }

  lemma NotYetTouched(cfg: Config, snap: Snapshot, start: Memory, i: nat, mem: Memory,
                      realLoad: Loads, trail: seq<Loads>, ds: seq<Decision>)
    requires i < |snap.ues| && DistinctUes(snap.ues)
    requires TickSoFar(cfg, snap, start, i, mem, realLoad, trail, ds)
    ensures SameFor(start, mem, snap.ues[i].nodeId)
    ensures var ue := snap.ues[i].nodeId;
            ue in mem.pendingHoTarget ==> Live(cfg, mem.lastHoCmdTime, snap.now, ue)
  {
    var ue := snap.ues[i].nodeId;
    assert forall k :: 0 <= k < i ==> snap.ues[k].nodeId != ue;
    assert SameFor(start, mem, ue);
  }

  lemma TallyStep(cfg: Config, pending: map<Ue, Cell>, realLoad: Loads, loads: Loads, loads': Loads,
                  cmds: seq<Command>, x: Command)
    requires LoadsTally(cfg, pending, realLoad, loads, cmds) && !Full(cfg, loads, x.target)
    requires Changed(loads, loads', x.target, LoadOf(loads, x.target) + 1)
    ensures LoadsTally(cfg, pending, realLoad, loads', cmds + [x])
  {
    var more := cmds + [x];
    assert more[..|more| - 1] == cmds;
    forall c: Cell
      ensures LoadOf(loads', c) == Reserved(Cap(cfg, c), LoadOf(realLoad, c), |Heading(pending, c)|) + Commanded(more, c)
      ensures Cap(cfg, c) > 0 && Commanded(more, c) > 0 ==> LoadOf(loads', c) <= Cap(cfg, c)
    {
      assert LoadOf(loads', c) == if c == x.target then LoadOf(loads, c) + 1 else LoadOf(loads, c);
    }
  }

  /** Later decisions about other UEs leave an earlier one valid. */
  lemma DecidedStays(cfg: Config, snap: Snapshot, start: Memory, k: nat, mem: Memory, mem': Memory,
                     loads: Loads, d: Decision)
    requires k < |snap.ues| && Decided(cfg, snap, start, k, mem, loads, d)
    requires SameFor(mem, mem', snap.ues[k].nodeId)
    ensures Decided(cfg, snap, start, k, mem', loads, d)
  {
  }

  lemma DecisionLeavesOthers(cfg: Config, snap: Snapshot, ue: Ue, m: Memory, loads: Loads, mem': Memory, loads': Loads,
                             d: Decision, v: Ue)
    requires Served(snap, ue) && DecisionTaken(cfg, snap, ue, m, loads, mem', loads', d) && v != ue
    ensures SameFor(m, mem', v)
  {
    match d {
      case TooWeak =>
      case Kept =>
      case Waiting(_) =>
      case Issued(_) =>
    }
  }

  lemma OthersSame(cfg: Config, snap: Snapshot, ue: Ue, mem: Memory, loads: Loads, mem': Memory, loads': Loads,
                   d: Decision, v: Ue)
    requires UeOutcome(cfg, snap, ue, mem, loads, mem', loads', d) && v != ue
    ensures SameFor(mem, mem', v)
  {
    var m := Unblocked(cfg, snap.now, mem, ue);
    assert SameFor(mem, m, v);
    if !d.Shut? && !d.Unserved? {
      DecisionLeavesOthers(cfg, snap, ue, m, loads, mem', loads', d, v);
    }
  }

  lemma RememberedNow(cfg: Config, snap: Snapshot, start: Memory, ue: Ue, mem: Memory, mem': Memory,
                      loads: Loads, loads': Loads, d: Decision)
    requires SameFor(start, mem, ue) && UeOutcome(cfg, snap, ue, mem, loads, mem', loads', d)
    ensures Remembered(cfg, snap.now, start, ue, mem', d)
  {
  }

  lemma JustifiedNow(cfg: Config, snap: Snapshot, start: Memory, ue: Ue, mem: Memory, mem': Memory,
                     loads: Loads, loads': Loads, d: Decision)
    requires SameFor(start, mem, ue) && UeOutcome(cfg, snap, ue, mem, loads, mem', loads', d)
    requires ue in mem.pendingHoTarget ==> Live(cfg, mem.lastHoCmdTime, snap.now, ue)
    requires !d.Shut? && !d.Unserved?
    ensures Served(snap, ue) && Justified(cfg, snap, start, ue, loads, d)
  {
    assert forall c: Cell :: Started(start, snap.now, ue, c) == Started(mem, snap.now, ue, c);
  }

  lemma DecidedNow(cfg: Config, snap: Snapshot, start: Memory, k: nat, mem: Memory, mem': Memory,
                   loads: Loads, loads': Loads, d: Decision)
    requires k < |snap.ues| && SameFor(start, mem, snap.ues[k].nodeId)
    requires UeOutcome(cfg, snap, snap.ues[k].nodeId, mem, loads, mem', loads', d)
    requires var ue := snap.ues[k].nodeId; ue in mem.pendingHoTarget ==> Live(cfg, mem.lastHoCmdTime, snap.now, ue)
    ensures Decided(cfg, snap, start, k, mem', loads, d)
  {
    var ue := snap.ues[k].nodeId;
    RememberedNow(cfg, snap, start, ue, mem, mem', loads, loads', d);
    GatesSame(cfg, snap.now, start, mem, ue);
    if !d.Shut? && !d.Unserved? {
      JustifiedNow(cfg, snap, start, ue, mem, mem', loads, loads', d);
    }
  }

  lemma GatesSame(cfg: Config, now: Time, start: Memory, mem: Memory, ue: Ue)
    requires SameFor(start, mem, ue)
    ensures GatesOpen(cfg, now, start, ue) == GatesOpen(cfg, now, mem, ue)
  {
  }

  lemma TrailGrows(cfg: Config, pending: map<Ue, Cell>, realLoad: Loads, trail: seq<Loads>, ds: seq<Decision>,
                   loads': Loads, d: Decision)
    requires Trail(cfg, pending, realLoad, trail, ds)
    requires LoadsTally(cfg, pending, realLoad, loads', Commands(ds + [d]))
    ensures Trail(cfg, pending, realLoad, trail + [loads'], ds + [d])
  {
    var more, longer := ds + [d], trail + [loads'];
    forall k | 0 <= k < |longer| ensures LoadsTally(cfg, pending, realLoad, longer[k], Commands(more[..k])) {
      if k < |trail| {
        assert more[..k] == ds[..k];
      } else {
        assert more[..k] == more;
      }
    }
  }

  lemma TallyAfter(cfg: Config, pending: map<Ue, Cell>, realLoad: Loads, loads: Loads, loads': Loads,
                   ds: seq<Decision>, d: Decision)
    requires LoadsTally(cfg, pending, realLoad, loads, Commands(ds))
    requires !d.Issued? ==> loads' == loads
    requires d.Issued? ==>
               !Full(cfg, loads, d.cmd.target) && Changed(loads, loads', d.cmd.target, LoadOf(loads, d.cmd.target) + 1)
    ensures LoadsTally(cfg, pending, realLoad, loads', Commands(ds + [d]))
  {
    var more := ds + [d];
    assert more[..|more| - 1] == ds;
    if d.Issued? {
      TallyStep(cfg, pending, realLoad, loads, loads', Commands(ds), d.cmd);
    } else {
      assert Commands(ds) + [] == Commands(ds);
    }
  }

  lemma AllDecidedStep(cfg: Config, snap: Snapshot, start: Memory, i: nat, mem: Memory, mem': Memory,
                       trail: seq<Loads>, loads': Loads, ds: seq<Decision>, d: Decision)
    requires i < |snap.ues| && DistinctUes(snap.ues) && |ds| == i && |trail| == i + 1
    requires AllDecided(cfg, snap, start, mem, trail, ds)
    requires UeOutcome(cfg, snap, snap.ues[i].nodeId, mem, trail[i], mem', loads', d)
    requires Decided(cfg, snap, start, i, mem', trail[i], d)
    ensures AllDecided(cfg, snap, start, mem', trail + [loads'], ds + [d])
  {
    var more, longer := ds + [d], trail + [loads'];
    forall k | 0 <= k < |more| ensures Decided(cfg, snap, start, k, mem', longer[k], more[k]) {
      if k < i {
        OthersSame(cfg, snap, snap.ues[i].nodeId, mem, trail[i], mem', loads', d, snap.ues[k].nodeId);
        DecidedStays(cfg, snap, start, k, mem, mem', trail[k], ds[k]);
      }
    }
  }

  lemma UntouchedStep(cfg: Config, snap: Snapshot, start: Memory, i: nat, mem: Memory, mem': Memory,
                      loads: Loads, loads': Loads, d: Decision)
    requires i < |snap.ues| && Untouched(snap, start, i, mem)
    requires UeOutcome(cfg, snap, snap.ues[i].nodeId, mem, loads, mem', loads', d)
    ensures Untouched(snap, start, i + 1, mem')
  {
    forall u: Ue | forall k :: 0 <= k < i + 1 ==> snap.ues[k].nodeId != u ensures SameFor(start, mem', u) {
      assert snap.ues[i].nodeId != u;
      OthersSame(cfg, snap, snap.ues[i].nodeId, mem, loads, mem', loads', d, u);
      assert SameFor(start, mem, u);
    }
  }

  lemma TickStep(cfg: Config, snap: Snapshot, start: Memory, i: nat, mem: Memory, mem': Memory,
                 realLoad: Loads, trail: seq<Loads>, loads: Loads, loads': Loads, ds: seq<Decision>, d: Decision)
    requires i < |snap.ues| && DistinctUes(snap.ues)
    requires TickSoFar(cfg, snap, start, i, mem, realLoad, trail, ds) && loads == trail[i]
    requires UeOutcome(cfg, snap, snap.ues[i].nodeId, mem, loads, mem', loads', d)
    ensures TickSoFar(cfg, snap, start, i + 1, mem', realLoad, trail + [loads'], ds + [d])
  {
    assert ds[..i] == ds;
    NotYetTouched(cfg, snap, start, i, mem, realLoad, trail, ds);
    DecidedNow(cfg, snap, start, i, mem, mem', loads, loads', d);
    TallyAfter(cfg, start.pendingHoTarget, realLoad, loads, loads', ds, d);
    TrailGrows(cfg, start.pendingHoTarget, realLoad, trail, ds, loads', d);
    AllDecidedStep(cfg, snap, start, i, mem, mem', trail, loads', ds, d);
    UntouchedStep(cfg, snap, start, i, mem, mem', loads, loads', d);
  }

  lemma TickEnd(cfg: Config, snap: Snapshot, mem: Memory, mem': Memory, realLoad: Loads, trail: seq<Loads>,
                ds: seq<Decision>)
    requires forall c: Cell :: LoadOf(realLoad, c) == Attached(snap, |snap.ues|, c)
    requires TickSoFar(cfg, snap, mem.(pendingHoTarget := Pruned(cfg, mem, snap.now)), |snap.ues|, mem', realLoad, trail, ds)
    ensures TickOutcome(cfg, snap, mem, mem', ds, Commands(ds))
  {
    var start := mem.(pendingHoTarget := Pruned(cfg, mem, snap.now));
    var n := |ds|;
    forall k | 0 <= k < n ensures DecidedInTurn(cfg, snap, start, k, mem', ds) {
      TallyIsEffective(cfg, snap, start.pendingHoTarget, realLoad, ds, k, trail[k]);
      assert Decided(cfg, snap, start, k, mem', trail[k], ds[k]);
    }
    assert ds[..n] == ds;
    assert LoadsTally(cfg, start.pendingHoTarget, realLoad, trail[n], Commands(ds));
    forall c: Cell | Commanded(Commands(ds), c) > 0
      ensures Allows(cfg, c, Attached(snap, |snap.ues|, c) + |Heading(start.pendingHoTarget, c)| + Commanded(Commands(ds), c))
    {
      TallyAllows(cfg, start.pendingHoTarget, realLoad, trail[n], Commands(ds), c);
    }
  }

  lemma TallyAllows(cfg: Config, pending: map<Ue, Cell>, realLoad: Loads, loads: Loads, cmds: seq<Command>, c: Cell)
    requires LoadsTally(cfg, pending, realLoad, loads, cmds) && Commanded(cmds, c) > 0
    ensures Allows(cfg, c, LoadOf(realLoad, c) + |Heading(pending, c)| + Commanded(cmds, c))
  {
    assert Cap(cfg, c) > 0 ==> LoadOf(loads, c) <= Cap(cfg, c);
  }

  lemma TallyIsEffective(cfg: Config, snap: Snapshot, pending: map<Ue, Cell>, realLoad: Loads, ds: seq<Decision>,
                         k: nat, loads: Loads)
    requires forall c: Cell :: LoadOf(realLoad, c) == Attached(snap, |snap.ues|, c)
    requires k <= |ds| && LoadsTally(cfg, pending, realLoad, loads, Commands(ds[..k]))
    ensures EffectiveAt(cfg, snap, pending, ds, k, loads)
  {
    forall c: Cell
      ensures LoadOf(loads, c) ==
              Reserved(Cap(cfg, c), Attached(snap, |snap.ues|, c), |Heading(pending, c)|) + Commanded(Commands(ds[..k]), c)
    {
      assert LoadOf(realLoad, c) == Attached(snap, |snap.ues|, c);
    }
  }

  // ----- a query is determined by its reports and the memory

  function PickOf(d: Decision): Pick {
    match d
    case Waiting(c) => Target(c)
    case Issued(x) => Target(x.target)
    case TooWeak => LowRsrp
    case _ => Keep
  }

  lemma JustifiedPick(cfg: Config, snap: Snapshot, start: Memory, ue: Ue, loads: Loads, d: Decision)
    requires Served(snap, ue) && !d.Shut? && !d.Unserved? && Justified(cfg, snap, start, ue, loads, d)
    ensures PickMeans(cfg, snap, ue, loads, PickOf(d))
  {
  }

  lemma PickSameLoads(cfg: Config, snap: Snapshot, ue: Ue, a: Loads, b: Loads, p: Pick)
    requires Served(snap, ue) && SameLoads(a, b) && PickMeans(cfg, snap, ue, a, p)
    ensures PickMeans(cfg, snap, ue, b, p)
  {
    forall c: Cell ensures Full(cfg, a, c) == Full(cfg, b, c) {
      SameFull(cfg, a, b, c);
    }
    if p == Keep && !cfg.tryNextBest {
      if c: Cell :| Blocks(cfg, snap, ue, a, c) {
        assert Blocks(cfg, snap, ue, b, c);
      }
    }
  }

  /** Past the gates, a decision is determined by the pick and the stopwatch. */
  lemma DecisionFromPick(cfg: Config, snap: Snapshot, start: Memory, ue: Ue, a: Loads, b: Loads, d: Decision, e: Decision)
    requires Served(snap, ue) && !d.Shut? && !d.Unserved? && !e.Shut? && !e.Unserved?
    requires Justified(cfg, snap, start, ue, a, d) && Justified(cfg, snap, start, ue, b, e) && PickOf(d) == PickOf(e)
    ensures d == e
  {
  }

  lemma DecidedDetermined(cfg: Config, snap: Snapshot, start: Memory, k: nat, mem: Memory, mem': Memory,
                          a: Loads, b: Loads, d: Decision, e: Decision)
    requires k < |snap.ues| && SameLoads(a, b)
    requires Served(snap, snap.ues[k].nodeId) ==> NoTies(cfg, snap, snap.ues[k].nodeId)
    requires Decided(cfg, snap, start, k, mem, a, d) && Decided(cfg, snap, start, k, mem', b, e)
    ensures d == e
  {
    var ue := snap.ues[k].nodeId;
    if GatesOpen(cfg, snap.now, start, ue) && Served(snap, ue) {
      JustifiedPick(cfg, snap, start, ue, a, d);
      JustifiedPick(cfg, snap, start, ue, b, e);
      PickSameLoads(cfg, snap, ue, a, b, PickOf(d));
      PickDetermined(cfg, snap, ue, b, PickOf(d), PickOf(e));
      DecisionFromPick(cfg, snap, start, ue, a, b, d, e);
    }
  }

  /** No UE of the query sees two improving cells equally strong. */
  ghost predicate NoTiesInQuery(cfg: Config, snap: Snapshot) {
    forall k :: 0 <= k < |snap.ues| && Served(snap, snap.ues[k].nodeId) ==> NoTies(cfg, snap, snap.ues[k].nodeId)
  }

  lemma EffectiveSame(cfg: Config, snap: Snapshot, pending: map<Ue, Cell>, ds: seq<Decision>, es: seq<Decision>, k: nat,
                      a: Loads, b: Loads)
    requires k <= |ds| && k <= |es| && ds[..k] == es[..k]
    requires EffectiveAt(cfg, snap, pending, ds, k, a) && EffectiveAt(cfg, snap, pending, es, k, b)
    ensures SameLoads(a, b)
  {
    forall c: Cell ensures LoadOf(a, c) == LoadOf(b, c) {
      assert LoadOf(a, c) ==
        Reserved(Cap(cfg, c), Attached(snap, |snap.ues|, c), |Heading(pending, c)|) + Commanded(Commands(ds[..k]), c);
    }
  }

  lemma {:induction false} DecisionsDetermined(cfg: Config, snap: Snapshot, start: Memory, mem: Memory, mem': Memory,
                                               ds: seq<Decision>, es: seq<Decision>, n: nat)
    requires |ds| == |es| == |snap.ues| && n <= |ds| && NoTiesInQuery(cfg, snap)
    requires forall k :: 0 <= k < |ds| ==> DecidedInTurn(cfg, snap, start, k, mem, ds)
    requires forall k :: 0 <= k < |es| ==> DecidedInTurn(cfg, snap, start, k, mem', es)
    ensures ds[..n] == es[..n]
  {
    if n > 0 {
      var k := n - 1;
      DecisionsDetermined(cfg, snap, start, mem, mem', ds, es, k);
      TurnDetermined(cfg, snap, start, mem, mem', ds, es, k);
      assert ds[..n] == ds[..k] + [ds[k]] && es[..n] == es[..k] + [es[k]];
    }
  }

  lemma TurnDetermined(cfg: Config, snap: Snapshot, start: Memory, mem: Memory, mem': Memory,
                       ds: seq<Decision>, es: seq<Decision>, k: nat)
    requires |ds| == |es| == |snap.ues| && k < |ds| && NoTiesInQuery(cfg, snap) && ds[..k] == es[..k]
    requires DecidedInTurn(cfg, snap, start, k, mem, ds) && DecidedInTurn(cfg, snap, start, k, mem', es)
    ensures ds[k] == es[k]
  {
    var a: Loads :| EffectiveAt(cfg, snap, start.pendingHoTarget, ds, k, a) && Decided(cfg, snap, start, k, mem, a, ds[k]);
    var b: Loads :| EffectiveAt(cfg, snap, start.pendingHoTarget, es, k, b) && Decided(cfg, snap, start, k, mem', b, es[k]);
    EffectiveSame(cfg, snap, start.pendingHoTarget, ds, es, k, a, b);
    DecidedDetermined(cfg, snap, start, k, mem, mem', a, b, ds[k], es[k]);
  }

  lemma SameEntries<V>(a: map<Ue, V>, b: map<Ue, V>)
    requires forall u: Ue :: At(a, u) == At(b, u)
    ensures a == b
  {
    forall u: Ue ensures u in a <==> u in b {
      assert At(a, u) == At(b, u);
    }
    forall u: Ue | u in a ensures a[u] == b[u] {
      assert At(a, u) == At(b, u);
    }
  }

  lemma SameMemory(a: Memory, b: Memory)
    requires forall u: Ue :: SameFor(a, b, u)
    ensures a == b
  {
    forall u: Ue
      ensures At(a.tttState, u) == At(b.tttState, u) && At(a.lowRsrpBlockUntil, u) == At(b.lowRsrpBlockUntil, u)
      ensures At(a.lastHoCmdTime, u) == At(b.lastHoCmdTime, u) && At(a.pendingHoTarget, u) == At(b.pendingHoTarget, u)
    {
      assert SameFor(a, b, u);
    }
    SameEntries(a.tttState, b.tttState);
    SameEntries(a.lowRsrpBlockUntil, b.lowRsrpBlockUntil);
    SameEntries(a.lastHoCmdTime, b.lastHoCmdTime);
    SameEntries(a.pendingHoTarget, b.pendingHoTarget);
  }

  lemma TurnRemembered(cfg: Config, snap: Snapshot, start: Memory, k: nat, mem: Memory, ds: seq<Decision>)
    requires k < |ds| == |snap.ues| && DecidedInTurn(cfg, snap, start, k, mem, ds)
    ensures Remembered(cfg, snap.now, start, snap.ues[k].nodeId, mem, ds[k])
  {
  }

  /** The outcome of a query is a function of the reports and the memory as long as no UE
      sees two improving cells equally strong: decisions, commands and new memory. */
  lemma QueryDetermined(cfg: Config, snap: Snapshot, mem: Memory, mem1: Memory, mem2: Memory,
                        ds: seq<Decision>, es: seq<Decision>, cmds1: seq<Command>, cmds2: seq<Command>)
    requires TickOutcome(cfg, snap, mem, mem1, ds, cmds1) && TickOutcome(cfg, snap, mem, mem2, es, cmds2)
    requires NoTiesInQuery(cfg, snap)
    ensures ds == es && cmds1 == cmds2 && mem1 == mem2
  {
    var start, n := mem.(pendingHoTarget := Pruned(cfg, mem, snap.now)), |ds|;
    DecisionsDetermined(cfg, snap, start, mem1, mem2, ds, es, n);
    assert ds[..n] == ds && es[..n] == es;
    forall u: Ue ensures SameFor(mem1, mem2, u) {
      if k :| 0 <= k < n && snap.ues[k].nodeId == u {
        TurnRemembered(cfg, snap, start, k, mem1, ds);
        TurnRemembered(cfg, snap, start, k, mem2, ds);
      } else {
        assert SameFor(start, mem1, u) && SameFor(start, mem2, u);
      }
    }
    SameMemory(mem1, mem2);
  }

  class OranLm {
    const cfg: Config
    var lastHoCmdTime: map<Ue, Time>
    var pendingHoTarget: map<Ue, Cell>
    var lowRsrpBlockUntil: map<Ue, Time>
    var tttState: map<Ue, (Cell, Time)>

    function Mem(): Memory
      reads this
    {
      Memory(lastHoCmdTime, pendingHoTarget, lowRsrpBlockUntil, tttState)
    }

    constructor (cfg: Config)
      ensures this.cfg == cfg && Mem() == Memory(map[], map[], map[], map[])
    {
      this.cfg := cfg;
      lastHoCmdTime, pendingHoTarget, lowRsrpBlockUntil, tttState := map[], map[], map[], map[];
    }

    /** Forgets pending handovers that have timed out. */
    method Prune(now: Time)
      modifies this`pendingHoTarget
      ensures pendingHoTarget == Pruned(cfg, old(Mem()), now)
    {
      var todo := pendingHoTarget.Keys;
      while todo != {}
        invariant todo <= old(pendingHoTarget).Keys
        invariant forall u :: u in pendingHoTarget <==>
                    u in old(pendingHoTarget) && (u in todo || Live(cfg, lastHoCmdTime, now, u))
        invariant forall u :: u in pendingHoTarget ==> pendingHoTarget[u] == old(pendingHoTarget)[u]
        decreases |todo|
      {
        var u :| u in todo;
        if u !in lastHoCmdTime || now - lastHoCmdTime[u] >= cfg.hoAttemptTimeout {
          pendingHoTarget := pendingHoTarget - {u};
        }
        todo := todo - {u};
      }
    }

    /** The tests at the head of the per-UE loop. */
    method PassGates(now: Time, ue: Ue) returns (open: bool)
      modifies this`lowRsrpBlockUntil
      ensures open == GatesOpen(cfg, now, old(Mem()), ue)
      ensures Mem() == Unblocked(cfg, now, old(Mem()), ue)
    {
      if now < cfg.warmup {
        return false;
      }
      if ue in lowRsrpBlockUntil {
        if now < lowRsrpBlockUntil[ue] {
          return false;
        }
        lowRsrpBlockUntil := lowRsrpBlockUntil - {ue};
      }
      if ue in pendingHoTarget && ue in lastHoCmdTime {
        if now - lastHoCmdTime[ue] < cfg.hoAttemptTimeout {
          return false;
        }
      }
      if ue in lastHoCmdTime && now - lastHoCmdTime[ue] < cfg.minHoInterval {
        return false;
      }
      return true;
    }

    /** The search for a target among the reported cells. */
    method Search(snap: Snapshot, ue: Ue, s: Measurement, best: map<Cell, real>, loads: Loads) returns (p: Pick)
      requires Served(snap, ue) && LastServing(Reports(snap, ue)).value == s
      requires BestMap(Reports(snap, ue), best)
      ensures PickMeans(cfg, snap, ue, loads, p)
    {
      var cands := Candidates(snap, Reports(snap, ue), best);
      var serving := Serving(s.cellId, s.rsrp);
      p := PickTarget(cfg, cands, serving, loads);
      if p == Keep && PassedOver(cfg, cands, serving, loads, |cands|) {
        AllPassedMeans(cfg, snap, ue, cands, loads);
      } else {
        ghost var k :| 0 <= k < |cands| && Beats(cfg, serving, cands[k]) && PassedOver(cfg, cands, serving, loads, k) &&
          (!cfg.tryNextBest || cands[k].rsrp < cfg.minAcceptableRsrpDbm || !Full(cfg, loads, cands[k].cellId)) &&
          p == if cands[k].rsrp < cfg.minAcceptableRsrpDbm then LowRsrp
               else if Full(cfg, loads, cands[k].cellId) then Keep
               else Target(cands[k].cellId);
        match p
        case Target(_) => TargetMeans(cfg, snap, ue, cands, loads, k);
        case LowRsrp => LowMeans(cfg, snap, ue, cands, loads, k);
        case Keep => FullOneMeans(cfg, snap, ue, cands, loads, k);
      }
    }

    /** The decision for one UE. A pending entry that survived pruning keeps the gates
        shut, so clearing a reached target never finds one. */
    method Evaluate(snap: Snapshot, ue: Ue, loads: Loads) returns (d: Decision, loads': Loads)
      requires ue in pendingHoTarget ==> Live(cfg, lastHoCmdTime, snap.now, ue)
      modifies this
      ensures UeOutcome(cfg, snap, ue, old(Mem()), loads, Mem(), loads', d)
    {
      loads' := loads;
      var open := PassGates(snap.now, ue);
      if !open {
        return Shut, loads;
      }
      var serving, best := Collect(Reports(snap, ue));
      if serving.None? || serving.value.cellId == 0 || serving.value.rnti == 0 {
        return Unserved, loads;
      }
      var s := serving.value;
      ghost var m := Mem();
      pendingHoTarget := ClearReached(pendingHoTarget, ue, s.cellId);
      assert Mem() == m;
      var gnb := GnbOf(snap.gnbs, s.cellId);
      if gnb == 0 {
        return Unserved, loads;
      }
      var pick := Search(snap, ue, s, best, loads);
      d, loads' := Conclude(snap, ue, gnb, s.rnti, pick, loads);
      Evaluated(cfg, snap, ue, old(Mem()), m, loads, Mem(), loads', d);
    }

    /** Turns a search result into a decision and remembers it. */
    method Conclude(snap: Snapshot, ue: Ue, gnb: nat, rnti: nat, pick: Pick, loads: Loads)
      returns (d: Decision, loads': Loads)
      requires Served(snap, ue) && PickMeans(cfg, snap, ue, loads, pick)
      requires rnti == LastServing(Reports(snap, ue)).value.rnti
      requires gnb == GnbOf(snap.gnbs, LastServing(Reports(snap, ue)).value.cellId)
      modifies this
      ensures !d.Shut? && !d.Unserved? && (!d.Issued? ==> loads' == loads)
      ensures DecisionTaken(cfg, snap, ue, old(Mem()), loads, Mem(), loads', d)
    {
      loads' := loads;
      match pick
      case LowRsrp =>
        d := TooWeak;
        lowRsrpBlockUntil := lowRsrpBlockUntil[ue := snap.now + cfg.lowRsrpRecheck];
        tttState := tttState - {ue};
      case Keep =>
        d := Kept;
        tttState := tttState - {ue};
      case Target(cell) =>
        if ue !in tttState || tttState[ue].0 != cell {
          tttState := tttState[ue := (cell, snap.now)];
        }
        if snap.now - tttState[ue].1 < cfg.timeToTrigger {
          d := Waiting(cell);
        } else {
          d := Issued(Command(ue, gnb, rnti, cell));
          tttState := tttState - {ue};
          lastHoCmdTime := lastHoCmdTime[ue := snap.now];
          pendingHoTarget := pendingHoTarget[ue := cell];
          var cap := Cap(cfg, cell);
          if cap == 0 || LoadOf(loads, cell) < cap {
            PutLoad(loads, cell, LoadOf(loads, cell) + 1);
            loads' := loads[cell := LoadOf(loads, cell) + 1];
          }
        }
    }

    /** One query: forget stale handovers, count the load, reserve for pending
        handovers, then decide UE by UE. */
    method GetHandoverCommands(snap: Snapshot) returns (cmds: seq<Command>, ghost ds: seq<Decision>)
      requires DistinctUes(snap.ues)
      modifies this
      ensures TickOutcome(cfg, snap, old(Mem()), Mem(), ds, cmds)
    {
      Prune(snap.now);
      ghost var start := Mem();
      var realLoad := CountServing(snap);
      var effective := Reserve(cfg, realLoad, pendingHoTarget);
      cmds, ds := [], [];
      ghost var trail := [effective];
      TickStart(cfg, snap, start, realLoad, effective);
      for i := 0 to |snap.ues|
        invariant TickSoFar(cfg, snap, start, i, Mem(), realLoad, trail, ds)
        invariant effective == trail[i] && cmds == Commands(ds)
      {
        var ue := snap.ues[i].nodeId;
        ghost var mem, loads := Mem(), effective;
        NotYetTouched(cfg, snap, start, i, mem, realLoad, trail, ds);
        var d: Decision;
        d, effective := Evaluate(snap, ue, effective);
        TickStep(cfg, snap, start, i, mem, Mem(), realLoad, trail, loads, effective, ds, d);
        CommandsSnoc(ds, d);
        ds, trail := ds + [d], trail + [effective];
        if d.Issued? {
          cmds := cmds + [d.cmd];
        }
      }
      TickEnd(cfg, snap, old(Mem()), Mem(), realLoad, trail, ds);
    }
  }
}
