/** How late a handover may complete. The module reserves a place in the target cell until
    the attempt timeout; a completion after that can find its place taken. This module
    builds the run that shows it, and derives the exact bound on the delay. */
module HandoverDelay {
  import opened Common
  import opened LoadAwareHandover
  import opened HandoverRuns

  // ----- a query in which one UE reports

  /** The distinct members of a set, in some order. */
  ghost predicate Lists(s: set<Ue>, q: seq<Ue>) {
    && (forall i, j :: 0 <= i < j < |q| ==> q[i] != q[j])
    && (forall u :: u in q <==> u in s)
  }

  lemma {:induction false} Enumerate(s: set<Ue>) returns (q: seq<Ue>)
    ensures Lists(s, q)
  {
    if s == {} {
      q := [];
    } else {
      var x :| x in s;
      var rest := Enumerate(s - {x});
      q := [x] + rest;
    }
  }

  function Infos(us: seq<Ue>, serving: map<Ue, Cell>): (infos: seq<UeInfo>)
    requires forall u :: u in us ==> u in serving
    ensures |infos| == |us|
    ensures forall i :: 0 <= i < |us| ==> infos[i] == UeInfo(us[i], serving[us[i]])
  {
    seq(|us|, i requires 0 <= i < |us| => UeInfo(us[i], serving[us[i]]))
  }

  /** An RSRP that beats a serving cell at 0 dBm and is acceptable. */
  function StrongRsrp(cfg: Config): (r: real)
    ensures r > cfg.hysteresisDb && r >= cfg.minAcceptableRsrpDbm
  {
    if cfg.hysteresisDb + 1.0 >= cfg.minAcceptableRsrpDbm then cfg.hysteresisDb + 1.0 else cfg.minAcceptableRsrpDbm
  }

  function TalkReport(cfg: Config, s: Cell, c: Cell): seq<Measurement> {
    [Measurement(1, s, 0.0, true, 0), Measurement(0, c, StrongRsrp(cfg), false, 0)]
  }

  /** The gNBs of the network serve both cells. */
  ghost predicate HasCells(gnbs: seq<GnbInfo>, s: Cell, c: Cell) {
    GnbOf(gnbs, s) != 0 && exists i :: 0 <= i < |gnbs| && gnbs[i].cellId == c
  }

  /** Only `u` reports, a strong cell `c` beside its own; it comes first in the list. */
  function TalkSnap(cfg: Config, now: Time, gnbs: seq<GnbInfo>, u: Ue, c: Cell, serving: map<Ue, Cell>, us: seq<Ue>): Snapshot
    requires u in serving && forall v :: v in us ==> v in serving
  {
    var s := serving[u];
    Snapshot(now, Infos(us, serving), gnbs, map[u := TalkReport(cfg, s, c)])
  }

  /** What the search looks at in that report. */
  lemma ReportMeans(cfg: Config, snap: Snapshot, u: Ue, s: Cell, c: Cell)
    requires Reports(snap, u) == TalkReport(cfg, s, c) && s != c && s != 0
    requires HasCells(snap.gnbs, s, c)
    ensures Served(snap, u) && LastServing(Reports(snap, u)).value == Measurement(1, s, 0.0, true, 0)
    ensures forall d: Cell :: Improves(cfg, snap, u, d) <==> d == c
    ensures Acceptable(cfg, snap, u, c)
  {
    var ms := TalkReport(cfg, s, c);
    assert ms[..1] == [ms[0]] && ms[..1][..0] == [];
    assert LastServing(ms[..1]) == Some(ms[0]);
    assert LastServing(ms) == Some(ms[0]);
    forall d: Cell ensures Best(ms, d) == if d == c then Some(StrongRsrp(cfg)) else if d == s then Some(0.0) else None {
      assert Best(ms[..1], d) == if d == s then Some(0.0) else None;
    }
    assert Known(snap, c);
  }

  /** The decision that the report leads to when the gates are open and the cell has room. */
  function TalkDecision(cfg: Config, now: Time, mem: Memory, u: Ue, gnb: nat, c: Cell): Decision {
    if now - Started(mem, now, u, c) < cfg.timeToTrigger then Waiting(c) else Issued(Command(u, gnb, 1, c))
  }

  lemma TalkOutcome(cfg: Config, snap: Snapshot, u: Ue, s: Cell, c: Cell, mem: Memory, loads: Loads)
    returns (mem': Memory, loads': Loads)
    requires Reports(snap, u) == TalkReport(cfg, s, c) && s != c && s != 0
    requires HasCells(snap.gnbs, s, c)
    requires GatesOpen(cfg, snap.now, mem, u) && !Full(cfg, loads, c)
    ensures UeOutcome(cfg, snap, u, mem, loads, mem', loads', TalkDecision(cfg, snap.now, mem, u, GnbOf(snap.gnbs, s), c))
  {
    ReportMeans(cfg, snap, u, s, c);
    assert Eligible(cfg, snap, u, loads, c);
    var now, m := snap.now, Unblocked(cfg, snap.now, mem, u);
    var d := TalkDecision(cfg, now, mem, u, GnbOf(snap.gnbs, s), c);
    assert Started(m, now, u, c) == Started(mem, now, u, c);
    if d.Waiting? {
      mem', loads' := m.(tttState := m.tttState[u := (c, Started(m, now, u, c))]), loads;
    } else {
      mem' := m.(lastHoCmdTime := m.lastHoCmdTime[u := now],
                 pendingHoTarget := m.pendingHoTarget[u := c], tttState := m.tttState - {u});
      loads' := loads[c := LoadOf(loads, c) + 1];
      PutLoad(loads, c, LoadOf(loads, c) + 1);
    }
    assert DecisionTaken(cfg, snap, u, m, loads, mem', loads', d);
  }

  function SilentDecision(cfg: Config, now: Time, mem: Memory, u: Ue): Decision {
    if GatesOpen(cfg, now, mem, u) then Unserved else Shut
  }

  lemma SilentOutcome(cfg: Config, snap: Snapshot, u: Ue, mem: Memory, loads: Loads)
    requires Reports(snap, u) == []
    ensures UeOutcome(cfg, snap, u, mem, loads, Unblocked(cfg, snap.now, mem, u), loads,
                      SilentDecision(cfg, snap.now, mem, u))
  {
  }

  /** The first decision is `d`, and the others pass by UEs that say nothing. */
  ghost predicate OnlyFirst(ds: seq<Decision>, d: Decision) {
    |ds| > 0 && ds[0] == d && forall k :: 1 <= k < |ds| ==> ds[k] in {Shut, Unserved}
  }

  lemma {:induction false} SilentRest(cfg: Config, snap: Snapshot, start: Memory, i: nat, mem: Memory,
                                      realLoad: Loads, trail: seq<Loads>, ds: seq<Decision>, d: Decision)
    returns (mem': Memory, trail': seq<Loads>, ds': seq<Decision>)
    requires 1 <= i <= |snap.ues| && DistinctUes(snap.ues)
    requires forall k :: 1 <= k < |snap.ues| ==> Reports(snap, snap.ues[k].nodeId) == []
    requires TickSoFar(cfg, snap, start, i, mem, realLoad, trail, ds) && OnlyFirst(ds, d)
    ensures TickSoFar(cfg, snap, start, |snap.ues|, mem', realLoad, trail', ds') && OnlyFirst(ds', d)
    decreases |snap.ues| - i
  {
    if i == |snap.ues| {
      return mem, trail, ds;
    }
    var u := snap.ues[i].nodeId;
    var e, m := SilentDecision(cfg, snap.now, mem, u), Unblocked(cfg, snap.now, mem, u);
    SilentOutcome(cfg, snap, u, mem, trail[i]);
    TickStep(cfg, snap, start, i, mem, m, realLoad, trail, trail[i], trail[i], ds, e);
    mem', trail', ds' := SilentRest(cfg, snap, start, i + 1, m, realLoad, trail + [trail[i]], ds + [e], d);
  }

  // ----- the loads of a snapshot exist as maps

  lemma {:induction false} AttachedSomewhere(snap: Snapshot, n: nat, c: Cell)
    requires n <= |snap.ues| && Attached(snap, n, c) > 0
    ensures exists i :: 0 <= i < n && AttachedCell(snap, snap.ues[i]) == c
  {
    if AttachedCell(snap, snap.ues[n - 1]) != c {
      AttachedSomewhere(snap, n - 1, c);
    }
  }

  function RealLoad(snap: Snapshot): Loads {
    map c | c in (set i | 0 <= i < |snap.ues| :: AttachedCell(snap, snap.ues[i])) :: Attached(snap, |snap.ues|, c)
  }

  lemma RealLoadCounts(snap: Snapshot, c: Cell)
    ensures LoadOf(RealLoad(snap), c) == Attached(snap, |snap.ues|, c)
  {
    if Attached(snap, |snap.ues|, c) > 0 {
      AttachedSomewhere(snap, |snap.ues|, c);
    }
  }

  function EffectiveLoad(cfg: Config, loads: Loads, pending: map<Ue, Cell>): Loads {
    map c | c in loads.Keys + pending.Values :: Reserved(Cap(cfg, c), LoadOf(loads, c), |Heading(pending, c)|)
  }

  lemma EffectiveLoadReserves(cfg: Config, loads: Loads, pending: map<Ue, Cell>)
    ensures ReservedSoFar(cfg, loads, pending, EffectiveLoad(cfg, loads, pending))
  {
    forall c: Cell
      ensures LoadOf(EffectiveLoad(cfg, loads, pending), c) == Reserved(Cap(cfg, c), LoadOf(loads, c), |Heading(pending, c)|)
    {
      if c !in loads.Keys + pending.Values {
        assert Heading(pending, c) == {};
      }
    }
  }

  // ----- the query as a step of the world

  /** The cell has a free place, reservations that are still live counted. */
  ghost predicate HasRoom(cfg: Config, w: World, c: Cell) {
    |ServedBy(w.serving, c)| + |Heading(Pruned(cfg, w.mem, w.now), c)| < Cap(cfg, c)
  }

  ghost predicate Open(cfg: Config, w: World, u: Ue) {
    GatesOpen(cfg, w.now, w.mem.(pendingHoTarget := Pruned(cfg, w.mem, w.now)), u)
  }

  /** `u` gets the decision `d` and nobody else is evaluated. */
  ghost predicate Singles(w: World, q: Query, u: Ue, d: Decision) {
    && q.now == w.now && q.decisions.Keys == w.serving.Keys && u in q.decisions && q.decisions[u] == d
    && forall v :: v in q.decisions && v != u ==> q.decisions[v] in {Shut, Unserved}
  }

  /** These decisions and this memory are the only outcome of the query. */
  ghost predicate OnlyOutcome(cfg: Config, snap: Snapshot, mem: Memory, mem': Memory, ds: seq<Decision>) {
    forall es, m :: TickOutcome(cfg, snap, mem, m, es, Commands(es)) ==> es == ds && m == mem'
  }

  /** A query on reports that are up to date, which can have no other outcome. */
  ghost predicate ForcedQuery(cfg: Config, w: World, w': World, q: Query) {
    exists snap, ds ::
      QueryStep(cfg, w, w', snap, ds, q) && Faithful(snap, w.serving) && OnlyOutcome(cfg, snap, w.mem, w'.mem, ds)
  }

  /** In the snapshot of one report nothing can tie. */
  lemma TalkHasNoTies(cfg: Config, snap: Snapshot, u: Ue, s: Cell, c: Cell)
    requires |snap.ues| > 0 && snap.ues[0].nodeId == u && DistinctUes(snap.ues)
    requires forall k :: 1 <= k < |snap.ues| ==> Reports(snap, snap.ues[k].nodeId) == []
    requires Reports(snap, u) == TalkReport(cfg, s, c) && s != c && s != 0 && HasCells(snap.gnbs, s, c)
    ensures NoTiesInQuery(cfg, snap)
  {
    ReportMeans(cfg, snap, u, s, c);
    assert NoTies(cfg, snap, u);
    forall k | 0 <= k < |snap.ues| && Served(snap, snap.ues[k].nodeId) ensures NoTies(cfg, snap, snap.ues[k].nodeId) {
      assert k == 0;
    }
  }

  lemma TalkForced(cfg: Config, snap: Snapshot, mem: Memory, mem': Memory, ds: seq<Decision>)
    requires TickOutcome(cfg, snap, mem, mem', ds, Commands(ds)) && NoTiesInQuery(cfg, snap)
    ensures OnlyOutcome(cfg, snap, mem, mem', ds)
  {
    forall es, m | TickOutcome(cfg, snap, mem, m, es, Commands(es)) ensures es == ds && m == mem' {
      QueryDetermined(cfg, snap, mem, mem', m, ds, es, Commands(ds), Commands(es));
    }
  }

  lemma TalkTick(cfg: Config, snap: Snapshot, mem: Memory, u: Ue, s: Cell, c: Cell)
    returns (mem': Memory, ds: seq<Decision>)
    requires |snap.ues| > 0 && snap.ues[0].nodeId == u && DistinctUes(snap.ues)
    requires forall k :: 1 <= k < |snap.ues| ==> Reports(snap, snap.ues[k].nodeId) == []
    requires Reports(snap, u) == TalkReport(cfg, s, c) && s != c && s != 0
    requires HasCells(snap.gnbs, s, c)
    requires GatesOpen(cfg, snap.now, mem.(pendingHoTarget := Pruned(cfg, mem, snap.now)), u)
    requires Attached(snap, |snap.ues|, c) + |Heading(Pruned(cfg, mem, snap.now), c)| < Cap(cfg, c)
    ensures TickOutcome(cfg, snap, mem, mem', ds, Commands(ds))
    ensures OnlyFirst(ds, TalkDecision(cfg, snap.now, mem, u, GnbOf(snap.gnbs, s), c))
  {
    var start := mem.(pendingHoTarget := Pruned(cfg, mem, snap.now));
    var realLoad := RealLoad(snap);
    forall d: Cell ensures LoadOf(realLoad, d) == Attached(snap, |snap.ues|, d) {
      RealLoadCounts(snap, d);
    }
    var loads := EffectiveLoad(cfg, realLoad, start.pendingHoTarget);
    EffectiveLoadReserves(cfg, realLoad, start.pendingHoTarget);
    TickStart(cfg, snap, start, realLoad, loads);
    assert LoadOf(realLoad, c) == Attached(snap, |snap.ues|, c);
    assert !Full(cfg, loads, c);
    var m, l := TalkOutcome(cfg, snap, u, s, c, start, loads);
    var d := TalkDecision(cfg, snap.now, start, u, GnbOf(snap.gnbs, s), c);
    TickStep(cfg, snap, start, 0, start, m, realLoad, [loads], loads, l, [], d);
    var trail;
    mem', trail, ds := SilentRest(cfg, snap, start, 1, m, realLoad, [loads] + [l], [] + [d], d);
    TickEnd(cfg, snap, mem, mem', realLoad, trail, ds);
  }

  lemma TalkSnapFaithful(cfg: Config, now: Time, gnbs: seq<GnbInfo>, u: Ue, c: Cell, serving: map<Ue, Cell>, us: seq<Ue>)
    requires u in serving && serving[u] != 0 && us != [] && us[0] == u && Lists(serving.Keys, us)
    ensures var snap := TalkSnap(cfg, now, gnbs, u, c, serving, us);
            && Faithful(snap, serving) && snap.ues[0].nodeId == u
            && forall k :: 1 <= k < |snap.ues| ==> Reports(snap, snap.ues[k].nodeId) == []
  {
    var snap := TalkSnap(cfg, now, gnbs, u, c, serving, us);
    forall v ensures v in serving <==> exists k :: 0 <= k < |snap.ues| && snap.ues[k].nodeId == v {
      if v in serving {
        var k :| 0 <= k < |us| && us[k] == v;
        assert snap.ues[k].nodeId == v;
      }
    }
    forall k | 0 <= k < |snap.ues|
      ensures snap.ues[k].nodeId in serving && AttachedCell(snap, snap.ues[k]) == serving[snap.ues[k].nodeId]
    {
      assert us[k] in us;
      if k == 0 {
        assert FirstServing(TalkReport(cfg, serving[u], c)) == Some(TalkReport(cfg, serving[u], c)[0]);
      }
    }
  }

  ghost function Logged(us: seq<Ue>, ds: seq<Decision>, now: Time): Query
    requires |us| == |ds|
  {
    Query(now, map u | u in us :: DecisionFor(us, ds, u))
  }

  function DecisionFor(us: seq<Ue>, ds: seq<Decision>, u: Ue): Decision
    requires |us| == |ds|
  {
    if us == [] then Shut else if us[0] == u then ds[0] else DecisionFor(us[1..], ds[1..], u)
  }

  lemma {:induction false} DecisionAt(us: seq<Ue>, ds: seq<Decision>, k: nat)
    requires |us| == |ds| && k < |us| && forall i, j :: 0 <= i < j < |us| ==> us[i] != us[j]
    ensures DecisionFor(us, ds, us[k]) == ds[k]
  {
    if k > 0 {
      assert us[0] != us[k];
      DecisionAt(us[1..], ds[1..], k - 1);
    }
  }

  lemma LoggedIsLog(snap: Snapshot, us: seq<Ue>, ds: seq<Decision>, serving: map<Ue, Cell>, w: World, u: Ue, d: Decision)
    requires Lists(serving.Keys, us) && |us| == |ds| == |snap.ues| && OnlyFirst(ds, d) && us[0] == u
    requires forall k :: 0 <= k < |us| ==> snap.ues[k].nodeId == us[k]
    requires snap.now == w.now && serving == w.serving
    ensures LogsDecisions(snap, ds, Logged(us, ds, snap.now)) && Singles(w, Logged(us, ds, snap.now), u, d)
  {
    var q := Logged(us, ds, snap.now);
    forall k | 0 <= k < |us| ensures us[k] in q.decisions && q.decisions[us[k]] == ds[k] {
      DecisionAt(us, ds, k);
    }
    forall v ensures v in q.decisions <==> exists k :: 0 <= k < |snap.ues| && snap.ues[k].nodeId == v {
      if v in q.decisions {
        var k :| 0 <= k < |us| && us[k] == v;
        assert snap.ues[k].nodeId == v;
      }
    }
    assert us[0] in q.decisions;
    forall v | v in q.decisions && v != u ensures q.decisions[v] in {Shut, Unserved} {
      var k :| 0 <= k < |us| && us[k] == v;
    }
  }

  /** All UEs of the world, `u` first. */
  lemma ListFrom(serving: map<Ue, Cell>, u: Ue) returns (us: seq<Ue>)
    requires u in serving
    ensures Lists(serving.Keys, us) && us != [] && us[0] == u
  {
    var rest := Enumerate(serving.Keys - {u});
    us := [u] + rest;
  }

  /** The step of the world that such a query makes. */
  lemma TalkStep(cfg: Config, w: World, u: Ue, c: Cell, us: seq<Ue>, snap: Snapshot) returns (mem': Memory, ds: seq<Decision>)
    requires u in w.serving && w.serving[u] != 0 && w.serving[u] != c && c != 0
    requires Open(cfg, w, u) && HasRoom(cfg, w, c) && HasCells(w.gnbs, w.serving[u], c)
    requires Lists(w.serving.Keys, us) && us != [] && us[0] == u && snap == TalkSnap(cfg, w.now, w.gnbs, u, c, w.serving, us)
    ensures Faithful(snap, w.serving) && TickOutcome(cfg, snap, w.mem, mem', ds, Commands(ds))
    ensures OnlyOutcome(cfg, snap, w.mem, mem', ds)
    ensures OnlyFirst(ds, TalkDecision(cfg, w.now, w.mem, u, GnbOf(w.gnbs, w.serving[u]), c))
  {
    TalkSnapFaithful(cfg, w.now, w.gnbs, u, c, w.serving, us);
    AttachedIsServed(snap, w.serving, c);
    mem', ds := TalkTick(cfg, snap, w.mem, u, w.serving[u], c);
    TalkHasNoTies(cfg, snap, u, w.serving[u], c);
    TalkForced(cfg, snap, w.mem, mem', ds);
  }

  /** A query in which only `u` reports, and a cell with room looks strong to it: it has
      exactly one outcome, and that is this. */
  lemma TalkQuery(cfg: Config, w: World, u: Ue, c: Cell) returns (w': World, q: Query)
    requires u in w.serving && w.serving[u] != 0 && w.serving[u] != c && c != 0
    requires Open(cfg, w, u) && HasRoom(cfg, w, c) && HasCells(w.gnbs, w.serving[u], c)
    ensures ForcedQuery(cfg, w, w', q) && QueryEffect(cfg, w, w', q)
    ensures w'.serving == w.serving && w'.gnbs == w.gnbs
    ensures Singles(w, q, u, TalkDecision(cfg, w.now, w.mem, u, GnbOf(w.gnbs, w.serving[u]), c))
  {
    var us := ListFrom(w.serving, u);
    var snap := TalkSnap(cfg, w.now, w.gnbs, u, c, w.serving, us);
    var mem', ds := TalkStep(cfg, w, u, c, us, snap);
    q := Logged(us, ds, w.now);
    LoggedIsLog(snap, us, ds, w.serving, w, u, TalkDecision(cfg, w.now, w.mem, u, GnbOf(w.gnbs, w.serving[u]), c));
    w' := w.(mem := mem', log := w.log + [q]);
    FaithfulCovers(snap, w.serving);
    assert QueryStep(cfg, w, w', snap, ds, q);
    QueryHasEffect(cfg, w, w', snap, ds, q);
  }

  // ----- the run

  /** A step without a query, or a query that can only end this way. */
  ghost predicate Forced(cfg: Config, w: World, w': World) {
    w'.log == w.log || exists q :: ForcedQuery(cfg, w, w', q)
  }

  /** A run that ends in `w` and in which no query could have decided otherwise. */
  ghost predicate EndsIn(cfg: Config, delay: Time, ws: seq<World>, w: World) {
    && Run(cfg, delay, ws) && ws[|ws| - 1] == w
    && forall i :: 0 <= i < |ws| - 1 ==> Forced(cfg, ws[i], ws[i + 1])
  }

  lemma Extend(cfg: Config, delay: Time, ws: seq<World>, w: World, w': World)
    requires EndsIn(cfg, delay, ws, w) && Next(cfg, delay, w, w') && Forced(cfg, w, w')
    ensures EndsIn(cfg, delay, ws + [w'], w')
  {
    var more := ws + [w'];
    forall i | 0 <= i < |more| - 1 ensures Next(cfg, delay, more[i], more[i + 1]) && Forced(cfg, more[i], more[i + 1]) {
      if i < |ws| - 1 {
        assert more[i] == ws[i] && more[i + 1] == ws[i + 1];
      }
    }
  }

  function Upto(lo: nat, hi: nat): (us: set<Ue>)
    ensures |us| == (if lo <= hi then hi - lo else 0)
    ensures forall u :: u in us <==> lo <= u < hi
    decreases hi
  {
    if lo >= hi then {} else Upto(lo, hi - 1) + {hi - 1}
  }

  /** Two cells that differ from `c` and from each other. */
  function Home(c: Cell, u: Ue): (home: Cell)
    ensures home != 0 && home != c && home <= 3
    ensures u != 0 ==> home != Home(c, 0)
  {
    if u == 0 then (if c == 1 then 2 else 1) else if c == 1 || c == 2 then 3 else 2
  }

  /** UEs 0 and 1 in two cells of their own, and so many in cell `c` that one place is free. */
  function Crowd(cfg: Config, c: Cell): map<Ue, Cell> {
    var us := Upto(0, Cap(cfg, c) + 1);
    map u | u in us :: if u < 2 then Home(c, u) else c
  }

  lemma CrowdLeavesOne(cfg: Config, c: Cell)
    requires Cap(cfg, c) > 0
    ensures |ServedBy(Crowd(cfg, c), c)| == Cap(cfg, c) - 1
  {
    assert ServedBy(Crowd(cfg, c), c) == Upto(2, Cap(cfg, c) + 1);
  }

  lemma CrowdWithin(cfg: Config, c: Cell, d: Cell)
    requires Cap(cfg, c) > 0 && Cap(cfg, d) > 0
    ensures |ServedBy(Crowd(cfg, c), d)| <= Cap(cfg, d)
  {
    if d == c {
      CrowdLeavesOne(cfg, c);
    } else {
      var u := if d == Home(c, 0) then 0 else 1;
      Smaller(ServedBy(Crowd(cfg, c), d), {u});
    }
  }

  /** One gNB for each of the three cells. */
  function Network(c: Cell): seq<GnbInfo> {
    [GnbInfo(1, Home(c, 0)), GnbInfo(2, Home(c, 1)), GnbInfo(3, c)]
  }

  lemma NetworkHasCells(c: Cell, u: Ue)
    requires c != 0 && u < 2
    ensures HasCells(Network(c), Home(c, u), c) && GnbOf(Network(c), Home(c, u)) == u + 1
  {
    var gnbs := Network(c);
    assert gnbs[2].cellId == c;
    assert gnbs[1..][0] == gnbs[1];
  }

  /** No handover was ever commanded and nobody is in back-off. */
  ghost predicate Calm(mem: Memory) {
    forall u: Ue :: At(mem.pendingHoTarget, u) == None && At(mem.lastHoCmdTime, u) == None
                    && At(mem.lowRsrpBlockUntil, u) == None
  }

  /** The time-to-trigger of `u` for `c` has run out. */
  ghost predicate Ready(cfg: Config, w: World, u: Ue, c: Cell) {
    w.now - Started(w.mem, w.now, u, c) >= cfg.timeToTrigger
  }

  lemma CalmRoom(cfg: Config, w: World, c: Cell)
    requires Calm(w.mem) && w.serving == Crowd(cfg, c) && Cap(cfg, c) > 0 && w.now >= cfg.warmup
    ensures HasRoom(cfg, w, c) && forall u: Ue :: Open(cfg, w, u)
  {
    CrowdLeavesOne(cfg, c);
    forall u: Ue ensures u !in w.mem.pendingHoTarget && Open(cfg, w, u) {
      assert At(w.mem.pendingHoTarget, u) == None && At(w.mem.lastHoCmdTime, u) == None
             && At(w.mem.lowRsrpBlockUntil, u) == None;
    }
    assert Heading(Pruned(cfg, w.mem, w.now), c) == {};
  }

  /** A query that starts one stopwatch leaves everything else as it was. */
  lemma CalmStays(cfg: Config, w: World, w': World, q: Query, u: Ue, c: Cell, v: Ue)
    requires Calm(w.mem) && QueryEffect(cfg, w, w', q) && Singles(w, q, u, Waiting(c)) && At(w.mem.tttState, u) == None
    ensures At(w'.mem.pendingHoTarget, v) == None && At(w'.mem.lastHoCmdTime, v) == None
    ensures At(w'.mem.lowRsrpBlockUntil, v) == None
    ensures At(w'.mem.tttState, v) == if v == u then Some((c, w.now)) else At(w.mem.tttState, v)
  {
    assert EntryAfter(cfg, w, w', q, v);
    assert At(w.mem.pendingHoTarget, v) == None && At(w.mem.lastHoCmdTime, v) == None
           && At(w.mem.lowRsrpBlockUntil, v) == None;
    assert v !in Pruned(cfg, w.mem, w.now);
  }

  lemma StartWaiting(cfg: Config, delay: Time, ws: seq<World>, w: World, u: Ue, c: Cell) returns (ws': seq<World>, w': World)
    requires EndsIn(cfg, delay, ws, w) && Calm(w.mem) && w.serving == Crowd(cfg, c) && Cap(cfg, c) > 0
    requires c != 0 && u < 2 && w.now >= cfg.warmup && cfg.timeToTrigger > 0 && At(w.mem.tttState, u) == None
    requires w.gnbs == Network(c)
    ensures EndsIn(cfg, delay, ws', w') && Calm(w'.mem) && w'.serving == w.serving && w'.now == w.now && w'.gnbs == w.gnbs
    ensures forall v: Ue :: At(w'.mem.tttState, v) == if v == u then Some((c, w.now)) else At(w.mem.tttState, v)
  {
    CalmRoom(cfg, w, c);
    NetworkHasCells(c, u);
    var q;
    w', q := TalkQuery(cfg, w, u, c);
    forall v: Ue
      ensures At(w'.mem.pendingHoTarget, v) == None && At(w'.mem.lastHoCmdTime, v) == None
      ensures At(w'.mem.lowRsrpBlockUntil, v) == None
      ensures At(w'.mem.tttState, v) == if v == u then Some((c, w.now)) else At(w.mem.tttState, v)
    {
      CalmStays(cfg, w, w', q, u, c, v);
    }
    Extend(cfg, delay, ws, w, w');
    ws' := ws + [w'];
  }

  lemma LetPass(cfg: Config, delay: Time, ws: seq<World>, w: World, time: Time) returns (ws': seq<World>, w': World)
    requires EndsIn(cfg, delay, ws, w) && time >= 0
    ensures w' == w.(now := w.now + time) && EndsIn(cfg, delay, ws', w')
  {
    w' := w.(now := w.now + time);
    assert Advance(w, w');
    Extend(cfg, delay, ws, w, w');
    ws' := ws + [w'];
  }

  /** Nothing commanded yet, one place free, and both UEs ready to be sent there. */
  ghost predicate Poised(cfg: Config, w: World, c: Cell) {
    && w.gnbs == Network(c) && w.serving == Crowd(cfg, c) && Calm(w.mem) && w.now >= cfg.warmup
    && Ready(cfg, w, 0, c) && Ready(cfg, w, 1, c)
  }

  lemma ReachPoised(cfg: Config, delay: Time, c: Cell) returns (ws: seq<World>, w: World)
    requires c != 0 && Cap(cfg, c) > 0
    ensures EndsIn(cfg, delay, ws, w) && Poised(cfg, w, c)
  {
    w := World(cfg.warmup, Network(c), Crowd(cfg, c), Memory(map[], map[], map[], map[]), []);
    ws := [w];
    forall d: Cell | Cap(cfg, d) > 0 ensures |ServedBy(w.serving, d)| <= Cap(cfg, d) {
      CrowdWithin(cfg, c, d);
    }
    assert EndsIn(cfg, delay, ws, w);
    if cfg.timeToTrigger > 0 {
      var t := w.now;
      ws, w := StartWaiting(cfg, delay, ws, w, 0, c);
      ws, w := StartWaiting(cfg, delay, ws, w, 1, c);
      ws, w := LetPass(cfg, delay, ws, w, cfg.timeToTrigger);
      assert At(w.mem.tttState, 0) == Some((c, t)) && At(w.mem.tttState, 1) == Some((c, t));
    }
  }

  /** A query that commands `u` into `c`. */
  lemma CommandUe(cfg: Config, delay: Time, ws: seq<World>, w: World, u: Ue, c: Cell) returns (ws': seq<World>, w': World, q: Query)
    requires EndsIn(cfg, delay, ws, w) && c != 0 && u in w.serving && w.serving[u] != 0 && w.serving[u] != c
    requires Open(cfg, w, u) && HasRoom(cfg, w, c) && Ready(cfg, w, u, c) && HasCells(w.gnbs, w.serving[u], c)
    ensures EndsIn(cfg, delay, ws', w') && QueryEffect(cfg, w, w', q) && w'.serving == w.serving && w'.gnbs == w.gnbs
    ensures Singles(w, q, u, Issued(Command(u, GnbOf(w.gnbs, w.serving[u]), 1, c)))
  {
    w', q := TalkQuery(cfg, w, u, c);
    Extend(cfg, delay, ws, w, w');
    ws' := ws + [w'];
  }

  /** UE 0 has been commanded and then forgotten; UE 1 is still ready and unhindered. */
  lemma ForgottenLeavesRoom(cfg: Config, w: World, w1: World, w2: World, q: Query, c: Cell, gnb: nat)
    requires Poised(cfg, w, c) && QueryEffect(cfg, w, w1, q) && Singles(w, q, 0, Issued(Command(0, gnb, 1, c)))
    requires w1.serving == w.serving && Cap(cfg, c) > 0
    requires w2 == w1.(now := w2.now) && w2.now >= w1.now && w2.now - w1.now >= cfg.hoAttemptTimeout
    ensures Open(cfg, w2, 1) && HasRoom(cfg, w2, c) && Ready(cfg, w2, 1, c)
  {
    assert EntryAfter(cfg, w, w1, q, 0);
    assert EntryAfter(cfg, w, w1, q, 1);
    assert At(w.mem.pendingHoTarget, 1) == None && At(w.mem.lastHoCmdTime, 1) == None
           && At(w.mem.lowRsrpBlockUntil, 1) == None;
    assert At(w1.mem.tttState, 1) == At(w.mem.tttState, 1);
    CrowdLeavesOne(cfg, c);
    forall v: Ue ensures v !in Pruned(cfg, w2.mem, w2.now) {
      assert EntryAfter(cfg, w, w1, q, v);
      assert At(w.mem.pendingHoTarget, v) == None;
    }
    assert Heading(Pruned(cfg, w2.mem, w2.now), c) == {};
  }

  /** The log commands `u` into `c`, no longer than `delay` ago. */
  ghost predicate MayArrive(delay: Time, w: World, u: Ue, c: Cell, k: nat) {
    && k < |w.log| && IssuedFor(w.log[k], u) && w.log[k].decisions[u].cmd.target == c
    && w.now - w.log[k].now <= delay
  }

  lemma Arrive(cfg: Config, delay: Time, ws: seq<World>, w: World, u: Ue, k: nat, c: Cell)
    returns (ws': seq<World>, w': World)
    requires EndsIn(cfg, delay, ws, w) && u in w.serving && MayArrive(delay, w, u, c, k)
    ensures w' == w.(serving := w.serving[u := c]) && EndsIn(cfg, delay, ws', w')
  {
    w' := w.(serving := w.serving[u := c]);
    assert Complete(delay, w, w', u, k);
    Extend(cfg, delay, ws, w, w');
    ws' := ws + [w'];
  }

  /** UE 0 is commanded into the last place of `c`, the timeout passes, and a query that
      drops its reservation commands UE 1 there. */
  lemma BothCommanded(cfg: Config, delay: Time, c: Cell) returns (ws: seq<World>, w: World, k: nat, j: nat)
    requires c != 0 && Cap(cfg, c) > 0 && delay >= 0 && delay >= cfg.hoAttemptTimeout
    ensures EndsIn(cfg, delay, ws, w) && w.serving == Crowd(cfg, c)
    ensures MayArrive(delay, w, 0, c, k) && MayArrive(delay, w, 1, c, j)
  {
    var w0, w1, w2, first, second;
    ws, w0 := ReachPoised(cfg, delay, c);
    CalmRoom(cfg, w0, c);
    NetworkHasCells(c, 0);
    NetworkHasCells(c, 1);
    ws, w1, first := CommandUe(cfg, delay, ws, w0, 0, c);
    ws, w2 := LetPass(cfg, delay, ws, w1, if cfg.hoAttemptTimeout >= 0 then cfg.hoAttemptTimeout else 0);
    ForgottenLeavesRoom(cfg, w0, w1, w2, first, c, GnbOf(w0.gnbs, w0.serving[0]));
    ws, w, second := CommandUe(cfg, delay, ws, w2, 1, c);
    k, j := |w0.log|, |w2.log|;
    assert w.log[k] == first && w.log[j] == second;
  }

  lemma AllInside(cfg: Config, c: Cell)
    requires Cap(cfg, c) > 0
    ensures |ServedBy(Crowd(cfg, c)[1 := c][0 := c], c)| == Cap(cfg, c) + 1
  {
    var us, serving := Upto(0, Cap(cfg, c) + 1), Crowd(cfg, c)[1 := c][0 := c];
    assert serving.Keys == us;
    forall u | u in serving ensures serving[u] == c {
      assert u >= 2 ==> Crowd(cfg, c)[u] == c;
    }
    assert ServedBy(serving, c) == us;
  }

  /** With a delay that reaches the attempt timeout there is a run in one network that
      overfills a capped cell, and no query in it could have decided otherwise: after both
      commands UE 1 arrives, and then, late, UE 0. */
  lemma LateCompletionOverfills(cfg: Config, delay: Time, c: Cell) returns (ws: seq<World>, w: World)
    requires c != 0 && Limited(cfg, c) && delay >= 0 && delay >= cfg.hoAttemptTimeout
    ensures EndsIn(cfg, delay, ws, w)
    ensures |ServedBy(w.serving, c)| == 1 + (if c in cfg.cellCapacity then cfg.cellCapacity[c] else cfg.maxUesPerCell)
  {
    var k, j;
    ws, w, k, j := BothCommanded(cfg, delay, c);
    ws, w := Arrive(cfg, delay, ws, w, 1, j, c);
    ws, w := Arrive(cfg, delay, ws, w, 0, k, c);
    AllInside(cfg, c);
  }

  /** Every run whose handovers complete within `delay` respects every capacity. */
  ghost predicate SafeDelay(cfg: Config, delay: Time) {
    forall ws, i :: Run(cfg, delay, ws) && 0 <= i < |ws| ==> NoCellOverfull(cfg, ws[i])
  }

  /** The exact bound: as soon as some cell has a limit, completions within `delay`
      can never overfill a cell if and only if `delay` is below the attempt timeout. */
  lemma SafeDelayIff(cfg: Config, delay: Time, c: Cell)
    requires delay >= 0 && c != 0 && Limited(cfg, c)
    ensures SafeDelay(cfg, delay) <==> delay < cfg.hoAttemptTimeout
  {
    if delay < cfg.hoAttemptTimeout {
      forall ws, i | Run(cfg, delay, ws) && 0 <= i < |ws| ensures NoCellOverfull(cfg, ws[i]) {
        CapacityNeverExceeded(cfg, delay, ws, i);
      }
    } else {
      var ws, w := LateCompletionOverfills(cfg, delay, c);
      assert !NoCellOverfull(cfg, ws[|ws| - 1]);
    }
  }
}
