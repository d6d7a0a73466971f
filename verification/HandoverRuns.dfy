/** Whole runs of the load-aware handover module in a radio network: queries, time
    passing, UEs entering and leaving, and commanded handovers that complete within some
    bound on their delay, which may be before or after the module has given up on them. */
module HandoverRuns {
  import opened Common
  import opened LoadAwareHandover

  /** One query as the log keeps it. */
  datatype Query = Query(now: Time, decisions: map<Ue, Decision>)

  /** The gNBs and their cells stay the same throughout a run. */
  datatype World = World(now: Time, gnbs: seq<GnbInfo>, serving: map<Ue, Cell>, mem: Memory, log: seq<Query>)

  /** The UEs a cell serves. */
  function ServedBy(serving: map<Ue, Cell>, c: Cell): set<Ue> {
    set u | u in serving && serving[u] == c
  }

  /** The repository reports every UE once, with the cell that serves it. */
  ghost predicate Faithful(snap: Snapshot, serving: map<Ue, Cell>) {
    && DistinctUes(snap.ues)
    && (forall u :: u in serving <==> exists k :: 0 <= k < |snap.ues| && snap.ues[k].nodeId == u)
    && (forall k :: 0 <= k < |snap.ues| ==>
          snap.ues[k].nodeId in serving && AttachedCell(snap, snap.ues[k]) == serving[snap.ues[k].nodeId])
  }

  /** The repository lists no UE twice, and counts no cell below the UEs it serves. It may be
      out of date: count UEs that have moved on, or list UEs that have left. */
  ghost predicate Covers(snap: Snapshot, serving: map<Ue, Cell>) {
    && DistinctUes(snap.ues)
    && forall c: Cell :: c != 0 ==> |ServedBy(serving, c)| <= Attached(snap, |snap.ues|, c)
  }

  ghost predicate LogsDecisions(snap: Snapshot, ds: seq<Decision>, q: Query) {
    && |ds| == |snap.ues| && q.now == snap.now
    && (forall u :: u in q.decisions <==> exists k :: 0 <= k < |snap.ues| && snap.ues[k].nodeId == u)
    && (forall k :: 0 <= k < |snap.ues| ==>
          snap.ues[k].nodeId in q.decisions && q.decisions[snap.ues[k].nodeId] == ds[k])
  }

  predicate IssuedFor(q: Query, u: Ue) {
    u in q.decisions && q.decisions[u].Issued?
  }

  /** The UEs in a cell or on their way into it. */
  ghost function Holders(cfg: Config, w: World, c: Cell): set<Ue> {
    set u | u in w.serving &&
      (w.serving[u] == c ||
       (u in w.mem.pendingHoTarget && Live(cfg, w.mem.lastHoCmdTime, w.now, u) && w.mem.pendingHoTarget[u] == c))
  }

  // ----- the steps

  ghost predicate Advance(w: World, w': World) {
    w'.now >= w.now && w' == w.(now := w'.now)
  }

  /** A handover that a logged query commanded completes, at most `delay` after it. */
  ghost predicate Complete(delay: Time, w: World, w': World, u: Ue, k: nat) {
    && u in w.serving && k < |w.log| && IssuedFor(w.log[k], u) && w.now - w.log[k].now <= delay
    && w' == w.(serving := w.serving[u := w.log[k].decisions[u].cmd.target])
  }

  ghost predicate Leave(w: World, w': World, u: Ue) {
    w' == w.(serving := w.serving - {u})
  }

  /** A UE with no handover under way attaches to a cell that has room for one more. */
  ghost predicate Enter(cfg: Config, w: World, w': World, u: Ue, c: Cell) {
    && u !in w.serving && u !in w.mem.pendingHoTarget
    && Allows(cfg, c, |Holders(cfg, w, c)| + 1)
    && w' == w.(serving := w.serving[u := c])
  }

  ghost predicate QueryStep(cfg: Config, w: World, w': World, snap: Snapshot, ds: seq<Decision>, q: Query) {
    && snap.now == w.now && snap.gnbs == w.gnbs && Covers(snap, w.serving) && LogsDecisions(snap, ds, q)
    && TickOutcome(cfg, snap, w.mem, w'.mem, ds, Commands(ds))
    && w' == w.(mem := w'.mem, log := w.log + [q])
  }

  ghost predicate Next(cfg: Config, delay: Time, w: World, w': World) {
    || Advance(w, w')
    || (exists u, k :: Complete(delay, w, w', u, k))
    || (exists u :: Leave(w, w', u))
    || (exists u, c :: Enter(cfg, w, w', u, c))
    || (exists snap, ds, q :: QueryStep(cfg, w, w', snap, ds, q))
  }

  ghost predicate Init(cfg: Config, w: World) {
    && w.mem == Memory(map[], map[], map[], map[]) && w.log == []
    && forall c: Cell :: Allows(cfg, c, |ServedBy(w.serving, c)|)
  }

  /** A run in which no handover completes later than `delay` after its command. */
  ghost predicate Run(cfg: Config, delay: Time, ws: seq<World>) {
    && |ws| > 0 && Init(cfg, ws[0])
    && forall i :: 0 <= i < |ws| - 1 ==> Next(cfg, delay, ws[i], ws[i + 1])
  }

  // ----- capacity

  ghost predicate WithinCapacity(cfg: Config, w: World) {
    forall c: Cell :: c != 0 && Cap(cfg, c) > 0 ==> |Holders(cfg, w, c)| <= Cap(cfg, c)
  }

  lemma Smaller(a: set<Ue>, b: set<Ue>)
    requires a <= b
    ensures |a| <= |b|
  {
    assert b == a + (b - a);
  }

  lemma UnionBound(a: set<Ue>, b: set<Ue>, c: set<Ue>)
    ensures |a + b + c| <= |a| + |b| + |c|
  {
    assert a + b + c == a + (b - a) + (c - a - b);
    Smaller(b - a, b);
    Smaller(c - a - b, c);
  }

  /** The first `n` UEs that count for `c`, as a set. */
  function AttachedUes(snap: Snapshot, n: nat, c: Cell): set<Ue>
    requires n <= |snap.ues|
  {
    if n == 0 then {}
    else
      AttachedUes(snap, n - 1, c) +
      (if c != 0 && AttachedCell(snap, snap.ues[n - 1]) == c then {snap.ues[n - 1].nodeId} else {})
  }

  lemma {:induction false} AttachedMember(snap: Snapshot, n: nat, c: Cell, u: Ue)
    requires n <= |snap.ues| && c != 0
    ensures u in AttachedUes(snap, n, c) <==>
            exists k :: 0 <= k < n && snap.ues[k].nodeId == u && AttachedCell(snap, snap.ues[k]) == c
  {
    if n > 0 {
      AttachedMember(snap, n - 1, c, u);
      if k :| 0 <= k < n && snap.ues[k].nodeId == u && AttachedCell(snap, snap.ues[k]) == c {
        assert k == n - 1 || k < n - 1;
      }
    }
  }

  lemma {:induction false} AttachedSize(snap: Snapshot, n: nat, c: Cell)
    requires n <= |snap.ues| && DistinctUes(snap.ues) && c != 0
    ensures Attached(snap, n, c) == |AttachedUes(snap, n, c)|
  {
    if n > 0 {
      AttachedSize(snap, n - 1, c);
      AttachedMember(snap, n - 1, c, snap.ues[n - 1].nodeId);
    }
  }

  lemma AttachedIsServed(snap: Snapshot, serving: map<Ue, Cell>, c: Cell)
    requires Faithful(snap, serving) && c != 0
    ensures Attached(snap, |snap.ues|, c) == |ServedBy(serving, c)|
  {
    AttachedSize(snap, |snap.ues|, c);
    forall u ensures u in AttachedUes(snap, |snap.ues|, c) <==> u in ServedBy(serving, c) {
      AttachedMember(snap, |snap.ues|, c, u);
    }
    assert AttachedUes(snap, |snap.ues|, c) == ServedBy(serving, c);
  }

  lemma FaithfulCovers(snap: Snapshot, serving: map<Ue, Cell>)
    requires Faithful(snap, serving)
    ensures Covers(snap, serving)
  {
    forall c: Cell | c != 0 ensures |ServedBy(serving, c)| <= Attached(snap, |snap.ues|, c) {
      AttachedIsServed(snap, serving, c);
    }
  }

  /** The UEs that commands send to a cell. */
  function SentTo(cmds: seq<Command>, c: Cell): set<Ue> {
    set k | 0 <= k < |cmds| && cmds[k].target == c :: cmds[k].ue
  }

  lemma {:induction false} SentBound(cmds: seq<Command>, c: Cell)
    ensures |SentTo(cmds, c)| <= Commanded(cmds, c)
  {
    if cmds != [] {
      var n := |cmds| - 1;
      SentBound(cmds[..n], c);
      var x := cmds[n];
      if x.target == c {
        assert SentTo(cmds, c) == SentTo(cmds[..n], c) + {x.ue};
      } else {
        assert SentTo(cmds, c) == SentTo(cmds[..n], c);
      }
    } else {
      assert SentTo(cmds, c) == {};
    }
  }

  lemma {:induction false} CommandIsListed(ds: seq<Decision>, k: nat)
    requires k < |ds| && ds[k].Issued?
    ensures ds[k].cmd in Commands(ds)
  {
    if k < |ds| - 1 {
      CommandIsListed(ds[..|ds| - 1], k);
    }
  }

  // ----- pacing

  /** What the log and the memory know about each other. */
  ghost predicate Paced(cfg: Config, w: World) {
    && (forall i, u :: 0 <= i < |w.log| && IssuedFor(w.log[i], u) ==>
          u in w.mem.lastHoCmdTime && w.log[i].now <= w.mem.lastHoCmdTime[u])
    && (forall u :: u in w.mem.lastHoCmdTime ==> w.mem.lastHoCmdTime[u] <= w.now)
    && (forall u :: Live(cfg, w.mem.lastHoCmdTime, w.now, u) ==> u in w.mem.pendingHoTarget)
  }

  ghost predicate Spaced(cfg: Config, log: seq<Query>) {
    forall i, j, u :: 0 <= i < j < |log| && IssuedFor(log[i], u) && IssuedFor(log[j], u) ==>
      && log[j].now - log[i].now >= cfg.minHoInterval
      && log[j].now - log[i].now >= cfg.hoAttemptTimeout
  }

  /** Where a UE's entry stands after a query, from the decision about it. */
  ghost predicate EntryAfter(cfg: Config, w: World, w': World, q: Query, u: Ue) {
    var start := w.mem.(pendingHoTarget := Pruned(cfg, w.mem, w.now));
    if u in q.decisions then
      var d := q.decisions[u];
      && Remembered(cfg, w.now, start, u, w'.mem, d)
      && (d.Shut? <==> !GatesOpen(cfg, w.now, start, u))
      && (d.Waiting? ==> w.now - Started(w.mem, w.now, u, d.cell) < cfg.timeToTrigger)
      && (d.Issued? ==> d.cmd.ue == u && w.now - Started(w.mem, w.now, u, d.cmd.target) >= cfg.timeToTrigger)
    else SameFor(start, w'.mem, u)
  }

  ghost predicate QueryEffect(cfg: Config, w: World, w': World, q: Query) {
    && w'.now == w.now == q.now && w'.log == w.log + [q]
    && forall u: Ue :: EntryAfter(cfg, w, w', q, u)
  }

  lemma DecisionMeans(cfg: Config, snap: Snapshot, start: Memory, k: nat, mem: Memory, ds: seq<Decision>)
    requires k < |ds| == |snap.ues| && DecidedInTurn(cfg, snap, start, k, mem, ds)
    ensures var u, d := snap.ues[k].nodeId, ds[k];
            && Remembered(cfg, snap.now, start, u, mem, d)
            && (d.Shut? <==> !GatesOpen(cfg, snap.now, start, u))
            && (d.Waiting? ==> snap.now - Started(start, snap.now, u, d.cell) < cfg.timeToTrigger)
            && (d.Issued? ==> d.cmd.ue == u && snap.now - Started(start, snap.now, u, d.cmd.target) >= cfg.timeToTrigger)
  {
  }

  lemma DecisionHasEffect(cfg: Config, w: World, w': World, snap: Snapshot, ds: seq<Decision>, q: Query, k: nat)
    requires QueryStep(cfg, w, w', snap, ds, q) && k < |snap.ues|
    ensures EntryAfter(cfg, w, w', q, snap.ues[k].nodeId)
  {
    var start := w.mem.(pendingHoTarget := Pruned(cfg, w.mem, w.now));
    assert DecidedInTurn(cfg, snap, start, k, w'.mem, ds);
    DecisionMeans(cfg, snap, start, k, w'.mem, ds);
    assert q.decisions[snap.ues[k].nodeId] == ds[k];
  }

  lemma QueryHasEffect(cfg: Config, w: World, w': World, snap: Snapshot, ds: seq<Decision>, q: Query)
    requires QueryStep(cfg, w, w', snap, ds, q)
    ensures QueryEffect(cfg, w, w', q)
  {
    var start := w.mem.(pendingHoTarget := Pruned(cfg, w.mem, w.now));
    forall u: Ue ensures EntryAfter(cfg, w, w', q, u) {
      if k :| 0 <= k < |snap.ues| && snap.ues[k].nodeId == u {
        DecisionHasEffect(cfg, w, w', snap, ds, q, k);
      } else {
        assert u !in q.decisions;
        assert SameFor(start, w'.mem, u);
      }
    }
  }

  lemma IssuedIsSent(ds: seq<Decision>, k: nat)
    requires k < |ds| && ds[k].Issued?
    ensures ds[k].cmd.ue in SentTo(Commands(ds), ds[k].cmd.target)
  {
    CommandIsListed(ds, k);
    var i :| 0 <= i < |Commands(ds)| && Commands(ds)[i] == ds[k].cmd;
  }

  /** A pending entry after a query was pending and live before it, or comes from a command. */
  lemma PendingOrigin(cfg: Config, w: World, w': World, snap: Snapshot, ds: seq<Decision>, q: Query, u: Ue)
    requires QueryStep(cfg, w, w', snap, ds, q) && u in w'.mem.pendingHoTarget
    ensures var c := w'.mem.pendingHoTarget[u];
            u in Heading(Pruned(cfg, w.mem, w.now), c) || u in SentTo(Commands(ds), c)
  {
    QueryHasEffect(cfg, w, w', snap, ds, q);
    assert EntryAfter(cfg, w, w', q, u);
    if IssuedFor(q, u) {
      var k :| 0 <= k < |snap.ues| && snap.ues[k].nodeId == u;
      IssuedIsSent(ds, k);
    }
  }

  lemma QueryKeepsCapacity(cfg: Config, w: World, w': World, snap: Snapshot, ds: seq<Decision>, q: Query, c: Cell)
    requires QueryStep(cfg, w, w', snap, ds, q) && WithinCapacity(cfg, w) && c != 0 && Cap(cfg, c) > 0
    ensures |Holders(cfg, w', c)| <= Cap(cfg, c)
  {
    var cmds, pruned := Commands(ds), Pruned(cfg, w.mem, w.now);
    var a, b, s := ServedBy(w.serving, c), Heading(pruned, c), SentTo(cmds, c);
    forall u | u in Holders(cfg, w', c) ensures u in a + b + s {
      if w'.serving[u] != c {
        PendingOrigin(cfg, w, w', snap, ds, q, u);
      }
    }
    SentBound(cmds, c);
    if Commanded(cmds, c) == 0 {
      assert s == {};
      forall u | u in Holders(cfg, w', c) ensures u in Holders(cfg, w, c) {
        assert u in a || u in b;
      }
      Smaller(Holders(cfg, w', c), Holders(cfg, w, c));
    } else {
      assert |a| <= Attached(snap, |snap.ues|, c);
      UnionBound(a, b, s);
      Smaller(Holders(cfg, w', c), a + b + s);
    }
  }

  lemma EffectOnUe(cfg: Config, w: World, w': World, q: Query, u: Ue)
    requires QueryEffect(cfg, w, w', q) && Paced(cfg, w)
    ensures u in w.mem.lastHoCmdTime ==> u in w'.mem.lastHoCmdTime && w.mem.lastHoCmdTime[u] <= w'.mem.lastHoCmdTime[u]
    ensures u in w'.mem.lastHoCmdTime ==> w'.mem.lastHoCmdTime[u] <= w.now
    ensures Live(cfg, w'.mem.lastHoCmdTime, w.now, u) ==> u in w'.mem.pendingHoTarget
    ensures IssuedFor(q, u) ==> u in w'.mem.lastHoCmdTime && w'.mem.lastHoCmdTime[u] == w.now
    ensures IssuedFor(q, u) && u in w.mem.lastHoCmdTime ==>
              && w.now - w.mem.lastHoCmdTime[u] >= cfg.minHoInterval
              && w.now - w.mem.lastHoCmdTime[u] >= cfg.hoAttemptTimeout
  {
    assert EntryAfter(cfg, w, w', q, u);
  }

  lemma QueryKeepsPaced(cfg: Config, w: World, w': World, q: Query)
    requires QueryEffect(cfg, w, w', q) && Paced(cfg, w)
    ensures Paced(cfg, w')
  {
    var n := |w.log|;
    forall i, u | 0 <= i < |w'.log| && IssuedFor(w'.log[i], u)
      ensures u in w'.mem.lastHoCmdTime && w'.log[i].now <= w'.mem.lastHoCmdTime[u]
    {
      EffectOnUe(cfg, w, w', q, u);
      assert i < n ==> w'.log[i] == w.log[i];
    }
    forall u ensures u in w'.mem.lastHoCmdTime ==> w'.mem.lastHoCmdTime[u] <= w'.now
             ensures Live(cfg, w'.mem.lastHoCmdTime, w'.now, u) ==> u in w'.mem.pendingHoTarget
    {
      EffectOnUe(cfg, w, w', q, u);
    }
  }

  lemma QueryKeepsSpaced(cfg: Config, w: World, w': World, q: Query)
    requires QueryEffect(cfg, w, w', q) && Paced(cfg, w) && Spaced(cfg, w.log)
    ensures Spaced(cfg, w'.log)
  {
    var n := |w.log|;
    forall i, j, u | 0 <= i < j < |w'.log| && IssuedFor(w'.log[i], u) && IssuedFor(w'.log[j], u)
      ensures w'.log[j].now - w'.log[i].now >= cfg.minHoInterval
      ensures w'.log[j].now - w'.log[i].now >= cfg.hoAttemptTimeout
    {
      assert w'.log[i] == w.log[i];
      if j < n {
        assert w'.log[j] == w.log[j];
      } else {
        EffectOnUe(cfg, w, w', q, u);
      }
    }
  }

  lemma StepKeepsPacing(cfg: Config, delay: Time, w: World, w': World)
    requires Next(cfg, delay, w, w') && Paced(cfg, w) && Spaced(cfg, w.log)
    ensures Paced(cfg, w') && Spaced(cfg, w'.log)
  {
    if snap, ds, q :| QueryStep(cfg, w, w', snap, ds, q) {
      QueryHasEffect(cfg, w, w', snap, ds, q);
      QueryKeepsPaced(cfg, w, w', q);
      QueryKeepsSpaced(cfg, w, w', q);
    }
  }

  /** In every run, two commands for one UE are at least the cool-down and at least the
      attempt timeout apart. */
  lemma {:induction false} RunIsPaced(cfg: Config, delay: Time, ws: seq<World>, i: nat)
    requires Run(cfg, delay, ws) && i < |ws|
    ensures Paced(cfg, ws[i]) && Spaced(cfg, ws[i].log)
  {
    if i > 0 {
      RunIsPaced(cfg, delay, ws, i - 1);
      assert Next(cfg, delay, ws[i - 1], ws[(i - 1) + 1]);
      StepKeepsPacing(cfg, delay, ws[i - 1], ws[i]);
    }
  }

  // ----- capacity over runs

  /** A command younger than the attempt timeout is the UE's latest and still pending. */
  ghost predicate Reserving(cfg: Config, w: World) {
    forall k, u :: 0 <= k < |w.log| && IssuedFor(w.log[k], u) && w.now - w.log[k].now < cfg.hoAttemptTimeout ==>
      && At(w.mem.pendingHoTarget, u) == Some(w.log[k].decisions[u].cmd.target)
      && At(w.mem.lastHoCmdTime, u) == Some(w.log[k].now)
  }

  lemma QueryKeepsReserving(cfg: Config, w: World, w': World, q: Query)
    requires QueryEffect(cfg, w, w', q) && Reserving(cfg, w)
    ensures Reserving(cfg, w')
  {
    var n := |w.log|;
    forall k, u | 0 <= k < |w'.log| && IssuedFor(w'.log[k], u) && w'.now - w'.log[k].now < cfg.hoAttemptTimeout
      ensures At(w'.mem.pendingHoTarget, u) == Some(w'.log[k].decisions[u].cmd.target)
      ensures At(w'.mem.lastHoCmdTime, u) == Some(w'.log[k].now)
    {
      assert EntryAfter(cfg, w, w', q, u);
      if k < n {
        assert w'.log[k] == w.log[k] && IssuedFor(w.log[k], u);
        assert At(w.mem.pendingHoTarget, u) == Some(w.log[k].decisions[u].cmd.target);
        assert At(w.mem.lastHoCmdTime, u) == Some(w.log[k].now);
        assert u in Pruned(cfg, w.mem, w.now);
      } else {
        assert w'.log[k] == q;
      }
    }
  }

  /** A completion in time finds its reservation. */
  lemma CompletesInto(cfg: Config, delay: Time, w: World, w': World, u: Ue, k: nat)
    requires Complete(delay, w, w', u, k) && Reserving(cfg, w) && delay < cfg.hoAttemptTimeout
    ensures u in Holders(cfg, w, w'.serving[u])
  {
    var c := w.log[k].decisions[u].cmd.target;
    assert At(w.mem.pendingHoTarget, u) == Some(c);
    assert At(w.mem.lastHoCmdTime, u) == Some(w.log[k].now);
  }

  lemma EnterKeepsCapacity(cfg: Config, w: World, w': World, u: Ue, d: Cell, c: Cell)
    requires Enter(cfg, w, w', u, d) && WithinCapacity(cfg, w) && c != 0 && Cap(cfg, c) > 0
    ensures |Holders(cfg, w', c)| <= Cap(cfg, c)
  {
    if c == d {
      assert Holders(cfg, w', c) == Holders(cfg, w, c) + {u};
    } else {
      assert Holders(cfg, w', c) == Holders(cfg, w, c);
    }
  }

  lemma StepKeepsCapacity(cfg: Config, delay: Time, w: World, w': World)
    requires Next(cfg, delay, w, w') && WithinCapacity(cfg, w) && Reserving(cfg, w)
    requires delay < cfg.hoAttemptTimeout
    ensures WithinCapacity(cfg, w') && Reserving(cfg, w')
  {
    if snap, ds, q :| QueryStep(cfg, w, w', snap, ds, q) {
      QueryHasEffect(cfg, w, w', snap, ds, q);
      QueryKeepsReserving(cfg, w, w', q);
      forall c: Cell | c != 0 && Cap(cfg, c) > 0 ensures |Holders(cfg, w', c)| <= Cap(cfg, c) {
        QueryKeepsCapacity(cfg, w, w', snap, ds, q, c);
      }
    } else if u, d :| Enter(cfg, w, w', u, d) {
      forall c: Cell | c != 0 && Cap(cfg, c) > 0 ensures |Holders(cfg, w', c)| <= Cap(cfg, c) {
        EnterKeepsCapacity(cfg, w, w', u, d, c);
      }
    } else {
      if u, k :| Complete(delay, w, w', u, k) {
        CompletesInto(cfg, delay, w, w', u, k);
      }
      forall c: Cell | c != 0 && Cap(cfg, c) > 0 ensures |Holders(cfg, w', c)| <= Cap(cfg, c) {
        Smaller(Holders(cfg, w', c), Holders(cfg, w, c));
      }
    }
  }

  /** Every cell serves no more UEs than its own limit, or the common one, allows. */
  ghost predicate NoCellOverfull(cfg: Config, w: World) {
    forall c: Cell :: c != 0 ==> Allows(cfg, c, |ServedBy(w.serving, c)|)
  }

  /** In every run whose handovers complete before the attempt timeout, no capped cell
      ever serves more UEs than its capacity, not even counting those on their way in. */
  lemma {:induction false} CapacityNeverExceeded(cfg: Config, delay: Time, ws: seq<World>, i: nat)
    requires Run(cfg, delay, ws) && i < |ws| && delay < cfg.hoAttemptTimeout
    ensures WithinCapacity(cfg, ws[i]) && Reserving(cfg, ws[i]) && NoCellOverfull(cfg, ws[i])
  {
    if i == 0 {
      forall c: Cell | c != 0 && Cap(cfg, c) > 0 ensures |Holders(cfg, ws[0], c)| <= Cap(cfg, c) {
        assert Holders(cfg, ws[0], c) == ServedBy(ws[0].serving, c);
      }
    } else {
      CapacityNeverExceeded(cfg, delay, ws, i - 1);
      assert Next(cfg, delay, ws[i - 1], ws[(i - 1) + 1]);
      StepKeepsCapacity(cfg, delay, ws[i - 1], ws[i]);
    }
    forall c: Cell | c != 0 ensures Allows(cfg, c, |ServedBy(ws[i].serving, c)|) {
      Smaller(ServedBy(ws[i].serving, c), Holders(cfg, ws[i], c));
    }
  }

  // ----- time-to-trigger

  /** Decisions that let a stopwatch for `c` run on: the same choice, or no usable serving
      report. A closed gate is not among them; see `StopwatchKeepsGatesOpen`. */
  predicate Continues(q: Query, u: Ue, c: Cell) {
    u in q.decisions ==> q.decisions[u] in {Unserved, Waiting(c)}
  }

  /** Since the query at `k` the UE has been waiting for `c` without a break. */
  ghost predicate WaitingSince(log: seq<Query>, k: nat, u: Ue, c: Cell) {
    && k < |log| && u in log[k].decisions && log[k].decisions[u] == Waiting(c)
    && forall j :: k <= j < |log| ==> Continues(log[j], u, c)
  }

  /** Every running stopwatch was started by a logged query and not interrupted since. */
  ghost predicate Timed(w: World) {
    forall u :: u in w.mem.tttState ==>
      exists k: nat :: WaitingSince(w.log, k, u, w.mem.tttState[u].0) && w.log[k].now == w.mem.tttState[u].1
  }

  /** While a stopwatch runs no gate is closed: warm-up is over, there is no back-off, no
      pending handover and no cool-down. */
  ghost predicate Armed(cfg: Config, w: World) {
    forall u :: u in w.mem.tttState ==>
      && w.now >= cfg.warmup && u !in w.mem.lowRsrpBlockUntil
      && !Live(cfg, w.mem.lastHoCmdTime, w.now, u)
      && (u in w.mem.lastHoCmdTime ==> w.now - w.mem.lastHoCmdTime[u] >= cfg.minHoInterval)
  }

  lemma ArmedHasOpenGates(cfg: Config, w: World, u: Ue)
    requires Armed(cfg, w) && u in w.mem.tttState
    ensures GatesOpen(cfg, w.now, w.mem.(pendingHoTarget := Pruned(cfg, w.mem, w.now)), u)
  {
  }

  lemma QueryKeepsArmed(cfg: Config, w: World, w': World, q: Query)
    requires QueryEffect(cfg, w, w', q) && Armed(cfg, w) && Paced(cfg, w)
    ensures Armed(cfg, w')
  {
    var start := w.mem.(pendingHoTarget := Pruned(cfg, w.mem, w.now));
    forall u | u in w'.mem.tttState
      ensures w'.now >= cfg.warmup && u !in w'.mem.lowRsrpBlockUntil
      ensures !Live(cfg, w'.mem.lastHoCmdTime, w'.now, u)
      ensures u in w'.mem.lastHoCmdTime ==> w'.now - w'.mem.lastHoCmdTime[u] >= cfg.minHoInterval
    {
      assert EntryAfter(cfg, w, w', q, u);
      if u in q.decisions && q.decisions[u].Waiting? {
        assert GatesOpen(cfg, w.now, start, u);
        assert Live(cfg, w.mem.lastHoCmdTime, w.now, u) ==> u in w.mem.pendingHoTarget;
      } else {
        assert u in w.mem.tttState;
      }
    }
  }

  lemma QueryKeepsTimed(cfg: Config, w: World, w': World, q: Query)
    requires QueryEffect(cfg, w, w', q) && Timed(w) && Armed(cfg, w)
    ensures Timed(w')
  {
    forall u | u in w'.mem.tttState
      ensures exists k: nat :: WaitingSince(w'.log, k, u, w'.mem.tttState[u].0) && w'.log[k].now == w'.mem.tttState[u].1
    {
      assert EntryAfter(cfg, w, w', q, u);
      var c, t := w'.mem.tttState[u].0, w'.mem.tttState[u].1;
      if u in w.mem.tttState && w.mem.tttState[u] == (c, t) {
        ArmedHasOpenGates(cfg, w, u);
        var k: nat :| WaitingSince(w.log, k, u, c) && w.log[k].now == t;
        WaitGoesOn(w.log, q, k, u, c);
        assert w'.log[k].now == t;
      } else {
        var k := |w.log|;
        assert w'.log[k] == q;
        assert WaitingSince(w'.log, k, u, c) && w'.log[k].now == t;
      }
    }
  }

  lemma WaitGoesOn(log: seq<Query>, q: Query, k: nat, u: Ue, c: Cell)
    requires WaitingSince(log, k, u, c) && Continues(q, u, c)
    ensures WaitingSince(log + [q], k, u, c)
  {
  }

  /** The converse of `Timed`: an uninterrupted wait has its stopwatch running since. */
  ghost predicate Ticking(w: World) {
    forall k: nat, u, c :: WaitingSince(w.log, k, u, c) ==>
      u in w.mem.tttState && w.mem.tttState[u].0 == c && w.mem.tttState[u].1 <= w.log[k].now
  }

  lemma QueryKeepsTicking(cfg: Config, w: World, w': World, q: Query)
    requires QueryEffect(cfg, w, w', q) && Ticking(w) && Timed(w) && LogInPast(w)
    ensures Ticking(w')
  {
    var n := |w.log|;
    forall k: nat, u, c | WaitingSince(w'.log, k, u, c)
      ensures u in w'.mem.tttState && w'.mem.tttState[u].0 == c && w'.mem.tttState[u].1 <= w'.log[k].now
    {
      assert EntryAfter(cfg, w, w', q, u);
      assert w'.log[n] == q && Continues(w'.log[n], u, c);
      if k < n {
        assert w'.log[k] == w.log[k];
        forall j | k <= j < n ensures Continues(w.log[j], u, c) {
          assert w'.log[j] == w.log[j];
        }
        assert WaitingSince(w.log, k, u, c);
      } else if u in w.mem.tttState {
        var i: nat :| WaitingSince(w.log, i, u, w.mem.tttState[u].0) && w.log[i].now == w.mem.tttState[u].1;
      }
    }
  }

  ghost predicate LogInPast(w: World) {
    forall k :: 0 <= k < |w.log| ==> w.log[k].now <= w.now
  }

  ghost predicate Stopwatches(cfg: Config, w: World) {
    Timed(w) && Armed(cfg, w) && Ticking(w) && LogInPast(w)
  }

  lemma StepKeepsStopwatches(cfg: Config, delay: Time, w: World, w': World)
    requires Next(cfg, delay, w, w') && Stopwatches(cfg, w) && Paced(cfg, w)
    ensures Stopwatches(cfg, w')
  {
    if snap, ds, q :| QueryStep(cfg, w, w', snap, ds, q) {
      QueryHasEffect(cfg, w, w', snap, ds, q);
      QueryKeepsTimed(cfg, w, w', q);
      QueryKeepsArmed(cfg, w, w', q);
      QueryKeepsTicking(cfg, w, w', q);
    } else {
      OtherStepKeepsStopwatches(cfg, w, w');
    }
  }

  lemma OtherStepKeepsStopwatches(cfg: Config, w: World, w': World)
    requires Stopwatches(cfg, w) && w'.mem == w.mem && w'.log == w.log && w'.now >= w.now
    ensures Stopwatches(cfg, w')
  {
  }

  lemma {:induction false} RunKeepsStopwatches(cfg: Config, delay: Time, ws: seq<World>, i: nat)
    requires Run(cfg, delay, ws) && i < |ws|
    ensures Stopwatches(cfg, ws[i])
  {
    if i > 0 {
      RunKeepsStopwatches(cfg, delay, ws, i - 1);
      RunIsPaced(cfg, delay, ws, i - 1);
      assert Next(cfg, delay, ws[i - 1], ws[(i - 1) + 1]);
      StepKeepsStopwatches(cfg, delay, ws[i - 1], ws[i]);
    }
  }

  /** In every run, a query never finds a gate closed for a UE whose stopwatch runs. */
  lemma StopwatchKeepsGatesOpen(cfg: Config, delay: Time, ws: seq<World>, i: nat, snap: Snapshot, ds: seq<Decision>,
                                q: Query, u: Ue)
    requires Run(cfg, delay, ws) && i < |ws| - 1 && QueryStep(cfg, ws[i], ws[i + 1], snap, ds, q)
    requires u in ws[i].mem.tttState && u in q.decisions
    ensures q.decisions[u] != Shut
  {
    RunKeepsStopwatches(cfg, delay, ws, i);
    QueryHasEffect(cfg, ws[i], ws[i + 1], snap, ds, q);
    ArmedHasOpenGates(cfg, ws[i], u);
    assert EntryAfter(cfg, ws[i], ws[i + 1], q, u);
  }

  /** The target that a decision chooses, if any. */
  function Choice(d: Decision): Option<Cell> {
    match d
    case Waiting(c) => Some(c)
    case Issued(x) => Some(x.target)
    case _ => None
  }

  /** In every run, a UE that has been waiting for a cell since a query at least the
      time-to-trigger ago, and for which a query chooses that cell again, is commanded. */
  lemma TriggerFires(cfg: Config, delay: Time, ws: seq<World>, i: nat, snap: Snapshot, ds: seq<Decision>, q: Query,
                     u: Ue, k: nat, c: Cell)
    requires Run(cfg, delay, ws) && i < |ws| - 1 && QueryStep(cfg, ws[i], ws[i + 1], snap, ds, q)
    requires WaitingSince(ws[i].log, k, u, c) && ws[i].now - ws[i].log[k].now >= cfg.timeToTrigger
    requires u in q.decisions && Choice(q.decisions[u]) == Some(c)
    ensures IssuedFor(q, u)
  {
    RunKeepsStopwatches(cfg, delay, ws, i);
    QueryHasEffect(cfg, ws[i], ws[i + 1], snap, ds, q);
    assert EntryAfter(cfg, ws[i], ws[i + 1], q, u);
  }

  /** With a positive time-to-trigger, a command is issued only for a target that an
      earlier query, at least that long ago, already chose for the UE, with no other
      choice made for it in between. */
  lemma TriggerWasHeld(cfg: Config, delay: Time, ws: seq<World>, i: nat, snap: Snapshot, ds: seq<Decision>, q: Query, u: Ue)
    requires Run(cfg, delay, ws) && i < |ws| - 1 && QueryStep(cfg, ws[i], ws[i + 1], snap, ds, q)
    requires IssuedFor(q, u) && cfg.timeToTrigger > 0
    ensures exists k: nat :: WaitingSince(ws[i].log, k, u, q.decisions[u].cmd.target)
              && ws[i].now - ws[i].log[k].now >= cfg.timeToTrigger
  {
    RunKeepsStopwatches(cfg, delay, ws, i);
    QueryHasEffect(cfg, ws[i], ws[i + 1], snap, ds, q);
    assert EntryAfter(cfg, ws[i], ws[i + 1], q, u);
    var w, c := ws[i], q.decisions[u].cmd.target;
    assert u in w.mem.tttState && w.mem.tttState[u].0 == c;
    var k: nat :| WaitingSince(w.log, k, u, c) && w.log[k].now == w.mem.tttState[u].1;
  }
}
