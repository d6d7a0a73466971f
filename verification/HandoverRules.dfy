/** The rules of the load-aware handover module in the operator's terms: the fields of its
    configuration, the measurement reports as they come in, and the log of its decisions. */
module HandoverRules {
  import opened Common
  import opened LoadAwareHandover
  import opened HandoverRuns

  // ----- reading the reports

  /** A report of the serving cell on the first component carrier. */
  predicate OfServing(m: Measurement) {
    m.ccId == 0 && m.isServing
  }

  /** Report `i` is the first such one. */
  ghost predicate FirstOf(ms: seq<Measurement>, i: nat) {
    i < |ms| && OfServing(ms[i]) && forall j :: 0 <= j < i ==> !OfServing(ms[j])
  }

  /** Report `i` is the last such one. */
  ghost predicate LastOf(ms: seq<Measurement>, i: nat) {
    i < |ms| && OfServing(ms[i]) && forall j :: i < j < |ms| ==> !OfServing(ms[j])
  }

  lemma {:induction false} FirstServingIff(ms: seq<Measurement>, m: Measurement)
    ensures FirstServing(ms) == Some(m) <==> exists i: nat :: FirstOf(ms, i) && ms[i] == m
  {
    if ms != [] {
      var rest := ms[1..];
      FirstServingIff(rest, m);
      if i: nat :| FirstOf(rest, i) && rest[i] == m && !OfServing(ms[0]) {
        assert FirstOf(ms, i + 1);
      }
      if i: nat :| FirstOf(ms, i) && ms[i] == m {
        assert i > 0 ==> FirstOf(rest, i - 1);
      }
      assert OfServing(ms[0]) ==> FirstOf(ms, 0);
    }
  }

  lemma {:induction false} LastServingIff(ms: seq<Measurement>, m: Measurement)
    ensures LastServing(ms) == Some(m) <==> exists i: nat :: LastOf(ms, i) && ms[i] == m
  {
    if ms != [] {
      var n := |ms| - 1;
      var init := ms[..n];
      LastServingIff(init, m);
      if i: nat :| LastOf(init, i) && init[i] == m && !OfServing(ms[n]) {
        assert LastOf(ms, i);
      }
      if i: nat :| LastOf(ms, i) && ms[i] == m {
        assert i < n ==> LastOf(init, i);
      }
      assert OfServing(ms[n]) ==> LastOf(ms, n);
    }
  }

  /** The cell's best value exceeds (or reaches) a bound exactly when some report of it does. */
  lemma BestBeyond(ms: seq<Measurement>, c: Cell, x: real)
    ensures Best(ms, c).Some? && Best(ms, c).value > x <==> exists m :: m in ms && Relevant(m, c) && m.rsrp > x
    ensures Best(ms, c).Some? && Best(ms, c).value >= x <==> exists m :: m in ms && Relevant(m, c) && m.rsrp >= x
  {
    BestIsMaximum(ms, c);
  }

  lemma {:induction false} GnbIff(gnbs: seq<GnbInfo>, c: Cell, n: nat)
    requires n != 0
    ensures GnbOf(gnbs, c) == n <==>
            exists i :: 0 <= i < |gnbs| && gnbs[i] == GnbInfo(n, c) && forall j :: 0 <= j < i ==> gnbs[j].cellId != c
  {
    if gnbs != [] {
      var rest := gnbs[1..];
      GnbIff(rest, c, n);
      if i :| 0 <= i < |rest| && rest[i] == GnbInfo(n, c) && forall j :: 0 <= j < i ==> rest[j].cellId != c {
        assert gnbs[0].cellId != c ==> gnbs[i + 1] == GnbInfo(n, c) && forall j :: 0 < j < i + 1 ==> gnbs[j] == rest[j - 1];
      }
      if i :| 0 <= i < |gnbs| && gnbs[i] == GnbInfo(n, c) && forall j :: 0 <= j < i ==> gnbs[j].cellId != c {
        assert i > 0 ==> rest[i - 1] == GnbInfo(n, c);
      }
    }
  }

  // ----- who counts for a cell

  /** The first serving report names a cell and an RNTI, so the registered cell is not used. */
  ghost predicate Usable(ms: seq<Measurement>, i: nat) {
    FirstOf(ms, i) && ms[i].cellId != 0 && ms[i].rnti != 0
  }

  /** The UE counts for `c`: by its first serving report, or else by registration. */
  ghost predicate CountsFor(snap: Snapshot, u: UeInfo, c: Cell) {
    var ms := Reports(snap, u.nodeId);
    || (exists i: nat :: Usable(ms, i) && ms[i].cellId == c)
    || ((forall i: nat :: !Usable(ms, i)) && u.cellId == c)
  }

  lemma CountsForIff(snap: Snapshot, u: UeInfo, c: Cell)
    ensures AttachedCell(snap, u) == c <==> CountsFor(snap, u, c)
  {
    var ms := Reports(snap, u.nodeId);
    var s := FirstServing(ms);
    forall i: nat | FirstOf(ms, i) ensures s == Some(ms[i]) {
      FirstServingIff(ms, ms[i]);
    }
    if s.Some? {
      FirstServingIff(ms, s.value);
      var i: nat :| FirstOf(ms, i) && ms[i] == s.value;
      assert Usable(ms, i) <==> s.value.cellId != 0 && s.value.rnti != 0;
    }
  }

  /** The list positions of the UEs that count for a cell. */
  ghost function Counted(snap: Snapshot, n: nat, c: Cell): set<nat>
    requires n <= |snap.ues|
  {
    set k: nat | k < n && CountsFor(snap, snap.ues[k], c)
  }

  /** The load of a cell is the number of UEs that count for it. */
  lemma {:induction false} LoadIsCount(snap: Snapshot, n: nat, c: Cell)
    requires n <= |snap.ues| && c != 0
    ensures Attached(snap, n, c) == |Counted(snap, n, c)|
  {
    if n == 0 {
      assert Counted(snap, n, c) == {};
    } else {
      var k := n - 1;
      LoadIsCount(snap, k, c);
      CountsForIff(snap, snap.ues[k], c);
      assert Counted(snap, n, c) == Counted(snap, k, c) + (if CountsFor(snap, snap.ues[k], c) then {k} else {});
    }
  }

  // ----- when a cell is full

  /** A cell takes one more UE beside `n` others. */
  ghost predicate Takes(cfg: Config, c: Cell, n: nat) {
    Allows(cfg, c, n + 1)
  }

  /** The UEs in or on their way to a cell when the `k`-th UE is decided: attached, with a
      pending handover, commanded so far. */
  ghost function Claims(snap: Snapshot, pending: map<Ue, Cell>, ds: seq<Decision>, k: nat, c: Cell): nat
    requires k <= |ds|
  {
    Attached(snap, |snap.ues|, c) + |Heading(pending, c)| + Commanded(Commands(ds[..k]), c)
  }

  /** The clamped reservations make no difference to whether a cell is full. */
  lemma FullIff(cfg: Config, snap: Snapshot, pending: map<Ue, Cell>, ds: seq<Decision>, k: nat, loads: Loads, c: Cell)
    requires k <= |ds| && EffectiveAt(cfg, snap, pending, ds, k, loads)
    ensures Full(cfg, loads, c) <==> !Takes(cfg, c, Claims(snap, pending, ds, k, c))
  {
    assert LoadOf(loads, c) ==
      Reserved(Cap(cfg, c), Attached(snap, |snap.ues|, c), |Heading(pending, c)|) + Commanded(Commands(ds[..k]), c);
  }

  // ----- what is chosen

  /** Report `i` is the UE's serving report in this query and names its cell, RNTI and a gNB. */
  ghost predicate ServedVia(snap: Snapshot, ue: Ue, i: nat, gnb: nat) {
    var ms := Reports(snap, ue);
    && LastOf(ms, i) && ms[i].cellId != 0 && ms[i].rnti != 0 && gnb != 0
    && exists g :: 0 <= g < |snap.gnbs| && snap.gnbs[g] == GnbInfo(gnb, ms[i].cellId)
         && forall j :: 0 <= j < g ==> snap.gnbs[j].cellId != ms[i].cellId
  }

  lemma ServedIff(snap: Snapshot, ue: Ue)
    ensures Served(snap, ue) <==> exists i: nat, gnb: nat :: ServedVia(snap, ue, i, gnb)
    ensures forall i: nat, gnb: nat :: ServedVia(snap, ue, i, gnb) ==>
              LastServing(Reports(snap, ue)) == Some(Reports(snap, ue)[i]) && GnbOf(snap.gnbs, Reports(snap, ue)[i].cellId) == gnb
  {
    var ms := Reports(snap, ue);
    forall i: nat, gnb: nat | ServedVia(snap, ue, i, gnb)
      ensures LastServing(ms) == Some(ms[i]) && GnbOf(snap.gnbs, ms[i].cellId) == gnb
    {
      LastServingIff(ms, ms[i]);
      GnbIff(snap.gnbs, ms[i].cellId, gnb);
    }
    if Served(snap, ue) {
      var m := LastServing(ms).value;
      LastServingIff(ms, m);
      var i: nat :| LastOf(ms, i) && ms[i] == m;
      GnbIff(snap.gnbs, m.cellId, GnbOf(snap.gnbs, m.cellId));
      assert ServedVia(snap, ue, i, GnbOf(snap.gnbs, m.cellId));
    }
  }

  /** Some report puts the cell above the serving one by more than the hysteresis. */
  ghost predicate Better(cfg: Config, snap: Snapshot, ue: Ue, serving: Measurement, c: Cell) {
    && c != serving.cellId && (exists g :: g in snap.gnbs && g.cellId == c)
    && exists m :: m in Reports(snap, ue) && m.ccId == 0 && m.cellId == c && m.rsrp > serving.rsrp + cfg.hysteresisDb
  }

  /** Some report reaches the acceptable value. */
  ghost predicate Strong(cfg: Config, snap: Snapshot, ue: Ue, c: Cell) {
    exists m :: m in Reports(snap, ue) && m.ccId == 0 && m.cellId == c && m.rsrp >= cfg.minAcceptableRsrpDbm
  }

  /** Some report of `c` is above all reports of `d`. */
  ghost predicate Ahead(snap: Snapshot, ue: Ue, c: Cell, d: Cell) {
    && (exists n :: n in Reports(snap, ue) && n.ccId == 0 && n.cellId == d)
    && exists m :: m in Reports(snap, ue) && m.ccId == 0 && m.cellId == c &&
         forall n :: n in Reports(snap, ue) && n.ccId == 0 && n.cellId == d ==> m.rsrp > n.rsrp
  }

  lemma BetterIff(cfg: Config, snap: Snapshot, ue: Ue, c: Cell)
    requires Served(snap, ue)
    ensures Improves(cfg, snap, ue, c) <==> Better(cfg, snap, ue, LastServing(Reports(snap, ue)).value, c)
  {
    var ms := Reports(snap, ue);
    var s := LastServing(ms).value;
    BestBeyond(ms, c, s.rsrp + cfg.hysteresisDb);
    if Known(snap, c) {
      var i :| 0 <= i < |snap.gnbs| && snap.gnbs[i].cellId == c;
      assert snap.gnbs[i] in snap.gnbs;
    }
    if m :| m in ms && m.ccId == 0 && m.cellId == c && m.rsrp > s.rsrp + cfg.hysteresisDb {
      assert Relevant(m, c);
    }
    if m :| m in ms && Relevant(m, c) && m.rsrp > s.rsrp + cfg.hysteresisDb {
      assert m.ccId == 0 && m.cellId == c;
    }
  }

  lemma StrongIff(cfg: Config, snap: Snapshot, ue: Ue, c: Cell)
    ensures Acceptable(cfg, snap, ue, c) <==> Strong(cfg, snap, ue, c)
  {
    var ms := Reports(snap, ue);
    BestBeyond(ms, c, cfg.minAcceptableRsrpDbm);
    if m :| m in ms && m.ccId == 0 && m.cellId == c && m.rsrp >= cfg.minAcceptableRsrpDbm {
      assert Relevant(m, c);
    }
    if m :| m in ms && Relevant(m, c) && m.rsrp >= cfg.minAcceptableRsrpDbm {
      assert m.ccId == 0 && m.cellId == c;
    }
  }

  lemma AheadIff(snap: Snapshot, ue: Ue, c: Cell, d: Cell)
    ensures Stronger(snap, ue, c, d) <==> Ahead(snap, ue, c, d)
  {
    var ms := Reports(snap, ue);
    BestIsMaximum(ms, c);
    BestIsMaximum(ms, d);
    if Stronger(snap, ue, c, d) {
      var m :| m in ms && Relevant(m, c) && m.rsrp == Best(ms, c).value;
      var n :| n in ms && Relevant(n, d) && n.rsrp == Best(ms, d).value;
      assert n.ccId == 0 && n.cellId == d;
      forall n | n in ms && n.ccId == 0 && n.cellId == d ensures m.rsrp > n.rsrp {
        assert Relevant(n, d);
      }
      assert m.ccId == 0 && m.cellId == c;
    }
    if Ahead(snap, ue, c, d) {
      var m :| m in ms && m.ccId == 0 && m.cellId == c &&
        forall n :: n in ms && n.ccId == 0 && n.cellId == d ==> m.rsrp > n.rsrp;
      assert Relevant(m, c);
      var n :| n in ms && n.ccId == 0 && n.cellId == d;
      assert Relevant(n, d);
      var b :| b in ms && Relevant(b, d) && b.rsrp == Best(ms, d).value;
      assert b.ccId == 0 && b.cellId == d;
    }
  }

  /** Every better cell ahead of `c` is full, and passed over because fallback is allowed. */
  ghost predicate NothingAhead(cfg: Config, snap: Snapshot, ue: Ue, serving: Measurement, pending: map<Ue, Cell>,
                               ds: seq<Decision>, k: nat, c: Cell)
    requires k <= |ds|
  {
    forall d: Cell :: Better(cfg, snap, ue, serving, d) && Ahead(snap, ue, d, c) ==>
      cfg.tryNextBest && !Takes(cfg, d, Claims(snap, pending, ds, k, d))
  }

  /** The cell is better and strong enough, takes one more UE, and nothing ahead of it does. */
  ghost predicate Right(cfg: Config, snap: Snapshot, ue: Ue, serving: Measurement, pending: map<Ue, Cell>,
                        ds: seq<Decision>, k: nat, c: Cell)
    requires k <= |ds|
  {
    && Better(cfg, snap, ue, serving, c) && Strong(cfg, snap, ue, c)
    && Takes(cfg, c, Claims(snap, pending, ds, k, c))
    && NothingAhead(cfg, snap, ue, serving, pending, ds, k, c)
  }

  /** Cell by cell, what the search looks at is what the reports and the claims say. */
  ghost predicate SameView(cfg: Config, snap: Snapshot, ue: Ue, pending: map<Ue, Cell>, ds: seq<Decision>, k: nat, loads: Loads,
                           d: Cell, c: Cell)
    requires k <= |ds| && Served(snap, ue)
  {
    && (Improves(cfg, snap, ue, d) <==> Better(cfg, snap, ue, LastServing(Reports(snap, ue)).value, d))
    && (Stronger(snap, ue, d, c) <==> Ahead(snap, ue, d, c))
    && (Full(cfg, loads, d) <==> !Takes(cfg, d, Claims(snap, pending, ds, k, d)))
  }

  lemma ViewIsSame(cfg: Config, snap: Snapshot, ue: Ue, pending: map<Ue, Cell>, ds: seq<Decision>, k: nat, loads: Loads,
                   d: Cell, c: Cell)
    requires k <= |ds| && EffectiveAt(cfg, snap, pending, ds, k, loads) && Served(snap, ue)
    ensures SameView(cfg, snap, ue, pending, ds, k, loads, d, c)
  {
    BetterIff(cfg, snap, ue, d);
    AheadIff(snap, ue, d, c);
    FullIff(cfg, snap, pending, ds, k, loads, d);
  }

  lemma NothingAheadIff(cfg: Config, snap: Snapshot, ue: Ue, pending: map<Ue, Cell>, ds: seq<Decision>, k: nat, loads: Loads, c: Cell)
    requires k <= |ds| && EffectiveAt(cfg, snap, pending, ds, k, loads) && Served(snap, ue)
    ensures (forall d: Cell :: Improves(cfg, snap, ue, d) && Stronger(snap, ue, d, c) ==> cfg.tryNextBest && Full(cfg, loads, d))
            <==> NothingAhead(cfg, snap, ue, LastServing(Reports(snap, ue)).value, pending, ds, k, c)
  {
    if forall d: Cell :: Improves(cfg, snap, ue, d) && Stronger(snap, ue, d, c) ==> cfg.tryNextBest && Full(cfg, loads, d) {
      forall d: Cell | Better(cfg, snap, ue, LastServing(Reports(snap, ue)).value, d) && Ahead(snap, ue, d, c)
        ensures cfg.tryNextBest && !Takes(cfg, d, Claims(snap, pending, ds, k, d))
      {
        ViewIsSame(cfg, snap, ue, pending, ds, k, loads, d, c);
      }
    }
    if NothingAhead(cfg, snap, ue, LastServing(Reports(snap, ue)).value, pending, ds, k, c) {
      forall d: Cell | Improves(cfg, snap, ue, d) && Stronger(snap, ue, d, c) ensures cfg.tryNextBest && Full(cfg, loads, d) {
        ViewIsSame(cfg, snap, ue, pending, ds, k, loads, d, c);
      }
    }
  }

  lemma EligibleIff(cfg: Config, snap: Snapshot, ue: Ue, pending: map<Ue, Cell>, ds: seq<Decision>, k: nat, loads: Loads, c: Cell)
    requires k <= |ds| && EffectiveAt(cfg, snap, pending, ds, k, loads) && Served(snap, ue)
    ensures Eligible(cfg, snap, ue, loads, c) <==>
            Right(cfg, snap, ue, LastServing(Reports(snap, ue)).value, pending, ds, k, c)
  {
    StrongIff(cfg, snap, ue, c);
    BetterIff(cfg, snap, ue, c);
    FullIff(cfg, snap, pending, ds, k, loads, c);
    NothingAheadIff(cfg, snap, ue, pending, ds, k, loads, c);
  }

  /** The loads at a UE's turn, and what they lead to. */
  lemma TurnOf(cfg: Config, snap: Snapshot, mem: Memory, mem': Memory, ds: seq<Decision>, cmds: seq<Command>, k: nat)
    returns (loads: Loads)
    requires TickOutcome(cfg, snap, mem, mem', ds, cmds) && k < |ds|
    ensures var start := mem.(pendingHoTarget := Pruned(cfg, mem, snap.now));
            EffectiveAt(cfg, snap, start.pendingHoTarget, ds, k, loads) && Decided(cfg, snap, start, k, mem', loads, ds[k])
  {
    var start := mem.(pendingHoTarget := Pruned(cfg, mem, snap.now));
    assert DecidedInTurn(cfg, snap, start, k, mem', ds);
    loads :| EffectiveAt(cfg, snap, start.pendingHoTarget, ds, k, loads) && Decided(cfg, snap, start, k, mem', loads, ds[k]);
  }

  /** A choice, by a wait or a command, is always the right cell. */
  lemma ChoiceIsRight(cfg: Config, snap: Snapshot, mem: Memory, mem': Memory, ds: seq<Decision>, cmds: seq<Command>,
                      k: nat, c: Cell) returns (i: nat, gnb: nat)
    requires TickOutcome(cfg, snap, mem, mem', ds, cmds) && k < |ds| && Choice(ds[k]) == Some(c)
    ensures var ue := snap.ues[k].nodeId;
            && ServedVia(snap, ue, i, gnb)
            && Right(cfg, snap, ue, Reports(snap, ue)[i], Pruned(cfg, mem, snap.now), ds, k, c)
    ensures ds[k].Issued? ==> ds[k].cmd == Command(snap.ues[k].nodeId, gnb, Reports(snap, snap.ues[k].nodeId)[i].rnti, c)
  {
    var ue := snap.ues[k].nodeId;
    var loads := TurnOf(cfg, snap, mem, mem', ds, cmds, k);
    EligibleIff(cfg, snap, ue, Pruned(cfg, mem, snap.now), ds, k, loads, c);
    ServedIff(snap, ue);
    i, gnb :| ServedVia(snap, ue, i, gnb);
  }

  /** The strongest of the better cells, if it is strong enough, is chosen exactly when it
      takes one more UE: by its own limit if it has one, at any load if that limit is 0. */
  lemma StrongestIsChosenIff(cfg: Config, snap: Snapshot, mem: Memory, mem': Memory, ds: seq<Decision>, cmds: seq<Command>,
                             k: nat, i: nat, gnb: nat, c: Cell)
    requires TickOutcome(cfg, snap, mem, mem', ds, cmds) && k < |ds| && ds[k] != Shut
    requires ServedVia(snap, snap.ues[k].nodeId, i, gnb)
    requires var ue := snap.ues[k].nodeId;
             && Better(cfg, snap, ue, Reports(snap, ue)[i], c) && Strong(cfg, snap, ue, c)
             && forall d: Cell :: d != c && Better(cfg, snap, ue, Reports(snap, ue)[i], d) ==> Ahead(snap, ue, c, d)
    ensures Choice(ds[k]) == Some(c) <==> Takes(cfg, c, Claims(snap, Pruned(cfg, mem, snap.now), ds, k, c))
  {
    var ue, start := snap.ues[k].nodeId, mem.(pendingHoTarget := Pruned(cfg, mem, snap.now));
    var loads := TurnOf(cfg, snap, mem, mem', ds, cmds, k);
    ServedIff(snap, ue);
    FullIff(cfg, snap, start.pendingHoTarget, ds, k, loads, c);
    JustifiedPick(cfg, snap, start, ue, loads, ds[k]);
    BetterIff(cfg, snap, ue, c);
    StrongIff(cfg, snap, ue, c);
    forall d: Cell | d != c && Improves(cfg, snap, ue, d) ensures Stronger(snap, ue, c, d) {
      BetterIff(cfg, snap, ue, d);
      AheadIff(snap, ue, c, d);
    }
    TopIsPickedIff(cfg, snap, ue, loads, c, PickOf(ds[k]));
  }

  lemma TopIsPickedIff(cfg: Config, snap: Snapshot, ue: Ue, loads: Loads, c: Cell, p: Pick)
    requires Served(snap, ue) && Improves(cfg, snap, ue, c) && Acceptable(cfg, snap, ue, c) && PickMeans(cfg, snap, ue, loads, p)
    requires forall d: Cell :: d != c && Improves(cfg, snap, ue, d) ==> Stronger(snap, ue, c, d)
    ensures p == Target(c) <==> !Full(cfg, loads, c)
  {
  }

  /** Without ties the choice is fixed: a cell is chosen exactly when it is the right one. */
  lemma ChosenIffRight(cfg: Config, snap: Snapshot, mem: Memory, mem': Memory, ds: seq<Decision>, cmds: seq<Command>,
                       k: nat, i: nat, gnb: nat, c: Cell)
    requires TickOutcome(cfg, snap, mem, mem', ds, cmds) && k < |ds| && ds[k] != Shut
    requires ServedVia(snap, snap.ues[k].nodeId, i, gnb)
    requires var ue := snap.ues[k].nodeId;
             forall a: Cell, b: Cell :: a != b && Better(cfg, snap, ue, Reports(snap, ue)[i], a) && Better(cfg, snap, ue, Reports(snap, ue)[i], b) ==>
               Ahead(snap, ue, a, b) || Ahead(snap, ue, b, a)
    ensures Choice(ds[k]) == Some(c) <==>
            Right(cfg, snap, snap.ues[k].nodeId, Reports(snap, snap.ues[k].nodeId)[i], Pruned(cfg, mem, snap.now), ds, k, c)
  {
    var ue, start := snap.ues[k].nodeId, mem.(pendingHoTarget := Pruned(cfg, mem, snap.now));
    var loads := TurnOf(cfg, snap, mem, mem', ds, cmds, k);
    ServedIff(snap, ue);
    EligibleIff(cfg, snap, ue, start.pendingHoTarget, ds, k, loads, c);
    JustifiedPick(cfg, snap, start, ue, loads, ds[k]);
    if Eligible(cfg, snap, ue, loads, c) {
      forall a: Cell, b: Cell | a != b && Improves(cfg, snap, ue, a) && Improves(cfg, snap, ue, b)
        ensures Stronger(snap, ue, a, b) || Stronger(snap, ue, b, a)
      {
        BetterIff(cfg, snap, ue, a);
        BetterIff(cfg, snap, ue, b);
        AheadIff(snap, ue, a, b);
        AheadIff(snap, ue, b, a);
      }
      PickDetermined(cfg, snap, ue, loads, Target(c), PickOf(ds[k]));
    }
  }

  /** Low RSRP ends the search exactly when some better cell is too weak and every one that is
      strong enough is passed over as full; ties make no difference. */
  lemma TooWeakIff(cfg: Config, snap: Snapshot, mem: Memory, mem': Memory, ds: seq<Decision>, cmds: seq<Command>,
                   k: nat, i: nat, gnb: nat)
    requires TickOutcome(cfg, snap, mem, mem', ds, cmds) && k < |ds| && ds[k] != Shut
    requires ServedVia(snap, snap.ues[k].nodeId, i, gnb)
    ensures var ue, pending := snap.ues[k].nodeId, Pruned(cfg, mem, snap.now);
            var s := Reports(snap, ue)[i];
            ds[k] == TooWeak <==>
            && (exists c: Cell :: Better(cfg, snap, ue, s, c) && !Strong(cfg, snap, ue, c))
            && (forall c: Cell :: Better(cfg, snap, ue, s, c) && Strong(cfg, snap, ue, c) ==>
                  cfg.tryNextBest && !Takes(cfg, c, Claims(snap, pending, ds, k, c)))
  {
    var ue, start := snap.ues[k].nodeId, mem.(pendingHoTarget := Pruned(cfg, mem, snap.now));
    var loads := TurnOf(cfg, snap, mem, mem', ds, cmds, k);
    ServedIff(snap, ue);
    JustifiedPick(cfg, snap, start, ue, loads, ds[k]);
    forall c: Cell
      ensures Improves(cfg, snap, ue, c) <==> Better(cfg, snap, ue, Reports(snap, ue)[i], c)
      ensures Acceptable(cfg, snap, ue, c) <==> Strong(cfg, snap, ue, c)
      ensures Full(cfg, loads, c) <==> !Takes(cfg, c, Claims(snap, start.pendingHoTarget, ds, k, c))
    {
      BetterIff(cfg, snap, ue, c);
      StrongIff(cfg, snap, ue, c);
      FullIff(cfg, snap, start.pendingHoTarget, ds, k, loads, c);
    }
    OthersExcludeLow(cfg, snap, ue, loads, PickOf(ds[k]));
  }

  // ----- over whole runs: gates

  predicate WeakFor(q: Query, u: Ue) {
    u in q.decisions && q.decisions[u] == TooWeak
  }

  /** Some logged query commanded the UE at time `t`. */
  ghost predicate CommandedAt(log: seq<Query>, u: Ue, t: Time) {
    exists k :: 0 <= k < |log| && IssuedFor(log[k], u) && log[k].now == t
  }

  /** Some logged query found the UE's better cells too weak at time `t`. */
  ghost predicate WeakAt(log: seq<Query>, u: Ue, t: Time) {
    exists k :: 0 <= k < |log| && WeakFor(log[k], u) && log[k].now == t
  }

  /** What is remembered of a UE are times of logged decisions, and no back-off is forgotten early. */
  ghost predicate RecalledFor(cfg: Config, w: World, u: Ue) {
    && (u in w.mem.lastHoCmdTime ==> CommandedAt(w.log, u, w.mem.lastHoCmdTime[u]))
    && (u in w.mem.lowRsrpBlockUntil ==> WeakAt(w.log, u, w.mem.lowRsrpBlockUntil[u] - cfg.lowRsrpRecheck))
    && (forall t :: WeakAt(w.log, u, t) ==>
          || t + cfg.lowRsrpRecheck <= w.now
          || (u in w.mem.lowRsrpBlockUntil && t + cfg.lowRsrpRecheck <= w.mem.lowRsrpBlockUntil[u]))
  }

  ghost predicate Recalled(cfg: Config, w: World) {
    forall u: Ue :: RecalledFor(cfg, w, u)
  }

  lemma LogGrows(log: seq<Query>, q: Query, u: Ue, t: Time)
    ensures CommandedAt(log + [q], u, t) <==> CommandedAt(log, u, t) || (IssuedFor(q, u) && q.now == t)
    ensures WeakAt(log + [q], u, t) <==> WeakAt(log, u, t) || (WeakFor(q, u) && q.now == t)
  {
    var more := log + [q];
    assert more[|log|] == q;
    if k :| 0 <= k < |log| && IssuedFor(log[k], u) && log[k].now == t {
      assert more[k] == log[k];
    }
    if k :| 0 <= k < |log| && WeakFor(log[k], u) && log[k].now == t {
      assert more[k] == log[k];
    }
  }

  lemma WeakInPast(w: World, u: Ue, t: Time)
    requires LogInPast(w) && WeakAt(w.log, u, t)
    ensures t <= w.now
  {
  }

  lemma QueryKeepsRecalled(cfg: Config, w: World, w': World, q: Query, u: Ue)
    requires QueryEffect(cfg, w, w', q) && RecalledFor(cfg, w, u) && LogInPast(w)
    ensures RecalledFor(cfg, w', u)
  {
    assert EntryAfter(cfg, w, w', q, u);
    forall t: Time
      ensures CommandedAt(w'.log, u, t) <==> CommandedAt(w.log, u, t) || (IssuedFor(q, u) && q.now == t)
      ensures WeakAt(w'.log, u, t) <==> WeakAt(w.log, u, t) || (WeakFor(q, u) && q.now == t)
      ensures WeakAt(w.log, u, t) ==> t <= w.now
    {
      LogGrows(w.log, q, u, t);
      if WeakAt(w.log, u, t) {
        WeakInPast(w, u, t);
      }
    }
  }

  lemma StepKeepsRecalled(cfg: Config, delay: Time, w: World, w': World)
    requires Next(cfg, delay, w, w') && Recalled(cfg, w) && LogInPast(w)
    ensures Recalled(cfg, w')
  {
    if snap, ds, q :| QueryStep(cfg, w, w', snap, ds, q) {
      QueryHasEffect(cfg, w, w', snap, ds, q);
      forall u: Ue ensures RecalledFor(cfg, w', u) {
        QueryKeepsRecalled(cfg, w, w', q, u);
      }
    } else {
      TimePassesRecalled(cfg, w, w');
    }
  }

  lemma TimePassesRecalled(cfg: Config, w: World, w': World)
    requires Recalled(cfg, w) && w'.mem == w.mem && w'.log == w.log && w'.now >= w.now
    ensures Recalled(cfg, w')
  {
    forall u: Ue ensures RecalledFor(cfg, w', u) {
      assert RecalledFor(cfg, w, u);
    }
  }

  lemma {:induction false} RunKeepsRecalled(cfg: Config, delay: Time, ws: seq<World>, n: nat)
    requires Run(cfg, delay, ws) && n < |ws|
    ensures Recalled(cfg, ws[n])
  {
    if n > 0 {
      RunKeepsRecalled(cfg, delay, ws, n - 1);
      RunKeepsStopwatches(cfg, delay, ws, n - 1);
      assert Next(cfg, delay, ws[n - 1], ws[(n - 1) + 1]);
      StepKeepsRecalled(cfg, delay, ws[n - 1], ws[n]);
    }
  }

  /** A gate is closed, judged by the log: it is before the warm-up, or an earlier query found
      the UE's better cells too weak less than the back-off ago, or an earlier query commanded
      the UE less than the attempt timeout or the cool-down ago. */
  ghost predicate HeldBack(cfg: Config, w: World, u: Ue) {
    || w.now < cfg.warmup
    || (exists t: Time :: WeakAt(w.log, u, t) && w.now < t + cfg.lowRsrpRecheck)
    || (exists t: Time :: CommandedAt(w.log, u, t) && (w.now < t + cfg.hoAttemptTimeout || w.now < t + cfg.minHoInterval))
  }

  lemma GatesIff(cfg: Config, w: World, u: Ue)
    requires RecalledFor(cfg, w, u) && Paced(cfg, w)
    ensures GatesOpen(cfg, w.now, w.mem.(pendingHoTarget := Pruned(cfg, w.mem, w.now)), u) <==> !HeldBack(cfg, w, u)
  {
    forall t: Time | CommandedAt(w.log, u, t) ensures u in w.mem.lastHoCmdTime && t <= w.mem.lastHoCmdTime[u] {
    }
    if u in w.mem.lowRsrpBlockUntil {
      assert WeakAt(w.log, u, w.mem.lowRsrpBlockUntil[u] - cfg.lowRsrpRecheck);
    }
    if u in w.mem.lastHoCmdTime {
      assert CommandedAt(w.log, u, w.mem.lastHoCmdTime[u]);
    }
  }

  /** In every run, a query passes a UE by at the gates exactly when the log holds it back; in
      particular no command comes before the warm-up or during a back-off. */
  lemma ShutIffHeldBack(cfg: Config, delay: Time, ws: seq<World>, n: nat, snap: Snapshot, ds: seq<Decision>, q: Query, u: Ue)
    requires Run(cfg, delay, ws) && n < |ws| - 1 && QueryStep(cfg, ws[n], ws[n + 1], snap, ds, q) && u in q.decisions
    ensures q.decisions[u] == Shut <==> HeldBack(cfg, ws[n], u)
  {
    RunKeepsRecalled(cfg, delay, ws, n);
    RunIsPaced(cfg, delay, ws, n);
    assert RecalledFor(cfg, ws[n], u);
    GatesIff(cfg, ws[n], u);
    QueryHasEffect(cfg, ws[n], ws[n + 1], snap, ds, q);
    assert EntryAfter(cfg, ws[n], ws[n + 1], q, u);
  }
}
