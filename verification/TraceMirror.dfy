/** The congestion-window and slow-start-threshold tracers, which copy each other's
    events into both output streams of a node, and the node id they find in a path. */
module TraceMirror {
  import opened Common
  import opened Strings

  // ----- the node id in a trace context

  const NO_POSITION: nat := 0xffff_ffff_ffff_ffff

  /** `std::string::find_first_of` for one character. */
  function FindFirstOf(s: string, c: char, from: nat): (k: nat)
    requires |s| < NO_POSITION
    ensures k == NO_POSITION || (from <= k < |s| && s[k] == c)
    ensures forall i :: from <= i < |s| && i < k ==> s[i] != c
    decreases |s| - from
  {
    if from >= |s| then NO_POSITION
    else if s[from] == c then from
    else FindFirstOf(s, c, from + 1)
  }

  function Substr(s: string, pos: nat, count: nat): string
    requires pos <= |s|
  {
    if count > |s| - pos then s[pos..] else s[pos..pos + count]
  }

  function Digit(d: nat): (c: char)
    requires d < 10
    ensures IsDigit(c) && c as int - '0' as int == d
  {
    ('0' as int + d) as char
  }

  /** `std::to_string`. */
  function Decimal(n: nat): (s: string)
    ensures s != "" && All(s, IsDigit)
  {
    if n < 10 then [Digit(n)] else Decimal(n / 10) + [Digit(n % 10)]
  }

  lemma {:induction false} NumberOfDecimal(n: nat)
    ensures Number(Decimal(n)) == n
  {
    var s := Decimal(n);
    if n >= 10 {
      NumberOfDecimal(n / 10);
      assert s[..|s| - 1] == Decimal(n / 10);
    } else {
      assert s[..|s| - 1] == "";
    }
  }

  predicate IsBlank(c: char) {
    c == ' ' || 9 <= c as int <= 13
  }

  /** `std::stoul`: blanks, a sign, digits; anything may follow. `None` is an exception. */
  function Stoul(s: string): Option<nat> {
    var t := s[|TakeWhile(s, IsBlank)|..];
    var negative := t != "" && t[0] == '-';
    var u := if t != "" && (t[0] == '-' || t[0] == '+') then t[1..] else t;
    var d := TakeWhile(u, IsDigit);
    if d == "" || Number(d) > NO_POSITION then None
    else Some(if negative then (NO_POSITION + 1 - Number(d)) % (NO_POSITION + 1) else Number(d))
  }

  /** `n1 + 1` and `n2 - n1 - 1` in 64-bit positions, where "not found" wraps around. */
  function NextPosition(n1: nat): nat {
    if n1 == NO_POSITION then 0 else n1 + 1
  }

  function Gap(n1: nat, n2: nat): nat
    requires n1 == NO_POSITION || n1 < n2
  {
    if n1 == NO_POSITION then n2 else n2 - n1 - 1
  }

  /** The number is cut to 32 bits. */
  function ToNodeId(number: Option<nat>): Option<nat> {
    match number
    case None => None
    case Some(v) => Some(v % 0x1_0000_0000)
  }

  /** What stands between the second and the third slash. */
  function NodeIdText(context: string): string
    requires |context| < NO_POSITION
  {
    var n1 := FindFirstOf(context, '/', 1);
    var n2 := FindFirstOf(context, '/', NextPosition(n1));
    Substr(context, NextPosition(n1), Gap(n1, n2))
  }

  function GetNodeIdFromContext(context: string): Option<nat>
    requires |context| < NO_POSITION
  {
    ToNodeId(Stoul(NodeIdText(context)))
  }

  /** A path below a node, as the two registration functions build it. */
  function NodePath(nodeId: nat, rest: string): string {
    "/NodeList/" + Decimal(nodeId) + "/" + rest
  }

  lemma StoulOfDigits(s: string)
    requires s != "" && All(s, IsDigit) && Number(s) <= NO_POSITION
    ensures Stoul(s) == Some(Number(s))
  {
    assert IsDigit(s[0]);
    assert TakeWhile(s, IsBlank) == "";
    assert s + "" == s;
    TakeWhileRun(s, "", IsDigit);
  }

  lemma FindSecondSlash(s: string, rest: string, d: string)
    requires s == "/NodeList/" + d + "/" + rest && |s| < NO_POSITION && All(d, IsDigit)
    ensures FindFirstOf(s, '/', 1) == 9 && FindFirstOf(s, '/', 10) == 10 + |d|
    ensures s[10..10 + |d|] == d
  {
    var head := "/NodeList/";
    assert s[9] == head[9] == '/';
    forall i | 1 <= i < 9 ensures s[i] != '/' {
      assert s[i] == head[i];
    }
    assert s[10 + |d|] == '/';
    forall i | 10 <= i < 10 + |d| ensures s[i] != '/' {
      assert s[i] == d[i - 10] && IsDigit(d[i - 10]);
    }
  }

  lemma NodeIdBetween(context: string, n1: nat, n2: nat)
    requires |context| < NO_POSITION && n1 < n2 <= |context|
    requires FindFirstOf(context, '/', 1) == n1 && FindFirstOf(context, '/', n1 + 1) == n2
    ensures NodeIdText(context) == context[n1 + 1..n2]
  {
  }

  lemma SmallId(v: nat)
    requires v < 0x1_0000_0000
    ensures ToNodeId(Some(v)) == Some(v)
  {
  }

  /** The id used to build a path is found in it, for every 32-bit id and every rest. */
  lemma NodeIdRoundTrip(nodeId: nat, rest: string)
    requires nodeId < 0x1_0000_0000 && |NodePath(nodeId, rest)| < NO_POSITION
    ensures GetNodeIdFromContext(NodePath(nodeId, rest)) == Some(nodeId)
  {
    var d := Decimal(nodeId);
    NumberOfDecimal(nodeId);
    StoulOfDigits(d);
    SmallId(nodeId);
    NodeIdFound(NodePath(nodeId, rest), rest, d);
  }

  lemma NodeIdFound(s: string, rest: string, d: string)
    requires s == "/NodeList/" + d + "/" + rest && |s| < NO_POSITION && All(d, IsDigit)
    ensures GetNodeIdFromContext(s) == ToNodeId(Stoul(d))
  {
    FindSecondSlash(s, rest, d);
    NodeIdBetween(s, 9, 10 + |d|);
  }

  // ----- what a stream should hold

  datatype Tracer = Cwnd | SsThresh
  datatype Event = Event(tracer: Tracer, time: nat, oldval: nat, newval: nat)
  datatype Row = Initial(value: nat) | Sample(time: nat, value: nat)

  function Seen(h: seq<Event>, k: Tracer): bool {
    h != [] && (h[|h| - 1].tracer == k || Seen(h[..|h| - 1], k))
  }

  /** The tracer's newest value. */
  function Latest(h: seq<Event>, k: Tracer): nat
    requires Seen(h, k)
  {
    var e := h[|h| - 1];
    if e.tracer == k then e.newval else Latest(h[..|h| - 1], k)
  }

  /** Position of the tracer's first event. */
  function First(h: seq<Event>, k: Tracer): (f: nat)
    requires Seen(h, k)
    ensures f < |h| && h[f].tracer == k
    ensures forall i :: 0 <= i < f ==> h[i].tracer != k
  {
    var init := h[..|h| - 1];
    if Seen(init, k) then First(init, k) else UnseenHasNone(init, k); |h| - 1
  }

  lemma {:induction false} UnseenHasNone(h: seq<Event>, k: Tracer)
    ensures Seen(h, k) <==> exists i :: 0 <= i < |h| && h[i].tracer == k
  {
    if h != [] {
      UnseenHasNone(h[..|h| - 1], k);
    }
  }

  /** The stream of one tracer, event by event. */
  function Rows(h: seq<Event>, k: Tracer): seq<Row> {
    if h == [] then []
    else
      var init, e := h[..|h| - 1], h[|h| - 1];
      if e.tracer == k then
        (if Seen(init, k) then Rows(init, k) else Rows(init, k) + [Initial(e.oldval)]) + [Sample(e.time, e.newval)]
      else if Seen(init, k) then Rows(init, k) + [Sample(e.time, Latest(init, k))]
      else Rows(init, k)
  }

  /** Row for event `j`: its time, and the newest value of `k` up to and including it. */
  ghost predicate IsRowAt(rows: seq<Row>, f: nat, h: seq<Event>, k: Tracer, j: nat)
    requires f <= j < |h| && |rows| == 1 + |h| - f
  {
    Seen(h[..j + 1], k) && rows[1 + j - f] == Sample(h[j].time, Latest(h[..j + 1], k))
  }

  /** A stream is empty before the tracer's first event; after it, it holds the old value
      at time zero and then one row for every event of either tracer from there on. */
  lemma {:induction false} RowsAreTrace(h: seq<Event>, k: Tracer)
    ensures !Seen(h, k) ==> Rows(h, k) == []
    ensures Seen(h, k) ==>
              var rows, f := Rows(h, k), First(h, k);
              && |rows| == 1 + |h| - f && rows[0] == Initial(h[f].oldval)
              && forall j: nat :: f <= j < |h| ==> IsRowAt(rows, f, h, k, j)
  {
    if h != [] {
      var n := |h| - 1;
      var init := h[..n];
      RowsAreTrace(init, k);
      assert h[..n + 1] == h;
      if Seen(init, k) {
        var rows, f := Rows(h, k), First(h, k);
        assert rows[..|rows| - 1] == Rows(init, k);
        forall j: nat | f <= j < |h| ensures IsRowAt(rows, f, h, k, j) {
          if j < n {
            assert IsRowAt(Rows(init, k), f, init, k, j);
            assert init[..j + 1] == h[..j + 1];
          }
        }
      }
    }
  }

  /** The tracer's own samples. */
  function Own(h: seq<Event>, k: Tracer): seq<Row> {
    if h == [] then []
    else
      var e := h[|h| - 1];
      Own(h[..|h| - 1], k) + (if e.tracer == k then [Sample(e.time, e.newval)] else [])
  }

  /** Removes the rows written on the other tracer's events, and the row for time zero. */
  function DropMirrored(rows: seq<Row>, h: seq<Event>, k: Tracer): seq<Row> {
    if rows == [] || !Seen(h, k) then []
    else
      var m, n := |rows| - 1, |h| - 1;
      DropMirrored(rows[..m], h[..n], k) + (if h[n].tracer == k then [rows[m]] else [])
  }

  lemma {:induction false} OwnUnseen(h: seq<Event>, k: Tracer)
    requires !Seen(h, k)
    ensures Own(h, k) == []
  {
    if h != [] {
      OwnUnseen(h[..|h| - 1], k);
    }
  }

  /** Without its mirrored rows a stream is the tracer's own sequence of values. */
  lemma {:induction false} OwnRowsRecovered(h: seq<Event>, k: Tracer)
    ensures DropMirrored(Rows(h, k), h, k) == Own(h, k)
  {
    if !Seen(h, k) {
      OwnUnseen(h, k);
    } else {
      var init, rows := h[..|h| - 1], Rows(h, k);
      if Seen(init, k) {
        OwnRowsRecovered(init, k);
        assert rows[..|rows| - 1] == Rows(init, k);
      } else {
        OwnUnseen(init, k);
      }
    }
  }

  /** The row for event `j` stands as far from the end of the stream as `j` from the end
      of the history. */
  ghost predicate HasRowFor(rows: seq<Row>, h: seq<Event>, j: nat)
    requires j < |h|
  {
    var back := |h| - j;
    back <= |rows| && rows[|rows| - back].Sample? && rows[|rows| - back].time == h[j].time
  }

  lemma RowForEvent(h: seq<Event>, k: Tracer, j: nat)
    requires Seen(h, k) && First(h, k) <= j < |h|
    ensures HasRowFor(Rows(h, k), h, j)
  {
    RowsAreTrace(h, k);
    assert IsRowAt(Rows(h, k), First(h, k), h, k, j);
  }

  /** From the later of the two first events on, the two streams have a row each for every
      event, at equal distances from their ends and with equal times. */
  lemma StreamsAligned(h: seq<Event>, j: nat)
    requires Seen(h, Cwnd) && Seen(h, SsThresh)
    requires First(h, Cwnd) <= j < |h| && First(h, SsThresh) <= j
    ensures HasRowFor(Rows(h, Cwnd), h, j) && HasRowFor(Rows(h, SsThresh), h, j)
  {
    RowForEvent(h, Cwnd, j);
    RowForEvent(h, SsThresh, j);
  }

  // ----- the tracers

  /** The flag, the stored value and the stream of one tracer on one node. */
  ghost predicate Agrees(first: bool, value: Option<nat>, rows: seq<Row>, h: seq<Event>, k: Tracer) {
    && first == !Seen(h, k) && rows == Rows(h, k)
    && (Seen(h, k) ==> value == Some(Latest(h, k)))
  }

  lemma Grow(h: seq<Event>, e: Event)
    ensures (h + [e])[..|h|] == h && (h + [e])[|h|] == e
  {
  }

  lemma OwnEvent(first: bool, value: Option<nat>, rows: seq<Row>, h: seq<Event>, e: Event)
    requires Agrees(first, value, rows, h, e.tracer)
    ensures Agrees(false, Some(e.newval),
                   (if first then rows + [Initial(e.oldval)] else rows) + [Sample(e.time, e.newval)], h + [e], e.tracer)
  {
    Grow(h, e);
  }

  lemma OtherEvent(first: bool, value: Option<nat>, rows: seq<Row>, h: seq<Event>, e: Event, k: Tracer)
    requires Agrees(first, value, rows, h, k) && e.tracer != k
    ensures !first ==> value.Some?
    ensures Agrees(first, value, if first then rows else rows + [Sample(e.time, value.value)], h + [e], k)
  {
    Grow(h, e);
  }

  function Lookup<T>(m: map<nat, T>, n: nat): Option<T> {
    if n in m then Some(m[n]) else None
  }

  /** All nodes' flags, values and streams of one tracer. */
  ghost predicate AllAgree(first: map<nat, bool>, values: map<nat, nat>, streams: map<nat, seq<Row>>,
                           history: map<nat, seq<Event>>, k: Tracer)
  {
    && history.Keys <= first.Keys && history.Keys <= streams.Keys
    && forall n :: n in history ==> Agrees(first[n], Lookup(values, n), streams[n], history[n], k)
  }

  lemma OwnUpdates(first: map<nat, bool>, values: map<nat, nat>, streams: map<nat, seq<Row>>,
                   history: map<nat, seq<Event>>, n: nat, e: Event)
    requires AllAgree(first, values, streams, history, e.tracer) && n in history
    ensures var rows := (if first[n] then streams[n] + [Initial(e.oldval)] else streams[n]) + [Sample(e.time, e.newval)];
            AllAgree(first[n := false], values[n := e.newval], streams[n := rows],
                     history[n := history[n] + [e]], e.tracer)
  {
    OwnEvent(first[n], Lookup(values, n), streams[n], history[n], e);
  }

  lemma OtherUpdates(first: map<nat, bool>, values: map<nat, nat>, streams: map<nat, seq<Row>>,
                     history: map<nat, seq<Event>>, n: nat, e: Event, k: Tracer)
    requires AllAgree(first, values, streams, history, k) && n in history && e.tracer != k
    ensures !first[n] ==> n in values
    ensures var next := if first[n] then streams else streams[n := streams[n] + [Sample(e.time, values[n])]];
            AllAgree(first, values, next, history[n := history[n] + [e]], k)
  {
    OtherEvent(first[n], Lookup(values, n), streams[n], history[n], e, k);
  }

  /** The global maps; `history` records the events of every registered node. */
  class Tracers {
    var firstCwnd: map<nat, bool>
    var firstSshThr: map<nat, bool>
    var cWndStream: map<nat, seq<Row>>
    var ssThreshStream: map<nat, seq<Row>>
    var cWndValue: map<nat, nat>
    var ssThreshValue: map<nat, nat>
    ghost var history: map<nat, seq<Event>>

    ghost predicate Valid()
      reads this
    {
      && AllAgree(firstCwnd, cWndValue, cWndStream, history, Cwnd)
      && AllAgree(firstSshThr, ssThreshValue, ssThreshStream, history, SsThresh)
    }

    /** Flags set and streams opened for the nodes of all flows. */
    constructor (nodes: set<nat>)
      ensures Valid() && history == map n | n in nodes :: []
    {
      firstCwnd := map n | n in nodes :: true;
      firstSshThr := map n | n in nodes :: true;
      cWndStream := map n | n in nodes :: [];
      ssThreshStream := map n | n in nodes :: [];
      cWndValue, ssThreshValue := map[], map[];
      history := map n | n in nodes :: [];
    }

    /** The tracer's own rows for its event `e` on node `n`. */
    method RecordCwnd(n: nat, now: nat, oldval: nat, newval: nat)
      requires n in history && AllAgree(firstCwnd, cWndValue, cWndStream, history, Cwnd)
      modifies this`firstCwnd, this`cWndValue, this`cWndStream
      ensures AllAgree(firstCwnd, cWndValue, cWndStream,
                       history[n := history[n] + [Event(Cwnd, now, oldval, newval)]], Cwnd)
    {
      OwnUpdates(firstCwnd, cWndValue, cWndStream, history, n, Event(Cwnd, now, oldval, newval));
      Overwrite(firstCwnd, cWndStream, n, oldval, Sample(now, newval));
      if firstCwnd[n] {
        cWndStream := cWndStream[n := cWndStream[n] + [Initial(oldval)]];
        firstCwnd := firstCwnd[n := false];
      }
      cWndStream := cWndStream[n := cWndStream[n] + [Sample(now, newval)]];
      cWndValue := cWndValue[n := newval];
    }

    /** The row repeating this tracer's value on an event `e` of the other one. */
    method MirrorCwnd(n: nat, ghost e: Event, now: nat)
      requires n in history && AllAgree(firstCwnd, cWndValue, cWndStream, history, Cwnd)
      requires e.tracer != Cwnd && e.time == now
      modifies this`cWndStream
      ensures AllAgree(firstCwnd, cWndValue, cWndStream, history[n := history[n] + [e]], Cwnd)
    {
      OtherUpdates(firstCwnd, cWndValue, cWndStream, history, n, e, Cwnd);
      if !firstCwnd[n] {
        cWndStream := cWndStream[n := cWndStream[n] + [Sample(now, cWndValue[n])]];
      }
    }

    /** The tracer's own rows for its event `e` on node `n`. */
    method RecordSsThresh(n: nat, now: nat, oldval: nat, newval: nat)
      requires n in history && AllAgree(firstSshThr, ssThreshValue, ssThreshStream, history, SsThresh)
      modifies this`firstSshThr, this`ssThreshValue, this`ssThreshStream
      ensures AllAgree(firstSshThr, ssThreshValue, ssThreshStream,
                       history[n := history[n] + [Event(SsThresh, now, oldval, newval)]], SsThresh)
    {
      OwnUpdates(firstSshThr, ssThreshValue, ssThreshStream, history, n, Event(SsThresh, now, oldval, newval));
      Overwrite(firstSshThr, ssThreshStream, n, oldval, Sample(now, newval));
      if firstSshThr[n] {
        ssThreshStream := ssThreshStream[n := ssThreshStream[n] + [Initial(oldval)]];
        firstSshThr := firstSshThr[n := false];
      }
      ssThreshStream := ssThreshStream[n := ssThreshStream[n] + [Sample(now, newval)]];
      ssThreshValue := ssThreshValue[n := newval];
    }

    /** The row repeating this tracer's value on an event `e` of the other one. */
    method MirrorSsThresh(n: nat, ghost e: Event, now: nat)
      requires n in history && AllAgree(firstSshThr, ssThreshValue, ssThreshStream, history, SsThresh)
      requires e.tracer != SsThresh && e.time == now
      modifies this`ssThreshStream
      ensures AllAgree(firstSshThr, ssThreshValue, ssThreshStream, history[n := history[n] + [e]], SsThresh)
    {
      OtherUpdates(firstSshThr, ssThreshValue, ssThreshStream, history, n, e, SsThresh);
      if !firstSshThr[n] {
        ssThreshStream := ssThreshStream[n := ssThreshStream[n] + [Sample(now, ssThreshValue[n])]];
      }
    }

    method CwndAt(n: nat, now: nat, oldval: nat, newval: nat)
      requires Valid() && n in history
      modifies this
      ensures Valid()
      ensures history == old(history)[n := old(history)[n] + [Event(Cwnd, now, oldval, newval)]]
    {
      ghost var e := Event(Cwnd, now, oldval, newval);
      RecordCwnd(n, now, oldval, newval);
      MirrorSsThresh(n, e, now);
      history := history[n := history[n] + [e]];
    }

    method CwndTracer(context: string, now: nat, oldval: nat, newval: nat)
      requires |context| < NO_POSITION && Valid()
      requires GetNodeIdFromContext(context).Some? && GetNodeIdFromContext(context).value in history
      modifies this
      ensures Valid()
      ensures var n := GetNodeIdFromContext(context).value;
              history == old(history)[n := old(history)[n] + [Event(Cwnd, now, oldval, newval)]]
    {
      CwndAt(GetNodeIdFromContext(context).value, now, oldval, newval);
    }

    method SsThreshAt(n: nat, now: nat, oldval: nat, newval: nat)
      requires Valid() && n in history
      modifies this
      ensures Valid()
      ensures history == old(history)[n := old(history)[n] + [Event(SsThresh, now, oldval, newval)]]
    {
      ghost var e := Event(SsThresh, now, oldval, newval);
      RecordSsThresh(n, now, oldval, newval);
      MirrorCwnd(n, e, now);
      history := history[n := history[n] + [e]];
    }

    method SsThreshTracer(context: string, now: nat, oldval: nat, newval: nat)
      requires |context| < NO_POSITION && Valid()
      requires GetNodeIdFromContext(context).Some? && GetNodeIdFromContext(context).value in history
      modifies this
      ensures Valid()
      ensures var n := GetNodeIdFromContext(context).value;
              history == old(history)[n := old(history)[n] + [Event(SsThresh, now, oldval, newval)]]
    {
      SsThreshAt(GetNodeIdFromContext(context).value, now, oldval, newval);
    }
  }

  /** Two appends to one stream are one, and a cleared flag stays as it is. */
  lemma Overwrite(first: map<nat, bool>, streams: map<nat, seq<Row>>, n: nat, oldval: nat, row: Row)
    requires n in first && n in streams
    ensures first[n] ==>
              var once := streams[n := streams[n] + [Initial(oldval)]];
              once[n := once[n] + [row]] == streams[n := streams[n] + [Initial(oldval)] + [row]]
    ensures !first[n] ==> first[n := false] == first
  {
  }
}
