/** Underserved-UE events: extracting them from the handover log, merging several
    sources, and moving their times to the nearest position-trace time. Times are
    exact reals. */
module EventAlignment {
  import opened Common

  /** A time in seconds. */
  datatype Time = Time(s: real)

  type Events = map<Time, set<string>>

  // ----- the log

  /** How a stripped line reads as a header. The number pattern also accepts text that
      `float` rejects. */
  datatype Head = NoHead | Head(time: Time, imsi: nat) | BadTime

  /** A line: header reading, and whether it mentions a failed or a successful attach. */
  datatype LogLine = LogLine(head: Head, failed: bool, attached: bool)

  predicate Quiet(l: LogLine) {
    l.head.NoHead? && !l.failed && !l.attached
  }

  /** Header `h` still waits for its outcome when the lines before `n` have been read. */
  ghost predicate Open(lines: seq<LogLine>, h: nat, n: nat) {
    && h < n <= |lines| && lines[h].head.Head?
    && forall k :: h < k < n ==> Quiet(lines[k])
  }

  /** Line `j` is the failure of header `h`. */
  ghost predicate Fails(lines: seq<LogLine>, h: nat, j: nat) {
    j < |lines| && Open(lines, h, j) && lines[j].head.NoHead? && lines[j].failed
  }

  /** The node is underserved at time `t`: a header with that time and its IMSI is
      followed by a failure with no header, failure or success in between. */
  ghost predicate Underserved(lines: seq<LogLine>, nodes: map<nat, string>, n: nat, t: Time, node: string) {
    exists h: nat, j: nat :: j < n && Fails(lines, h, j) && lines[h].head.time == t
      && lines[h].head.imsi in nodes && nodes[lines[h].head.imsi] == node
  }

  ghost predicate Lists(events: Events, t: Time, node: string) {
    t in events && node in events[t]
  }

  ghost predicate EventsOf(lines: seq<LogLine>, nodes: map<nat, string>, n: nat, events: Events) {
    && (forall t, node :: Lists(events, t, node) <==> Underserved(lines, nodes, n, t, node))
    && (forall t :: t in events ==> events[t] != {})
  }

  /** The parser's two variables point at the open header, if there is one. */
  ghost predicate Tracks(lines: seq<LogLine>, n: nat, current: Option<(Time, nat)>) {
    match current
    case None => forall h: nat :: !Open(lines, h, n)
    case Some(c) => exists h: nat :: OpenWith(lines, h, n, c)
  }

  ghost predicate OpenWith(lines: seq<LogLine>, h: nat, n: nat, c: (Time, nat)) {
    Open(lines, h, n) && lines[h].head == Head(c.0, c.1)
  }

  lemma OpenUnique(lines: seq<LogLine>, h: nat, k: nat, n: nat)
    requires Open(lines, h, n) && Open(lines, k, n)
    ensures h == k
  {
  }

  /** Each header yields at most one event. */
  lemma OneFailurePerHeader(lines: seq<LogLine>, h: nat, i: nat, j: nat)
    requires Fails(lines, h, i) && Fails(lines, h, j)
    ensures i == j
  {
  }

  lemma OpenStep(lines: seq<LogLine>, h: nat, n: nat)
    requires n < |lines|
    ensures Open(lines, h, n + 1) <==>
            (h == n && lines[n].head.Head?) || (Open(lines, h, n) && Quiet(lines[n]))
  {
  }

  lemma NothingOpen(lines: seq<LogLine>, n: nat)
    requires n < |lines| && !lines[n].head.Head?
    requires !Quiet(lines[n]) || forall h: nat :: !Open(lines, h, n)
    ensures Tracks(lines, n + 1, None)
  {
    var m := n + 1;
    forall h: nat ensures !Open(lines, h, m) {
      OpenStep(lines, h, n);
    }
  }

  lemma UnderservedStep(lines: seq<LogLine>, nodes: map<nat, string>, n: nat, t: Time, node: string)
    requires n < |lines|
    ensures Underserved(lines, nodes, n + 1, t, node) <==>
            || Underserved(lines, nodes, n, t, node)
            || (exists h: nat :: Fails(lines, h, n) && lines[h].head.time == t
                  && lines[h].head.imsi in nodes && nodes[lines[h].head.imsi] == node)
  {
    if Underserved(lines, nodes, n + 1, t, node) {
      var h: nat, j: nat :| j < n + 1 && Fails(lines, h, j) && lines[h].head.time == t
        && lines[h].head.imsi in nodes && nodes[lines[h].head.imsi] == node;
      if j == n {
        assert Fails(lines, h, n);
      }
    }
  }

  function AddEvent(events: Events, t: Time, node: string): Events {
    events[t := (if t in events then events[t] else {}) + {node}]
  }

  /** A line that is not the failure of a mapped header adds no event. */
  lemma NoNewEvent(lines: seq<LogLine>, nodes: map<nat, string>, n: nat, events: Events)
    requires n < |lines| && EventsOf(lines, nodes, n, events)
    requires forall h: nat :: Fails(lines, h, n) ==> lines[h].head.imsi !in nodes
    ensures EventsOf(lines, nodes, n + 1, events)
  {
    forall t, node ensures Lists(events, t, node) <==> Underserved(lines, nodes, n + 1, t, node) {
      UnderservedStep(lines, nodes, n, t, node);
    }
  }

  lemma NewEvent(lines: seq<LogLine>, nodes: map<nat, string>, n: nat, events: Events, h: nat)
    requires n < |lines| && EventsOf(lines, nodes, n, events)
    requires Fails(lines, h, n) && lines[h].head.imsi in nodes
    ensures EventsOf(lines, nodes, n + 1, AddEvent(events, lines[h].head.time, nodes[lines[h].head.imsi]))
  {
    var t0, node0 := lines[h].head.time, nodes[lines[h].head.imsi];
    var more := AddEvent(events, t0, node0);
    forall t, node ensures Lists(more, t, node) <==> Underserved(lines, nodes, n + 1, t, node) {
      UnderservedStep(lines, nodes, n, t, node);
      assert Lists(more, t, node) <==> Lists(events, t, node) || (t == t0 && node == node0);
      forall k: nat | Fails(lines, k, n) ensures k == h {
        OpenUnique(lines, h, k, n);
      }
    }
  }

  lemma TracksStep(lines: seq<LogLine>, n: nat, current: Option<(Time, nat)>)
    requires n < |lines| && Tracks(lines, n, current)
    ensures lines[n].head.Head? ==> Tracks(lines, n + 1, Some((lines[n].head.time, lines[n].head.imsi)))
    ensures !lines[n].head.Head? && Quiet(lines[n]) ==> Tracks(lines, n + 1, current)
    ensures !lines[n].head.Head? && (current.None? || !Quiet(lines[n])) ==> Tracks(lines, n + 1, None)
  {
    if lines[n].head.Head? {
      assert OpenWith(lines, n, n + 1, (lines[n].head.time, lines[n].head.imsi));
    } else if current.Some? && Quiet(lines[n]) {
      var h: nat :| OpenWith(lines, h, n, current.value);
      assert OpenWith(lines, h, n + 1, current.value);
    } else {
      NothingOpen(lines, n);
    }
  }

  /** The log loop finds exactly the underserved nodes, or stops at the first header
      whose time is not a number. */
  method ParseLogUnderservedEvents(lines: seq<LogLine>, nodes: map<nat, string>) returns (r: Result<Events, string>)
    ensures r.Success? <==> forall i :: 0 <= i < |lines| ==> !lines[i].head.BadTime?
    ensures r.Success? ==> EventsOf(lines, nodes, |lines|, r.value)
  {
    var events: Events := map[];
    var current: Option<(Time, nat)> := None;
    for i := 0 to |lines|
      invariant forall k :: 0 <= k < i ==> !lines[k].head.BadTime?
      invariant Tracks(lines, i, current) && EventsOf(lines, nodes, i, events)
    {
      var l := lines[i];
      TracksStep(lines, i, current);
      match l.head
      case BadTime =>
        return Failure("could not convert string to float");
      case Head(t, imsi) =>
        NoNewEvent(lines, nodes, i, events);
        current := Some((t, imsi));
      case NoHead =>
        if current.None? {
          NoNewEvent(lines, nodes, i, events);
        } else if l.failed {
          ghost var h: nat :| OpenWith(lines, h, i, current.value);
          if current.value.1 in nodes {
            NewEvent(lines, nodes, i, events, h);
            events := AddEvent(events, current.value.0, nodes[current.value.1]);
          } else {
            forall k: nat | Fails(lines, k, i) ensures lines[k].head.imsi !in nodes {
              OpenUnique(lines, h, k, i);
            }
            NoNewEvent(lines, nodes, i, events);
          }
          current := None;
        } else {
          NoNewEvent(lines, nodes, i, events);
          if l.attached {
            current := None;
          }
        }
    }
    return Success(events);
  }

  // ----- merging

  function Nodes(events: Events, t: Time): set<string> {
    if t in events then events[t] else {}
  }

  function Union(a: Events, b: Events): Events {
    map t | t in a.Keys + b.Keys :: Nodes(a, t) + Nodes(b, t)
  }

  /** All maps merged: a time is present when it is present in some map, with the
      union of the sets it has there. */
  function MergeAll(maps: seq<Events>): Events {
    if maps == [] then map[] else Union(MergeAll(maps[..|maps| - 1]), maps[|maps| - 1])
  }

  /** The keys of a dictionary in some iteration order. */
  ghost predicate Keys(m: Events, keys: seq<Time>) {
    Distinct(keys) && forall t :: t in keys <==> t in m
  }

  /** The entries of `mp` with key in `done` have been added to `before`. */
  ghost predicate Adding(before: Events, mp: Events, done: seq<Time>, out: Events) {
    && (forall t :: t in out <==> t in before || t in done)
    && (forall t :: t in out ==> out[t] == Nodes(before, t) + (if t in done then Nodes(mp, t) else {}))
  }

  lemma AddOne(before: Events, mp: Events, done: seq<Time>, out: Events, t: Time)
    requires Adding(before, mp, done, out) && t in mp
    ensures Adding(before, mp, done + [t], out[t := Nodes(out, t) + mp[t]])
  {
    var more := out[t := Nodes(out, t) + mp[t]];
    forall u | u in more
      ensures more[u] == Nodes(before, u) + (if u in done + [t] then Nodes(mp, u) else {})
    {
      if u != t {
        assert u in out;
      }
    }
  }

  lemma Added(before: Events, mp: Events, keys: seq<Time>, out: Events)
    requires Adding(before, mp, keys, out) && Keys(mp, keys)
    ensures out == Union(before, mp)
  {
    assert forall t :: t in out <==> t in before.Keys + mp.Keys;
  }

  /** The inner loop: the entries of one map are added, in any order. */
  method AddAll(before: Events, mp: Events, keys: seq<Time>) returns (out: Events)
    requires Keys(mp, keys)
    ensures out == Union(before, mp)
  {
    out := before;
    for i := 0 to |keys|
      invariant Adding(before, mp, keys[..i], out)
    {
      var t := keys[i];
      AddOne(before, mp, keys[..i], out, t);
      assert keys[..i + 1] == keys[..i] + [t];
      out := out[t := Nodes(out, t) + mp[t]];
    }
    assert keys[..|keys|] == keys;
    Added(before, mp, keys, out);
  }

  method MergeEventMaps(maps: seq<Events>, orders: seq<seq<Time>>) returns (out: Events)
    requires |orders| == |maps| && forall i :: 0 <= i < |maps| ==> Keys(maps[i], orders[i])
    ensures out == MergeAll(maps)
  {
    out := map[];
    for i := 0 to |maps|
      invariant out == MergeAll(maps[..i])
    {
      assert maps[..i + 1][..i] == maps[..i];
      out := AddAll(out, maps[i], orders[i]);
    }
    assert maps[..|maps|] == maps;
  }

  // ----- alignment

  function Distance(a: Time, b: Time): real {
    if a.s >= b.s then a.s - b.s else b.s - a.s
  }

  /** The closest of the times, the later one when two are equally close. */
  ghost predicate IsNearest(times: seq<Time>, t: Time, p: Time) {
    && p in times
    && forall q :: q in times ==> Distance(p, t) <= Distance(q, t) && (Distance(q, t) == Distance(p, t) ==> q.s <= p.s)
  }

  lemma NearestUnique(times: seq<Time>, t: Time, p: Time, q: Time)
    requires IsNearest(times, t, p) && IsNearest(times, t, q)
    ensures p == q
  {
  }

  ghost function Nearest(times: seq<Time>, t: Time): (p: Time)
    requires times != []
    ensures IsNearest(times, t, p)
  {
    if |times| == 1 then times[0]
    else
      var x, p := times[0], Nearest(times[1..], t);
      assert times == [x] + times[1..];
      if Distance(x, t) < Distance(p, t) || (Distance(x, t) == Distance(p, t) && x.s > p.s) then x else p
  }

  ghost predicate Sorted(s: seq<Time>) {
    forall i, j :: 0 <= i < j < |s| ==> s[i].s <= s[j].s
  }

  /** `np.sort`. */
  method Sort(s: seq<Time>) returns (r: seq<Time>)
    ensures Sorted(r) && |r| == |s| && forall x :: x in r <==> x in s
  {
    r := [];
    for i := 0 to |s|
      invariant Sorted(r) && |r| == i
      invariant forall x :: x in r <==> x in s[..i]
    {
      var k := 0;
      while k < |r| && r[k].s <= s[i].s
        invariant 0 <= k <= |r|
        invariant forall j :: 0 <= j < k ==> r[j].s <= s[i].s
      {
        k := k + 1;
      }
      InsertTime(r, k, s[i]);
      assert s[..i + 1] == s[..i] + [s[i]];
      r := r[..k] + [s[i]] + r[k..];
    }
    assert s[..|s|] == s;
  }

  lemma InsertTime(r: seq<Time>, k: nat, x: Time)
    requires k <= |r| && Sorted(r)
    requires forall j :: 0 <= j < k ==> r[j].s <= x.s
    requires k < |r| ==> x.s < r[k].s
    ensures Sorted(r[..k] + [x] + r[k..])
    ensures forall y :: y in r[..k] + [x] + r[k..] <==> y == x || y in r
  {
    assert r == r[..k] + r[k..];
  }

  /** `np.searchsorted`: the first position whose element is not below `t`. */
  method SearchSorted(s: seq<Time>, t: Time) returns (k: nat)
    requires Sorted(s)
    ensures k <= |s|
    ensures forall i :: 0 <= i < k ==> s[i].s < t.s
    ensures forall i :: k <= i < |s| ==> s[i].s >= t.s
  {
    var lo, hi := 0, |s|;
    while lo < hi
      invariant 0 <= lo <= hi <= |s|
      invariant forall i :: 0 <= i < lo ==> s[i].s < t.s
      invariant forall i :: hi <= i < |s| ==> s[i].s >= t.s
    {
      var mid := (lo + hi) / 2;
      if s[mid].s < t.s {
        lo := mid + 1;
      } else {
        hi := mid;
      }
    }
    k := lo;
  }

  /** The nearest time, looked for only at the insertion point and before it. */
  method NearestCandidate(sorted: seq<Time>, t: Time) returns (p: Time)
    requires Sorted(sorted) && sorted != []
    ensures IsNearest(sorted, t, p)
  {
    var k := SearchSorted(sorted, t);
    if k < |sorted| {
      p := sorted[k];
      if k > 0 && Distance(sorted[k - 1], t) < Distance(p, t) {
        p := sorted[k - 1];
      }
    } else {
      p := sorted[k - 1];
    }
    forall q | q in sorted
      ensures Distance(p, t) <= Distance(q, t) && (Distance(q, t) == Distance(p, t) ==> q.s <= p.s)
    {
      var i :| 0 <= i < |sorted| && sorted[i] == q;
      if i < k {
        assert q.s <= sorted[k - 1].s < t.s;
      } else {
        assert t.s <= sorted[k].s <= q.s;
      }
    }
  }

  lemma SameMembersSameNearest(a: seq<Time>, b: seq<Time>, t: Time, p: Time)
    requires forall x :: x in a <==> x in b
    requires IsNearest(a, t, p)
    ensures IsNearest(b, t, p)
  {
  }

  /** An event is kept when its nearest time is close enough, and goes to that time. */
  ghost predicate KeptEvent(times: seq<Time>, maxGap: real, t: Time)
    requires times != []
  {
    Distance(Nearest(times, t), t) <= maxGap
  }

  ghost predicate GoesTo(times: seq<Time>, maxGap: real, t: Time, p: Time)
    requires times != []
  {
    KeptEvent(times, maxGap, t) && Nearest(times, t) == p
  }

  /** The aligned form of a set of events, whatever their order: a position time is
      present when some kept event goes to it, and lists the nodes of those events. */
  ghost predicate AlignsTo(events: Events, times: seq<Time>, maxGap: real, aligned: Events)
    requires times != []
  {
    && (forall p :: p in aligned <==> exists t :: t in events && GoesTo(times, maxGap, t, p))
    && (forall p, n :: Lists(aligned, p, n) <==> exists t :: Lists(events, t, n) && GoesTo(times, maxGap, t, p))
  }

  lemma SameTimes(events: Events, times: seq<Time>, maxGap: real, a: Events, b: Events, p: Time)
    requires times != [] && AlignsTo(events, times, maxGap, a) && AlignsTo(events, times, maxGap, b)
    ensures p in a <==> p in b
  {
  }

  lemma SameSet(events: Events, times: seq<Time>, maxGap: real, a: Events, b: Events, p: Time)
    requires times != [] && AlignsTo(events, times, maxGap, a) && AlignsTo(events, times, maxGap, b)
    requires p in a && p in b
    ensures a[p] == b[p]
  {
    forall n ensures n in a[p] <==> n in b[p] {
      assert Lists(a, p, n) <==> exists t :: Lists(events, t, n) && GoesTo(times, maxGap, t, p);
      assert Lists(b, p, n) <==> exists t :: Lists(events, t, n) && GoesTo(times, maxGap, t, p);
    }
  }

  lemma SameMaps(a: Events, b: Events)
    requires forall p :: p in a <==> p in b
    requires forall p :: p in a ==> a[p] == b[p]
    ensures a == b
  {
  }

  /** The aligned map is determined by the events, not by the order of the loop. */
  lemma AlignedUnique(events: Events, times: seq<Time>, maxGap: real, a: Events, b: Events)
    requires times != [] && AlignsTo(events, times, maxGap, a) && AlignsTo(events, times, maxGap, b)
    ensures a == b
  {
    forall p ensures p in a <==> p in b {
      SameTimes(events, times, maxGap, a, b, p);
    }
    forall p | p in a ensures a[p] == b[p] {
      SameSet(events, times, maxGap, a, b, p);
    }
    SameMaps(a, b);
  }

  lemma ListsUnion(a: Events, b: Events, t: Time, n: string)
    ensures Lists(Union(a, b), t, n) <==> Lists(a, t, n) || Lists(b, t, n)
    ensures t in Union(a, b) <==> t in a || t in b
  {
  }

  lemma AlignUnion(x: Events, y: Events, times: seq<Time>, maxGap: real, a: Events, b: Events)
    requires times != [] && AlignsTo(x, times, maxGap, a) && AlignsTo(y, times, maxGap, b)
    ensures AlignsTo(Union(x, y), times, maxGap, Union(a, b))
  {
    forall p ensures p in Union(a, b) <==> exists t :: t in Union(x, y) && GoesTo(times, maxGap, t, p) {
      assert p in Union(a, b) <==> p in a || p in b;
      assert forall t :: t in Union(x, y) <==> t in x || t in y;
    }
    forall p, n
      ensures Lists(Union(a, b), p, n) <==> exists t :: Lists(Union(x, y), t, n) && GoesTo(times, maxGap, t, p)
    {
      ListsUnion(a, b, p, n);
      forall t ensures Lists(Union(x, y), t, n) <==> Lists(x, t, n) || Lists(y, t, n) {
        ListsUnion(x, y, t, n);
      }
    }
  }

  /** Aligning a merge gives the merge of the aligned maps. */
  lemma {:induction false} AlignDistributes(maps: seq<Events>, aligned: seq<Events>, times: seq<Time>, maxGap: real)
    requires times != [] && |aligned| == |maps|
    requires forall i :: 0 <= i < |maps| ==> AlignsTo(maps[i], times, maxGap, aligned[i])
    ensures AlignsTo(MergeAll(maps), times, maxGap, MergeAll(aligned))
  {
    if maps != [] {
      var n := |maps| - 1;
      AlignDistributes(maps[..n], aligned[..n], times, maxGap);
      AlignUnion(MergeAll(maps[..n]), maps[n], times, maxGap, MergeAll(aligned[..n]), aligned[n]);
    }
  }

  // ----- the alignment loop

  /** The number of node events at the given times. */
  function NodeEvents(events: Events, keys: seq<Time>): nat {
    if keys == [] then 0
    else NodeEvents(events, keys[..|keys| - 1]) + |Nodes(events, keys[|keys| - 1])|
  }

  ghost function KeptKeys(times: seq<Time>, maxGap: real, keys: seq<Time>): (r: seq<Time>)
    requires times != []
    ensures forall t :: t in r <==> t in keys && KeptEvent(times, maxGap, t)
  {
    if keys == [] then []
    else
      var n := |keys| - 1;
      assert keys == keys[..n] + [keys[n]];
      KeptKeys(times, maxGap, keys[..n]) + (if KeptEvent(times, maxGap, keys[n]) then [keys[n]] else [])
  }

  /** What the loop has done after the events at `done`. */
  ghost predicate Aligning(events: Events, times: seq<Time>, maxGap: real, done: seq<Time>,
                           aligned: Events, dropped: nat, gap: real)
    requires times != []
  {
    && AlignsTo(Restrict(events, done), times, maxGap, aligned)
    && dropped + NodeEvents(events, KeptKeys(times, maxGap, done)) == NodeEvents(events, done)
    && gap >= 0.0 && (forall t :: t in done ==> Distance(Nearest(times, t), t) <= gap)
    && (gap == 0.0 || exists t :: t in done && Distance(Nearest(times, t), t) == gap)
  }

  function Restrict(events: Events, keys: seq<Time>): Events {
    map t | t in events && t in keys :: events[t]
  }

  lemma RestrictSnoc(events: Events, done: seq<Time>, t: Time)
    requires t in events
    ensures Restrict(events, done + [t]) == Restrict(events, done)[t := events[t]]
  {
  }

  lemma AlignDropped(events: Events, times: seq<Time>, maxGap: real, t: Time, nodes: set<string>, aligned: Events)
    requires times != [] && AlignsTo(events, times, maxGap, aligned) && t !in events
    requires !KeptEvent(times, maxGap, t)
    ensures AlignsTo(events[t := nodes], times, maxGap, aligned)
  {
    var more := events[t := nodes];
    forall p ensures p in aligned <==> exists u :: u in more && GoesTo(times, maxGap, u, p) {
      if u :| u in events && GoesTo(times, maxGap, u, p) {
        assert u in more;
      }
    }
    forall p, n ensures Lists(aligned, p, n) <==> exists u :: Lists(more, u, n) && GoesTo(times, maxGap, u, p) {
      if u :| Lists(events, u, n) && GoesTo(times, maxGap, u, p) {
        assert Lists(more, u, n);
      }
      if u :| Lists(more, u, n) && GoesTo(times, maxGap, u, p) {
        assert Lists(events, u, n);
      }
    }
  }

  lemma AlignKept(events: Events, times: seq<Time>, maxGap: real, t: Time, nodes: set<string>, aligned: Events, p: Time)
    requires times != [] && AlignsTo(events, times, maxGap, aligned) && t !in events
    requires GoesTo(times, maxGap, t, p)
    ensures AlignsTo(events[t := nodes], times, maxGap, aligned[p := Nodes(aligned, p) + nodes])
  {
    var one: Events := map[t := nodes];
    var target: Events := map[p := nodes];
    assert AlignsTo(one, times, maxGap, target) by {
      forall q ensures q in target <==> exists u :: u in one && GoesTo(times, maxGap, u, q) {
        assert t in one;
      }
      forall q, n ensures Lists(target, q, n) <==> exists u :: Lists(one, u, n) && GoesTo(times, maxGap, u, q) {
        if Lists(target, q, n) {
          assert Lists(one, t, n);
        }
      }
    }
    AlignUnion(events, one, times, maxGap, aligned, target);
    UnionOne(events, t, nodes);
    assert {} + nodes == nodes;
    UnionOne(aligned, p, nodes);
  }

  lemma UnionOne(events: Events, t: Time, nodes: set<string>)
    ensures Union(events, map[t := nodes]) == events[t := Nodes(events, t) + nodes]
  {
    var one: Events := map[t := nodes];
    forall u | u in events && u != t ensures Union(events, one)[u] == events[u] {
      assert events[u] + {} == events[u];
    }
    assert Union(events, one).Keys == events.Keys + {t};
  }

  lemma DoneStep(events: Events, times: seq<Time>, maxGap: real, done: seq<Time>, t: Time)
    requires times != [] && t in events
    ensures NodeEvents(events, done + [t]) == NodeEvents(events, done) + |events[t]|
    ensures KeptKeys(times, maxGap, done + [t]) ==
            KeptKeys(times, maxGap, done) + (if KeptEvent(times, maxGap, t) then [t] else [])
    ensures NodeEvents(events, KeptKeys(times, maxGap, done + [t])) ==
            NodeEvents(events, KeptKeys(times, maxGap, done)) + (if KeptEvent(times, maxGap, t) then |events[t]| else 0)
  {
    var all := done + [t];
    assert all[..|all| - 1] == done;
    var kept := KeptKeys(times, maxGap, done);
    if KeptEvent(times, maxGap, t) {
      assert (kept + [t])[..|kept|] == kept;
    } else {
      assert kept + [] == kept;
    }
  }

  lemma AligningStep(events: Events, times: seq<Time>, maxGap: real, done: seq<Time>, t: Time,
                     aligned: Events, dropped: nat, gap: real)
    requires times != [] && t in events && t !in done
    requires Aligning(events, times, maxGap, done, aligned, dropped, gap)
    ensures var p := Nearest(times, t);
            var d := Distance(p, t);
            Aligning(events, times, maxGap, done + [t],
                     if d > maxGap then aligned else aligned[p := Nodes(aligned, p) + events[t]],
                     if d > maxGap then dropped + |events[t]| else dropped,
                     if d > gap then d else gap)
  {
    var p := Nearest(times, t);
    DoneStep(events, times, maxGap, done, t);
    RestrictSnoc(events, done, t);
    if Distance(p, t) > maxGap {
      AlignDropped(Restrict(events, done), times, maxGap, t, events[t], aligned);
    } else {
      AlignKept(Restrict(events, done), times, maxGap, t, events[t], aligned, p);
    }
    if gap > 0.0 && Distance(p, t) <= gap {
      var u :| u in done && Distance(Nearest(times, u), u) == gap;
      assert u in done + [t];
    }
    assert t in done + [t];
  }

  lemma AligningStart(events: Events, times: seq<Time>, maxGap: real)
    requires times != []
    ensures Aligning(events, times, maxGap, [], map[], 0, 0.0)
  {
    assert Restrict(events, []) == map[];
  }

  lemma NextKey(events: Events, keys: seq<Time>, i: nat)
    requires Keys(events, keys) && i <= |keys|
    ensures i < |keys| ==> keys[..i + 1] == keys[..i] + [keys[i]] && keys[i] !in keys[..i] && keys[i] in events
    ensures keys[..|keys|] == keys && Restrict(events, keys) == events
  {
  }

  method NearestPosition(sorted: seq<Time>, ghost times: seq<Time>, t: Time) returns (p: Time)
    requires Sorted(sorted) && sorted != [] && times != [] && forall x :: x in sorted <==> x in times
    ensures p == Nearest(times, t)
  {
    p := NearestCandidate(sorted, t);
    SameMembersSameNearest(sorted, times, t, p);
    NearestUnique(times, t, p, Nearest(times, t));
  }

  lemma {:induction false} KeysCount(m: Events, keys: seq<Time>)
    requires Keys(m, keys)
    ensures |keys| == |m|
  {
    SetOfKeys(keys);
    assert (set t | t in keys) == m.Keys;
  }

  lemma {:induction false} SetOfKeys(keys: seq<Time>)
    requires Distinct(keys)
    ensures |set t | t in keys| == |keys|
  {
    if keys != [] {
      var n := |keys| - 1;
      SetOfKeys(keys[..n]);
      assert keys == keys[..n] + [keys[n]];
      assert (set t | t in keys) == (set t | t in keys[..n]) + {keys[n]};
    }
  }

  datatype Stats = Stats(rawEventTimes: nat, alignedEventTimes: nat, droppedNodeEvents: nat,
                         maxObservedGap: real, maxAllowedGap: real)

  /** One round of the loop. */
  method AlignOne(events: Events, sorted: seq<Time>, maxGap: real, t: Time, aligned: Events, dropped: nat, gap: real,
                  ghost times: seq<Time>, ghost done: seq<Time>)
    returns (aligned': Events, dropped': nat, gap': real)
    requires Sorted(sorted) && sorted != [] && times != [] && (forall x :: x in sorted <==> x in times)
    requires t in events && t !in done && Aligning(events, times, maxGap, done, aligned, dropped, gap)
    ensures Aligning(events, times, maxGap, done + [t], aligned', dropped', gap') && |aligned'| <= |aligned| + 1
  {
    AligningStep(events, times, maxGap, done, t, aligned, dropped, gap);
    var p := NearestPosition(sorted, times, t);
    var d := Distance(p, t);
    gap' := if d > gap then d else gap;
    if d > maxGap {
      aligned', dropped' := aligned, dropped + |events[t]|;
    } else {
      aligned', dropped' := aligned[p := Nodes(aligned, p) + events[t]], dropped;
    }
  }

  /** Every kept event goes to the nearest of all position times, the later one on a
      tie; kept and dropped node events add up to the raw ones; the largest gap is
      over all events, dropped ones included. */
  method AlignEventsToPositionTimes(events: Events, keys: seq<Time>, positionTimes: seq<Time>, maxGap: real)
    returns (r: Result<(Events, Stats), string>)
    requires Keys(events, keys)
    ensures r.Failure? <==> positionTimes == []
    ensures r.Success? ==>
              Aligning(events, positionTimes, maxGap, keys, r.value.0, r.value.1.droppedNodeEvents, r.value.1.maxObservedGap)
              && Restrict(events, keys) == events
    ensures r.Success? ==>
              && r.value.1.rawEventTimes == |events| && r.value.1.alignedEventTimes == |r.value.0|
              && r.value.1.maxAllowedGap == maxGap && r.value.1.alignedEventTimes <= r.value.1.rawEventTimes
  {
    if |positionTimes| == 0 {
      return Failure("No position trace times are available for event alignment.");
    }
    var sorted := Sort(positionTimes);
    var aligned: Events := map[];
    var dropped: nat, maxObserved := 0, 0.0;
    AligningStart(events, positionTimes, maxGap);
    for i := 0 to |keys|
      invariant Aligning(events, positionTimes, maxGap, keys[..i], aligned, dropped, maxObserved)
      invariant |aligned| <= i
    {
      NextKey(events, keys, i);
      aligned, dropped, maxObserved :=
        AlignOne(events, sorted, maxGap, keys[i], aligned, dropped, maxObserved, positionTimes, keys[..i]);
    }
    NextKey(events, keys, |keys|);
    KeysCount(events, keys);
    return Success((aligned, Stats(|events|, |aligned|, dropped, maxObserved, maxGap)));
  }

  // ----- what alignment does, in seconds

  /** `p` is the position time at the least distance from `t`, the later one on a tie. */
  ghost predicate Closest(times: seq<Time>, t: Time, p: Time) {
    && p in times
    && forall q :: q in times ==> Abs(p.s - t.s) < Abs(q.s - t.s) || (Abs(p.s - t.s) == Abs(q.s - t.s) && q.s <= p.s)
  }

  lemma ClosestIff(times: seq<Time>, t: Time, p: Time)
    requires times != []
    ensures Nearest(times, t) == p <==> Closest(times, t, p)
    ensures Distance(p, t) == Abs(p.s - t.s)
  {
    forall q: Time ensures Distance(q, t) == Abs(q.s - t.s) {
    }
    assert Closest(times, t, p) <==> IsNearest(times, t, p);
    if IsNearest(times, t, p) {
      NearestUnique(times, t, p, Nearest(times, t));
    }
  }

  /** A node is listed at a position time exactly when it is listed at an event time to which
      that is the closest position time, and the two are no further apart than allowed. */
  lemma AlignedMeans(events: Events, times: seq<Time>, maxGap: real, aligned: Events, p: Time, node: string)
    requires times != [] && AlignsTo(events, times, maxGap, aligned)
    ensures Lists(aligned, p, node) <==>
            exists t :: Lists(events, t, node) && Closest(times, t, p) && Abs(p.s - t.s) <= maxGap
  {
    forall t: Time ensures GoesTo(times, maxGap, t, p) <==> Closest(times, t, p) && Abs(p.s - t.s) <= maxGap {
      ClosestIff(times, t, p);
    }
  }

  /** The reported gap is the largest distance of an event from its closest position time. */
  lemma ObservedGapMeans(events: Events, times: seq<Time>, maxGap: real, keys: seq<Time>, aligned: Events, dropped: nat, gap: real)
    requires times != [] && Keys(events, keys) && Aligning(events, times, maxGap, keys, aligned, dropped, gap)
    ensures forall t, p :: t in events && Closest(times, t, p) ==> Abs(p.s - t.s) <= gap
    ensures gap == 0.0 || exists t, p :: t in events && Closest(times, t, p) && Abs(p.s - t.s) == gap
  {
    forall t, p | t in events && Closest(times, t, p) ensures Abs(p.s - t.s) <= gap {
      ClosestIff(times, t, p);
    }
    if gap != 0.0 {
      var t :| t in keys && Distance(Nearest(times, t), t) == gap;
      ClosestIff(times, t, Nearest(times, t));
    }
  }
}
