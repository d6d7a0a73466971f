/** Simple walks in a finite labelled multigraph, and the depth-first traversal
    that lists them while keeping a stack of types and a stack of labels. */
module SimpleWalks {
  import opened Common

  type TypeId = nat

  datatype Edge = Edge(tag: string, target: TypeId)

  /** The out-edges of every type, parallel edges included. */
  type Net = seq<seq<Edge>>

  /** One line of the gathered output: a type and a configuration path leading to it. */
  datatype Entry = Entry(tid: TypeId, path: string)

  ghost predicate InRange(n: nat, es: seq<Edge>) {
    forall i :: 0 <= i < |es| ==> es[i].target < n
  }

  ghost predicate Closed(g: Net) {
    forall t :: 0 <= t < |g| ==> InRange(|g|, g[t])
  }

  // ----- what the traversal appends, as a function of the two stacks

  /** The slash-joined form of a label stack. */
  function Join(labels: seq<string>): string {
    if labels == [] then ""
    else
      var n := |labels| - 1;
      Join(labels[..n]) + "/" + labels[n]
  }

  function Unvisited(g: Net, stack: seq<TypeId>): set<TypeId> {
    set t | 0 <= t < |g| && t !in stack
  }

  lemma PushShrinks(g: Net, stack: seq<TypeId>, t: TypeId)
    requires t < |g| && t !in stack
    ensures |Unvisited(g, stack + [t])| < |Unvisited(g, stack)|
  {
    assert Unvisited(g, stack + [t]) == Unvisited(g, stack) - {t};
  }

  function Trace(g: Net, t: TypeId, stack: seq<TypeId>, path: seq<string>): seq<Entry>
    requires Closed(g) && t < |g|
    decreases |Unvisited(g, stack)|, 0
  {
    if t in stack then []
    else
      PushShrinks(g, stack, t);
      [Entry(t, Join(path))] + TraceEdges(g, g[t], stack + [t], path)
  }

  function TraceEdges(g: Net, es: seq<Edge>, stack: seq<TypeId>, path: seq<string>): seq<Entry>
    requires Closed(g) && InRange(|g|, es)
    decreases |Unvisited(g, stack)|, |es|
  {
    if es == [] then []
    else
      var n := |es| - 1;
      TraceEdges(g, es[..n], stack, path) + Trace(g, es[n].target, stack, path + [es[n].tag])
  }

  lemma TraceSnoc(g: Net, es: seq<Edge>, e: Edge, stack: seq<TypeId>, path: seq<string>)
    requires Closed(g) && InRange(|g|, es) && e.target < |g|
    ensures InRange(|g|, es + [e])
    ensures TraceEdges(g, es + [e], stack, path) ==
            TraceEdges(g, es, stack, path) + Trace(g, e.target, stack, path + [e.tag])
  {
    var all := es + [e];
    assert all[..|all| - 1] == es;
    assert all[|all| - 1] == e;
  }

  /** Following one more edge appends that edge's trace to an output list. */
  lemma TraceGrows(g: Net, out: seq<Entry>, es: seq<Edge>, e: Edge, stack: seq<TypeId>, path: seq<string>)
    requires Closed(g) && InRange(|g|, es) && e.target < |g|
    ensures InRange(|g|, es + [e])
    ensures out + TraceEdges(g, es + [e], stack, path) ==
            out + TraceEdges(g, es, stack, path) + Trace(g, e.target, stack, path + [e.tag])
  {
    TraceSnoc(g, es, e, stack, path);
  }

  lemma {:induction false} TraceConcat(g: Net, es: seq<Edge>, fs: seq<Edge>, n: nat, stack: seq<TypeId>, path: seq<string>)
    requires Closed(g) && InRange(|g|, es) && InRange(|g|, fs) && n <= |fs|
    ensures InRange(|g|, es + fs[..n]) && InRange(|g|, fs[..n])
    ensures TraceEdges(g, es + fs[..n], stack, path) ==
            TraceEdges(g, es, stack, path) + TraceEdges(g, fs[..n], stack, path)
  {
    if n == 0 {
      assert es + fs[..0] == es;
    } else {
      TraceConcat(g, es, fs, n - 1, stack, path);
      var f, init := fs[n - 1], fs[..n - 1];
      assert fs[..n] == init + [f];
      assert es + fs[..n] == es + init + [f];
      TraceSnoc(g, es + init, f, stack, path);
      TraceGrows(g, TraceEdges(g, es, stack, path), init, f, stack, path);
    }
  }

  /** A visit whose out-edges are followed in three groups. */
  lemma TraceInThree(g: Net, t: TypeId, xs: seq<Edge>, ys: seq<Edge>, zs: seq<Edge>,
                     stack: seq<TypeId>, path: seq<string>, out: seq<Entry>)
    requires Closed(g) && t < |g| && t !in stack && g[t] == xs + ys + zs
    requires InRange(|g|, xs) && InRange(|g|, ys) && InRange(|g|, zs)
    ensures out + Trace(g, t, stack, path) ==
            out + [Entry(t, Join(path))] + TraceEdges(g, xs, stack + [t], path) +
            TraceEdges(g, ys, stack + [t], path) + TraceEdges(g, zs, stack + [t], path)
  {
    var e, deeper := Entry(t, Join(path)), stack + [t];
    TraceConcat(g, xs, ys, |ys|, deeper, path);
    TraceConcat(g, xs + ys, zs, |zs|, deeper, path);
    assert ys[..|ys|] == ys && zs[..|zs|] == zs;
    Regroup(out, [e], TraceEdges(g, xs, deeper, path), TraceEdges(g, ys, deeper, path),
            TraceEdges(g, zs, deeper, path));
  }

  lemma Regroup<T>(a: seq<T>, b: seq<T>, c: seq<T>, d: seq<T>, e: seq<T>)
    ensures a + (b + (c + d + e)) == a + b + c + d + e
  {
  }

  // ----- the independent reading: simple walks, as sequences of edge indices

  type Walk = seq<nat>

  predicate IsWalk(g: Net, t: TypeId, w: Walk)
    requires Closed(g) && t < |g|
    decreases |w|
  {
    w == [] || (w[0] < |g[t]| && IsWalk(g, g[t][w[0]].target, w[1..]))
  }

  /** The types met along a walk, the start included. */
  function Visits(g: Net, t: TypeId, w: Walk): (ts: seq<TypeId>)
    requires Closed(g) && t < |g| && IsWalk(g, t, w)
    ensures |ts| == |w| + 1 && ts[0] == t
    ensures forall i :: 0 <= i < |ts| ==> ts[i] < |g|
    decreases |w|
  {
    if w == [] then [t] else [t] + Visits(g, g[t][w[0]].target, w[1..])
  }

  function Labels(g: Net, t: TypeId, w: Walk): (ls: seq<string>)
    requires Closed(g) && t < |g| && IsWalk(g, t, w)
    ensures |ls| == |w|
    decreases |w|
  {
    if w == [] then []
    else [g[t][w[0]].tag] + Labels(g, g[t][w[0]].target, w[1..])
  }

  function End(g: Net, t: TypeId, w: Walk): (e: TypeId)
    requires Closed(g) && t < |g| && IsWalk(g, t, w)
    ensures e < |g|
  {
    Visits(g, t, w)[|w|]
  }

  /** A walk whose types are pairwise different and not among those already on the stack. */
  ghost predicate Simple(g: Net, t: TypeId, w: Walk, stack: seq<TypeId>)
    requires Closed(g) && t < |g|
  {
    IsWalk(g, t, w) && Distinct(stack + Visits(g, t, w))
  }

  function Prefixed(i: nat, ws: seq<Walk>): (r: seq<Walk>)
    ensures |r| == |ws|
  {
    seq(|ws|, k requires 0 <= k < |ws| => [i] + ws[k])
  }

  function Walks(g: Net, t: TypeId, stack: seq<TypeId>): seq<Walk>
    requires Closed(g) && t < |g|
    decreases |Unvisited(g, stack)|, 0
  {
    if t in stack then []
    else
      PushShrinks(g, stack, t);
      [[]] + WalksVia(g, t, |g[t]|, stack + [t])
  }

  function WalksVia(g: Net, t: TypeId, n: nat, stack: seq<TypeId>): seq<Walk>
    requires Closed(g) && t < |g| && n <= |g[t]|
    decreases |Unvisited(g, stack)|, n
  {
    if n == 0 then []
    else WalksVia(g, t, n - 1, stack) + Prefixed(n - 1, Walks(g, g[t][n - 1].target, stack))
  }

  lemma PrefixedMember(i: nat, ws: seq<Walk>, w: Walk)
    ensures w in Prefixed(i, ws) <==> w != [] && w[0] == i && w[1..] in ws
  {
    if w in Prefixed(i, ws) {
      var k :| 0 <= k < |ws| && Prefixed(i, ws)[k] == w;
      assert w[1..] == ws[k];
    }
    if w != [] && w[0] == i && w[1..] in ws {
      var k :| 0 <= k < |ws| && ws[k] == w[1..];
      assert Prefixed(i, ws)[k] == w;
    }
  }

  lemma StackedNotSimple(g: Net, t: TypeId, stack: seq<TypeId>, w: Walk)
    requires Closed(g) && t < |g| && t in stack
    ensures !Simple(g, t, w, stack)
  {
    if IsWalk(g, t, w) {
      var k :| 0 <= k < |stack| && stack[k] == t;
      var s := stack + Visits(g, t, w);
      assert s[k] == s[|stack|];
    }
  }

  /** A walk is simple when it ends at once, or its rest is simple with `t` on the stack. */
  lemma SimpleStep(g: Net, t: TypeId, stack: seq<TypeId>, w: Walk)
    requires Closed(g) && t < |g| && t !in stack && Distinct(stack)
    ensures Simple(g, t, w, stack) <==>
            w == [] || (w[0] < |g[t]| && Simple(g, g[t][w[0]].target, w[1..], stack + [t]))
  {
    if w == [] {
      assert Visits(g, t, w) == [t];
    } else if IsWalk(g, t, w) {
      var tail := Visits(g, g[t][w[0]].target, w[1..]);
      assert stack + Visits(g, t, w) == stack + [t] + tail;
    }
  }

  /** The enumeration is sound and complete: it lists exactly the simple walks. */
  lemma {:induction false} WalksExact(g: Net, t: TypeId, stack: seq<TypeId>, w: Walk)
    requires Closed(g) && t < |g| && Distinct(stack)
    ensures w in Walks(g, t, stack) <==> Simple(g, t, w, stack)
    decreases |Unvisited(g, stack)|, 0
  {
    if t in stack {
      StackedNotSimple(g, t, stack, w);
    } else {
      PushShrinks(g, stack, t);
      var rest := WalksVia(g, t, |g[t]|, stack + [t]);
      WalksViaExact(g, t, |g[t]|, stack + [t], w);
      SimpleStep(g, t, stack, w);
      if w == [] {
        assert ([[]] + rest)[0] == w;
      } else {
        assert w in [[]] + rest <==> w in rest;
      }
    }
  }

  lemma {:induction false} WalksViaExact(g: Net, t: TypeId, n: nat, stack: seq<TypeId>, w: Walk)
    requires Closed(g) && t < |g| && n <= |g[t]| && Distinct(stack)
    ensures w in WalksVia(g, t, n, stack) <==>
            w != [] && w[0] < n && Simple(g, g[t][w[0]].target, w[1..], stack)
    decreases |Unvisited(g, stack)|, n
  {
    if n > 0 {
      WalksViaExact(g, t, n - 1, stack, w);
      var ws := Walks(g, g[t][n - 1].target, stack);
      PrefixedMember(n - 1, ws, w);
      if w != [] && w[0] == n - 1 {
        WalksExact(g, g[t][n - 1].target, stack, w[1..]);
      }
    }
  }

  /** Lexicographic order on walks, a proper prefix coming first. */
  predicate LexLess(a: Walk, b: Walk) {
    b != [] && (a == [] || a[0] < b[0] || (a[0] == b[0] && LexLess(a[1..], b[1..])))
  }

  ghost predicate LexSorted(ws: seq<Walk>) {
    forall i, j :: 0 <= i < j < |ws| ==> LexLess(ws[i], ws[j])
  }

  lemma LexIrreflexive(a: Walk)
    ensures !LexLess(a, a)
  {
  }

  lemma {:induction false} WalksSorted(g: Net, t: TypeId, stack: seq<TypeId>)
    requires Closed(g) && t < |g|
    ensures LexSorted(Walks(g, t, stack))
    decreases |Unvisited(g, stack)|, 0
  {
    if t !in stack {
      PushShrinks(g, stack, t);
      WalksViaSorted(g, t, |g[t]|, stack + [t]);
    }
  }

  lemma {:induction false} WalksViaSorted(g: Net, t: TypeId, n: nat, stack: seq<TypeId>)
    requires Closed(g) && t < |g| && n <= |g[t]|
    ensures LexSorted(WalksVia(g, t, n, stack))
    ensures forall i :: 0 <= i < |WalksVia(g, t, n, stack)| ==>
              WalksVia(g, t, n, stack)[i] != [] && WalksVia(g, t, n, stack)[i][0] < n
    decreases |Unvisited(g, stack)|, n
  {
    if n > 0 {
      WalksViaSorted(g, t, n - 1, stack);
      WalksSorted(g, g[t][n - 1].target, stack);
      var ws := Walks(g, g[t][n - 1].target, stack);
      var ps := Prefixed(n - 1, ws);
      forall i, j | 0 <= i < j < |ps| ensures LexLess(ps[i], ps[j]) {
        assert ps[i][1..] == ws[i] && ps[j][1..] == ws[j];
      }
    }
  }

  /** The output line that belongs to a walk reached under label stack `path`. */
  function EntryOf(g: Net, t: TypeId, w: Walk, path: seq<string>): Entry
    requires Closed(g) && t < |g| && IsWalk(g, t, w)
  {
    Entry(End(g, t, w), Join(path + Labels(g, t, w)))
  }

  /** Line k of the traversal's output is the entry of walk k. */
  ghost predicate Matches(g: Net, t: TypeId, ws: seq<Walk>, path: seq<string>, out: seq<Entry>)
    requires Closed(g) && t < |g|
  {
    && |out| == |ws|
    && forall k :: 0 <= k < |ws| ==> IsWalk(g, t, ws[k]) && out[k] == EntryOf(g, t, ws[k], path)
  }

  lemma {:induction false} TraceMatches(g: Net, t: TypeId, stack: seq<TypeId>, path: seq<string>)
    requires Closed(g) && t < |g|
    ensures Matches(g, t, Walks(g, t, stack), path, Trace(g, t, stack, path))
    decreases |Unvisited(g, stack)|, 0
  {
    if t !in stack {
      PushShrinks(g, stack, t);
      var es := g[t];
      TraceEdgesMatches(g, t, |es|, stack + [t], path);
      assert es[..|es|] == es;
      assert path + Labels(g, t, []) == path;
    }
  }

  lemma {:induction false} TraceEdgesMatches(g: Net, t: TypeId, n: nat, stack: seq<TypeId>, path: seq<string>)
    requires Closed(g) && t < |g| && n <= |g[t]|
    ensures Matches(g, t, WalksVia(g, t, n, stack), path, TraceEdges(g, g[t][..n], stack, path))
    decreases |Unvisited(g, stack)|, n
  {
    if n > 0 {
      var es := g[t];
      var e := es[n - 1];
      TraceEdgesMatches(g, t, n - 1, stack, path);
      TraceMatches(g, e.target, stack, path + [e.tag]);
      PrefixedMatches(g, t, n - 1, Walks(g, e.target, stack), path, Trace(g, e.target, stack, path + [e.tag]));
      assert es[..n] == es[..n - 1] + [e];
      TraceSnoc(g, es[..n - 1], e, stack, path);
    }
  }

  lemma PrefixedMatches(g: Net, t: TypeId, i: nat, ws: seq<Walk>, path: seq<string>, out: seq<Entry>)
    requires Closed(g) && t < |g| && i < |g[t]|
    requires Matches(g, g[t][i].target, ws, path + [g[t][i].tag], out)
    ensures Matches(g, t, Prefixed(i, ws), path, out)
  {
    forall k | 0 <= k < |ws|
      ensures IsWalk(g, t, [i] + ws[k]) && out[k] == EntryOf(g, t, [i] + ws[k], path)
    {
      StepInto(g, t, i, ws[k], path);
    }
  }

  lemma StepInto(g: Net, t: TypeId, i: nat, w: Walk, path: seq<string>)
    requires Closed(g) && t < |g| && i < |g[t]|
    requires IsWalk(g, g[t][i].target, w)
    ensures IsWalk(g, t, [i] + w)
    ensures EntryOf(g, t, [i] + w, path) ==
            EntryOf(g, g[t][i].target, w, path + [g[t][i].tag])
  {
    var e := g[t][i];
    assert ([i] + w)[1..] == w;
    assert path + Labels(g, t, [i] + w) == path + [e.tag] + Labels(g, e.target, w);
  }

  /** What one call `DoGather(root)` on empty stacks appends. */
  function Listing(g: Net, root: TypeId): seq<Entry>
    requires Closed(g) && root < |g|
  {
    Trace(g, root, [], [])
  }

  /** The listing has exactly one line per simple walk from the root: there is an
      enumeration of walks, duplicate-free because it is strictly increasing,
      whose members are the simple walks and whose k-th entry is line k. */
  lemma ListingEnumeratesSimpleWalks(g: Net, root: TypeId)
    requires Closed(g) && root < |g|
    ensures exists ws: seq<Walk> ::
              && Matches(g, root, ws, [], Listing(g, root))
              && LexSorted(ws) && Distinct(ws)
              && forall w :: w in ws <==> Simple(g, root, w, [])
  {
    var ws := Walks(g, root, []);
    TraceMatches(g, root, [], []);
    WalksSorted(g, root, []);
    forall i, j | 0 <= i < j < |ws| ensures ws[i] != ws[j] {
      LexIrreflexive(ws[i]);
    }
    forall w ensures w in ws <==> Simple(g, root, w, []) {
      WalksExact(g, root, [], w);
    }
    assert Matches(g, root, ws, [], Listing(g, root));
  }

  // ----- when the listing has no repeated line

  /** Labels that a path string determines: a plain name without a slash that is
      not "[i]", or such a name followed by "/[i]". */
  predicate Plain(s: string) {
    '/' !in s && s != "[i]"
  }

  predicate Decodable(s: string) {
    Plain(s) || (|s| >= 4 && s[|s| - 4..] == "/[i]" && Plain(s[..|s| - 4]))
  }

  /** Every label is decodable, and two edges of one type that share a label
      share their target. */
  ghost predicate WellLabelled(g: Net)
    requires Closed(g)
  {
    forall t, i, j :: 0 <= t < |g| && 0 <= i < |g[t]| && 0 <= j < |g[t]| ==>
      && Decodable(g[t][i].tag)
      && (g[t][i].tag == g[t][j].tag ==> g[t][i] == g[t][j])
  }

  lemma NoSlashAfter(x: string, a: string, k: nat)
    requires '/' !in a && |x| < k <= |x| + |a|
    ensures (x + "/" + a)[k] != '/'
  {
    assert (x + "/" + a)[k] == a[k - |x| - 1];
  }

  lemma LastSlash(x: string, a: string, y: string, b: string)
    requires x + "/" + a == y + "/" + b && '/' !in a && '/' !in b
    ensures x == y && a == b
  {
    var s := x + "/" + a;
    assert |s| == |x| + 1 + |a| == |y| + 1 + |b|;
    assert s[|x|] == '/';
    assert (y + "/" + b)[|y|] == '/';
    forall k: nat | |x| < k <= |x| + |a| ensures s[k] != '/' {
      NoSlashAfter(x, a, k);
    }
    forall k: nat | |y| < k <= |y| + |b| ensures (y + "/" + b)[k] != '/' {
      NoSlashAfter(y, b, k);
    }
    assert x == s[..|x|] && y == s[..|y|];
    assert a == s[|x| + 1..] && b == s[|y| + 1..];
  }

  lemma Bracketed(x: string, a: string)
    requires Decodable(a) && !Plain(a)
    ensures x + "/" + a == (x + "/" + a[..|a| - 4]) + "/" + "[i]"
    ensures '/' !in a[..|a| - 4] && a == a[..|a| - 4] + "/[i]"
  {
    assert a == a[..|a| - 4] + a[|a| - 4..];
    assert "/[i]" == "/" + "[i]";
  }

  lemma LastLabel(x: string, a: string, y: string, b: string)
    requires x + "/" + a == y + "/" + b && Decodable(a) && Decodable(b)
    ensures x == y && a == b
  {
    if Plain(a) && Plain(b) {
      LastSlash(x, a, y, b);
    } else if Plain(a) {
      Bracketed(y, b);
      LastSlash(x, a, y + "/" + b[..|b| - 4], "[i]");
    } else if Plain(b) {
      Bracketed(x, a);
      LastSlash(x + "/" + a[..|a| - 4], "[i]", y, b);
    } else {
      Bracketed(x, a);
      Bracketed(y, b);
      LastSlash(x + "/" + a[..|a| - 4], "[i]", y + "/" + b[..|b| - 4], "[i]");
      LastSlash(x, a[..|a| - 4], y, b[..|b| - 4]);
    }
  }

  lemma {:induction false} JoinInjective(p: seq<string>, q: seq<string>)
    requires forall i :: 0 <= i < |p| ==> Decodable(p[i])
    requires forall i :: 0 <= i < |q| ==> Decodable(q[i])
    requires Join(p) == Join(q)
    ensures p == q
  {
    if p != [] && q != [] {
      var m, n := |p| - 1, |q| - 1;
      LastLabel(Join(p[..m]), p[m], Join(q[..n]), q[n]);
      JoinInjective(p[..m], q[..n]);
      assert p == p[..m] + [p[m]] && q == q[..n] + [q[n]];
    }
  }

  lemma LabelsDecodable(g: Net, t: TypeId, w: Walk)
    requires Closed(g) && t < |g| && IsWalk(g, t, w) && WellLabelled(g)
    ensures forall i :: 0 <= i < |w| ==> Decodable(Labels(g, t, w)[i])
    decreases |w|
  {
    if w != [] {
      LabelsDecodable(g, g[t][w[0]].target, w[1..]);
    }
  }

  /** Two equal edges out of the end of a simple walk, leading to a type not yet
      on it: a repeated aggregation pair, or an aggregation of a type with its child. */
  ghost predicate DoubledEdge(g: Net, t: TypeId, w: Walk, i: nat, j: nat, stack: seq<TypeId>)
    requires Closed(g) && t < |g|
  {
    && Simple(g, t, w, stack)
    && i < j < |g[End(g, t, w)]|
    && g[End(g, t, w)][i] == g[End(g, t, w)][j]
    && g[End(g, t, w)][i].target !in stack + Visits(g, t, w)
  }

  /** Two different simple walks with the same labels part at a doubled edge. */
  lemma {:induction false} WalksPartAtDoubledEdge(g: Net, t: TypeId, v: Walk, w: Walk, stack: seq<TypeId>)
    returns (u: Walk, i: nat, j: nat)
    requires Closed(g) && t < |g| && WellLabelled(g)
    requires Simple(g, t, v, stack) && Simple(g, t, w, stack)
    requires v != w && Labels(g, t, v) == Labels(g, t, w)
    ensures DoubledEdge(g, t, u, i, j, stack)
    decreases |v|
  {
    assert |Labels(g, t, v)| == |v| == |w|;
    var es := g[t];
    var e := es[v[0]];
    assert e.tag == Labels(g, t, v)[0] == es[w[0]].tag;
    assert es[w[0]] == e;
    var vs := Visits(g, e.target, v[1..]);
    assert stack + Visits(g, t, v) == stack + [t] + vs;
    if v[0] == w[0] {
      assert v == [v[0]] + v[1..] && w == [w[0]] + w[1..];
      assert stack + Visits(g, t, w) == stack + [t] + Visits(g, e.target, w[1..]);
      assert Labels(g, e.target, v[1..]) == Labels(g, t, v)[1..];
      assert Labels(g, e.target, w[1..]) == Labels(g, t, w)[1..];
      u, i, j := WalksPartAtDoubledEdge(g, e.target, v[1..], w[1..], stack + [t]);
      var u' := [v[0]] + u;
      assert u'[1..] == u;
      assert stack + Visits(g, t, u') == stack + [t] + Visits(g, e.target, u);
      u := u';
    } else {
      u := [];
      i, j := if v[0] < w[0] then v[0] else w[0], if v[0] < w[0] then w[0] else v[0];
      assert Visits(g, t, u) == [t];
      var s := stack + Visits(g, t, v);
      assert s[..|stack| + 1] == stack + [t];
      assert s[|stack| + 1] == e.target;
    }
  }

  lemma {:induction false} ExtendWalk(g: Net, t: TypeId, w: Walk, i: nat)
    requires Closed(g) && t < |g| && IsWalk(g, t, w) && i < |g[End(g, t, w)]|
    ensures IsWalk(g, t, w + [i])
    ensures Visits(g, t, w + [i]) == Visits(g, t, w) + [g[End(g, t, w)][i].target]
    ensures Labels(g, t, w + [i]) == Labels(g, t, w) + [g[End(g, t, w)][i].tag]
    decreases |w|
  {
    if w == [] {
      assert [i][1..] == [];
    } else {
      var u := g[t][w[0]].target;
      assert End(g, t, w) == End(g, u, w[1..]);
      ExtendWalk(g, u, w[1..], i);
      assert (w + [i])[1..] == w[1..] + [i];
    }
  }

  lemma DoubledEdgeRepeatsLine(g: Net, root: TypeId, w: Walk, i: nat, j: nat)
    requires Closed(g) && root < |g| && DoubledEdge(g, root, w, i, j, [])
    ensures !Distinct(Listing(g, root))
  {
    var ws, out := Walks(g, root, []), Listing(g, root);
    TraceMatches(g, root, [], []);
    ExtendWalk(g, root, w, i);
    ExtendWalk(g, root, w, j);
    assert [] + Visits(g, root, w) == Visits(g, root, w);
    WalksExact(g, root, [], w + [i]);
    WalksExact(g, root, [], w + [j]);
    var a :| 0 <= a < |ws| && ws[a] == w + [i];
    var b :| 0 <= b < |ws| && ws[b] == w + [j];
    assert (w + [i])[|w|] != (w + [j])[|w|];
    assert out[a] == out[b];
  }

  lemma RepeatedLineHasDoubledEdge(g: Net, root: TypeId, a: nat, b: nat)
    returns (w: Walk, i: nat, j: nat)
    requires Closed(g) && root < |g| && WellLabelled(g)
    requires a < b < |Listing(g, root)| && Listing(g, root)[a] == Listing(g, root)[b]
    ensures DoubledEdge(g, root, w, i, j, [])
  {
    var ws := Walks(g, root, []);
    TraceMatches(g, root, [], []);
    WalksSorted(g, root, []);
    var u, v := ws[a], ws[b];
    LexIrreflexive(u);
    WalksExact(g, root, [], u);
    WalksExact(g, root, [], v);
    LabelsDecodable(g, root, u);
    LabelsDecodable(g, root, v);
    assert [] + Labels(g, root, u) == Labels(g, root, u);
    assert [] + Labels(g, root, v) == Labels(g, root, v);
    JoinInjective(Labels(g, root, u), Labels(g, root, v));
    w, i, j := WalksPartAtDoubledEdge(g, root, u, v, []);
  }

  /** `Uniquefy` receives the output by value, so repeated lines stay. On a
      well-labelled graph the listing is free of them exactly when no simple walk
      from the root ends at a type with a doubled edge leading off the walk. */
  lemma ListingUniqueIff(g: Net, root: TypeId)
    requires Closed(g) && root < |g| && WellLabelled(g)
    ensures Distinct(Listing(g, root)) <==>
            !exists w, i, j :: DoubledEdge(g, root, w, i, j, [])
  {
    if exists w, i, j :: DoubledEdge(g, root, w, i, j, []) {
      var w, i, j :| DoubledEdge(g, root, w, i, j, []);
      DoubledEdgeRepeatsLine(g, root, w, i, j);
    }
    if !Distinct(Listing(g, root)) {
      var a, b :| 0 <= a < b < |Listing(g, root)| && Listing(g, root)[a] == Listing(g, root)[b];
      var w, i, j := RepeatedLineHasDoubledEdge(g, root, a, b);
    }
  }

  // ----- paths to one type

  function PathsTo(out: seq<Entry>, tid: TypeId): seq<string> {
    if out == [] then []
    else
      var n := |out| - 1;
      PathsTo(out[..n], tid) + (if out[n].tid == tid then [out[n].path] else [])
  }

  lemma {:induction false} PathsToMember(out: seq<Entry>, tid: TypeId, s: string)
    ensures s in PathsTo(out, tid) <==> Entry(tid, s) in out
  {
    if out != [] {
      var n := |out| - 1;
      PathsToMember(out[..n], tid, s);
      assert out == out[..n] + [out[n]];
    }
  }

  /** The numbers of the lines of a type, in increasing order. */
  ghost predicate NumbersOf(out: seq<Entry>, tid: TypeId, numbers: seq<nat>) {
    && (forall i, j :: 0 <= i < j < |numbers| ==> numbers[i] < numbers[j])
    && (forall k: nat :: k in numbers <==> k < |out| && out[k].tid == tid)
  }

  ghost predicate PathsAt(out: seq<Entry>, numbers: seq<nat>, paths: seq<string>) {
    |paths| == |numbers| && forall i :: 0 <= i < |numbers| ==> numbers[i] < |out| && paths[i] == out[numbers[i]].path
  }

  lemma NumbersSnoc(out: seq<Entry>, e: Entry, tid: TypeId, numbers: seq<nat>)
    requires NumbersOf(out, tid, numbers)
    ensures NumbersOf(out + [e], tid, if e.tid == tid then numbers + [|out|] else numbers)
  {
    forall i | 0 <= i < |numbers| ensures numbers[i] < |out| {
      assert numbers[i] in numbers;
    }
  }

  lemma PathsSnoc(out: seq<Entry>, e: Entry, numbers: seq<nat>, paths: seq<string>)
    requires PathsAt(out, numbers, paths)
    ensures PathsAt(out + [e], numbers, paths) && PathsAt(out + [e], numbers + [|out|], paths + [e.path])
  {
  }

  /** What is reported for a type are the paths of all its lines, in the order of the lines. */
  lemma {:induction false} PathsInOrder(out: seq<Entry>, tid: TypeId) returns (numbers: seq<nat>)
    ensures NumbersOf(out, tid, numbers) && PathsAt(out, numbers, PathsTo(out, tid))
  {
    if out == [] {
      numbers := [];
    } else {
      var n := |out| - 1;
      var init := PathsInOrder(out[..n], tid);
      NumbersSnoc(out[..n], out[n], tid, init);
      PathsSnoc(out[..n], out[n], init, PathsTo(out[..n], tid));
      assert out == out[..n] + [out[n]];
      numbers := if out[n].tid == tid then init + [n] else init;
      assert PathsTo(out[..n], tid) + [] == PathsTo(out[..n], tid);
    }
  }

  lemma LineHasWalk(g: Net, root: TypeId, e: Entry) returns (w: Walk)
    requires Closed(g) && root < |g| && e in Listing(g, root)
    ensures Simple(g, root, w, []) && End(g, root, w) == e.tid && Join(Labels(g, root, w)) == e.path
  {
    var ws, out := Walks(g, root, []), Listing(g, root);
    TraceMatches(g, root, [], []);
    var k :| 0 <= k < |out| && out[k] == e;
    w := ws[k];
    WalksExact(g, root, [], w);
    assert [] + Labels(g, root, w) == Labels(g, root, w);
  }

  lemma WalkHasLine(g: Net, root: TypeId, w: Walk)
    requires Closed(g) && root < |g| && Simple(g, root, w, [])
    ensures Entry(End(g, root, w), Join(Labels(g, root, w))) in Listing(g, root)
  {
    var ws, out := Walks(g, root, []), Listing(g, root);
    TraceMatches(g, root, [], []);
    WalksExact(g, root, [], w);
    var k :| 0 <= k < |ws| && ws[k] == w;
    assert [] + Labels(g, root, w) == Labels(g, root, w);
    assert out[k] in out;
  }

  /** After one gather on a new object, `Get(tid)` answers exactly the joined
      labels of the simple walks from the root to `tid`. */
  lemma PathsAreSimpleWalks(g: Net, root: TypeId, tid: TypeId, s: string)
    requires Closed(g) && root < |g|
    ensures s in PathsTo(Listing(g, root), tid) <==>
            exists w :: Simple(g, root, w, []) && End(g, root, w) == tid && Join(Labels(g, root, w)) == s
  {
    PathsToMember(Listing(g, root), tid, s);
    if Entry(tid, s) in Listing(g, root) {
      var w := LineHasWalk(g, root, Entry(tid, s));
    }
    if exists w :: Simple(g, root, w, []) && End(g, root, w) == tid && Join(Labels(g, root, w)) == s {
      var w :| Simple(g, root, w, []) && End(g, root, w) == tid && Join(Labels(g, root, w)) == s;
      WalkHasLine(g, root, w);
    }
  }

  // ----- lines and chains of types

  predicate HasEdge(g: Net, t: TypeId, tag: string, u: TypeId) {
    t < |g| && Edge(tag, u) in g[t]
  }

  /** Pairwise different types from `t` to `c`, each joined to the next by an edge with the
      label beside it. */
  ghost predicate Chain(g: Net, t: TypeId, c: TypeId, ts: seq<TypeId>, labels: seq<string>) {
    && |ts| == |labels| + 1 && ts[0] == t && ts[|labels|] == c && Distinct(ts)
    && forall i :: 0 <= i < |labels| ==> HasEdge(g, ts[i], labels[i], ts[i + 1])
  }

  lemma {:induction false} WalkFollowsEdges(g: Net, t: TypeId, w: Walk, i: nat)
    requires Closed(g) && t < |g| && IsWalk(g, t, w) && i < |w|
    ensures HasEdge(g, Visits(g, t, w)[i], Labels(g, t, w)[i], Visits(g, t, w)[i + 1])
    decreases |w|
  {
    if i > 0 {
      WalkFollowsEdges(g, g[t][w[0]].target, w[1..], i - 1);
    }
  }

  lemma {:induction false} EdgesMakeWalk(g: Net, t: TypeId, ts: seq<TypeId>, labels: seq<string>) returns (w: Walk)
    requires Closed(g) && t < |g| && |ts| == |labels| + 1 && ts[0] == t
    requires forall i :: 0 <= i < |labels| ==> HasEdge(g, ts[i], labels[i], ts[i + 1])
    ensures IsWalk(g, t, w) && Visits(g, t, w) == ts && Labels(g, t, w) == labels
    decreases |labels|
  {
    if labels == [] {
      w := [];
    } else {
      assert HasEdge(g, ts[0], labels[0], ts[0 + 1]);
      var k: nat :| k < |g[t]| && g[t][k] == Edge(labels[0], ts[1]);
      forall i | 0 <= i < |labels[1..]| ensures HasEdge(g, ts[1..][i], labels[1..][i], ts[1..][i + 1]) {
        assert HasEdge(g, ts[i + 1], labels[i + 1], ts[(i + 1) + 1]);
      }
      var rest := EdgesMakeWalk(g, ts[1], ts[1..], labels[1..]);
      w := [k] + rest;
      assert w[1..] == rest;
    }
  }

  /** A line of the listing, without walks: a type and the joined labels of a chain to it. */
  lemma LineIffChain(g: Net, root: TypeId, c: TypeId, s: string)
    requires Closed(g) && root < |g|
    ensures Entry(c, s) in Listing(g, root) <==>
            exists ts, labels :: Chain(g, root, c, ts, labels) && Join(labels) == s
  {
    if Entry(c, s) in Listing(g, root) {
      var w := LineHasWalk(g, root, Entry(c, s));
      var ts, labels := Visits(g, root, w), Labels(g, root, w);
      forall i | 0 <= i < |labels| ensures HasEdge(g, ts[i], labels[i], ts[i + 1]) {
        WalkFollowsEdges(g, root, w, i);
      }
      assert [] + ts == ts;
      assert Chain(g, root, c, ts, labels);
    }
    if ts, labels :| Chain(g, root, c, ts, labels) && Join(labels) == s {
      var w := EdgesMakeWalk(g, root, ts, labels);
      assert [] + ts == ts;
      WalkHasLine(g, root, w);
    }
  }
}
