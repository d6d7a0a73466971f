/** The layered load order of the Python bindings: libraries are loaded in steps,
    each step taking every pending library whose dependencies are all loaded.

    The dependency map is a Python dictionary: `keys` lists its keys in insertion
    order, without repetition. */
module DependencyOrder {
  import opened Common

  type Lib = string
  type Deps = map<Lib, seq<Lib>>

  datatype Error = RecursionError

  /** `keys` lists the keys of the dictionary. */
  ghost predicate Dictionary(deps: Deps, keys: seq<Lib>) {
    Distinct(keys) && forall m :: m in keys <==> m in deps
  }

  // ----- chains of dependencies

  /** Each element is a library of the map that links to the next one; the last
      element may be missing from the map. */
  ghost predicate Chain(deps: Deps, c: seq<Lib>) {
    |c| > 0 && forall i :: 0 <= i < |c| - 1 ==> c[i] in deps && c[i + 1] in deps[c[i]]
  }

  /** No chain from `m` is longer than `n`, and none runs into a missing library. */
  ghost predicate Bounded(deps: Deps, m: Lib, n: nat) {
    forall c :: Chain(deps, c) && c[0] == m ==> |c| <= n && c[|c| - 1] in deps
  }

  /** `Bounded` as a recursion over the steps; see `GroundedIsBounded`. */
  ghost predicate Grounded(deps: Deps, m: Lib, n: nat)
    decreases n
  {
    n > 0 && m in deps && forall d :: d in deps[m] ==> Grounded(deps, d, n - 1)
  }

  ghost predicate AllGrounded(deps: Deps, n: nat) {
    forall m :: m in deps ==> Grounded(deps, m, n)
  }

  ghost predicate Acyclic(deps: Deps) {
    forall c :: Chain(deps, c) && |c| > 1 ==> c[0] != c[|c| - 1]
  }

  ghost predicate Closed(deps: Deps) {
    forall m, d :: m in deps && d in deps[m] ==> d in deps
  }

  lemma BoundedStep(deps: Deps, m: Lib, n: nat)
    ensures Bounded(deps, m, n + 1) <==> m in deps && forall d :: d in deps[m] ==> Bounded(deps, d, n)
  {
    if Bounded(deps, m, n + 1) {
      assert Chain(deps, [m]) && [m][0] == m;
      forall d, c | d in deps[m] && Chain(deps, c) && c[0] == d
        ensures |c| <= n && c[|c| - 1] in deps
      {
        var longer := [m] + c;
        assert Chain(deps, longer) && longer[0] == m;
        assert longer[|longer| - 1] == c[|c| - 1];
      }
    }
    if m in deps && forall d :: d in deps[m] ==> Bounded(deps, d, n) {
      forall c | Chain(deps, c) && c[0] == m
        ensures |c| <= n + 1 && c[|c| - 1] in deps
      {
        if |c| > 1 {
          assert c[1] in deps[c[0]];
          assert Chain(deps, c[1..]) && c[1..][0] == c[1];
          assert Bounded(deps, c[1], n);
        }
      }
    }
  }

  lemma {:induction false} GroundedIsBounded(deps: Deps, m: Lib, n: nat)
    ensures Grounded(deps, m, n) <==> Bounded(deps, m, n)
    decreases n
  {
    if n == 0 {
      assert Chain(deps, [m]) && [m][0] == m;
    } else {
      BoundedStep(deps, m, n - 1);
      if m in deps {
        forall d | d in deps[m] ensures Grounded(deps, d, n - 1) <==> Bounded(deps, d, n - 1) {
          GroundedIsBounded(deps, d, n - 1);
        }
      }
    }
  }

  lemma {:induction false} GroundedMonotone(deps: Deps, m: Lib, n: nat, k: nat)
    requires n <= k && Grounded(deps, m, n)
    ensures Grounded(deps, m, k)
    decreases n
  {
    forall d | d in deps[m] ensures Grounded(deps, d, k - 1) {
      GroundedMonotone(deps, d, n - 1, k - 1);
    }
  }

  // ----- the loader's state after `k` steps, read off the chains alone

  /** The libraries still pending after `k` steps, in key order. */
  ghost function Pending(deps: Deps, keys: seq<Lib>, k: nat): seq<Lib> {
    if keys == [] then []
    else
      var n := |keys| - 1;
      Pending(deps, keys[..n], k) + (if Grounded(deps, keys[n], k) then [] else [keys[n]])
  }

  /** The libraries of step `k`: those whose longest chain has exactly `k + 1`
      libraries, in key order. */
  ghost function Layer(deps: Deps, keys: seq<Lib>, k: nat): seq<Lib> {
    if keys == [] then []
    else
      var n := |keys| - 1;
      Layer(deps, keys[..n], k) +
      (if Grounded(deps, keys[n], k + 1) && !Grounded(deps, keys[n], k) then [keys[n]] else [])
  }

  /** The libraries loaded by the first `k` steps, in loading order. */
  ghost function Loaded(deps: Deps, keys: seq<Lib>, k: nat): seq<Lib> {
    if k == 0 then [] else Loaded(deps, keys, k - 1) + Layer(deps, keys, k - 1)
  }

  ghost function Layers(deps: Deps, keys: seq<Lib>, k: nat): (r: seq<seq<Lib>>)
    ensures |r| == k
  {
    if k == 0 then [] else Layers(deps, keys, k - 1) + [Layer(deps, keys, k - 1)]
  }

  lemma {:induction false} PendingMember(deps: Deps, keys: seq<Lib>, k: nat, m: Lib)
    ensures m in Pending(deps, keys, k) <==> m in keys && !Grounded(deps, m, k)
  {
    if keys != [] {
      var n := |keys| - 1;
      PendingMember(deps, keys[..n], k, m);
      assert keys == keys[..n] + [keys[n]];
    }
  }

  lemma {:induction false} LayerMember(deps: Deps, keys: seq<Lib>, k: nat, m: Lib)
    ensures m in Layer(deps, keys, k) <==> m in keys && Grounded(deps, m, k + 1) && !Grounded(deps, m, k)
  {
    if keys != [] {
      var n := |keys| - 1;
      LayerMember(deps, keys[..n], k, m);
      assert keys == keys[..n] + [keys[n]];
    }
  }

  lemma {:induction false} LoadedMember(deps: Deps, keys: seq<Lib>, k: nat, m: Lib)
    ensures m in Loaded(deps, keys, k) <==> m in keys && Grounded(deps, m, k)
  {
    if k > 0 {
      LoadedMember(deps, keys, k - 1, m);
      LayerMember(deps, keys, k - 1, m);
      if Grounded(deps, m, k - 1) {
        GroundedMonotone(deps, m, k - 1, k);
      }
    }
  }

  // ----- what one step loads

  predicate Satisfied(deps: Deps, current: seq<Lib>, m: Lib) {
    m in deps && forall i :: 0 <= i < |deps[m]| ==> deps[m][i] in current
  }

  function Loadable(deps: Deps, pending: seq<Lib>, current: seq<Lib>): seq<Lib> {
    if pending == [] then []
    else
      var n := |pending| - 1;
      Loadable(deps, pending[..n], current) + (if Satisfied(deps, current, pending[n]) then [pending[n]] else [])
  }

  /** With the first `k` layers loaded, a pending library can be loaded exactly
      when it belongs to layer `k`. */
  lemma SatisfiedIsGrounded(deps: Deps, keys: seq<Lib>, k: nat, m: Lib)
    requires Dictionary(deps, keys)
    ensures Satisfied(deps, Loaded(deps, keys, k), m) <==> Grounded(deps, m, k + 1)
  {
    var current := Loaded(deps, keys, k);
    if m in deps {
      forall d | d in deps[m] ensures d in current <==> Grounded(deps, d, k) {
        LoadedMember(deps, keys, k, d);
      }
      if Satisfied(deps, current, m) {
        forall d | d in deps[m] ensures Grounded(deps, d, k) {
          var i :| 0 <= i < |deps[m]| && deps[m][i] == d;
        }
        assert Grounded(deps, m, k + 1);
      }
      if Grounded(deps, m, k + 1) {
        forall i | 0 <= i < |deps[m]| ensures deps[m][i] in current {
          assert deps[m][i] in deps[m];
        }
      }
    }
  }

  lemma {:induction false} LoadableIsLayer(deps: Deps, keys: seq<Lib>, k: nat, part: seq<Lib>)
    requires Dictionary(deps, keys)
    ensures Loadable(deps, Pending(deps, part, k), Loaded(deps, keys, k)) == Layer(deps, part, k)
  {
    if part != [] {
      var n := |part| - 1;
      var current := Loaded(deps, keys, k);
      LoadableIsLayer(deps, keys, k, part[..n]);
      SatisfiedIsGrounded(deps, keys, k, part[n]);
      var rest := Pending(deps, part[..n], k);
      if !Grounded(deps, part[n], k) {
        var p := Pending(deps, part, k);
        assert p == rest + [part[n]];
        assert p[..|p| - 1] == rest && p[|p| - 1] == part[n];
      } else {
        assert Pending(deps, part, k) == rest;
      }
    }
  }

  /** `s` without the members of `xs`, order kept. */
  function Without(s: seq<Lib>, xs: seq<Lib>): (r: seq<Lib>)
    ensures forall m :: m in r <==> m in s && m !in xs
  {
    if s == [] then []
    else
      var n := |s| - 1;
      Without(s[..n], xs) + (if s[n] in xs then [] else [s[n]])
  }

  lemma {:induction false} PendingShrinks(deps: Deps, keys: seq<Lib>, k: nat, part: seq<Lib>)
    requires forall m :: m in part ==> m in keys
    ensures Without(Pending(deps, part, k), Layer(deps, keys, k)) == Pending(deps, part, k + 1)
  {
    if part != [] {
      var n := |part| - 1;
      assert part[n] in part;
      LayerMember(deps, keys, k, part[n]);
      PendingShrinks(deps, keys, k, part[..n]);
      var rest := Pending(deps, part[..n], k);
      if !Grounded(deps, part[n], k) {
        var p := Pending(deps, part, k);
        assert p == rest + [part[n]];
        assert p[..|p| - 1] == rest && p[|p| - 1] == part[n];
      } else {
        GroundedMonotone(deps, part[n], k, k + 1);
        assert Pending(deps, part, k) == rest;
      }
    }
  }

  /** `list.remove`: drops the first occurrence. */
  function RemoveFirst(s: seq<Lib>, m: Lib): seq<Lib>
    requires m in s
  {
    if s[0] == m then s[1..] else [s[0]] + RemoveFirst(s[1..], m)
  }

  lemma {:induction false} RemoveAt(s: seq<Lib>, m: Lib, i: nat)
    requires i < |s| && s[i] == m && m !in s[..i]
    ensures RemoveFirst(s, m) == s[..i] + s[i + 1..]
  {
    if i > 0 {
      assert s[1..][i - 1] == m && s[1..][..i - 1] == s[..i][1..];
      RemoveAt(s[1..], m, i - 1);
      assert s[..i] == [s[0]] + s[1..][..i - 1];
      assert s[1..][i..] == s[i + 1..];
    } else {
      assert s[..0] + s[1..] == s[1..];
    }
  }

  lemma {:induction false} RemoveFromFront(a: seq<Lib>, b: seq<Lib>, m: Lib)
    requires m in a
    ensures RemoveFirst(a + b, m) == RemoveFirst(a, m) + b
  {
    assert (a + b)[1..] == a[1..] + b;
    if a[0] != m {
      RemoveFromFront(a[1..], b, m);
    }
  }

  lemma {:induction false} WithoutStranger(s: seq<Lib>, xs: seq<Lib>, m: Lib)
    requires m !in s
    ensures Without(s, xs + [m]) == Without(s, xs)
  {
    if s != [] {
      WithoutStranger(s[..|s| - 1], xs, m);
    }
  }

  lemma {:induction false} RemoveOneMore(s: seq<Lib>, xs: seq<Lib>, m: Lib)
    requires Distinct(s) && m in s && m !in xs
    ensures RemoveFirst(Without(s, xs), m) == Without(s, xs + [m])
  {
    var n := |s| - 1;
    var w := Without(s[..n], xs);
    if s[n] == m {
      WithoutStranger(s[..n], xs, m);
      assert m !in w;
      RemoveAt(w + [m], m, |w|);
    } else {
      RemoveOneMore(s[..n], xs, m);
      RemoveFromFront(w, if s[n] in xs then [] else [s[n]], m);
    }
  }

  lemma {:induction false} WithoutNothing(s: seq<Lib>)
    ensures Without(s, []) == s
  {
    if s != [] {
      var n := |s| - 1;
      WithoutNothing(s[..n]);
      assert s == s[..n] + [s[n]];
    }
  }

  // ----- what the finished order satisfies

  lemma {:induction false} LayerSplits(deps: Deps, part: seq<Lib>, k: nat)
    ensures |Pending(deps, part, k)| == |Layer(deps, part, k)| + |Pending(deps, part, k + 1)|
  {
    if part != [] {
      var n := |part| - 1;
      LayerSplits(deps, part[..n], k);
      if Grounded(deps, part[n], k) {
        GroundedMonotone(deps, part[n], k, k + 1);
      }
    }
  }

  lemma {:induction false} PendingAtStart(deps: Deps, keys: seq<Lib>, k: nat)
    requires k == 0
    ensures Pending(deps, keys, k) == keys
  {
    if keys != [] {
      var n := |keys| - 1;
      PendingAtStart(deps, keys[..n], k);
      assert keys == keys[..n] + [keys[n]];
    }
  }

  lemma {:induction false} PendingDistinct(deps: Deps, keys: seq<Lib>, k: nat)
    requires Distinct(keys)
    ensures Distinct(Pending(deps, keys, k))
  {
    if keys != [] {
      PendingDistinct(deps, keys[..|keys| - 1], k);
      PendingMember(deps, keys[..|keys| - 1], k, keys[|keys| - 1]);
    }
  }

  lemma {:induction false} LayerDistinct(deps: Deps, keys: seq<Lib>, k: nat)
    requires Distinct(keys)
    ensures Distinct(Layer(deps, keys, k))
  {
    if keys != [] {
      LayerDistinct(deps, keys[..|keys| - 1], k);
      LayerMember(deps, keys[..|keys| - 1], k, keys[|keys| - 1]);
    }
  }

  lemma {:induction false} LoadedDistinct(deps: Deps, keys: seq<Lib>, k: nat)
    requires Distinct(keys)
    ensures Distinct(Loaded(deps, keys, k))
  {
    if k > 0 {
      var before, layer := Loaded(deps, keys, k - 1), Layer(deps, keys, k - 1);
      LoadedDistinct(deps, keys, k - 1);
      LayerDistinct(deps, keys, k - 1);
      forall m | m in layer ensures m !in before {
        LayerMember(deps, keys, k - 1, m);
        LoadedMember(deps, keys, k - 1, m);
      }
      DistinctConcat(before, layer);
    }
  }

  lemma DistinctConcat(a: seq<Lib>, b: seq<Lib>)
    requires Distinct(a) && Distinct(b) && forall m :: m in b ==> m !in a
    ensures Distinct(a + b)
  {
    var s := a + b;
    forall i, j | 0 <= i < j < |s| ensures s[i] != s[j] {
      if i < |a| <= j {
        assert s[i] in a && s[j] in b;
      }
    }
  }

  lemma {:induction false} DistinctCount(a: seq<Lib>, m: Lib)
    requires Distinct(a)
    ensures multiset(a)[m] == if m in a then 1 else 0
  {
    if a != [] {
      var n := |a| - 1;
      assert a == a[..n] + [a[n]];
      DistinctCount(a[..n], m);
    }
  }

  lemma Permutation(a: seq<Lib>, b: seq<Lib>)
    requires Distinct(a) && Distinct(b) && forall m :: m in a <==> m in b
    ensures multiset(a) == multiset(b)
  {
    forall m ensures multiset(a)[m] == multiset(b)[m] {
      DistinctCount(a, m);
      DistinctCount(b, m);
    }
  }

  /** Once all chains are grounded, the loaded libraries are the keys, each once. */
  lemma LoadedAll(deps: Deps, keys: seq<Lib>, k: nat)
    requires Dictionary(deps, keys) && AllGrounded(deps, k)
    ensures multiset(Loaded(deps, keys, k)) == multiset(keys)
  {
    LoadedDistinct(deps, keys, k);
    forall m ensures m in Loaded(deps, keys, k) <==> m in keys {
      LoadedMember(deps, keys, k, m);
    }
    Permutation(Loaded(deps, keys, k), keys);
  }

  ghost predicate DependenciesFirst(deps: Deps, order: seq<Lib>) {
    forall i, d :: 0 <= i < |order| && order[i] in deps && d in deps[order[i]] ==> d in order[..i]
  }

  lemma {:induction false} LayersInOrder(deps: Deps, keys: seq<Lib>, k: nat)
    requires Dictionary(deps, keys)
    ensures DependenciesFirst(deps, Loaded(deps, keys, k))
  {
    if k > 0 {
      LayersInOrder(deps, keys, k - 1);
      var before, layer := Loaded(deps, keys, k - 1), Layer(deps, keys, k - 1);
      var order := before + layer;
      forall i, d | 0 <= i < |order| && order[i] in deps && d in deps[order[i]]
        ensures d in order[..i]
      {
        if i < |before| {
          assert order[..i] == before[..i];
        } else {
          LayerSatisfied(deps, keys, k - 1, order[i], d);
          assert order[..i][..|before|] == before;
        }
      }
    }
  }

  lemma LayerSatisfied(deps: Deps, keys: seq<Lib>, k: nat, m: Lib, d: Lib)
    requires Dictionary(deps, keys) && m in Layer(deps, keys, k) && m in deps && d in deps[m]
    ensures d in Loaded(deps, keys, k)
  {
    LayerMember(deps, keys, k, m);
    LoadedMember(deps, keys, k, d);
  }

  /** The step number of a library is the length of its longest dependency chain. */
  lemma StepIsLongestChain(deps: Deps, keys: seq<Lib>, k: nat, m: Lib)
    ensures m in Layer(deps, keys, k) <==>
            && m in keys
            && (exists c :: Chain(deps, c) && c[0] == m && |c| == k + 1)
            && (forall c :: Chain(deps, c) && c[0] == m ==> |c| <= k + 1 && c[|c| - 1] in deps)
  {
    LayerMember(deps, keys, k, m);
    GroundedIsBounded(deps, m, k);
    GroundedIsBounded(deps, m, k + 1);
    if Bounded(deps, m, k + 1) && !Bounded(deps, m, k) {
      var c :| Chain(deps, c) && c[0] == m && !(|c| <= k && c[|c| - 1] in deps);
      assert |c| == k + 1;
    }
  }

  // ----- when the recursion ends

  lemma ClosedChain(deps: Deps, c: seq<Lib>, i: nat)
    requires Closed(deps) && Chain(deps, c) && c[0] in deps && i < |c|
    ensures c[i] in deps
  {
    if i > 0 {
      assert c[i - 1] in deps && c[(i - 1) + 1] in deps[c[i - 1]];
    }
  }

  lemma AcyclicChainDistinct(deps: Deps, c: seq<Lib>)
    requires Acyclic(deps) && Chain(deps, c)
    ensures Distinct(c)
  {
    forall i, j | 0 <= i < j < |c| ensures c[i] != c[j] {
      var loop := c[i..j + 1];
      forall k | 0 <= k < |loop| - 1 ensures loop[k] in deps && loop[k + 1] in deps[loop[k]] {
        assert c[i + k] in deps && c[i + k + 1] in deps[c[i + k]];
      }
      assert Chain(deps, loop);
    }
  }

  lemma {:induction false} Pigeonhole(c: seq<Lib>, s: set<Lib>)
    requires Distinct(c) && forall m :: m in c ==> m in s
    ensures |c| <= |s|
  {
    if c != [] {
      Pigeonhole(c[1..], s - {c[0]});
    }
  }

  /** Going round a cycle gives chains of any length. */
  lemma {:induction false} PumpCycle(deps: Deps, c: seq<Lib>, n: nat) returns (d: seq<Lib>)
    requires Chain(deps, c) && |c| > 1 && c[0] == c[|c| - 1]
    ensures Chain(deps, d) && d[0] == c[0] && |d| > n
  {
    if n == 0 {
      d := c;
    } else {
      var e := PumpCycle(deps, c, n - 1);
      d := c[..|c| - 1] + e;
      forall i | 0 <= i < |d| - 1 ensures d[i] in deps && d[i + 1] in deps[d[i]] {
        if i < |c| - 1 {
          assert d[i] == c[i] && d[i + 1] == c[i + 1];
        } else {
          var k := i - (|c| - 1);
          assert d[i] == e[k] && d[i + 1] == e[k + 1];
        }
      }
    }
  }

  lemma GroundedWhenAcyclic(deps: Deps)
    requires Acyclic(deps) && Closed(deps)
    ensures AllGrounded(deps, |deps|)
  {
    forall m | m in deps ensures Grounded(deps, m, |deps|) {
      forall c | Chain(deps, c) && c[0] == m ensures |c| <= |deps| && c[|c| - 1] in deps {
        AcyclicChainDistinct(deps, c);
        forall d | d in c ensures d in deps.Keys {
          var i :| 0 <= i < |c| && c[i] == d;
          ClosedChain(deps, c, i);
        }
        Pigeonhole(c, deps.Keys);
        ClosedChain(deps, c, |c| - 1);
      }
      GroundedIsBounded(deps, m, |deps|);
    }
  }

  lemma BoundedOffCycle(deps: Deps, c: seq<Lib>, n: nat)
    requires Chain(deps, c) && |c| > 1 && c[0] == c[|c| - 1]
    ensures !Bounded(deps, c[0], n)
  {
    var d := PumpCycle(deps, c, n);
  }

  lemma AcyclicWhenGrounded(deps: Deps, n: nat)
    requires AllGrounded(deps, n)
    ensures Acyclic(deps) && Closed(deps)
  {
    forall c | Chain(deps, c) && |c| > 1 ensures c[0] != c[|c| - 1] {
      assert c[0] in deps;
      GroundedIsBounded(deps, c[0], n);
      if c[0] == c[|c| - 1] {
        BoundedOffCycle(deps, c, n);
      }
    }
    forall m, d | m in deps && d in deps[m] ensures d in deps {
      assert Chain(deps, [m, d]) && [m, d][0] == m;
      GroundedIsBounded(deps, m, n);
    }
  }

  /** All libraries get loaded, within as many steps as there are libraries, if and
      only if the map is acyclic and closed under its keys. */
  lemma FinishesIff(deps: Deps)
    ensures (exists n :: AllGrounded(deps, n)) <==> Acyclic(deps) && Closed(deps)
    ensures Acyclic(deps) && Closed(deps) ==> AllGrounded(deps, |deps|)
  {
    if Acyclic(deps) && Closed(deps) {
      GroundedWhenAcyclic(deps);
    }
    if exists n :: AllGrounded(deps, n) {
      var n :| AllGrounded(deps, n);
      AcyclicWhenGrounded(deps, n);
    }
  }

  lemma PendingEmptyIff(deps: Deps, keys: seq<Lib>, k: nat)
    requires Dictionary(deps, keys)
    ensures Pending(deps, keys, k) == [] <==> AllGrounded(deps, k)
  {
    forall m ensures m in Pending(deps, keys, k) <==> m in keys && !Grounded(deps, m, k) {
      PendingMember(deps, keys, k, m);
    }
    if Pending(deps, keys, k) != [] {
      assert Pending(deps, keys, k)[0] in Pending(deps, keys, k);
    }
  }

  lemma {:induction false} SamePending(deps: Deps, part: seq<Lib>, j: nat, k: nat)
    requires forall m :: m in part ==> (Grounded(deps, m, j) <==> Grounded(deps, m, k))
    ensures Pending(deps, part, j) == Pending(deps, part, k)
  {
    if part != [] {
      assert part[|part| - 1] in part;
      SamePending(deps, part[..|part| - 1], j, k);
    }
  }

  ghost predicate Stalled(deps: Deps, n: nat) {
    forall m :: m in deps ==> (Grounded(deps, m, n + 1) <==> Grounded(deps, m, n))
  }

  lemma EmptyLayerIff(deps: Deps, keys: seq<Lib>, k: nat)
    requires Dictionary(deps, keys)
    ensures Layer(deps, keys, k) == [] <==> Stalled(deps, k)
  {
    var layer := Layer(deps, keys, k);
    forall m | m in deps ensures m in layer <==> !(Grounded(deps, m, k + 1) <==> Grounded(deps, m, k)) {
      LayerMember(deps, keys, k, m);
      if Grounded(deps, m, k) {
        GroundedMonotone(deps, m, k, k + 1);
      }
    }
    if layer != [] {
      LayerMember(deps, keys, k, layer[0]);
    }
  }

  lemma StallPersists(deps: Deps, n: nat)
    requires Stalled(deps, n)
    ensures Stalled(deps, n + 1)
  {
    forall m | m in deps ensures Grounded(deps, m, n + 2) <==> Grounded(deps, m, n + 1) {
      forall d | d in deps[m] ensures Grounded(deps, d, n + 1) <==> Grounded(deps, d, n) {
        if d !in deps {
          assert !Grounded(deps, d, n + 1) && !Grounded(deps, d, n);
        }
      }
    }
  }

  /** A step that loads nothing is never followed by one that does. */
  lemma {:induction false} StalledForever(deps: Deps, keys: seq<Lib>, k: nat, n: nat)
    requires Dictionary(deps, keys) && Stalled(deps, k) && k <= n
    ensures Stalled(deps, n) && Pending(deps, keys, n) == Pending(deps, keys, k)
    decreases n
  {
    if k < n {
      StalledForever(deps, keys, k, n - 1);
      StallPersists(deps, n - 1);
      SamePending(deps, keys, n, n - 1);
    }
  }

  lemma {:induction false} ProgressOrStall(deps: Deps, keys: seq<Lib>, k: nat)
    requires forall i :: 0 <= i < k ==> Layer(deps, keys, i) != []
    ensures |Pending(deps, keys, k)| + k <= |keys|
  {
    if k == 0 {
      PendingAtStart(deps, keys, 0);
    } else {
      ProgressOrStall(deps, keys, k - 1);
      LayerSplits(deps, keys, k - 1);
      assert Layer(deps, keys, k - 1) != [];
    }
  }

  /** Every run reaches, after at most as many steps as there are keys, a step that
      loads nothing; from then on the state stays as it is. At that point nothing is
      pending if and only if the map is acyclic and closed. */
  lemma StallsIff(deps: Deps, keys: seq<Lib>) returns (k: nat)
    requires Dictionary(deps, keys)
    ensures k <= |keys|
    ensures forall i :: 0 <= i < k ==> Layer(deps, keys, i) != []
    ensures forall n :: k <= n ==> Layer(deps, keys, n) == [] && Pending(deps, keys, n) == Pending(deps, keys, k)
    ensures Pending(deps, keys, k) == [] <==> Acyclic(deps) && Closed(deps)
  {
    k := 0;
    while Layer(deps, keys, k) != []
      invariant forall i :: 0 <= i < k ==> Layer(deps, keys, i) != []
      invariant k <= |keys|
      decreases |keys| - k
    {
      ProgressOrStall(deps, keys, k + 1);
      k := k + 1;
    }
    EmptyLayerIff(deps, keys, k);
    forall n | k <= n
      ensures Layer(deps, keys, n) == [] && Pending(deps, keys, n) == Pending(deps, keys, k)
    {
      StalledForever(deps, keys, k, n);
      EmptyLayerIff(deps, keys, n);
    }
    PendingEmptyIff(deps, keys, k);
    FinishesIff(deps);
    if Acyclic(deps) && Closed(deps) {
      var n := if k <= |deps| then |deps| else k;
      forall m | m in deps ensures Grounded(deps, m, n) {
        GroundedMonotone(deps, m, |deps|, n);
      }
      PendingEmptyIff(deps, keys, n);
    }
  }

  // ----- the code

  method ModulesThatCanBeLoaded(deps: Deps, pending: seq<Lib>, current: seq<Lib>) returns (modules: seq<Lib>)
    requires forall i :: 0 <= i < |pending| ==> pending[i] in deps
    ensures modules == Loadable(deps, pending, current)
  {
    modules := [];
    for i := 0 to |pending|
      invariant modules == Loadable(deps, pending[..i], current)
    {
      var m := pending[i];
      var canBeLoaded := true;
      var j := 0;
      while j < |deps[m]|
        invariant 0 <= j <= |deps[m]|
        invariant canBeLoaded <==> forall k :: 0 <= k < j ==> deps[m][k] in current
      {
        if deps[m][j] !in current {
          canBeLoaded := false;
          assert !Satisfied(deps, current, m);
          break;
        }
        j := j + 1;
      }
      assert canBeLoaded == Satisfied(deps, current, m);
      assert pending[..i + 1][..i] == pending[..i];
      if canBeLoaded {
        modules := modules + [m];
      }
    }
    assert pending[..|pending|] == pending;
  }

  lemma StepReady(deps: Deps, keys: seq<Lib>, k: nat)
    requires Dictionary(deps, keys)
    ensures Distinct(Pending(deps, keys, k)) && Distinct(Layer(deps, keys, k))
    ensures forall i :: 0 <= i < |Pending(deps, keys, k)| ==> Pending(deps, keys, k)[i] in deps
    ensures forall i :: 0 <= i < |Layer(deps, keys, k)| ==> Layer(deps, keys, k)[i] in Pending(deps, keys, k)
    ensures Loadable(deps, Pending(deps, keys, k), Loaded(deps, keys, k)) == Layer(deps, keys, k)
  {
    PendingDistinct(deps, keys, k);
    LayerDistinct(deps, keys, k);
    LoadableIsLayer(deps, keys, k, keys);
    forall m ensures m in Pending(deps, keys, k) <==> m in keys && !Grounded(deps, m, k) {
      PendingMember(deps, keys, k, m);
    }
    forall m ensures m in Layer(deps, keys, k) ==> m in Pending(deps, keys, k) {
      LayerMember(deps, keys, k, m);
    }
  }

  lemma MoveOne(pending: seq<Lib>, modules: seq<Lib>, i: nat)
    requires Distinct(pending) && Distinct(modules) && i < |modules| && modules[i] in pending
    ensures modules[..i + 1] == modules[..i] + [modules[i]]
    ensures modules[i] in Without(pending, modules[..i])
    ensures RemoveFirst(Without(pending, modules[..i]), modules[i]) == Without(pending, modules[..i + 1])
  {
    assert modules[i] !in modules[..i];
    assert modules[..i + 1] == modules[..i] + [modules[i]];
    RemoveOneMore(pending, modules[..i], modules[i]);
  }

  /** The three lists are what the chains say they are after `k` steps. */
  ghost predicate After(deps: Deps, keys: seq<Lib>, k: nat, pending: seq<Lib>, current: seq<Lib>, steps: seq<seq<Lib>>) {
    && pending == Pending(deps, keys, k)
    && current == Loaded(deps, keys, k)
    && steps == Layers(deps, keys, k)
  }

  lemma AfterStep(deps: Deps, keys: seq<Lib>, k: nat, pending: seq<Lib>, current: seq<Lib>, steps: seq<seq<Lib>>)
    requires Dictionary(deps, keys) && After(deps, keys, k, pending, current, steps)
    ensures var layer := Layer(deps, keys, k);
            After(deps, keys, k + 1, Without(pending, layer), current + layer, steps + [layer])
  {
    PendingShrinks(deps, keys, k, keys);
  }

  class LoadOrder {
    const deps: Deps
    ghost const keys: seq<Lib>
    var pending: seq<Lib>
    var current: seq<Lib>
    var steps: seq<seq<Lib>>  // the step dictionary, whose keys are 0, 1, 2, ...

    ghost predicate Valid()
      reads this
    {
      Dictionary(deps, keys) && After(deps, keys, |steps|, pending, current, steps)
    }

    constructor (deps: Deps, keys: seq<Lib>)
      requires Dictionary(deps, keys)
      ensures Valid() && this.deps == deps && this.keys == keys && steps == []
    {
      this.deps, this.keys := deps, keys;
      pending, current, steps := keys, [], [];
      PendingAtStart(deps, keys, 0);
    }

    /** Moves the given libraries over, one by one. */
    method Move(modules: seq<Lib>) returns (step: seq<Lib>)
      requires Distinct(pending) && Distinct(modules) && forall i :: 0 <= i < |modules| ==> modules[i] in pending
      modifies this`pending, this`current
      ensures step == modules
      ensures pending == Without(old(pending), modules) && current == old(current) + modules
    {
      step := [];
      WithoutNothing(pending);
      for i := 0 to |modules|
        invariant step == modules[..i]
        invariant pending == Without(old(pending), modules[..i])
        invariant current == old(current) + modules[..i]
      {
        var m := modules[i];
        MoveOne(old(pending), modules, i);
        step := step + [m];
        pending := RemoveFirst(pending, m);
        current := current + [m];
      }
      assert modules[..|modules|] == modules;
    }

    method TakeStep()
      requires Valid()
      modifies this
      ensures Valid() && |steps| == |old(steps)| + 1
    {
      StepReady(deps, keys, |steps|);
      AfterStep(deps, keys, |steps|, pending, current, steps);
      var modules := ModulesThatCanBeLoaded(deps, pending, current);
      var step := Move(modules);
      steps := steps + [step];
    }

    /** `frames` is the number of Python stack frames left; running out of them
        raises RecursionError. The call succeeds exactly when every longest chain
        fits into the frames. */
    method DependencyOrder(frames: nat) returns (r: Result<seq<seq<Lib>>, Error>)
      requires Valid()
      requires |steps| > 0 ==> !AllGrounded(deps, |steps| - 1)
      modifies this
      ensures Valid()
      ensures r.Success? <==> frames > 0 && AllGrounded(deps, |old(steps)| + frames - 1)
      ensures r.Success? ==> r.value == steps && pending == [] && AllGrounded(deps, |steps|)
      ensures r.Success? && |steps| > 0 ==> !AllGrounded(deps, |steps| - 1)
      decreases frames
    {
      if frames == 0 {
        return Failure(RecursionError);
      }
      PendingEmptyIff(deps, keys, |steps|);
      if |pending| == 0 {
        forall m | m in deps ensures Grounded(deps, m, |steps| + frames - 1) {
          GroundedMonotone(deps, m, |steps|, |steps| + frames - 1);
        }
        return Success(steps);
      }
      TakeStep();
      r := DependencyOrder(frames - 1);
    }
  }

  lemma {:induction false} FlattenLayers(deps: Deps, keys: seq<Lib>, k: nat)
    ensures Flatten(Layers(deps, keys, k)) == Loaded(deps, keys, k)
  {
    if k > 0 {
      FlattenLayers(deps, keys, k - 1);
      assert Layers(deps, keys, k)[..k - 1] == Layers(deps, keys, k - 1);
    }
  }

  function Flatten(steps: seq<seq<Lib>>): seq<Lib> {
    if steps == [] then [] else Flatten(steps[..|steps| - 1]) + steps[|steps| - 1]
  }

  /** The sorted libraries are a permutation of the keys in which every library
      comes after all its dependencies. */
  method SortToDependencies(deps: Deps, keys: seq<Lib>, frames: nat) returns (r: Result<seq<Lib>, Error>)
    requires Dictionary(deps, keys)
    ensures r.Success? <==> frames > 0 && AllGrounded(deps, frames - 1)
    ensures r.Success? ==> multiset(r.value) == multiset(keys) && DependenciesFirst(deps, r.value)
  {
    var order := new LoadOrder(deps, keys);
    var steps := order.DependencyOrder(frames);
    if steps.Failure? {
      return Failure(RecursionError);
    }
    var sorted: seq<Lib> := [];
    for i := 0 to |steps.value|
      invariant sorted == Flatten(steps.value[..i])
    {
      assert steps.value[..i + 1][..i] == steps.value[..i];
      sorted := sorted + steps.value[i];
    }
    assert steps.value[..|steps.value|] == steps.value;
    FlattenLayers(deps, keys, |steps.value|);
    LoadedAll(deps, keys, |steps.value|);
    LayersInOrder(deps, keys, |steps.value|);
    return Success(sorted);
  }
}
