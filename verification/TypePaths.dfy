/** The configuration-path gatherer: a depth-first search over the graph of
    registered types that lists every configuration path from a root type.

    A type's out-edges are its pointer attributes, its object-container
    attributes, its registered descendants and the aggregation pairs it takes
    part in, in that order. */
module TypePaths {
  import opened Common
  import opened SimpleWalks

  datatype Checker = PointerChecker(pointee: TypeId) | ContainerChecker(item: TypeId) | OtherChecker

  datatype Attribute = Attribute(name: string, checker: Checker)

  datatype TypeInfo = TypeInfo(name: string, attributes: seq<Attribute>)

  /** `childOf` holds the pairs (child, ancestor) for which `child.IsChildOf(ancestor)`. */
  datatype Registry = Registry(types: seq<TypeInfo>, objectType: TypeId, childOf: set<(TypeId, TypeId)>)

  datatype Graph = Graph(reg: Registry, aggregates: seq<(TypeId, TypeId)>)

  predicate ValidRegistry(reg: Registry) {
    forall t, i :: 0 <= t < |reg.types| && 0 <= i < |reg.types[t].attributes| ==>
      match reg.types[t].attributes[i].checker
      case PointerChecker(p) => p < |reg.types|
      case ContainerChecker(p) => p < |reg.types|
      case OtherChecker => true
  }

  predicate ValidPairs(reg: Registry, pairs: seq<(TypeId, TypeId)>) {
    forall k :: 0 <= k < |pairs| ==> pairs[k].0 < |reg.types| && pairs[k].1 < |reg.types|
  }

  predicate ValidGraph(g: Graph) {
    ValidRegistry(g.reg) && ValidPairs(g.reg, g.aggregates)
  }

  // ----- the graph that the three loops of DoGather walk over

  function AttributeEdge(reg: Registry, a: Attribute): seq<Edge> {
    match a.checker
    case PointerChecker(p) => if p == reg.objectType then [] else [Edge(a.name, p)]
    case ContainerChecker(p) => [Edge(a.name + "/[i]", p)]
    case OtherChecker => []
  }

  function AttributeEdges(reg: Registry, attributes: seq<Attribute>, n: nat): seq<Edge>
    requires n <= |attributes|
  {
    if n == 0 then []
    else AttributeEdges(reg, attributes, n - 1) + AttributeEdge(reg, attributes[n - 1])
  }

  function ChildEdges(reg: Registry, t: TypeId, n: nat): seq<Edge>
    requires n <= |reg.types|
  {
    if n == 0 then []
    else
      ChildEdges(reg, t, n - 1) +
      (if (n - 1, t) in reg.childOf then [Edge("$" + reg.types[n - 1].name, n - 1)] else [])
  }

  function AggregateEdge(reg: Registry, t: TypeId, pair: (TypeId, TypeId)): seq<Edge>
    requires pair.0 < |reg.types| && pair.1 < |reg.types|
  {
    if pair.1 == t then [Edge("$" + reg.types[pair.0].name, pair.0)]
    else if pair.0 == t then [Edge("$" + reg.types[pair.1].name, pair.1)]
    else []
  }

  function AggregateEdges(reg: Registry, t: TypeId, pairs: seq<(TypeId, TypeId)>, n: nat): seq<Edge>
    requires n <= |pairs| && ValidPairs(reg, pairs)
  {
    if n == 0 then []
    else AggregateEdges(reg, t, pairs, n - 1) + AggregateEdge(reg, t, pairs[n - 1])
  }

  /** All out-edges of `t`, parallel edges included. */
  function Out(g: Graph, t: TypeId): (es: seq<Edge>)
    requires ValidGraph(g) && t < |g.reg.types|
    ensures forall i :: 0 <= i < |es| ==> es[i].target < |g.reg.types|
  {
    AttributeEdgesInRange(g.reg, t, |g.reg.types[t].attributes|);
    ChildEdgesInRange(g.reg, t, |g.reg.types|);
    AggregateEdgesInRange(g.reg, t, g.aggregates, |g.aggregates|);
    AttributeEdges(g.reg, g.reg.types[t].attributes, |g.reg.types[t].attributes|) +
    ChildEdges(g.reg, t, |g.reg.types|) +
    AggregateEdges(g.reg, t, g.aggregates, |g.aggregates|)
  }

  lemma AttributeEdgesInRange(reg: Registry, t: TypeId, n: nat)
    requires ValidRegistry(reg) && t < |reg.types| && n <= |reg.types[t].attributes|
    ensures InRange(|reg.types|, AttributeEdges(reg, reg.types[t].attributes, n))
  {
    if n > 0 {
      AttributeEdgesInRange(reg, t, n - 1);
    }
  }

  lemma ChildEdgesInRange(reg: Registry, t: TypeId, n: nat)
    requires n <= |reg.types|
    ensures InRange(|reg.types|, ChildEdges(reg, t, n))
  {
  }

  lemma AggregateEdgesInRange(reg: Registry, t: TypeId, pairs: seq<(TypeId, TypeId)>, n: nat)
    requires n <= |pairs| && ValidPairs(reg, pairs)
    ensures InRange(|reg.types|, AggregateEdges(reg, t, pairs, n))
  {
  }

  function TheNet(g: Graph): (net: Net)
    requires ValidGraph(g)
    ensures |net| == |g.reg.types| && Closed(net)
    ensures forall t :: 0 <= t < |net| ==> net[t] == Out(g, t)
  {
    seq(|g.reg.types|, t requires 0 <= t < |g.reg.types| => Out(g, t))
  }

  lemma OutAt(g: Graph, t: TypeId)
    requires ValidGraph(g) && t < |g.reg.types|
    ensures Out(g, t) == AttributeEdges(g.reg, g.reg.types[t].attributes, |g.reg.types[t].attributes|) +
                            ChildEdges(g.reg, t, |g.reg.types|) +
                            AggregateEdges(g.reg, t, g.aggregates, |g.aggregates|)
  {
  }

  ghost predicate OutEdgesOf(net: Net, reg: Registry, pairs: seq<(TypeId, TypeId)>, t: TypeId)
    requires ValidGraph(Graph(reg, pairs)) && t < |net| == |reg.types|
  {
    net[t] == Out(Graph(reg, pairs), t)
  }

  /** The net is the graph of the registry and the pairs recorded so far. */
  ghost predicate NetOf(net: Net, reg: Registry, pairs: seq<(TypeId, TypeId)>) {
    && ValidRegistry(reg) && ValidPairs(reg, pairs) && Closed(net) && |net| == |reg.types|
    && forall t :: 0 <= t < |net| ==> OutEdgesOf(net, reg, pairs, t)
  }

  lemma NetIs(net: Net, reg: Registry, pairs: seq<(TypeId, TypeId)>)
    requires NetOf(net, reg, pairs)
    ensures net == TheNet(Graph(reg, pairs))
  {
    var g := Graph(reg, pairs);
    forall t | 0 <= t < |net| ensures net[t] == TheNet(g)[t] {
      assert OutEdgesOf(net, reg, pairs, t);
    }
  }

  /** The two stacks grow together and no type is on the stack twice. */
  ghost predicate StacksAgree(n: nat, path: seq<string>, stack: seq<TypeId>) {
    && |path| == |stack| && Distinct(stack)
    && forall i :: 0 <= i < |stack| ==> stack[i] < n
  }

  /** The edges `es` of `tid` have been followed since the output was `base`. */
  ghost predicate Followed(net: Net, tid: TypeId, es: seq<Edge>, stack: seq<TypeId>, path: seq<string>,
                           base: seq<Entry>, output: seq<Entry>)
    requires Closed(net)
  {
    InRange(|net|, es) && output == base + TraceEdges(net, es, stack + [tid], path)
  }

  lemma {:induction false} AggregateEdgeAt(reg: Registry, t: TypeId, pairs: seq<(TypeId, TypeId)>, k: nat, n: nat)
    requires k < n <= |pairs| && ValidPairs(reg, pairs) && pairs[k].0 == t != pairs[k].1
    ensures |AggregateEdges(reg, t, pairs, k)| < |AggregateEdges(reg, t, pairs, k + 1)| <= |AggregateEdges(reg, t, pairs, n)|
    ensures AggregateEdges(reg, t, pairs, n)[|AggregateEdges(reg, t, pairs, k)|] ==
            Edge("$" + reg.types[pairs[k].1].name, pairs[k].1)
  {
    if n > k + 1 {
      AggregateEdgeAt(reg, t, pairs, k, n - 1);
    }
  }

  /** A pair recorded twice gives two equal out-edges. */
  lemma RepeatedPairDoublesEdge(g: Graph, t: TypeId, j: nat, k: nat) returns (a: nat, b: nat)
    requires ValidGraph(g) && t < |g.reg.types| && j < k < |g.aggregates|
    requires g.aggregates[j] == g.aggregates[k] && g.aggregates[k].0 == t != g.aggregates[k].1
    ensures a < b < |Out(g, t)| && Out(g, t)[a] == Out(g, t)[b]
    ensures Out(g, t)[a].target == g.aggregates[k].1
  {
    var pairs := g.aggregates;
    AggregateEdgeAt(g.reg, t, pairs, j, |pairs|);
    AggregateEdgeAt(g.reg, t, pairs, j, k);
    AggregateEdgeAt(g.reg, t, pairs, k, |pairs|);
    OutAt(g, t);
    var before := |Out(g, t)| - |AggregateEdges(g.reg, t, pairs, |pairs|)|;
    a := before + |AggregateEdges(g.reg, t, pairs, j)|;
    b := before + |AggregateEdges(g.reg, t, pairs, k)|;
  }

  /** Recording the same pair twice, as GetTypicalAggregations does for the node
      and Icmpv4L4Protocol, lists a path twice although `Uniquefy` is called. */
  lemma RepeatedPairListedTwice(g: Graph, root: TypeId, j: nat, k: nat)
    requires ValidGraph(g) && root < |g.reg.types| && j < k < |g.aggregates|
    requires g.aggregates[j] == g.aggregates[k] && g.aggregates[k].0 == root != g.aggregates[k].1
    ensures !Distinct(Listing(TheNet(g), root))
  {
    var net := TheNet(g);
    var a, b := RepeatedPairDoublesEdge(g, root, j, k);
    assert Visits(net, root, []) == [root] && End(net, root, []) == root;
    assert DoubledEdge(net, root, [], a, b, []);
    DoubledEdgeRepeatsLine(net, root, [], a, b);
  }

  // ----- the out-edges, from the registry

  /** Where an out-edge comes from: an attribute of the type, a registered type or a pair. */
  datatype Origin = OfAttribute(i: nat) | OfType(j: nat) | OfPair(k: nat)

  /** Attributes come first, then types, then pairs, each in order. */
  predicate Before(o: Origin, p: Origin) {
    match (o, p)
    case (OfAttribute(i), OfAttribute(j)) => i < j
    case (OfType(i), OfType(j)) => i < j
    case (OfPair(i), OfPair(j)) => i < j
    case (OfAttribute(_), _) => true
    case (OfType(_), OfPair(_)) => true
    case _ => false
  }

  /** The attribute points to a type other than the object type, or is a container; the
      registered type descends from `t`; `t` takes part in the pair. */
  predicate Gives(g: Graph, t: TypeId, o: Origin)
    requires ValidGraph(g) && t < |g.reg.types|
  {
    var attributes := g.reg.types[t].attributes;
    match o
    case OfAttribute(i) =>
      i < |attributes| && (attributes[i].checker.ContainerChecker? ||
                           (attributes[i].checker.PointerChecker? && attributes[i].checker.pointee != g.reg.objectType))
    case OfType(j) => j < |g.reg.types| && (j, t) in g.reg.childOf
    case OfPair(k) => k < |g.aggregates| && (g.aggregates[k].0 == t || g.aggregates[k].1 == t)
  }

  function EdgeFrom(g: Graph, t: TypeId, o: Origin): Edge
    requires ValidGraph(g) && t < |g.reg.types| && Gives(g, t, o)
  {
    match o
    case OfAttribute(i) =>
      var a := g.reg.types[t].attributes[i];
      if a.checker.PointerChecker? then Edge(a.name, a.checker.pointee) else Edge(a.name + "/[i]", a.checker.item)
    case OfType(j) => Edge("$" + g.reg.types[j].name, j)
    case OfPair(k) =>
      var (a, b) := g.aggregates[k];
      var other := if a == t then b else a;
      Edge("$" + g.reg.types[other].name, other)
  }

  /** The edges come from these origins, one each, in order. */
  ghost predicate Sourced(g: Graph, t: TypeId, es: seq<Edge>, os: seq<Origin>)
    requires ValidGraph(g) && t < |g.reg.types|
  {
    && |es| == |os|
    && (forall i :: 0 <= i < |os| ==> Gives(g, t, os[i]) && es[i] == EdgeFrom(g, t, os[i]))
    && forall i, j :: 0 <= i < j < |os| ==> Before(os[i], os[j])
  }

  lemma SourcedConcat(g: Graph, t: TypeId, es: seq<Edge>, os: seq<Origin>, fs: seq<Edge>, ps: seq<Origin>)
    requires ValidGraph(g) && t < |g.reg.types| && Sourced(g, t, es, os) && Sourced(g, t, fs, ps)
    requires forall o, p :: o in os && p in ps ==> Before(o, p)
    ensures Sourced(g, t, es + fs, os + ps)
  {
  }

  lemma SourcedOne(g: Graph, t: TypeId, o: Origin)
    requires ValidGraph(g) && t < |g.reg.types| && Gives(g, t, o)
    ensures Sourced(g, t, [EdgeFrom(g, t, o)], [o])
  {
  }

  /** One more origin, if it gives an edge. */
  function Extend(g: Graph, t: TypeId, os: seq<Origin>, o: Origin): seq<Origin>
    requires ValidGraph(g) && t < |g.reg.types|
  {
    if Gives(g, t, o) then os + [o] else os
  }

  lemma SourcedStep(g: Graph, t: TypeId, es: seq<Edge>, os: seq<Origin>, more: seq<Edge>, o: Origin)
    requires ValidGraph(g) && t < |g.reg.types| && Sourced(g, t, es, os)
    requires forall p :: p in os ==> Before(p, o)
    requires more == if Gives(g, t, o) then [EdgeFrom(g, t, o)] else []
    ensures Sourced(g, t, es + more, Extend(g, t, os, o))
  {
    if Gives(g, t, o) {
      SourcedOne(g, t, o);
      SourcedConcat(g, t, es, os, more, [o]);
    } else {
      assert es + more == es;
    }
  }

  lemma {:induction false} AttributeSources(g: Graph, t: TypeId, n: nat) returns (os: seq<Origin>)
    requires ValidGraph(g) && t < |g.reg.types| && n <= |g.reg.types[t].attributes|
    ensures Sourced(g, t, AttributeEdges(g.reg, g.reg.types[t].attributes, n), os)
    ensures forall o :: o in os <==> o.OfAttribute? && o.i < n && Gives(g, t, o)
  {
    if n == 0 {
      os := [];
    } else {
      var init := AttributeSources(g, t, n - 1);
      var attributes := g.reg.types[t].attributes;
      SourcedStep(g, t, AttributeEdges(g.reg, attributes, n - 1), init, AttributeEdge(g.reg, attributes[n - 1]), OfAttribute(n - 1));
      os := Extend(g, t, init, OfAttribute(n - 1));
    }
  }

  lemma {:induction false} ChildSources(g: Graph, t: TypeId, n: nat) returns (os: seq<Origin>)
    requires ValidGraph(g) && t < |g.reg.types| && n <= |g.reg.types|
    ensures Sourced(g, t, ChildEdges(g.reg, t, n), os)
    ensures forall o :: o in os <==> o.OfType? && o.j < n && Gives(g, t, o)
  {
    if n == 0 {
      os := [];
    } else {
      var init := ChildSources(g, t, n - 1);
      var more := if (n - 1, t) in g.reg.childOf then [Edge("$" + g.reg.types[n - 1].name, n - 1)] else [];
      SourcedStep(g, t, ChildEdges(g.reg, t, n - 1), init, more, OfType(n - 1));
      os := Extend(g, t, init, OfType(n - 1));
    }
  }

  lemma {:induction false} AggregateSources(g: Graph, t: TypeId, n: nat) returns (os: seq<Origin>)
    requires ValidGraph(g) && t < |g.reg.types| && n <= |g.aggregates|
    ensures Sourced(g, t, AggregateEdges(g.reg, t, g.aggregates, n), os)
    ensures forall o :: o in os <==> o.OfPair? && o.k < n && Gives(g, t, o)
  {
    if n == 0 {
      os := [];
    } else {
      var init := AggregateSources(g, t, n - 1);
      SourcedStep(g, t, AggregateEdges(g.reg, t, g.aggregates, n - 1), init,
                  AggregateEdge(g.reg, t, g.aggregates[n - 1]), OfPair(n - 1));
      os := Extend(g, t, init, OfPair(n - 1));
    }
  }

  /** The out-edges of a type correspond one to one, in order, to its attributes that point
      or contain, its registered descendants, and the pairs it takes part in. */
  lemma OutEdgesHaveOrigins(g: Graph, t: TypeId) returns (os: seq<Origin>)
    requires ValidGraph(g) && t < |g.reg.types|
    ensures Sourced(g, t, TheNet(g)[t], os)
    ensures forall o :: o in os <==> Gives(g, t, o)
  {
    var attributes := g.reg.types[t].attributes;
    var xs, ys, zs := AttributeEdges(g.reg, attributes, |attributes|), ChildEdges(g.reg, t, |g.reg.types|),
                      AggregateEdges(g.reg, t, g.aggregates, |g.aggregates|);
    var os1 := AttributeSources(g, t, |attributes|);
    var os2 := ChildSources(g, t, |g.reg.types|);
    var os3 := AggregateSources(g, t, |g.aggregates|);
    SourcedConcat(g, t, xs, os1, ys, os2);
    SourcedConcat(g, t, xs + ys, os1 + os2, zs, os3);
    OutAt(g, t);
    os := os1 + os2 + os3;
  }

  /** A configuration step from `t` to `c` under a tag: a pointer attribute, unless it points
      to the object type; a container attribute; a descendant; or a recorded pair, in either
      position. */
  ghost predicate Step(g: Graph, t: TypeId, tag: string, c: TypeId)
    requires t < |g.reg.types|
  {
    && c < |g.reg.types|
    && (|| (exists a :: a in g.reg.types[t].attributes && a.checker == PointerChecker(c) && c != g.reg.objectType && tag == a.name)
        || (exists a :: a in g.reg.types[t].attributes && a.checker == ContainerChecker(c) && tag == a.name + "/[i]")
        || (((c, t) in g.reg.childOf || (c, t) in g.aggregates || (t, c) in g.aggregates) && tag == "$" + g.reg.types[c].name))
  }

  lemma StepHasOrigin(g: Graph, t: TypeId, tag: string, c: TypeId) returns (o: Origin)
    requires ValidGraph(g) && t < |g.reg.types| && Step(g, t, tag, c)
    ensures Gives(g, t, o) && EdgeFrom(g, t, o) == Edge(tag, c)
  {
    var attributes := g.reg.types[t].attributes;
    if a :| a in attributes && a.checker == PointerChecker(c) && c != g.reg.objectType && tag == a.name {
      var i :| 0 <= i < |attributes| && attributes[i] == a;
      o := OfAttribute(i);
    } else if a :| a in attributes && a.checker == ContainerChecker(c) && tag == a.name + "/[i]" {
      var i :| 0 <= i < |attributes| && attributes[i] == a;
      o := OfAttribute(i);
    } else if (c, t) in g.reg.childOf {
      o := OfType(c);
    } else {
      var k :| 0 <= k < |g.aggregates| && (g.aggregates[k] == (c, t) || g.aggregates[k] == (t, c));
      o := OfPair(k);
    }
  }

  lemma OriginIsStep(g: Graph, t: TypeId, o: Origin)
    requires ValidGraph(g) && t < |g.reg.types| && Gives(g, t, o)
    ensures Step(g, t, EdgeFrom(g, t, o).tag, EdgeFrom(g, t, o).target)
  {
    match o
    case OfAttribute(i) => assert g.reg.types[t].attributes[i] in g.reg.types[t].attributes;
    case OfType(_) =>
    case OfPair(k) => assert g.aggregates[k] in g.aggregates;
  }

  lemma EdgeIffStep(g: Graph, t: TypeId, tag: string, c: TypeId)
    requires ValidGraph(g) && t < |g.reg.types|
    ensures HasEdge(TheNet(g), t, tag, c) <==> Step(g, t, tag, c)
  {
    var os := OutEdgesHaveOrigins(g, t);
    if HasEdge(TheNet(g), t, tag, c) {
      var i :| 0 <= i < |TheNet(g)[t]| && TheNet(g)[t][i] == Edge(tag, c);
      OriginIsStep(g, t, os[i]);
    }
    if Step(g, t, tag, c) {
      var o := StepHasOrigin(g, t, tag, c);
      var i :| 0 <= i < |os| && os[i] == o;
      assert TheNet(g)[t][i] == Edge(tag, c);
    }
  }

  /** Pairwise different types from the root to `c`, each a configuration step from the last. */
  ghost predicate Route(g: Graph, root: TypeId, c: TypeId, ts: seq<TypeId>, labels: seq<string>) {
    && |ts| == |labels| + 1 && ts[0] == root && ts[|labels|] == c && Distinct(ts)
    && forall i :: 0 <= i < |labels| ==> ts[i] < |g.reg.types| && Step(g, ts[i], labels[i], ts[i + 1])
  }

  lemma ChainIffRoute(g: Graph, root: TypeId, c: TypeId, ts: seq<TypeId>, labels: seq<string>)
    requires ValidGraph(g) && root < |g.reg.types|
    ensures Chain(TheNet(g), root, c, ts, labels) <==> Route(g, root, c, ts, labels)
  {
    if Chain(TheNet(g), root, c, ts, labels) {
      forall i | 0 <= i < |labels| ensures ts[i] < |g.reg.types| && Step(g, ts[i], labels[i], ts[i + 1]) {
        assert HasEdge(TheNet(g), ts[i], labels[i], ts[i + 1]);
        EdgeIffStep(g, ts[i], labels[i], ts[i + 1]);
      }
    }
    if Route(g, root, c, ts, labels) {
      forall i | 0 <= i < |labels| ensures HasEdge(TheNet(g), ts[i], labels[i], ts[i + 1]) {
        EdgeIffStep(g, ts[i], labels[i], ts[i + 1]);
      }
    }
  }

  /** What is listed, from the registry and the pairs: a type with a path is a line exactly
      when some route of configuration steps leads to it and the path joins its labels. */
  lemma ListedIff(g: Graph, root: TypeId, c: TypeId, s: string)
    requires ValidGraph(g) && root < |g.reg.types|
    ensures Entry(c, s) in Listing(TheNet(g), root) <==>
            exists ts, labels :: Route(g, root, c, ts, labels) && Join(labels) == s
  {
    LineIffChain(TheNet(g), root, c, s);
    forall ts, labels ensures Chain(TheNet(g), root, c, ts, labels) <==> Route(g, root, c, ts, labels) {
      ChainIffRoute(g, root, c, ts, labels);
    }
  }

  /** Names without slashes, as attributes and types have. */
  predicate PlainNames(reg: Registry) {
    forall t :: 0 <= t < |reg.types| ==>
      '/' !in reg.types[t].name && forall i :: 0 <= i < |reg.types[t].attributes| ==> Plain(reg.types[t].attributes[i].name)
  }

  lemma StepLabelDecodable(g: Graph, t: TypeId, tag: string, c: TypeId)
    requires t < |g.reg.types| && PlainNames(g.reg) && Step(g, t, tag, c)
    ensures Decodable(tag)
  {
    var attributes := g.reg.types[t].attributes;
    if a :| a in attributes && a.checker == ContainerChecker(c) && tag == a.name + "/[i]" {
      var i :| 0 <= i < |attributes| && attributes[i] == a;
      assert tag[|tag| - 4..] == "/[i]" && tag[..|tag| - 4] == a.name;
    } else if a :| a in attributes && a.checker == PointerChecker(c) && c != g.reg.objectType && tag == a.name {
      var i :| 0 <= i < |attributes| && attributes[i] == a;
    } else {
      assert tag[0] == '$' && tag[1..] == g.reg.types[c].name;
    }
  }

  lemma JoinOne(tag: string)
    ensures Join([tag]) == "/" + tag
  {
    assert [tag][..0] == [];
    assert "" + "/" + tag == "/" + tag;
  }

  /** The lines with a single tag are the configuration steps from the root. */
  lemma OneLabelIff(g: Graph, t: TypeId, tag: string, c: TypeId)
    requires ValidGraph(g) && PlainNames(g.reg) && t < |g.reg.types| && c != t && Decodable(tag)
    ensures Entry(c, "/" + tag) in Listing(TheNet(g), t) <==> Step(g, t, tag, c)
  {
    ListedIff(g, t, c, "/" + tag);
    JoinOne(tag);
    if ts, labels :| Route(g, t, c, ts, labels) && Join(labels) == "/" + tag {
      forall i | 0 <= i < |labels| ensures Decodable(labels[i]) {
        StepLabelDecodable(g, ts[i], labels[i], ts[i + 1]);
      }
      JoinInjective(labels, [tag]);
      assert Step(g, ts[0], labels[0], ts[0 + 1]);
    }
    if Step(g, t, tag, c) {
      assert Route(g, t, c, [t, c], [tag]);
    }
  }

  // ----- the stateful gatherer

  function LookupByName(reg: Registry, name: string, from: nat := 0): (r: Option<TypeId>)
    requires from <= |reg.types|
    ensures r.Some? ==> from <= r.value < |reg.types| && reg.types[r.value].name == name
    ensures r.None? ==> forall t :: from <= t < |reg.types| ==> reg.types[t].name != name
    decreases |reg.types| - from
  {
    if from == |reg.types| then None
    else if reg.types[from].name == name then Some(from)
    else LookupByName(reg, name, from + 1)
  }

  class StaticInformation {
    const reg: Registry
    var output: seq<Entry>
    var currentPath: seq<string>
    var alreadyProcessed: seq<TypeId>
    var aggregates: seq<(TypeId, TypeId)>
    var noTids: seq<string>

    ghost var net: Net  // the out-edges under the pairs recorded so far

    ghost predicate Valid()
      reads this
    {
      NetOf(net, reg, aggregates) && StacksAgree(|reg.types|, currentPath, alreadyProcessed)
    }

    constructor (reg: Registry)
      requires ValidRegistry(reg)
      ensures Valid() && this.reg == reg
      ensures output == [] && currentPath == [] && alreadyProcessed == [] && aggregates == [] && noTids == []
    {
      this.reg := reg;
      output, currentPath, alreadyProcessed, aggregates, noTids := [], [], [], [], [];
      net := TheNet(Graph(reg, []));
    }

    /** Records the pair only when both names are registered; otherwise the first
        unknown name is remembered and nothing else changes. */
    method RecordAggregationInfo(a: string, b: string)
      requires Valid()
      modifies this`aggregates, this`noTids, this`net
      ensures Valid()
      ensures var ta, tb := LookupByName(reg, a), LookupByName(reg, b);
              if ta.None? then aggregates == old(aggregates) && noTids == old(noTids) + [a]
              else if tb.None? then aggregates == old(aggregates) && noTids == old(noTids) + [b]
              else aggregates == old(aggregates) + [(ta.value, tb.value)] && noTids == old(noTids)
    {
      var ta := LookupByName(reg, a);
      if ta.None? {
        noTids := noTids + [a];
        return;
      }
      var tb := LookupByName(reg, b);
      if tb.None? {
        noTids := noTids + [b];
        return;
      }
      aggregates := aggregates + [(ta.value, tb.value)];
      net := TheNet(Graph(reg, aggregates));
    }

    method GetCurrentPath() returns (s: string)
      ensures s == Join(currentPath)
    {
      s := "";
      for i := 0 to |currentPath|
        invariant s == Join(currentPath[..i])
      {
        assert currentPath[..i + 1][..i] == currentPath[..i];
        s := s + "/" + currentPath[i];
      }
      assert currentPath[..|currentPath|] == currentPath;
    }

    method HasAlreadyBeenProcessed(tid: TypeId) returns (found: bool)
      ensures found <==> tid in alreadyProcessed
    {
      for i := 0 to |alreadyProcessed|
        invariant tid !in alreadyProcessed[..i]
      {
        if alreadyProcessed[i] == tid {
          return true;
        }
      }
      return false;
    }

    method Get(tid: TypeId) returns (paths: seq<string>)
      ensures paths == PathsTo(output, tid)
    {
      paths := [];
      for i := 0 to |output|
        invariant paths == PathsTo(output[..i], tid)
      {
        assert output[..i + 1][..i] == output[..i];
        if output[i].tid == tid {
          paths := paths + [output[i].path];
        }
      }
      assert output[..|output|] == output;
    }

    /** Follows one edge: push, recurse, pop. When the edges `es` have been
        followed since the output was `base`, so has `e` afterwards. */
    method Descend(tid: TypeId, e: Edge, ghost base: seq<Entry>, ghost es: seq<Edge>)
      requires Valid() && tid < |reg.types| && e.target < |reg.types| && tid !in alreadyProcessed
      requires Followed(net, tid, es, alreadyProcessed, currentPath, base, output)
      modifies this`output, this`currentPath, this`alreadyProcessed
      ensures Valid() && currentPath == old(currentPath) && alreadyProcessed == old(alreadyProcessed)
      ensures Followed(net, tid, es + [e], alreadyProcessed, currentPath, base, output)
      decreases |Unvisited(net, alreadyProcessed)|, 0
    {
      PushShrinks(net, alreadyProcessed, tid);
      TraceGrows(net, base, es, e, alreadyProcessed + [tid], currentPath);
      currentPath := currentPath + [e.tag];
      alreadyProcessed := alreadyProcessed + [tid];
      DoGather(e.target);
      alreadyProcessed := alreadyProcessed[..|alreadyProcessed| - 1];
      currentPath := currentPath[..|currentPath| - 1];
    }

    /** One round of the attribute loop. */
    method FollowAttribute(tid: TypeId, info: Attribute, ghost base: seq<Entry>, ghost es: seq<Edge>)
      requires Valid() && tid < |reg.types| && tid !in alreadyProcessed
      requires InRange(|net|, AttributeEdge(reg, info))
      requires Followed(net, tid, es, alreadyProcessed, currentPath, base, output)
      modifies this`output, this`currentPath, this`alreadyProcessed
      ensures Valid() && currentPath == old(currentPath) && alreadyProcessed == old(alreadyProcessed)
      ensures Followed(net, tid, es + AttributeEdge(reg, info), alreadyProcessed, currentPath, base, output)
      decreases |Unvisited(net, alreadyProcessed)|, 1
    {
      match info.checker
      case PointerChecker(pointee) =>
        if pointee == reg.objectType {
          assert es + [] == es;
        } else {
          assert AttributeEdge(reg, info)[0].target == pointee;
          Descend(tid, Edge(info.name, pointee), base, es);
        }
      case ContainerChecker(item) =>
        assert AttributeEdge(reg, info)[0].target == item;
        Descend(tid, Edge(info.name + "/[i]", item), base, es);
      case OtherChecker =>
        assert es + [] == es;
    }

    method GatherAttributes(tid: TypeId)
      requires Valid() && tid < |reg.types| && tid !in alreadyProcessed
      modifies this`output, this`currentPath, this`alreadyProcessed
      ensures Valid() && currentPath == old(currentPath) && alreadyProcessed == old(alreadyProcessed)
      ensures Followed(net, tid, AttributeEdges(reg, reg.types[tid].attributes, |reg.types[tid].attributes|),
                       alreadyProcessed, currentPath, old(output), output)
      decreases |Unvisited(net, alreadyProcessed)|, 2
    {
      var attributes := reg.types[tid].attributes;
      for i := 0 to |attributes|
        invariant Valid() && currentPath == old(currentPath) && alreadyProcessed == old(alreadyProcessed)
        invariant Followed(net, tid, AttributeEdges(reg, attributes, i), alreadyProcessed, currentPath, old(output), output)
      {
        FollowAttribute(tid, attributes[i], old(output), AttributeEdges(reg, attributes, i));
      }
    }

    method GatherChildren(tid: TypeId)
      requires Valid() && tid < |reg.types| && tid !in alreadyProcessed
      modifies this`output, this`currentPath, this`alreadyProcessed
      ensures Valid() && currentPath == old(currentPath) && alreadyProcessed == old(alreadyProcessed)
      ensures Followed(net, tid, ChildEdges(reg, tid, |reg.types|),
                       alreadyProcessed, currentPath, old(output), output)
      decreases |Unvisited(net, alreadyProcessed)|, 1
    {
      for j := 0 to |reg.types|
        invariant Valid() && currentPath == old(currentPath) && alreadyProcessed == old(alreadyProcessed)
        invariant Followed(net, tid, ChildEdges(reg, tid, j), alreadyProcessed, currentPath, old(output), output)
      {
        if (j, tid) in reg.childOf {
          var e := Edge("$" + reg.types[j].name, j);
          assert ChildEdges(reg, tid, j + 1) == ChildEdges(reg, tid, j) + [e];
          Descend(tid, e, old(output), ChildEdges(reg, tid, j));
        } else {
          assert ChildEdges(reg, tid, j + 1) == ChildEdges(reg, tid, j);
        }
      }
    }

    /** One round of the aggregation loop. */
    method FollowAggregate(tid: TypeId, item: (TypeId, TypeId), ghost base: seq<Entry>, ghost es: seq<Edge>)
      requires Valid() && tid < |reg.types| && tid !in alreadyProcessed
      requires item.0 < |reg.types| && item.1 < |reg.types|
      requires Followed(net, tid, es, alreadyProcessed, currentPath, base, output)
      modifies this`output, this`currentPath, this`alreadyProcessed
      ensures Valid() && currentPath == old(currentPath) && alreadyProcessed == old(alreadyProcessed)
      ensures Followed(net, tid, es + AggregateEdge(reg, tid, item), alreadyProcessed, currentPath, base, output)
      decreases |Unvisited(net, alreadyProcessed)|, 1
    {
      if item.0 == tid || item.1 == tid {
        var other := 0;
        if item.0 == tid {
          other := item.1;
        }
        if item.1 == tid {
          other := item.0;
        }
        Descend(tid, Edge("$" + reg.types[other].name, other), base, es);
      } else {
        assert es + [] == es;
      }
    }

    method GatherAggregates(tid: TypeId)
      requires Valid() && tid < |reg.types| && tid !in alreadyProcessed
      modifies this`output, this`currentPath, this`alreadyProcessed
      ensures Valid() && currentPath == old(currentPath) && alreadyProcessed == old(alreadyProcessed)
      ensures Followed(net, tid, AggregateEdges(reg, tid, aggregates, |aggregates|),
                       alreadyProcessed, currentPath, old(output), output)
      decreases |Unvisited(net, alreadyProcessed)|, 2
    {
      var pairs := aggregates;
      for k := 0 to |pairs|
        invariant Valid() && aggregates == pairs
        invariant currentPath == old(currentPath) && alreadyProcessed == old(alreadyProcessed)
        invariant Followed(net, tid, AggregateEdges(reg, tid, pairs, k), alreadyProcessed, currentPath, old(output), output)
      {
        ghost var es := AggregateEdges(reg, tid, pairs, k);
        FollowAggregate(tid, pairs[k], old(output), es);
        assert AggregateEdges(reg, tid, pairs, k + 1) == es + AggregateEdge(reg, tid, pairs[k]);
      }
    }

    /** Terminates on every graph, restores both stacks, and appends `Trace`. */
    method DoGather(tid: TypeId)
      requires Valid() && tid < |reg.types|
      modifies this`output, this`currentPath, this`alreadyProcessed
      ensures Valid() && currentPath == old(currentPath) && alreadyProcessed == old(alreadyProcessed)
      ensures output == old(output) + Trace(net, tid, old(alreadyProcessed), old(currentPath))
      decreases |Unvisited(net, alreadyProcessed)|, 3
    {
      var found := HasAlreadyBeenProcessed(tid);
      if found {
        return;
      }
      var here := GetCurrentPath();
      output := output + [Entry(tid, here)];
      GatherAttributes(tid);
      GatherChildren(tid);
      GatherAggregates(tid);
      assert OutEdgesOf(net, reg, aggregates, tid);
      OutAt(Graph(reg, aggregates), tid);
      TraceInThree(net, tid,
                   AttributeEdges(reg, reg.types[tid].attributes, |reg.types[tid].attributes|),
                   ChildEdges(reg, tid, |reg.types|),
                   AggregateEdges(reg, tid, aggregates, |aggregates|),
                   alreadyProcessed, currentPath, old(output));
    }

    /** Appends the listing; the `Uniquefy` that follows works on a copy. */
    method Gather(tid: TypeId)
      requires Valid() && tid < |reg.types| && alreadyProcessed == []
      modifies this`output, this`currentPath, this`alreadyProcessed
      ensures Valid() && currentPath == [] && alreadyProcessed == []
      ensures output == old(output) + Listing(TheNet(Graph(reg, aggregates)), tid)
    {
      DoGather(tid);
      NetIs(net, reg, aggregates);
    }
  }
}
