/** The labelled currency graph (src/brain/graph.rs, `create_graph` and
    `add_unique_node`). A node holds a currency symbol and a label; for
    every base currency `b` and alt currency `a` whose pair symbol `a + b`
    is traded, the graph gets an edge each way between `b` and `a`. Nodes are
    numbered in insertion order, as petgraph's `NodeIndex` is. */
module GraphBuild {
  import opened Wrappers
  import opened BrainSets

  datatype Node = Node(value: string, nodeLabel: string)
  datatype Edge = Edge(source: nat, target: nat)
  datatype DiGraph = DiGraph(nodes: seq<Node>, edges: seq<Edge>)

  const BASE_LABEL: string := "base"
  const ALT_LABEL: string := "alt"

  /** The pair `alt + base` is among the traded pair symbols `clean`. */
  predicate ValidPair(b: BaseCurrency, a: AltCurrency, clean: seq<string>) {
    a.symbol + b.symbol in clean
  }

  /** `v` is a base currency with at least one traded pair. */
  predicate BasePaired(v: string, base: seq<BaseCurrency>, alt: seq<AltCurrency>, clean: seq<string>) {
    exists i, j :: 0 <= i < |base| && 0 <= j < |alt| && base[i].symbol == v && ValidPair(base[i], alt[j], clean)
  }

  /** `v` is an alt currency with at least one traded pair. */
  predicate AltPaired(v: string, base: seq<BaseCurrency>, alt: seq<AltCurrency>, clean: seq<string>) {
    exists i, j :: 0 <= i < |base| && 0 <= j < |alt| && alt[j].symbol == v && ValidPair(base[i], alt[j], clean)
  }

  /** `g` extends `g0`: its nodes and edges start with those of `g0`. */
  predicate GrowsFrom(g: DiGraph, g0: DiGraph) {
    |g0.nodes| <= |g.nodes| && g.nodes[..|g0.nodes|] == g0.nodes
    && |g0.edges| <= |g.edges| && g.edges[..|g0.edges|] == g0.edges
  }

  /** `nodeMap` indexes exactly the nodes from `n0` on, by value. */
  predicate Registry(g: DiGraph, nodeMap: map<string, nat>, n0: nat) {
    n0 <= |g.nodes|
    && (forall v :: v in nodeMap ==> n0 <= nodeMap[v] < |g.nodes| && g.nodes[nodeMap[v]].value == v)
    && (forall k :: n0 <= k < |g.nodes| ==> g.nodes[k].value in nodeMap && nodeMap[g.nodes[k].value] == k)
  }

  /** Edge `k` of `g` leads from a node of value `x` to one of value `y`. */
  predicate EdgeBetween(g: DiGraph, k: int, x: string, y: string) {
    0 <= k < |g.edges| && g.edges[k].source < |g.nodes| && g.edges[k].target < |g.nodes|
    && g.nodes[g.edges[k].source].value == x && g.nodes[g.edges[k].target].value == y
  }

  /** Some edge from index `e0` on leads from `x` to `y`. */
  predicate Linked(g: DiGraph, e0: nat, x: string, y: string) {
    exists k :: e0 <= k < |g.edges| && EdgeBetween(g, k, x, y)
  }

  /** Edge `k` is one of the two edges of a traded pair. */
  predicate FromPair(g: DiGraph, k: int, base: seq<BaseCurrency>, alt: seq<AltCurrency>, clean: seq<string>) {
    exists i, j :: 0 <= i < |base| && 0 <= j < |alt| && ValidPair(base[i], alt[j], clean)
                   && (EdgeBetween(g, k, base[i].symbol, alt[j].symbol)
                       || EdgeBetween(g, k, alt[j].symbol, base[i].symbol))
  }

  /** `add_unique_node`: the node already registered for `value`, untouched,
      or a new node labelled `labelOpt` (the empty label when there is none). */
  method AddUniqueNode(graph: DiGraph, nodeMap: map<string, nat>, value: string, labelOpt: Option<string>)
    returns (g: DiGraph, m: map<string, nat>, node: nat)
    ensures value in nodeMap ==> g == graph && m == nodeMap && node == nodeMap[value]
    ensures value !in nodeMap ==>
              g == DiGraph(graph.nodes + [Node(value, labelOpt.GetOr(""))], graph.edges)
              && m == nodeMap[value := |graph.nodes|] && node == |graph.nodes|
  {
    if value in nodeMap {
      g, m, node := graph, nodeMap, nodeMap[value];
    } else {
      var labelStr := labelOpt.GetOr("");
      node := |graph.nodes|;
      g := DiGraph(graph.nodes + [Node(value, labelStr)], graph.edges);
      m := nodeMap[value := node];
    }
  }

  /** Adding a node for a value the registry does not hold keeps the
      registry exact, and the value's index then names a node of that value. */
  lemma RegistryAdd(graph: DiGraph, nodeMap: map<string, nat>, n0: nat, value: string, nodeLabel: string)
    requires Registry(graph, nodeMap, n0) && value !in nodeMap
    ensures Registry(DiGraph(graph.nodes + [Node(value, nodeLabel)], graph.edges),
                     nodeMap[value := |graph.nodes|], n0)
  {
    var g := DiGraph(graph.nodes + [Node(value, nodeLabel)], graph.edges);
    var m := nodeMap[value := |graph.nodes|];
    forall k | n0 <= k < |g.nodes|
      ensures g.nodes[k].value in m && m[g.nodes[k].value] == k
    {
      if k < |graph.nodes| {
        assert g.nodes[k] == graph.nodes[k];
      }
    }
  }

  /** Nodes registered in the same map hold distinct values. */
  lemma RegistryDistinct(g: DiGraph, nodeMap: map<string, nat>, n0: nat)
    requires Registry(g, nodeMap, n0)
    ensures forall i, j :: n0 <= i < j < |g.nodes| ==> g.nodes[i].value != g.nodes[j].value
  {
    forall i, j | n0 <= i < j < |g.nodes|
      ensures g.nodes[i].value != g.nodes[j].value
    {
      assert nodeMap[g.nodes[i].value] == i && nodeMap[g.nodes[j].value] == j;
    }
  }

  /** What the first pass keeps while it runs: only nodes labelled "base"
      for base currencies with a traded pair were added, and the registry
      is exact. */
  ghost predicate BaseState(g: DiGraph, m: map<string, nat>, graph: DiGraph,
                            base: seq<BaseCurrency>, alt: seq<AltCurrency>, clean: seq<string>) {
    GrowsFrom(g, graph) && g.edges == graph.edges
    && Registry(g, m, |graph.nodes|)
    && (forall v :: v in m ==> BasePaired(v, base, alt, clean))
    && (forall k :: |graph.nodes| <= k < |g.nodes| ==> g.nodes[k].nodeLabel == BASE_LABEL)
  }

  /** A new base node for a base currency with a traded pair keeps the
      first pass's state. */
  lemma BaseNodeAdded(g: DiGraph, m: map<string, nat>, graph: DiGraph,
                      base: seq<BaseCurrency>, alt: seq<AltCurrency>, clean: seq<string>, v: string)
    requires BaseState(g, m, graph, base, alt, clean) && BasePaired(v, base, alt, clean) && v !in m
    ensures BaseState(DiGraph(g.nodes + [Node(v, BASE_LABEL)], g.edges), m[v := |g.nodes|],
                      graph, base, alt, clean)
  {
    var g' := DiGraph(g.nodes + [Node(v, BASE_LABEL)], g.edges);
    RegistryAdd(g, m, |graph.nodes|, v, BASE_LABEL);
    assert g'.nodes[..|graph.nodes|] == g.nodes[..|graph.nodes|];
  }

  /** The first pass of `create_graph`: a node labelled "base" for every base
      currency with a traded pair, added before any alt node. */
  method AddBaseNodes(graph: DiGraph, base: seq<BaseCurrency>, alt: seq<AltCurrency>, clean: seq<string>)
    returns (g: DiGraph, m: map<string, nat>)
    ensures GrowsFrom(g, graph) && g.edges == graph.edges
    ensures Registry(g, m, |graph.nodes|)
    ensures forall v :: v in m <==> BasePaired(v, base, alt, clean)
    ensures forall k :: |graph.nodes| <= k < |g.nodes| ==> g.nodes[k].nodeLabel == BASE_LABEL
  {
    g, m := graph, map[];
    for i := 0 to |base|
      invariant BaseState(g, m, graph, base, alt, clean)
      invariant forall i', j' :: 0 <= i' < i && 0 <= j' < |alt| && ValidPair(base[i'], alt[j'], clean)
                  ==> base[i'].symbol in m
    {
      ghost var keys := m.Keys;
      for j := 0 to |alt|
        invariant BaseState(g, m, graph, base, alt, clean) && keys <= m.Keys
        invariant (exists j' :: 0 <= j' < j && ValidPair(base[i], alt[j'], clean)) ==> base[i].symbol in m
      {
        var concatenated := alt[j].symbol + base[i].symbol;
        if concatenated in clean {
          assert BasePaired(base[i].symbol, base, alt, clean);
          var g', m', _ := AddUniqueNode(g, m, base[i].symbol, Some(BASE_LABEL));
          if base[i].symbol !in m {
            BaseNodeAdded(g, m, graph, base, alt, clean, base[i].symbol);
          }
          g, m := g', m';
        }
      }
    }
  }

  /** petgraph's `add_edge`: one more edge, after the existing ones. */
  function AddEdge(g: DiGraph, source: nat, target: nat): (r: DiGraph)
    ensures GrowsFrom(r, g) && r.nodes == g.nodes
    ensures |r.edges| == |g.edges| + 1 && r.edges[|g.edges|] == Edge(source, target)
  {
    DiGraph(g.nodes, g.edges + [Edge(source, target)])
  }

  /** Growing a graph keeps every edge between the values it joined. */
  lemma GrowKeepsLinks(g: DiGraph, g2: DiGraph, e0: nat, base: seq<BaseCurrency>, alt: seq<AltCurrency>, clean: seq<string>)
    requires GrowsFrom(g2, g)
    ensures forall k :: FromPair(g, k, base, alt, clean) ==> FromPair(g2, k, base, alt, clean)
    ensures forall x, y :: Linked(g, e0, x, y) ==> Linked(g2, e0, x, y)
  {
    assert forall k :: 0 <= k < |g.edges| ==> g2.edges[k] == g.edges[k];
    assert forall k :: 0 <= k < |g.nodes| ==> g2.nodes[k] == g.nodes[k];
    forall k | FromPair(g, k, base, alt, clean)
      ensures FromPair(g2, k, base, alt, clean)
    {
      var i, j :| 0 <= i < |base| && 0 <= j < |alt| && ValidPair(base[i], alt[j], clean)
                  && (EdgeBetween(g, k, base[i].symbol, alt[j].symbol)
                      || EdgeBetween(g, k, alt[j].symbol, base[i].symbol));
      assert EdgeBetween(g2, k, base[i].symbol, alt[j].symbol)
             || EdgeBetween(g2, k, alt[j].symbol, base[i].symbol);
    }
    forall x, y | Linked(g, e0, x, y)
      ensures Linked(g2, e0, x, y)
    {
      var k :| e0 <= k < |g.edges| && EdgeBetween(g, k, x, y);
      assert EdgeBetween(g2, k, x, y);
    }
  }

  lemma GrowsTransitive(a: DiGraph, b: DiGraph, c: DiGraph)
    requires GrowsFrom(b, a) && GrowsFrom(c, b)
    ensures GrowsFrom(c, a)
  {
    assert c.nodes[..|a.nodes|] == c.nodes[..|b.nodes|][..|a.nodes|];
    assert c.edges[..|a.edges|] == c.edges[..|b.edges|][..|a.edges|];
  }

  /** The new nodes from `n0` on hold distinct values. */
  predicate NewNodesDistinct(g: DiGraph, n0: nat) {
    forall i, j :: n0 <= i < j < |g.nodes| ==> g.nodes[i].value != g.nodes[j].value
  }

  /** A new node is labelled "base" exactly when its value is a base
      currency with a traded pair, and "alt" otherwise. */
  predicate LabelsRight(g: DiGraph, n0: nat, base: seq<BaseCurrency>, alt: seq<AltCurrency>, clean: seq<string>) {
    forall k :: n0 <= k < |g.nodes| ==>
      (g.nodes[k].nodeLabel == BASE_LABEL <==> BasePaired(g.nodes[k].value, base, alt, clean))
      && (g.nodes[k].nodeLabel == BASE_LABEL || g.nodes[k].nodeLabel == ALT_LABEL)
  }

  /** Every new node is a currency of some traded pair. */
  predicate NodesArePaired(g: DiGraph, n0: nat, base: seq<BaseCurrency>, alt: seq<AltCurrency>, clean: seq<string>) {
    forall k :: n0 <= k < |g.nodes| ==>
      BasePaired(g.nodes[k].value, base, alt, clean) || AltPaired(g.nodes[k].value, base, alt, clean)
  }

  /** Every currency of a traded pair has a new node. */
  ghost predicate PairedAreNodes(g: DiGraph, n0: nat, base: seq<BaseCurrency>, alt: seq<AltCurrency>, clean: seq<string>) {
    forall v :: BasePaired(v, base, alt, clean) || AltPaired(v, base, alt, clean) ==>
      exists k :: n0 <= k < |g.nodes| && g.nodes[k].value == v
  }

  /** Every traded pair is joined by a new edge each way. */
  predicate PairsLinked(g: DiGraph, e0: nat, base: seq<BaseCurrency>, alt: seq<AltCurrency>, clean: seq<string>) {
    forall i, j :: 0 <= i < |base| && 0 <= j < |alt| && ValidPair(base[i], alt[j], clean) ==>
      Linked(g, e0, base[i].symbol, alt[j].symbol) && Linked(g, e0, alt[j].symbol, base[i].symbol)
  }

  /** Every new edge is an edge of a traded pair, between new nodes. */
  predicate EdgesFromPairs(g: DiGraph, n0: nat, e0: nat, base: seq<BaseCurrency>, alt: seq<AltCurrency>, clean: seq<string>) {
    forall k :: e0 <= k < |g.edges| ==>
      n0 <= g.edges[k].source < |g.nodes| && n0 <= g.edges[k].target < |g.nodes|
      && FromPair(g, k, base, alt, clean)
  }

  /** What the second pass keeps while it runs, given the set `bases` of
      symbols the first pass registered: the registry is exact and holds
      every symbol of `bases` and otherwise only alt currencies of traded
      pairs, exactly the nodes of `bases` are labelled "base" and the others
      "alt", and every new edge is a pair's edge. */
  ghost predicate LinkState(g: DiGraph, m: map<string, nat>, n0: nat, e0: nat, bases: set<string>,
                            base: seq<BaseCurrency>, alt: seq<AltCurrency>, clean: seq<string>) {
    Registry(g, m, n0) && e0 <= |g.edges| && bases <= m.Keys
    && (forall v :: v in m ==> v in bases || AltPaired(v, base, alt, clean))
    && (forall k :: n0 <= k < |g.nodes| ==>
          (g.nodes[k].nodeLabel == BASE_LABEL <==> g.nodes[k].value in bases)
          && (g.nodes[k].nodeLabel == BASE_LABEL || g.nodes[k].nodeLabel == ALT_LABEL))
    && EdgesFromPairs(g, n0, e0, base, alt, clean)
  }

  /** Every base currency with a traded pair is in `bases`. */
  ghost predicate BasesCover(bases: set<string>, base: seq<BaseCurrency>, alt: seq<AltCurrency>, clean: seq<string>) {
    forall i, j :: 0 <= i < |base| && 0 <= j < |alt| && ValidPair(base[i], alt[j], clean) ==> base[i].symbol in bases
  }

  /** The pair of `b` and `a` has been handled: the alt currency has a node
      and an edge joins the two each way. */
  ghost predicate PairDone(g: DiGraph, m: map<string, nat>, e0: nat, b: BaseCurrency, a: AltCurrency) {
    a.symbol in m && Linked(g, e0, b.symbol, a.symbol) && Linked(g, e0, a.symbol, b.symbol)
  }

  lemma PairDoneGrows(g: DiGraph, m: map<string, nat>, g': DiGraph, m': map<string, nat>, e0: nat)
    requires GrowsFrom(g', g) && m.Keys <= m'.Keys
    ensures forall b, a :: PairDone(g, m, e0, b, a) ==> PairDone(g', m', e0, b, a)
  {
    GrowKeepsLinks(g, g', e0, [], [], []);
  }

  /** Every traded pair of `b` among the first `j` alt currencies is done. */
  ghost predicate BaseDone(g: DiGraph, m: map<string, nat>, e0: nat, b: BaseCurrency,
                           alt: seq<AltCurrency>, clean: seq<string>, j: nat) {
    forall j' :: 0 <= j' < j && j' < |alt| && ValidPair(b, alt[j'], clean) ==> PairDone(g, m, e0, b, alt[j'])
  }

  /** Every traded pair of the first `i` base currencies is done. */
  ghost predicate AllDone(g: DiGraph, m: map<string, nat>, e0: nat, base: seq<BaseCurrency>,
                          alt: seq<AltCurrency>, clean: seq<string>, i: nat) {
    forall i', j' :: 0 <= i' < i && i' < |base| && 0 <= j' < |alt| && ValidPair(base[i'], alt[j'], clean) ==>
      PairDone(g, m, e0, base[i'], alt[j'])
  }

  lemma BaseDoneStep(g: DiGraph, m: map<string, nat>, g': DiGraph, m': map<string, nat>, e0: nat,
                     b: BaseCurrency, alt: seq<AltCurrency>, clean: seq<string>, j: nat)
    requires GrowsFrom(g', g) && m.Keys <= m'.Keys && j < |alt| && PairDone(g', m', e0, b, alt[j])
    requires BaseDone(g, m, e0, b, alt, clean, j)
    ensures BaseDone(g', m', e0, b, alt, clean, j + 1)
  {
    PairDoneGrows(g, m, g', m', e0);
  }

  lemma AllDoneStep(g: DiGraph, m: map<string, nat>, g': DiGraph, m': map<string, nat>, e0: nat,
                    base: seq<BaseCurrency>, alt: seq<AltCurrency>, clean: seq<string>, i: nat)
    requires GrowsFrom(g', g) && m.Keys <= m'.Keys && i < |base|
    requires AllDone(g, m, e0, base, alt, clean, i) && BaseDone(g', m', e0, base[i], alt, clean, |alt|)
    ensures AllDone(g', m', e0, base, alt, clean, i + 1)
  {
    PairDoneGrows(g, m, g', m', e0);
  }

  /** A new alt node for an alt currency with a traded pair keeps the
      second pass's state. */
  lemma AltNodeAdded(g: DiGraph, m: map<string, nat>, n0: nat, e0: nat, bases: set<string>,
                     base: seq<BaseCurrency>, alt: seq<AltCurrency>, clean: seq<string>, i: nat, j: nat)
    requires i < |base| && j < |alt| && ValidPair(base[i], alt[j], clean)
    requires LinkState(g, m, n0, e0, bases, base, alt, clean) && alt[j].symbol !in m
    ensures LinkState(DiGraph(g.nodes + [Node(alt[j].symbol, ALT_LABEL)], g.edges),
                      m[alt[j].symbol := |g.nodes|], n0, e0, bases, base, alt, clean)
  {
    var g2 := DiGraph(g.nodes + [Node(alt[j].symbol, ALT_LABEL)], g.edges);
    assert AltPaired(alt[j].symbol, base, alt, clean);
    RegistryAdd(g, m, n0, alt[j].symbol, ALT_LABEL);
    assert GrowsFrom(g2, g);
    GrowKeepsLinks(g, g2, e0, base, alt, clean);
  }

  /** The two edges of a traded pair keep the second pass's state and link
      the pair each way. */
  lemma PairEdgesAdded(g: DiGraph, m: map<string, nat>, n0: nat, e0: nat, bases: set<string>,
                       base: seq<BaseCurrency>, alt: seq<AltCurrency>, clean: seq<string>, i: nat, j: nat)
    requires i < |base| && j < |alt| && ValidPair(base[i], alt[j], clean)
    requires LinkState(g, m, n0, e0, bases, base, alt, clean)
    requires base[i].symbol in m && alt[j].symbol in m
    ensures var b, a := m[base[i].symbol], m[alt[j].symbol];
            var g' := AddEdge(AddEdge(g, b, a), a, b);
            LinkState(g', m, n0, e0, bases, base, alt, clean)
            && Linked(g', e0, base[i].symbol, alt[j].symbol) && Linked(g', e0, alt[j].symbol, base[i].symbol)
  {
    var b, a := m[base[i].symbol], m[alt[j].symbol];
    var g3 := AddEdge(g, b, a);
    var g' := AddEdge(g3, a, b);
    assert EdgeBetween(g', |g.edges|, base[i].symbol, alt[j].symbol);
    assert EdgeBetween(g', |g3.edges|, alt[j].symbol, base[i].symbol);
    GrowsTransitive(g, g3, g');
    GrowKeepsLinks(g, g', e0, base, alt, clean);
    assert FromPair(g', |g.edges|, base, alt, clean);
    assert FromPair(g', |g3.edges|, base, alt, clean);
  }

  /** One traded pair of the second pass: look up the base node, add the alt
      node if it is new, and join the two by an edge each way. */
  method LinkPair(g: DiGraph, m: map<string, nat>, ghost n0: nat, ghost e0: nat, ghost bases: set<string>,
                  base: seq<BaseCurrency>, alt: seq<AltCurrency>, clean: seq<string>, i: nat, j: nat)
    returns (g': DiGraph, m': map<string, nat>)
    requires i < |base| && j < |alt| && ValidPair(base[i], alt[j], clean)
    requires LinkState(g, m, n0, e0, bases, base, alt, clean) && BasesCover(bases, base, alt, clean)
    ensures LinkState(g', m', n0, e0, bases, base, alt, clean)
    ensures GrowsFrom(g', g) && m.Keys <= m'.Keys
    ensures PairDone(g', m', e0, base[i], alt[j])
  {
    assert base[i].symbol in bases;
    var g1, m1, b := AddUniqueNode(g, m, base[i].symbol, None);
    assert g1 == g && m1 == m;
    var g2, m2, a := AddUniqueNode(g1, m1, alt[j].symbol, Some(ALT_LABEL));
    if alt[j].symbol !in m1 {
      AltNodeAdded(g1, m1, n0, e0, bases, base, alt, clean, i, j);
    }
    assert LinkState(g2, m2, n0, e0, bases, base, alt, clean) && GrowsFrom(g2, g);
    PairEdgesAdded(g2, m2, n0, e0, bases, base, alt, clean, i, j);
    var g3 := AddEdge(g2, b, a);
    g' := AddEdge(g3, a, b);
    m' := m2;
    GrowsTransitive(g2, g3, g');
    GrowsTransitive(g, g2, g');
  }

  /** The inner loop of the second pass, for the base currency `base[i]`:
      every traded pair of it is handled. */
  method LinkBase(g: DiGraph, m: map<string, nat>, ghost n0: nat, ghost e0: nat, ghost bases: set<string>,
                  base: seq<BaseCurrency>, alt: seq<AltCurrency>, clean: seq<string>, i: nat)
    returns (g': DiGraph, m': map<string, nat>)
    requires i < |base| && LinkState(g, m, n0, e0, bases, base, alt, clean) && BasesCover(bases, base, alt, clean)
    ensures LinkState(g', m', n0, e0, bases, base, alt, clean)
    ensures GrowsFrom(g', g) && m.Keys <= m'.Keys
    ensures BaseDone(g', m', e0, base[i], alt, clean, |alt|)
  {
    g', m' := g, m;
    for j := 0 to |alt|
      invariant LinkState(g', m', n0, e0, bases, base, alt, clean)
      invariant GrowsFrom(g', g) && m.Keys <= m'.Keys
      invariant BaseDone(g', m', e0, base[i], alt, clean, j)
    {
      var concatenated := alt[j].symbol + base[i].symbol;
      if concatenated in clean {
        var g2, m2 := LinkPair(g', m', n0, e0, bases, base, alt, clean, i, j);
        BaseDoneStep(g', m', g2, m2, e0, base[i], alt, clean, j);
        GrowsTransitive(g, g', g2);
        g', m' := g2, m2;
      }
    }
  }

  /** The second pass of `create_graph`: for every traded pair, the base
      node (already there), the alt node (labelled "alt" if new) and an edge
      each way. */
  method LinkPairs(g0: DiGraph, m0: map<string, nat>, ghost n0: nat,
                   base: seq<BaseCurrency>, alt: seq<AltCurrency>, clean: seq<string>)
    returns (g: DiGraph)
    requires Registry(g0, m0, n0)
    requires forall v :: v in m0 <==> BasePaired(v, base, alt, clean)
    requires forall k :: n0 <= k < |g0.nodes| ==> g0.nodes[k].nodeLabel == BASE_LABEL
    ensures GrowsFrom(g, g0)
    ensures NewNodesDistinct(g, n0)
    ensures LabelsRight(g, n0, base, alt, clean)
    ensures NodesArePaired(g, n0, base, alt, clean)
    ensures PairedAreNodes(g, n0, base, alt, clean)
    ensures PairsLinked(g, |g0.edges|, base, alt, clean)
    ensures EdgesFromPairs(g, n0, |g0.edges|, base, alt, clean)
  {
    ghost var e0 := |g0.edges|;
    ghost var bases := m0.Keys;
    assert BasesCover(bases, base, alt, clean);
    var m := m0;
    g := g0;
    for i := 0 to |base|
      invariant GrowsFrom(g, g0) && LinkState(g, m, n0, e0, bases, base, alt, clean)
      invariant AllDone(g, m, e0, base, alt, clean, i)
    {
      var g', m' := LinkBase(g, m, n0, e0, bases, base, alt, clean, i);
      AllDoneStep(g, m, g', m', e0, base, alt, clean, i);
      GrowsTransitive(g0, g, g');
      g, m := g', m';
    }
    LinkFinished(g, m, n0, e0, bases, base, alt, clean);
  }

  /** Once every traded pair is done, the second pass's state gives all
      that `create_graph` promises about the new nodes and edges. */
  lemma LinkFinished(g: DiGraph, m: map<string, nat>, n0: nat, e0: nat, bases: set<string>,
                     base: seq<BaseCurrency>, alt: seq<AltCurrency>, clean: seq<string>)
    requires LinkState(g, m, n0, e0, bases, base, alt, clean)
    requires AllDone(g, m, e0, base, alt, clean, |base|)
    requires forall v :: v in bases <==> BasePaired(v, base, alt, clean)
    ensures NewNodesDistinct(g, n0)
    ensures LabelsRight(g, n0, base, alt, clean)
    ensures NodesArePaired(g, n0, base, alt, clean)
    ensures PairedAreNodes(g, n0, base, alt, clean)
    ensures PairsLinked(g, e0, base, alt, clean)
  {
    forall i, j | 0 <= i < |base| && 0 <= j < |alt| && ValidPair(base[i], alt[j], clean)
      ensures Linked(g, e0, base[i].symbol, alt[j].symbol) && Linked(g, e0, alt[j].symbol, base[i].symbol)
    {
      assert PairDone(g, m, e0, base[i], alt[j]);
    }
    forall v | AltPaired(v, base, alt, clean)
      ensures v in m
    {
      var i, j :| 0 <= i < |base| && 0 <= j < |alt| && alt[j].symbol == v && ValidPair(base[i], alt[j], clean);
      assert PairDone(g, m, e0, base[i], alt[j]);
    }
    RegistryDistinct(g, m, n0);
    forall v | BasePaired(v, base, alt, clean) || AltPaired(v, base, alt, clean)
      ensures exists k :: n0 <= k < |g.nodes| && g.nodes[k].value == v
    {
      assert g.nodes[m[v]].value == v;
    }
  }

  /** `create_graph`: `graph` extended by a node per currency of a traded
      pair (labelled "base" when it is a base currency with a traded pair,
      even if it is an alt currency too, and "alt" otherwise) and by an edge
      each way for every traded pair. */
  method CreateGraph(graph: DiGraph, base: seq<BaseCurrency>, alt: seq<AltCurrency>, clean: seq<string>)
    returns (r: DiGraph)
    ensures GrowsFrom(r, graph)
    ensures NewNodesDistinct(r, |graph.nodes|)
    ensures LabelsRight(r, |graph.nodes|, base, alt, clean)
    ensures NodesArePaired(r, |graph.nodes|, base, alt, clean)
    ensures PairedAreNodes(r, |graph.nodes|, base, alt, clean)
    ensures PairsLinked(r, |graph.edges|, base, alt, clean)
    ensures EdgesFromPairs(r, |graph.nodes|, |graph.edges|, base, alt, clean)
  {
    var g, nodeMap := AddBaseNodes(graph, base, alt, clean);
    r := LinkPairs(g, nodeMap, |graph.nodes|, base, alt, clean);
    assert r.nodes[..|graph.nodes|] == r.nodes[..|g.nodes|][..|graph.nodes|];
  }
}
