/** Finding the currency cycles of the graph and putting them in canonical
    form (src/brain/mod.rs, `get_nodes_by_label`, `depth_first_search`,
    `triangle_sorting` and `remove_duplicates`). */
module CycleSearch {
  import opened Wrappers
  import opened Text
  import opened GraphBuild

  /** The values of the nodes labelled `nodeLabel`, in node order. */
  function NodesByLabel(nodes: seq<Node>, nodeLabel: string): (r: seq<string>)
    ensures |r| <= |nodes|
    ensures forall v :: v in r <==> exists k :: 0 <= k < |nodes| && nodes[k].nodeLabel == nodeLabel && nodes[k].value == v
  {
    if nodes == [] then []
    else
      var rest := NodesByLabel(nodes[1..], nodeLabel);
      assert forall k :: 0 < k < |nodes| ==> nodes[k] == nodes[1..][k - 1];
      if nodes[0].nodeLabel == nodeLabel then [nodes[0].value] + rest else rest
  }

  /** `get_nodes_by_label`. */
  function GetNodesByLabel(g: DiGraph, nodeLabel: string): (r: seq<string>)
    ensures forall v :: v in r <==> exists k :: 0 <= k < |g.nodes| && g.nodes[k].nodeLabel == nodeLabel && g.nodes[k].value == v
  {
    NodesByLabel(g.nodes, nodeLabel)
  }

  /** Every edge joins two nodes of the graph, as petgraph guarantees. */
  predicate WellFormed(g: DiGraph) {
    forall k :: 0 <= k < |g.edges| ==> g.edges[k].source < |g.nodes| && g.edges[k].target < |g.nodes|
  }

  /** The values of all nodes. */
  function Values(g: DiGraph): set<string> {
    set k | 0 <= k < |g.nodes| :: g.nodes[k].value
  }

  /** The first node holding `v` (`node_indices().find`). */
  function FindNode(g: DiGraph, v: string, k: nat): (r: Option<nat>)
    requires k <= |g.nodes|
    ensures r.Some? ==> k <= r.value < |g.nodes| && g.nodes[r.value].value == v
    ensures r.Some? ==> forall m :: k <= m < r.value ==> g.nodes[m].value != v
    ensures r.None? ==> forall m :: k <= m < |g.nodes| ==> g.nodes[m].value != v
    decreases |g.nodes| - k
  {
    if k == |g.nodes| then None
    else if g.nodes[k].value == v then Some(k)
    else FindNode(g, v, k + 1)
  }

  /** The targets of the edges leaving node `i`, from edge `k` on. The
      order stands for petgraph's neighbour order, which nothing here
      relies on. */
  function Neighbors(g: DiGraph, i: nat, k: nat): (r: seq<nat>)
    requires k <= |g.edges|
    ensures |r| <= |g.edges| - k
    ensures forall n :: n in r ==> exists e :: k <= e < |g.edges| && g.edges[e].source == i && g.edges[e].target == n
    decreases |g.edges| - k
  {
    if k == |g.edges| then []
    else
      var rest := Neighbors(g, i, k + 1);
      if g.edges[k].source == i then [g.edges[k].target] + rest else rest
  }

  /** Every edge leaving node `i`, from edge `k` on, contributes its target. */
  lemma {:induction false} NeighborsComplete(g: DiGraph, i: nat, k: nat)
    requires k <= |g.edges|
    ensures forall e :: k <= e < |g.edges| && g.edges[e].source == i ==> g.edges[e].target in Neighbors(g, i, k)
    decreases |g.edges| - k
  {
    if k < |g.edges| {
      NeighborsComplete(g, i, k + 1);
    }
  }

  /** The entries pushed for the neighbours `ns`, in their order: each
      neighbour whose value is not on `path` yet, with `path` extended by
      that value. */
  function Children(g: DiGraph, ns: seq<nat>, path: seq<string>): seq<(nat, seq<string>)> {
    if ns == [] then []
    else
      var n := ns[|ns| - 1];
      Children(g, ns[..|ns| - 1], path)
      + (if n < |g.nodes| && g.nodes[n].value !in path then [(n, path + [g.nodes[n].value])] else [])
  }

  /** The pushed entries are exactly the neighbours off the path, each
      with the path extended by its value. */
  lemma {:induction false} ChildrenMembers(g: DiGraph, ns: seq<nat>, path: seq<string>)
    ensures forall e :: e in Children(g, ns, path) <==>
              e.0 in ns && e.0 < |g.nodes| && g.nodes[e.0].value !in path && e.1 == path + [g.nodes[e.0].value]
  {
    if ns != [] {
      assert ns == ns[..|ns| - 1] + [ns[|ns| - 1]];
      ChildrenMembers(g, ns[..|ns| - 1], path);
    }
  }

  lemma ChildrenStep(g: DiGraph, ns: seq<nat>, j: nat, path: seq<string>)
    requires j < |ns|
    ensures Children(g, ns[..j + 1], path)
            == Children(g, ns[..j], path)
               + (if ns[j] < |g.nodes| && g.nodes[ns[j]].value !in path then [(ns[j], path + [g.nodes[ns[j]].value])] else [])
  {
    assert ns[..j + 1][..j] == ns[..j];
  }

  /** Some node of `ns` holds `v` (`neighbors(..).any(..)`). */
  function AnyHolds(g: DiGraph, ns: seq<nat>, v: string): (r: bool)
    ensures r <==> exists n :: n in ns && n < |g.nodes| && g.nodes[n].value == v
  {
    if ns == [] then false
    else (ns[0] < |g.nodes| && g.nodes[ns[0]].value == v) || AnyHolds(g, ns[1..], v)
  }

  predicate Distinct(s: seq<string>) {
    forall i, j :: 0 <= i < j < |s| ==> s[i] != s[j]
  }

  /** Consecutive entries of `path` are joined by an edge. */
  ghost predicate Walk(g: DiGraph, path: seq<string>) {
    forall k :: 0 <= k < |path| - 1 ==> Linked(g, 0, path[k], path[k + 1])
  }

  /** A stack entry of the search from `start`: node `e.0` ends the path
      `e.1`, which begins with `start`, repeats no currency and walks along
      edges. */
  ghost predicate EntryOk(g: DiGraph, e: (nat, seq<string>), start: string) {
    e.0 < |g.nodes| && |e.1| >= 1 && e.1[0] == start && g.nodes[e.0].value == e.1[|e.1| - 1]
    && Distinct(e.1) && (forall x :: x in e.1 ==> x in Values(g)) && Walk(g, e.1)
  }

  /** A recorded cycle: `depth` distinct currencies from `start` along
      edges, and an edge back to `start`. */
  ghost predicate CycleOk(g: DiGraph, c: seq<string>, start: string, depth: nat) {
    |c| == depth + 1 && c[0] == start && c[depth] == start && Distinct(c[..depth]) && Walk(g, c)
  }

  /** A path of distinct values drawn from `s` is no longer than `s` is large. */
  lemma {:induction false} DistinctBound(path: seq<string>, s: set<string>)
    requires Distinct(path) && forall x :: x in path ==> x in s
    ensures |path| <= |s|
  {
    if path != [] {
      var last := path[|path| - 1];
      var init := path[..|path| - 1];
      assert forall x :: x in init ==> x in s - {last} by {
        forall x | x in init ensures x in s - {last} {
          var i :| 0 <= i < |init| && init[i] == x;
          assert path[i] == x;
        }
      }
      DistinctBound(init, s - {last});
    }
  }

  function Pow(b: nat, e: nat): (r: nat)
    ensures b >= 1 ==> r >= 1
  {
    if e == 0 then 1 else b * Pow(b, e - 1)
  }

  /** The weight of a stack entry: a bound on the entries it can still
      spawn, with at most `w - 1` neighbours per node and paths no longer
      than `bound`. */
  function EntryCost(w: nat, bound: nat, e: (nat, seq<string>)): nat {
    if |e.1| <= bound then Pow(w, bound - |e.1|) else 0
  }

  /** The termination measure of the search: the weights of its entries. */
  function Cost(stack: seq<(nat, seq<string>)>, w: nat, bound: nat): nat {
    if stack == [] then 0 else Cost(stack[..|stack| - 1], w, bound) + EntryCost(w, bound, stack[|stack| - 1])
  }

  lemma CostPush(stack: seq<(nat, seq<string>)>, e: (nat, seq<string>), w: nat, bound: nat)
    ensures Cost(stack + [e], w, bound) == Cost(stack, w, bound) + EntryCost(w, bound, e)
  {
    assert (stack + [e])[..|stack|] == stack;
  }

  /** Extending a stack entry by a neighbour whose value is not on the
      path yet gives a stack entry again, and one whose path still fits
      within the values of the graph. */
  lemma ChildOk(g: DiGraph, cur: nat, path: seq<string>, n: nat, start: string)
    requires WellFormed(g) && EntryOk(g, (cur, path), start)
    requires n in Neighbors(g, cur, 0) && g.nodes[n].value !in path
    ensures EntryOk(g, (n, path + [g.nodes[n].value]), start)
    ensures |path| < |Values(g)|
  {
    var e :| 0 <= e < |g.edges| && g.edges[e].source == cur && g.edges[e].target == n;
    var value := g.nodes[n].value;
    var newPath := path + [value];
    assert EdgeBetween(g, e, path[|path| - 1], value);
    assert Walk(g, newPath) by {
      forall k | 0 <= k < |newPath| - 1 ensures Linked(g, 0, newPath[k], newPath[k + 1]) {
        if k < |path| - 1 {
          assert newPath[k] == path[k] && newPath[k + 1] == path[k + 1];
        }
      }
    }
    assert value in Values(g);
    DistinctBound(newPath, Values(g));
  }

  /** Every entry pushed for the neighbours of a stack entry is one again. */
  lemma ChildrenOk(g: DiGraph, cur: nat, path: seq<string>, start: string)
    requires WellFormed(g) && EntryOk(g, (cur, path), start)
    ensures forall e :: e in Children(g, Neighbors(g, cur, 0), path) ==> EntryOk(g, e, start)
  {
    ChildrenMembers(g, Neighbors(g, cur, 0), path);
    forall e | e in Children(g, Neighbors(g, cur, 0), path) ensures EntryOk(g, e, start) {
      ChildOk(g, cur, path, e.0, start);
    }
  }

  lemma MulStep(j: nat, c: nat)
    ensures (j + 1) * c == j * c + c
  {
  }

  lemma MulLess(a: nat, w: nat, c: nat)
    requires a < w && c > 0
    ensures a * c < w * c
  {
  }

  /** The weight of each entry pushed for a stack entry on `path`. */
  function ChildCost(w: nat, bound: nat, path: seq<string>): nat {
    if |path| < bound then Pow(w, bound - |path| - 1) else 0
  }

  /** The pushed entries weigh no more than `ChildCost` each. */
  lemma {:induction false} CostChildren(stack: seq<(nat, seq<string>)>, g: DiGraph, ns: seq<nat>, path: seq<string>,
                                        w: nat, bound: nat)
    ensures Cost(stack + Children(g, ns, path), w, bound) <= Cost(stack, w, bound) + |ns| * ChildCost(w, bound, path)
  {
    if ns == [] {
      assert stack + Children(g, ns, path) == stack;
    } else {
      var init, n := ns[..|ns| - 1], ns[|ns| - 1];
      CostChildren(stack, g, init, path, w, bound);
      MulStep(|init|, ChildCost(w, bound, path));
      var before := stack + Children(g, init, path);
      if n < |g.nodes| && g.nodes[n].value !in path {
        var e := (n, path + [g.nodes[n].value]);
        assert stack + Children(g, ns, path) == before + [e];
        CostPush(before, e, w, bound);
      } else {
        assert stack + Children(g, ns, path) == before;
      }
    }
  }

  /** The inner loop of the search: push every neighbour of `cur` that is
      not on `path` yet, with `path` extended by its value. */
  method Expand(g: DiGraph, stack: seq<(nat, seq<string>)>, cur: nat, path: seq<string>,
                ghost start: string, ghost w: nat, ghost bound: nat)
    returns (stack': seq<(nat, seq<string>)>)
    requires WellFormed(g) && w == |g.edges| + 1 && bound == |Values(g)|
    requires EntryOk(g, (cur, path), start)
    requires forall e :: e in stack ==> EntryOk(g, e, start)
    ensures stack' == stack + Children(g, Neighbors(g, cur, 0), path)
    ensures forall e :: e in stack' ==> EntryOk(g, e, start)
    ensures Cost(stack', w, bound) < Cost(stack, w, bound) + EntryCost(w, bound, (cur, path))
  {
    var neighbors := Neighbors(g, cur, 0);
    stack' := stack;
    for j := 0 to |neighbors|
      invariant stack' == stack + Children(g, neighbors[..j], path)
    {
      var n := neighbors[j];
      ChildrenStep(g, neighbors, j, path);
      if n < |g.nodes| && g.nodes[n].value !in path {
        stack' := stack' + [(n, path + [g.nodes[n].value])];
      }
    }
    assert neighbors[..|neighbors|] == neighbors;
    ChildrenOk(g, cur, path, start);
    ExpandCost(g, stack, cur, path, start, w, bound);
  }

  /** The search measure drops when a stack entry is replaced by what it
      pushes. */
  lemma ExpandCost(g: DiGraph, stack: seq<(nat, seq<string>)>, cur: nat, path: seq<string>,
                   start: string, w: nat, bound: nat)
    requires WellFormed(g) && w == |g.edges| + 1 && bound == |Values(g)|
    requires EntryOk(g, (cur, path), start)
    ensures Cost(stack + Children(g, Neighbors(g, cur, 0), path), w, bound)
            < Cost(stack, w, bound) + EntryCost(w, bound, (cur, path))
  {
    var ns := Neighbors(g, cur, 0);
    var child := ChildCost(w, bound, path);
    DistinctBound(path, Values(g));
    CostChildren(stack, g, ns, path, w, bound);
    if |path| < bound {
      MulLess(|ns|, w, child);
      assert Pow(w, bound - |path|) == w * child;
    } else {
      assert |ns| * child == 0;
    }
  }

  /** The search from one start node: every path that reaches `depth`
      currencies and has an edge back to `start` is recorded, closed by
      `start`. */
  method SearchFrom(g: DiGraph, startIndex: nat, start: string, depth: nat) returns (cycles: seq<seq<string>>)
    requires WellFormed(g) && startIndex < |g.nodes| && g.nodes[startIndex].value == start
    ensures forall c :: c in cycles ==> CycleOk(g, c, start, depth)
  {
    ghost var w, bound := |g.edges| + 1, |Values(g)|;
    var stack := [(startIndex, [start])];
    cycles := [];
    while stack != []
      invariant forall e :: e in stack ==> EntryOk(g, e, start)
      invariant forall c :: c in cycles ==> CycleOk(g, c, start, depth)
      decreases Cost(stack, w, bound)
    {
      var top := stack[|stack| - 1];
      var cur, path := top.0, top.1;
      assert top in stack;
      stack := stack[..|stack| - 1];
      DistinctBound(path, Values(g));
      if |path| == depth {
        if AnyHolds(g, Neighbors(g, cur, 0), start) {
          var n :| n in Neighbors(g, cur, 0) && n < |g.nodes| && g.nodes[n].value == start;
          var e :| 0 <= e < |g.edges| && g.edges[e].source == cur && g.edges[e].target == n;
          var cycle := path + [start];
          assert EdgeBetween(g, e, path[|path| - 1], start);
          assert cycle[..depth] == path;
          assert Walk(g, cycle) by {
            forall k | 0 <= k < |cycle| - 1 ensures Linked(g, 0, cycle[k], cycle[k + 1]) {
              if k < |path| - 1 {
                assert cycle[k] == path[k] && cycle[k + 1] == path[k + 1];
              }
            }
          }
          cycles := cycles + [cycle];
        }
        continue;
      }
      stack := Expand(g, stack, cur, path, start, w, bound);
    }
  }

  /** `depth_first_search`: the cycles from every start node in turn, or
      `None` (the source panics) when a start node is not in the graph. */
  method DepthFirstSearch(g: DiGraph, baseNodes: seq<string>, depth: nat) returns (r: Option<seq<seq<string>>>)
    requires WellFormed(g)
    ensures r.None? <==> exists s :: s in baseNodes && s !in Values(g)
    ensures r.Some? ==> forall c :: c in r.value ==> |c| == depth + 1 && c[0] in baseNodes && CycleOk(g, c, c[0], depth)
  {
    var all: seq<seq<string>> := [];
    for b := 0 to |baseNodes|
      invariant forall s :: s in baseNodes[..b] ==> s in Values(g)
      invariant forall c :: c in all ==> |c| == depth + 1 && c[0] in baseNodes && CycleOk(g, c, c[0], depth)
    {
      var start := baseNodes[b];
      match FindNode(g, start, 0)
      case None =>
        assert start !in Values(g);
        return None;
      case Some(startIndex) =>
        var cycles := SearchFrom(g, startIndex, start, depth);
        all := all + cycles;
        assert baseNodes[..b + 1] == baseNodes[..b] + [start];
    }
    assert baseNodes[..|baseNodes|] == baseNodes;
    r := Some(all);
  }

  /** Strictly increasing in the byte-wise order of strings. */
  predicate StrictlySorted(s: seq<string>) {
    forall i, j :: 0 <= i < j < |s| ==> Below(s[i], s[j])
  }

  /** `x` put into its place in the strictly sorted `s`, unless it is there. */
  function Insert(s: seq<string>, x: string): (r: seq<string>)
    requires StrictlySorted(s)
    ensures StrictlySorted(r)
    ensures forall y :: y in r <==> y in s || y == x
  {
    if s == [] then [x]
    else if s[0] == x then s
    else if Below(x, s[0]) then
      assert forall k :: 0 <= k < |s| ==> Below(x, s[k]) by {
        forall k | 0 <= k < |s| ensures Below(x, s[k]) {
          if k > 0 { BelowTransitive(x, s[0], s[k]); }
        }
      }
      [x] + s
    else
      BelowTotal(x, s[0]);
      var rest := Insert(s[1..], x);
      assert forall y :: y in rest ==> Below(s[0], y) by {
        forall y | y in rest ensures Below(s[0], y) {
          if y != x {
            var k :| 0 <= k < |s[1..]| && s[1..][k] == y;
            assert s[k + 1] == y;
          }
        }
      }
      [s[0]] + rest
  }

  /** The distinct values of `path`, sorted: what a `HashSet` collected into
      a vector and sorted with `sort_unstable` holds. */
  function SortedUnique(path: seq<string>): (r: seq<string>)
    ensures StrictlySorted(r)
    ensures forall y :: y in r <==> y in path
  {
    if path == [] then []
    else Insert(SortedUnique(path[..|path| - 1]), path[|path| - 1])
  }

  /** `triangle_sorting`: each path as its sorted set of currencies. */
  function TriangleSorting(allCycles: seq<seq<string>>): (r: seq<seq<string>>)
    ensures |r| == |allCycles|
    ensures forall k :: 0 <= k < |r| ==> StrictlySorted(r[k]) && forall y :: y in r[k] <==> y in allCycles[k]
  {
    if allCycles == [] then []
    else [SortedUnique(allCycles[0])] + TriangleSorting(allCycles[1..])
  }

  /** Two strictly sorted sequences with the same elements are equal: the
      sorted form of a set is unique. */
  lemma {:induction false} SortedUniqueness(a: seq<string>, b: seq<string>)
    requires StrictlySorted(a) && StrictlySorted(b)
    requires forall y :: y in a <==> y in b
    ensures a == b
  {
    assert a != [] ==> a[0] in b;
    assert b != [] ==> b[0] in a;
    if a != [] && b != [] {
      // the first entries are the least elements, so they agree
      assert a[0] == b[0] by {
        assert a[0] in a && b[0] in b;
        var m :| 0 <= m < |b| && b[m] == a[0];
        var k :| 0 <= k < |a| && a[k] == b[0];
        if m > 0 && k > 0 {
          BelowAsymmetric(b[0], a[0]);
        }
      }
      forall y | y in a[1..] ensures y in b[1..] {
        var j :| 0 <= j < |a[1..]| && a[1..][j] == y;
        assert Below(a[0], a[j + 1]);
        BelowIrreflexive(a[0]);
        assert y in a;
        var m :| 0 <= m < |b| && b[m] == y;
        assert b[1..][m - 1] == y;
      }
      forall y | y in b[1..] ensures y in a[1..] {
        var j :| 0 <= j < |b[1..]| && b[1..][j] == y;
        assert Below(b[0], b[j + 1]);
        BelowIrreflexive(b[0]);
        assert y in b;
        var m :| 0 <= m < |a| && a[m] == y;
        assert a[1..][m - 1] == y;
      }
      SortedUniqueness(a[1..], b[1..]);
      assert a == [a[0]] + a[1..] && b == [b[0]] + b[1..];
    }
  }

  /** Sorting a path that is already sorted changes nothing, so sorting
      twice is sorting once. */
  lemma TriangleSortingIdempotent(allCycles: seq<seq<string>>)
    ensures TriangleSorting(TriangleSorting(allCycles)) == TriangleSorting(allCycles)
  {
    var once := TriangleSorting(allCycles);
    var twice := TriangleSorting(once);
    forall k | 0 <= k < |once| ensures twice[k] == once[k] {
      SortedUniqueness(twice[k], once[k]);
    }
  }

  /** `remove_duplicates`: each cycle once, at its first occurrence. */
  function RemoveDuplicates(cycles: seq<seq<string>>): (r: seq<seq<string>>)
    ensures forall i, j :: 0 <= i < j < |r| ==> r[i] != r[j]
    ensures forall c :: c in r <==> c in cycles
  {
    if cycles == [] then []
    else
      var prev := RemoveDuplicates(cycles[..|cycles| - 1]);
      var last := cycles[|cycles| - 1];
      assert cycles == cycles[..|cycles| - 1] + [last];
      if last in prev then prev else prev + [last]
  }

  /** An earlier entry of `r` occurs in `s` before any occurrence of a
      later one. */
  ghost predicate FirstOccurrenceOrder(r: seq<seq<string>>, s: seq<seq<string>>) {
    forall i, j, k :: 0 <= i < j < |r| && 0 <= k < |s| && s[k] == r[j] ==> r[i] in s[..k]
  }

  /** The result keeps the order of first occurrences. */
  lemma {:induction false} RemoveDuplicatesOrder(cycles: seq<seq<string>>)
    ensures FirstOccurrenceOrder(RemoveDuplicates(cycles), cycles)
  {
    if cycles != [] {
      var init := cycles[..|cycles| - 1];
      var last := cycles[|cycles| - 1];
      RemoveDuplicatesOrder(init);
      var prev := RemoveDuplicates(init);
      var r := RemoveDuplicates(cycles);
      forall i, j, k | 0 <= i < j < |r| && 0 <= k < |cycles| && cycles[k] == r[j]
        ensures r[i] in cycles[..k]
      {
        assert r[i] == prev[i];
        if k < |cycles| - 1 {
          assert init[k] == cycles[k] && cycles[k] in prev;
          assert j < |prev|;
          assert r[j] == prev[j];
          assert prev[i] in init[..k];
          assert init[..k] == cycles[..k];
        } else {
          assert prev[i] in prev;
          assert init == cycles[..k];
        }
      }
    }
  }
}
