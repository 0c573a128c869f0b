/**
 What a search for cycles costs
 (apps/worker-pattern-discovery/src/graph-anomalies.ts): how often `dfsCycles` would be
 entered without budgets, told from the simple paths of a snapshot alone. A path
 counts once for every way to choose among parallel edges.
 */
module SearchCost {
  import opened PaymentGraph

  datatype Arc = Arc(to: string, amount: int, state: bool)

  /** What leaves `u`, in the order in which the snapshot lists it. */
  function Outgoing(edges: seq<Edge>, u: string): seq<Arc> {
    if edges == [] then []
    else
      var e := edges[|edges| - 1];
      Outgoing(edges[..|edges| - 1], u)
        + if e.fromId == u then [Arc(e.toId, e.amountXaf, e.isStateOrigin)] else []
  }

  /** The sources, each of them once, in the order of their first edges. */
  function Sources(edges: seq<Edge>): seq<string> {
    if edges == [] then []
    else
      var before, u := Sources(edges[..|edges| - 1]), edges[|edges| - 1].fromId;
      if u in before then before else before + [u]
  }

  lemma SourcesOfOneMore(edges: seq<Edge>, n: nat)
    requires n < |edges|
    ensures Sources(edges[..n + 1])
         == if edges[n].fromId in Sources(edges[..n]) then Sources(edges[..n]) else Sources(edges[..n]) + [edges[n].fromId]
  {
    assert edges[..n + 1][..n] == edges[..n];
  }

  lemma {:induction false} AtMostOneSourceAnEdge(edges: seq<Edge>)
    ensures |Sources(edges)| <= |edges|
  {
    if edges != [] { AtMostOneSourceAnEdge(edges[..|edges| - 1]); }
  }

  /** The simple paths of at most maxLength + 1 vertices that begin with `path`. */
  ghost function Cost(edges: seq<Edge>, maxLength: int, path: seq<string>): (r: nat)
    requires path != []
    ensures r >= 1
    decreases maxLength - |path|, 1, 0
  {
    if |path| - 1 >= maxLength then 1
    else 1 + CostOfArcs(edges, maxLength, path, |Outgoing(edges, path[|path| - 1])|)
  }

  /** Those that go on along one of the first n arcs. */
  ghost function CostOfArcs(edges: seq<Edge>, maxLength: int, path: seq<string>, n: nat): nat
    requires path != [] && |path| - 1 < maxLength && n <= |Outgoing(edges, path[|path| - 1])|
    decreases maxLength - |path|, 0, n
  {
    if n == 0 then 0
    else
      CostOfArcs(edges, maxLength, path, n - 1)
        + CostOfArc(edges, maxLength, path, Outgoing(edges, path[|path| - 1])[n - 1].to)
  }

  ghost function CostOfArc(edges: seq<Edge>, maxLength: int, path: seq<string>, to: string): nat
    requires path != [] && |path| - 1 < maxLength
    decreases maxLength - |path|, 0, 0
  {
    if to in path then 0 else Cost(edges, maxLength, path + [to])
  }

  lemma {:induction false} CostOfArcsGrows(edges: seq<Edge>, maxLength: int, path: seq<string>, m: nat, n: nat)
    requires path != [] && |path| - 1 < maxLength && m <= n <= |Outgoing(edges, path[|path| - 1])|
    ensures CostOfArcs(edges, maxLength, path, m) <= CostOfArcs(edges, maxLength, path, n)
    decreases n
  {
    if m < n { CostOfArcsGrows(edges, maxLength, path, m, n - 1); }
  }

  /** The simple paths from any of the roots. */
  ghost function CostOfRoots(edges: seq<Edge>, maxLength: int, roots: seq<string>): nat {
    if roots == [] then 0
    else CostOfRoots(edges, maxLength, roots[..|roots| - 1]) + Cost(edges, maxLength, [roots[|roots| - 1]])
  }

  ghost function TotalCost(edges: seq<Edge>, maxLength: int): nat {
    CostOfRoots(edges, maxLength, Sources(edges))
  }

  lemma CostOfOneMoreRoot(edges: seq<Edge>, maxLength: int, roots: seq<string>, n: nat)
    requires n < |roots|
    ensures CostOfRoots(edges, maxLength, roots[..n + 1])
         == CostOfRoots(edges, maxLength, roots[..n]) + Cost(edges, maxLength, [roots[n]])
  {
    assert roots[..n + 1][..n] == roots[..n];
  }

  lemma {:induction false} CostOfRootsGrows(edges: seq<Edge>, maxLength: int, roots: seq<string>, n: nat)
    requires n <= |roots|
    ensures CostOfRoots(edges, maxLength, roots[..n]) <= CostOfRoots(edges, maxLength, roots)
    decreases |roots| - n
  {
    if n < |roots| {
      CostOfOneMoreRoot(edges, maxLength, roots, n);
      CostOfRootsGrows(edges, maxLength, roots, n + 1);
    } else {
      assert roots[..n] == roots;
    }
  }

  /** A search from the first n roots has spent what it costs, or less because a budget ran out. */
  ghost predicate RootsTaken(edges: seq<Edge>, maxLength: int, roots: seq<string>, n: nat, entries: nat, open: bool)
    requires n <= |roots|
  {
    && entries <= CostOfRoots(edges, maxLength, roots[..n])
    && (open ==> entries == CostOfRoots(edges, maxLength, roots[..n]))
  }

  lemma RootsTakenStep(edges: seq<Edge>, maxLength: int, roots: seq<string>, n: nat, before: nat, entries: nat, open: bool)
    requires n < |roots| && RootsTaken(edges, maxLength, roots, n, before, true)
    requires entries <= before + Cost(edges, maxLength, [roots[n]])
    requires open ==> entries == before + Cost(edges, maxLength, [roots[n]])
    ensures RootsTaken(edges, maxLength, roots, n + 1, entries, open)
  {
    CostOfOneMoreRoot(edges, maxLength, roots, n);
  }

  lemma RootsTakenInAll(edges: seq<Edge>, maxLength: int, n: nat, entries: nat, open: bool)
    requires n <= |Sources(edges)| && RootsTaken(edges, maxLength, Sources(edges), n, entries, open)
    requires open ==> n == |Sources(edges)|
    ensures entries <= TotalCost(edges, maxLength) && (open ==> entries == TotalCost(edges, maxLength))
  {
    var roots := Sources(edges);
    CostOfRootsGrows(edges, maxLength, roots, n);
    assert roots[..|roots|] == roots;
  }

  // --------------------------------------------------- where nothing branches

  /** No vertex has more than one outgoing edge. */
  ghost predicate OneWayOut(edges: seq<Edge>) {
    forall u :: |Outgoing(edges, u)| <= 1
  }

  /** How many entries a search of such a snapshot needs at most from a given depth. */
  function Entries(maxLength: int, depth: nat): nat {
    if depth >= maxLength then 1 else maxLength - depth + 1
  }

  lemma {:induction false} OneWayCost(edges: seq<Edge>, maxLength: int, path: seq<string>)
    requires OneWayOut(edges) && path != []
    ensures Cost(edges, maxLength, path) <= Entries(maxLength, |path| - 1)
    decreases maxLength - |path|
  {
    var arcs := Outgoing(edges, path[|path| - 1]);
    if |path| - 1 < maxLength && |arcs| == 1 {
      OneWayCost(edges, maxLength, path + [arcs[0].to]);
      assert CostOfArcs(edges, maxLength, path, 0) == 0;
      assert CostOfArcs(edges, maxLength, path, 1) == CostOfArc(edges, maxLength, path, arcs[0].to);
    }
  }

  lemma {:induction false} OneWayRoots(edges: seq<Edge>, maxLength: int, roots: seq<string>)
    requires OneWayOut(edges)
    ensures CostOfRoots(edges, maxLength, roots) <= |roots| * Entries(maxLength, 0)
  {
    if roots != [] {
      OneWayRoots(edges, maxLength, roots[..|roots| - 1]);
      OneWayCost(edges, maxLength, [roots[|roots| - 1]]);
      Distributes(|roots| - 1, Entries(maxLength, 0));
    }
  }

  lemma Distributes(n: nat, k: nat)
    ensures (n + 1) * k == n * k + k
  {
  }

  /** Then the whole search costs at most maxLength + 1 entries an edge. */
  lemma OneWayTotal(edges: seq<Edge>, maxLength: int)
    requires OneWayOut(edges)
    ensures TotalCost(edges, maxLength) <= |edges| * if maxLength <= 0 then 1 else maxLength + 1
  {
    OneWayRoots(edges, maxLength, Sources(edges));
    AtMostOneSourceAnEdge(edges);
    MoreTimes(|Sources(edges)|, |edges|, Entries(maxLength, 0));
  }

  lemma MoreTimes(m: nat, n: nat, k: nat)
    requires m <= n
    ensures m * k <= n * k
  {
  }
}
