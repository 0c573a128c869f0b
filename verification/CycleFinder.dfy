/**
 `detectCycles` and `dfsCycles` (apps/worker-pattern-discovery/src/graph-anomalies.ts):
 a length-bounded depth-first search for directed cycles that spends a shared
 step budget and a shared result budget.
 */
module CycleFinder {
  import opened JsStrings
  import opened PaymentGraph
  import opened SearchCost
  import opened SearchOrder

  const MAX_CYCLE_DFS_STEPS: nat := 500_000
  const MAX_CYCLE_CANDIDATES: nat := 5_000

  datatype CapReason = NotCapped | StepsExhausted | CandidatesExhausted

  /** A `cycle_3_to_6` candidate: the closed path is in `path`. */
  datatype Candidate = Candidate(
    path: seq<string>,
    length: nat,
    hasStateOrigin: bool,
    strength: real,
    entityIds: seq<string>,
    cap: CapReason)

  /** The deduplication key: the sorted vertices joined with '|'. */
  function Key(path: seq<string>): string {
    Join(Sort(path), '|')
  }

  /** What a reader may rely on in one candidate. */
  ghost predicate Sound(edges: seq<Edge>, maxLength: int, c: Candidate) {
    && 3 <= |c.entityIds| <= maxLength
    && SimpleCycle(edges, c.entityIds)
    && c.path == Closed(c.entityIds)
    && c.length == |c.entityIds|
    && FirstEdgeFlag(edges, c.entityIds[|c.entityIds| - 1], c.entityIds[0], c.hasStateOrigin)
    && c.strength == (if c.hasStateOrigin then 0.8 else 0.5)
  }

  // ------------------------------------------------- the deduplication key

  /** Two simple paths over the same vertices share their key. */
  lemma SameVerticesSameKey(p: seq<string>, q: seq<string>)
    requires Distinct(p) && Distinct(q) && Elements(p) == Elements(q)
    ensures Key(p) == Key(q)
  {
    DistinctMultiset(p);
    DistinctMultiset(q);
    SortDependsOnlyOnElements(p, q);
  }

  /** When no identifier contains '|', the key determines the vertex set. */
  lemma SameKeySameVertices(p: seq<string>, q: seq<string>)
    requires p != [] && q != [] && AllFree(p, '|') && AllFree(q, '|')
    requires Key(p) == Key(q)
    ensures Elements(p) == Elements(q)
  {
    SortCorrect(p);
    SortCorrect(q);
    SortKeepsFree(p);
    SortKeepsFree(q);
    JoinInjective(Sort(p), Sort(q), '|');
    forall x ensures x in Elements(p) <==> x in Elements(q) {
      assert x in multiset(p) <==> x in multiset(q);
    }
  }

  lemma SortKeepsFree(p: seq<string>)
    requires AllFree(p, '|')
    ensures AllFree(Sort(p), '|')
  {
    SortCorrect(p);
    forall i | 0 <= i < |Sort(p)| ensures Free(Sort(p)[i], '|') {
      assert Sort(p)[i] in multiset(Sort(p));
      var j :| 0 <= j < |p| && p[j] == Sort(p)[i];
      assert Free(p[j], '|');
    }
  }

  // ------------------------------------------------------------- adjacency

  /** The `adj` map; `keys` is its insertion order. */
  datatype Adjacency = Adjacency(keys: seq<string>, arcs: map<string, seq<Arc>>) {
    function Neighbours(u: string): seq<Arc> {
      if u in arcs then arcs[u] else []
    }
  }

  /** `adj` lists exactly the edges of the snapshot, in its order. */
  ghost predicate Represents(adj: Adjacency, edges: seq<Edge>) {
    forall u {:trigger RepresentsAt(adj, edges, u)} :: RepresentsAt(adj, edges, u)
  }

  ghost predicate RepresentsAt(adj: Adjacency, edges: seq<Edge>, u: string) {
    && (u in adj.arcs <==> u in adj.keys)
    && adj.Neighbours(u) == Outgoing(edges, u)
  }

  /** The sources stand in the order of their first edges, hence each of them once. */
  ghost predicate KeysInOrder(edges: seq<Edge>, keys: seq<string>) {
    forall i: nat, j: nat {:trigger ComesFirst(edges, keys, i, j)} :: i < j < |keys| ==> ComesFirst(edges, keys, i, j)
  }

  ghost predicate ComesFirst(edges: seq<Edge>, keys: seq<string>, i: nat, j: nat)
    requires i < |keys| && j < |keys|
  {
    FirstFrom(edges, keys[i]) < FirstFrom(edges, keys[j])
  }

  /** All of them have an edge among the first n. */
  ghost predicate KeysWithin(edges: seq<Edge>, keys: seq<string>, n: nat) {
    forall i {:trigger FirstFrom(edges, keys[i])} :: 0 <= i < |keys| ==> FirstFrom(edges, keys[i]) < n
  }

  method BuildAdjacency(edges: seq<Edge>) returns (adj: Adjacency)
    ensures Represents(adj, edges) && adj.keys == Sources(edges)
    ensures KeysInOrder(edges, adj.keys) && KeysWithin(edges, adj.keys, |edges|)
  {
    adj := Adjacency([], map[]);
    for n := 0 to |edges|
      invariant Represents(adj, edges[..n]) && adj.keys == Sources(edges[..n])
      invariant KeysInOrder(edges, adj.keys) && KeysWithin(edges, adj.keys, n)
    {
      var e := edges[n];
      SourcesOfOneMore(edges, n);
      assert RepresentsAt(adj, edges[..n], e.fromId);
      ExtendRepresents(adj, edges, n);
      if e.fromId !in adj.arcs {
        adj := Open(adj, e.fromId);
      }
      adj := Push(adj, e);
    }
    assert edges[..|edges|] == edges;
  }

  lemma OutgoingOfOneMore(edges: seq<Edge>, e: Edge, u: string)
    ensures Outgoing(edges + [e], u)
         == Outgoing(edges, u) + if e.fromId == u then [Arc(e.toId, e.amountXaf, e.isStateOrigin)] else []
  {
    assert (edges + [e])[..|edges|] == edges;
  }

  /** `adj.set(e.from_id, [])` for a new key. */
  function Open(adj: Adjacency, u: string): Adjacency {
    Adjacency(adj.keys + [u], adj.arcs[u := []])
  }

  /** `adj.get(e.from_id)!.push(..)`. */
  function Push(adj: Adjacency, e: Edge): Adjacency {
    adj.(arcs := adj.arcs[e.fromId := adj.Neighbours(e.fromId) + [Arc(e.toId, e.amountXaf, e.isStateOrigin)]])
  }

  lemma ExtendRepresents(adj: Adjacency, edges: seq<Edge>, n: nat)
    requires n < |edges| && Represents(adj, edges[..n])
    requires KeysInOrder(edges, adj.keys) && KeysWithin(edges, adj.keys, n)
    ensures var u := edges[n].fromId;
      var grown := if u in adj.arcs then adj else Open(adj, u);
      && Represents(Push(grown, edges[n]), edges[..n + 1])
      && KeysInOrder(edges, grown.keys) && KeysWithin(edges, grown.keys, n + 1)
  {
    var e := edges[n];
    var grown := if e.fromId in adj.arcs then adj else Open(adj, e.fromId);
    var after := Push(grown, e);
    assert edges[..n + 1] == edges[..n] + [e];
    forall u {:trigger RepresentsAt(after, edges[..n + 1], u)} ensures RepresentsAt(after, edges[..n + 1], u) {
      OutgoingOfOneMore(edges[..n], e, u);
      assert RepresentsAt(adj, edges[..n], u) && RepresentsAt(adj, edges[..n], e.fromId);
    }
    if e.fromId !in adj.arcs {
      assert RepresentsAt(adj, edges[..n], e.fromId);
      NewSource(edges, n);
      KeysGrow(edges, adj.keys, n);
    } else {
      forall i | 0 <= i < |adj.keys| ensures FirstFrom(edges, adj.keys[i]) < n + 1 {
      }
    }
  }

  /** A vertex without an edge so far has its first edge here. */
  lemma NewSource(edges: seq<Edge>, n: nat)
    requires n < |edges| && Outgoing(edges[..n], edges[n].fromId) == []
    ensures FirstFrom(edges, edges[n].fromId) == n
  {
    var u := edges[n].fromId;
    var i := FirstFrom(edges, u);
    if i < n {
      assert edges[..n][i] == edges[i];
      var k := EdgeIsArc(edges[..n], i);
    }
  }

  lemma KeysGrow(edges: seq<Edge>, keys: seq<string>, n: nat)
    requires n < |edges| && KeysInOrder(edges, keys) && KeysWithin(edges, keys, n)
    requires FirstFrom(edges, edges[n].fromId) == n
    ensures var more := keys + [edges[n].fromId]; KeysInOrder(edges, more) && KeysWithin(edges, more, n + 1)
  {
    var more := keys + [edges[n].fromId];
    forall i: nat, j: nat | i < j < |more| ensures ComesFirst(edges, more, i, j) {
      assert more[i] == keys[i] && FirstFrom(edges, keys[i]) < n;
      if j < |keys| { assert ComesFirst(edges, keys, i, j); }
    }
    forall i | 0 <= i < |more| ensures FirstFrom(edges, more[i]) < n + 1 {
      if i < |keys| { assert FirstFrom(edges, keys[i]) < n; }
    }
  }

  // ------------------------------------------------------------ arcs and edges

  /** Where an edge stands among the arcs of its source. */
  ghost function Position(edges: seq<Edge>, i: nat): nat
    requires i < |edges|
  {
    |Outgoing(edges[..i], edges[i].fromId)|
  }

  lemma {:induction false} OutgoingOfPrefix(edges: seq<Edge>, n: nat, u: string)
    requires n <= |edges|
    ensures Outgoing(edges[..n], u) <= Outgoing(edges, u)
    decreases |edges|
  {
    if n < |edges| {
      OutgoingOfPrefix(edges[..|edges| - 1], n, u);
      assert edges[..|edges| - 1][..n] == edges[..n];
    } else {
      assert edges[..n] == edges;
    }
  }

  /** An edge is the arc at its position. */
  lemma ArcAtPosition(edges: seq<Edge>, i: nat)
    requires i < |edges|
    ensures var e := edges[i];
      && Position(edges, i) < |Outgoing(edges, e.fromId)|
      && Outgoing(edges, e.fromId)[Position(edges, i)] == Arc(e.toId, e.amountXaf, e.isStateOrigin)
  {
    assert edges[..i + 1] == edges[..i] + [edges[i]];
    OutgoingOfOneMore(edges[..i], edges[i], edges[i].fromId);
    OutgoingOfPrefix(edges, i + 1, edges[i].fromId);
  }

  /** Edges of one source keep their order among its arcs. */
  lemma PositionsGrow(edges: seq<Edge>, i: nat, j: nat)
    requires i < j < |edges| && edges[i].fromId == edges[j].fromId
    ensures Position(edges, i) < Position(edges, j)
  {
    assert edges[..i + 1] == edges[..i] + [edges[i]];
    OutgoingOfOneMore(edges[..i], edges[i], edges[i].fromId);
    OutgoingOfPrefix(edges[..j], i + 1, edges[i].fromId);
    assert edges[..j][..i + 1] == edges[..i + 1];
  }

  /** Every arc is an edge at its position. */
  lemma {:induction false} EdgeOfArc(edges: seq<Edge>, u: string, n: nat) returns (i: nat)
    requires n < |Outgoing(edges, u)|
    ensures i < |edges| && edges[i].fromId == u && Position(edges, i) == n
    ensures edges[i].toId == Outgoing(edges, u)[n].to && edges[i].isStateOrigin == Outgoing(edges, u)[n].state
  {
    var init := edges[..|edges| - 1];
    if n < |Outgoing(init, u)| {
      i := EdgeOfArc(init, u, n);
      assert init[i] == edges[i] && init[..i] == edges[..i];
    } else {
      i := |init|;
    }
  }

  /** What is reached by an earlier first edge is reached by an earlier arc. */
  lemma EarlierEdgeEarlierArc(edges: seq<Edge>, u: string, n: nat, v: string) returns (m: nat)
    requires n < |Outgoing(edges, u)| && FirstEdge(edges, u, v) < FirstEdge(edges, u, Outgoing(edges, u)[n].to)
    ensures m < n && Outgoing(edges, u)[m].to == v
  {
    var i := FirstEdge(edges, u, v);
    var j := EdgeOfArc(edges, u, n);
    assert FirstEdge(edges, u, Outgoing(edges, u)[n].to) <= j;
    m := Position(edges, i);
    PositionsGrow(edges, i, j);
    ArcAtPosition(edges, i);
  }

  /** An arc that no earlier one shares its target with is the first edge there. */
  lemma FirstArcIsFirstEdge(edges: seq<Edge>, u: string, n: nat)
    requires n < |Outgoing(edges, u)|
    requires forall m :: 0 <= m < n ==> Outgoing(edges, u)[m].to != Outgoing(edges, u)[n].to
    ensures FirstEdgeFlag(edges, u, Outgoing(edges, u)[n].to, Outgoing(edges, u)[n].state)
  {
    var v := Outgoing(edges, u)[n].to;
    var i := FirstEdge(edges, u, v);
    var j := EdgeOfArc(edges, u, n);
    if i < j {
      PositionsGrow(edges, i, j);
      ArcAtPosition(edges, i);
    }
  }

  /** Every arc comes from an edge .. */
  lemma {:induction false} ArcIsEdge(edges: seq<Edge>, u: string, n: nat)
    requires n < |Outgoing(edges, u)|
    ensures HasFlaggedEdge(edges, u, Outgoing(edges, u)[n].to, Outgoing(edges, u)[n].state)
  {
    var init := edges[..|edges| - 1];
    if n < |Outgoing(init, u)| {
      ArcIsEdge(init, u, n);
      var i :| 0 <= i < |init| && init[i].fromId == u && init[i].toId == Outgoing(init, u)[n].to
               && init[i].isStateOrigin == Outgoing(init, u)[n].state;
      assert edges[i] == init[i];
    } else {
      assert edges[|edges| - 1].fromId == u;
    }
  }

  /** .. and every edge gives an arc. */
  lemma {:induction false} EdgeIsArc(edges: seq<Edge>, i: nat) returns (k: nat)
    requires i < |edges|
    ensures k < |Outgoing(edges, edges[i].fromId)| && Outgoing(edges, edges[i].fromId)[k].to == edges[i].toId
  {
    var init := edges[..|edges| - 1];
    if i < |init| {
      k := EdgeIsArc(init, i);
    } else {
      k := |Outgoing(init, edges[i].fromId)|;
    }
  }

  // ------------------------------------------------- what a search has covered

  /** The vertex that follows the common prefix `path` on the cycle `cyc`. */
  ghost function NextVertex(path: seq<string>, cyc: seq<string>): string
    requires path != [] && path <= cyc
  {
    if |cyc| > |path| then cyc[|path|] else cyc[0]
  }

  /** `cyc` is a cycle of admissible length that starts along `path`. */
  ghost predicate Extends(edges: seq<Edge>, maxLength: int, path: seq<string>, cyc: seq<string>) {
    path != [] && path <= cyc && 3 <= |cyc| <= maxLength && SimpleCycle(edges, cyc)
  }

  /** Every admissible cycle along `path` has been registered. */
  ghost predicate Explored(edges: seq<Edge>, maxLength: int, path: seq<string>, seen: set<string>) {
    forall cyc {:trigger Extends(edges, maxLength, path, cyc)} :: Extends(edges, maxLength, path, cyc) ==> Key(cyc) in seen
  }

  /** Every admissible cycle that leaves `path` towards `to` has been registered. */
  ghost predicate ExploredVia(edges: seq<Edge>, maxLength: int, path: seq<string>, to: string, seen: set<string>) {
    forall cyc {:trigger Extends(edges, maxLength, path, cyc)} ::
      Extends(edges, maxLength, path, cyc) && NextVertex(path, cyc) == to ==> Key(cyc) in seen
  }

  /** .. along each of the first n arcs. */
  ghost predicate ExploredArcs(edges: seq<Edge>, maxLength: int, path: seq<string>, arcs: seq<Arc>, n: nat,
                               seen: set<string>)
    requires n <= |arcs|
  {
    forall k {:trigger ExploredVia(edges, maxLength, path, arcs[k].to, seen)} :: 0 <= k < n ==>
      ExploredVia(edges, maxLength, path, arcs[k].to, seen)
  }

  /** An arc back to the start can only close the path itself. */
  lemma ClosingArc(edges: seq<Edge>, maxLength: int, path: seq<string>, seen: set<string>)
    requires path != [] && Key(path) in seen
    ensures ExploredVia(edges, maxLength, path, path[0], seen)
  {
    forall cyc | Extends(edges, maxLength, path, cyc) && NextVertex(path, cyc) == path[0]
      ensures cyc == path
    {
      assert cyc[0] == path[0];
      assert |cyc| == |path|;
    }
  }

  /** An arc to a fresh vertex leads to the cycles through the longer path. */
  lemma DeeperArc(edges: seq<Edge>, maxLength: int, path: seq<string>, to: string, seen: set<string>)
    requires path != [] && to !in path
    requires Explored(edges, maxLength, path + [to], seen)
    ensures ExploredVia(edges, maxLength, path, to, seen)
  {
    forall cyc | Extends(edges, maxLength, path, cyc) && NextVertex(path, cyc) == to
      ensures Key(cyc) in seen
    {
      assert cyc[0] == path[0];
      assert cyc[..|path| + 1] == path + [to];
      assert Extends(edges, maxLength, path + [to], cyc);
    }
  }

  /** Any other arc continues no admissible cycle. */
  lemma DeadArc(edges: seq<Edge>, maxLength: int, path: seq<string>, to: string, seen: set<string>)
    requires path != [] && to in path && !(to == path[0] && |path| >= 3)
    ensures ExploredVia(edges, maxLength, path, to, seen)
  {
  }

  lemma ExploredArcsStep(edges: seq<Edge>, maxLength: int, path: seq<string>, arcs: seq<Arc>, n: nat,
                         before: set<string>, after: set<string>)
    requires n < |arcs| && before <= after
    requires ExploredArcs(edges, maxLength, path, arcs, n, before)
    requires ExploredVia(edges, maxLength, path, arcs[n].to, after)
    ensures ExploredArcs(edges, maxLength, path, arcs, n + 1, after)
  {
    forall k | 0 <= k < n + 1 ensures ExploredVia(edges, maxLength, path, arcs[k].to, after) {
      if k < n { assert ExploredVia(edges, maxLength, path, arcs[k].to, before); }
    }
  }

  /** Every admissible cycle through `path` leaves it along a listed arc. */
  lemma AllArcsExplored(edges: seq<Edge>, adj: Adjacency, maxLength: int, path: seq<string>, seen: set<string>)
    requires Represents(adj, edges) && path != []
    requires var arcs := adj.Neighbours(path[|path| - 1]); ExploredArcs(edges, maxLength, path, arcs, |arcs|, seen)
    ensures Explored(edges, maxLength, path, seen)
  {
    var current := path[|path| - 1];
    forall cyc | Extends(edges, maxLength, path, cyc) ensures Key(cyc) in seen {
      var next := NextVertex(path, cyc);
      assert cyc[|path| - 1] == current;
      assert HasEdge(edges, current, next) && RepresentsAt(adj, edges, current);
      var i :| 0 <= i < |edges| && edges[i].fromId == current && edges[i].toId == next;
      var k := EdgeIsArc(edges, i);
      assert ExploredVia(edges, maxLength, path, adj.Neighbours(current)[k].to, seen);
    }
  }

  lemma FlaggedEdgeIsEdge(edges: seq<Edge>, u: string, v: string, state: bool)
    requires HasFlaggedEdge(edges, u, v, state)
    ensures HasEdge(edges, u, v)
  {
  }

  lemma PathExtended(edges: seq<Edge>, path: seq<string>, to: string)
    requires SimplePath(edges, path) && HasEdge(edges, path[|path| - 1], to) && to !in path
    ensures SimplePath(edges, path + [to])
  {
  }

  // --------------------------------------------------- what the search has passed

  /** Every admissible cycle that comes before `walk` has been registered. */
  ghost predicate AllBefore(edges: seq<Edge>, maxLength: int, walk: seq<string>, seen: set<string>) {
    forall d {:trigger Admissible(edges, maxLength, d)} ::
      Admissible(edges, maxLength, d) && Before(edges, Closed(d), walk) ==> Key(d) in seen
  }

  lemma StillAllBefore(edges: seq<Edge>, maxLength: int, walk: seq<string>, before: set<string>, after: set<string>)
    requires AllBefore(edges, maxLength, walk, before) && before <= after
    ensures AllBefore(edges, maxLength, walk, after)
  {
  }

  lemma KeysKeepOrder(edges: seq<Edge>, keys: seq<string>, i: nat, j: nat)
    requires KeysInOrder(edges, keys) && i <= j < |keys|
    ensures FirstFrom(edges, keys[i]) <= FirstFrom(edges, keys[j])
  {
    if i < j { assert ComesFirst(edges, keys, i, j); }
  }

  /** What comes before a start vertex starts at an earlier key. */
  lemma AllBeforeRoot(edges: seq<Edge>, adj: Adjacency, maxLength: int, n: nat, seen: set<string>)
    requires Represents(adj, edges) && KeysInOrder(edges, adj.keys) && n < |adj.keys|
    requires ExploredKeys(edges, maxLength, adj.keys[..n], seen)
    ensures AllBefore(edges, maxLength, [adj.keys[n]], seen)
  {
    var walk := [adj.keys[n]];
    forall d | Admissible(edges, maxLength, d) && Before(edges, Closed(d), walk) ensures Key(d) in seen {
      var k: nat :| PartsAt(edges, Closed(d), walk, k);
      var m := StartsAtAKey(edges, adj, maxLength, d);
      if n <= m { KeysKeepOrder(edges, adj.keys, n, m); }
      assert adj.keys[..n][m] == d[0];
      assert Explored(edges, maxLength, [adj.keys[..n][m]], seen);
    }
  }

  /** What comes before a longer path comes before the path, or leaves it along an arc
      that has been followed. */
  lemma AllBeforeArc(edges: seq<Edge>, maxLength: int, path: seq<string>, arcs: seq<Arc>, n: nat, seen: set<string>)
    requires path != [] && arcs == Outgoing(edges, path[|path| - 1]) && n < |arcs|
    requires AllBefore(edges, maxLength, path, seen) && ExploredArcs(edges, maxLength, path, arcs, n, seen)
    ensures AllBefore(edges, maxLength, path + [arcs[n].to], seen)
  {
    var walk := path + [arcs[n].to];
    forall d | Admissible(edges, maxLength, d) && Before(edges, Closed(d), walk) ensures Key(d) in seen {
      var k: nat :| PartsAt(edges, Closed(d), walk, k);
      if k < |path| {
        PartsOnPath(edges, Closed(d), path, arcs[n].to, k);
      } else {
        LeftEarlier(edges, maxLength, d, path, arcs, n, k, seen);
      }
    }
  }

  lemma LeftEarlier(edges: seq<Edge>, maxLength: int, d: seq<string>, path: seq<string>, arcs: seq<Arc>, n: nat, k: nat,
                    seen: set<string>)
    requires path != [] && arcs == Outgoing(edges, path[|path| - 1]) && n < |arcs|
    requires ExploredArcs(edges, maxLength, path, arcs, n, seen)
    requires Admissible(edges, maxLength, d) && |path| <= k && PartsAt(edges, Closed(d), path + [arcs[n].to], k)
    ensures Key(d) in seen
  {
    LeavesPath(edges, d, path, arcs[n].to, k);
    var m := EarlierEdgeEarlierArc(edges, path[|path| - 1], n, NextVertex(path, d));
    assert ExploredVia(edges, maxLength, path, arcs[m].to, seen);
    assert Extends(edges, maxLength, path, d);
  }

  lemma PartsOnPath(edges: seq<Edge>, a: seq<string>, path: seq<string>, to: string, k: nat)
    requires k < |path| && PartsAt(edges, a, path + [to], k)
    ensures PartsAt(edges, a, path, k)
  {
    assert (path + [to])[..k] == path[..k];
  }

  lemma LeavesPath(edges: seq<Edge>, d: seq<string>, path: seq<string>, to: string, k: nat)
    requires path != [] && d != [] && |path| <= k && PartsAt(edges, Closed(d), path + [to], k)
    ensures path <= d
    ensures FirstEdge(edges, path[|path| - 1], NextVertex(path, d)) < FirstEdge(edges, path[|path| - 1], to)
  {
    var walk := path + [to];
    assert k == |path| && walk[..k] == path;
    assert Closed(d)[..k] == d[..k];
    assert Closed(d)[k - 1] == Closed(d)[..k][k - 1];
  }

  /** The closing arc of a path that is still unknown is the first one to its start. */
  lemma UnknownClosesFirst(edges: seq<Edge>, maxLength: int, path: seq<string>, arcs: seq<Arc>, n: nat, seen: set<string>)
    requires SimplePath(edges, path) && 3 <= |path| <= maxLength && Key(path) !in seen
    requires arcs == Outgoing(edges, path[|path| - 1]) && n < |arcs| && arcs[n].to == path[0]
    requires ExploredArcs(edges, maxLength, path, arcs, n, seen)
    ensures FirstEdgeFlag(edges, path[|path| - 1], path[0], arcs[n].state)
  {
    ArcIsEdge(edges, path[|path| - 1], n);
    FlaggedEdgeIsEdge(edges, path[|path| - 1], path[0], arcs[n].state);
    assert Extends(edges, maxLength, path, path) && NextVertex(path, path) == path[0];
    forall m | 0 <= m < n ensures arcs[m].to != arcs[n].to {
      assert ExploredVia(edges, maxLength, path, arcs[m].to, seen);
    }
    FirstArcIsFirstEdge(edges, path[|path| - 1], n);
  }

  /** What the search needs to know when it comes to an arc. */
  lemma ArcMayBeFollowed(edges: seq<Edge>, maxLength: int, path: seq<string>, arcs: seq<Arc>, n: nat, start: set<string>,
                         seen: set<string>)
    requires SimplePath(edges, path) && |path| <= maxLength && start <= seen
    requires arcs == Outgoing(edges, path[|path| - 1]) && n < |arcs|
    requires AllBefore(edges, maxLength, path, start) && ExploredArcs(edges, maxLength, path, arcs, n, seen)
    ensures HasFlaggedEdge(edges, path[|path| - 1], arcs[n].to, arcs[n].state)
    ensures AllBefore(edges, maxLength, path + [arcs[n].to], seen)
    ensures arcs[n].to == path[0] && 3 <= |path| && Key(path) !in seen ==>
      FirstEdgeFlag(edges, path[|path| - 1], arcs[n].to, arcs[n].state)
  {
    ArcIsEdge(edges, path[|path| - 1], n);
    StillAllBefore(edges, maxLength, path, start, seen);
    AllBeforeArc(edges, maxLength, path, arcs, n, seen);
    if arcs[n].to == path[0] && 3 <= |path| && Key(path) !in seen {
      UnknownClosesFirst(edges, maxLength, path, arcs, n, seen);
    }
  }

  // ------------------------------------------- what is left when results run out

  /** On the way from its position `i` the cycle takes an arc of that vertex that is not
      the last: the first one that leads to the next vertex has others behind it. */
  ghost predicate LeavesArcAt(edges: seq<Edge>, cyc: seq<string>, i: nat)
    requires i < |cyc|
  {
    var arcs := Outgoing(edges, cyc[i]);
    exists m :: 0 <= m < |arcs| - 1 && arcs[m].to == After(cyc, i)
  }

  /** The cycle leaves an arc behind at `d` or further on. */
  ghost predicate LeavesArcs(edges: seq<Edge>, cyc: seq<string>, d: nat) {
    exists i {:trigger LeavesArcAt(edges, cyc, i)} :: d <= i < |cyc| && LeavesArcAt(edges, cyc, i)
  }

  function After(cyc: seq<string>, i: nat): string
    requires i < |cyc|
  {
    if i + 1 < |cyc| then cyc[i + 1] else cyc[0]
  }

  /** The result budget ran out below `path`: the last candidate is a new cycle along it,
      and the run is marked exactly if that cycle leaves an arc behind from `d` on. */
  ghost predicate RanOut(edges: seq<Edge>, path: seq<string>, out: seq<Candidate>, capped: bool,
                         before: set<string>, d: nat) {
    && out != []
    && var cyc := out[|out| - 1].entityIds;
    && path <= cyc && Key(cyc) !in before
    && (capped <==> LeavesArcs(edges, cyc, d))
  }

  /** The same after the first n arcs of the path's end: the last of them led there, and
      none before it did. */
  ghost predicate RanOutAfter(edges: seq<Edge>, path: seq<string>, arcs: seq<Arc>, n: nat,
                              out: seq<Candidate>, capped: bool, before: set<string>) {
    && path != [] && 0 < n <= |arcs|
    && RanOut(edges, path, out, capped, before, |path|)
    && NextVertex(path, out[|out| - 1].entityIds) == arcs[n - 1].to
    && forall m: nat {:trigger LeadsElsewhere(arcs, m, n - 1)} :: m < n - 1 ==> LeadsElsewhere(arcs, m, n - 1)
  }

  ghost predicate LeadsElsewhere(arcs: seq<Arc>, m: nat, n: nat)
    requires m < |arcs| && n < |arcs|
  {
    arcs[m].to != arcs[n].to
  }

  /** A new cycle leads along an arc to a vertex no earlier arc leads to. */
  lemma FirstToLeadThere(edges: seq<Edge>, maxLength: int, path: seq<string>, arcs: seq<Arc>, n: nat,
                         out: seq<Candidate>, capped: bool, before: set<string>, start: set<string>)
    requires path != [] && n < |arcs| && start <= before
    requires ExploredArcs(edges, maxLength, path, arcs, n, before)
    requires RanOut(edges, path, out, capped, before, |path|)
    requires Sound(edges, maxLength, out[|out| - 1])
    requires NextVertex(path, out[|out| - 1].entityIds) == arcs[n].to
    ensures RanOutAfter(edges, path, arcs, n + 1, out, capped, start)
  {
    var cyc := out[|out| - 1].entityIds;
    assert Extends(edges, maxLength, path, cyc);
    forall m | 0 <= m < n ensures LeadsElsewhere(arcs, m, n) {
      assert ExploredVia(edges, maxLength, path, arcs[m].to, before);
    }
  }

  /** Where a search stands after the first n arcs of the path's end, given what is left
      of both budgets. */
  ghost predicate SoFar(edges: seq<Edge>, maxLength: int, path: seq<string>, arcs: seq<Arc>, n: nat, steps: int,
                        results: int, out: seq<Candidate>, capped: bool, start: set<string>, seen: set<string>)
    requires n <= |arcs|
  {
    && (steps > 0 && results > 0 ==> ExploredArcs(edges, maxLength, path, arcs, n, seen))
    && (steps > 0 && results == 0 ==> RanOutAfter(edges, path, arcs, n, out, capped, start))
  }

  /** What a search along one arc leaves behind: while both budgets last everything along it
      is registered, and if the results ran out the last cycle leads along it. */
  ghost predicate Leads(edges: seq<Edge>, maxLength: int, path: seq<string>, to: string, steps: int, results: int,
                        out: seq<Candidate>, capped: bool, before: set<string>, seen: set<string>)
  {
    && (steps > 0 && results > 0 ==> ExploredVia(edges, maxLength, path, to, seen))
    && (steps > 0 && results == 0 ==>
          path != [] && RanOut(edges, path, out, capped, before, |path|)
          && NextVertex(path, out[|out| - 1].entityIds) == to)
  }

  lemma SoFarStep(edges: seq<Edge>, maxLength: int, path: seq<string>, arcs: seq<Arc>, n: nat, steps: int, results: int,
                  out: seq<Candidate>, capped: bool, start: set<string>, before: set<string>, seen: set<string>)
    requires path != [] && n < |arcs| && start <= before <= seen
    requires ExploredArcs(edges, maxLength, path, arcs, n, before)
    requires Leads(edges, maxLength, path, arcs[n].to, steps, results, out, capped, before, seen)
    requires Registered(edges, maxLength, out, seen)
    ensures SoFar(edges, maxLength, path, arcs, n + 1, steps, results, out, capped, start, seen)
  {
    if steps > 0 && results > 0 { ExploredArcsStep(edges, maxLength, path, arcs, n, before, seen); }
    if steps > 0 && results == 0 {
      assert Sound(edges, maxLength, out[|out| - 1]);
      FirstToLeadThere(edges, maxLength, path, arcs, n, out, capped, before, start);
    }
  }

  lemma LeavesArcsStep(edges: seq<Edge>, cyc: seq<string>, d: nat)
    requires d < |cyc|
    ensures LeavesArcs(edges, cyc, d) <==> LeavesArcAt(edges, cyc, d) || LeavesArcs(edges, cyc, d + 1)
  {
  }

  /** Another arc is still to come: it is left behind. */
  lemma MoreToCome(edges: seq<Edge>, path: seq<string>, n: nat, out: seq<Candidate>, capped: bool, before: set<string>)
    requires path != [] && n < |Outgoing(edges, path[|path| - 1])|
    requires RanOutAfter(edges, path, Outgoing(edges, path[|path| - 1]), n, out, capped, before)
    ensures RanOut(edges, path, out, true, before, |path| - 1)
  {
    var cyc := out[|out| - 1].entityIds;
    assert cyc[|path| - 1] == path[|path| - 1];
    assert After(cyc, |path| - 1) == NextVertex(path, cyc);
    LeavesArcsStep(edges, cyc, |path| - 1);
  }

  /** It was the last arc: nothing is left behind here. */
  lemma NothingToCome(edges: seq<Edge>, path: seq<string>, out: seq<Candidate>, capped: bool, before: set<string>)
    requires path != []
    requires var arcs := Outgoing(edges, path[|path| - 1]); RanOutAfter(edges, path, arcs, |arcs|, out, capped, before)
    ensures RanOut(edges, path, out, capped, before, |path| - 1)
  {
    var arcs := Outgoing(edges, path[|path| - 1]);
    var cyc := out[|out| - 1].entityIds;
    assert cyc[|path| - 1] == path[|path| - 1];
    assert After(cyc, |path| - 1) == NextVertex(path, cyc);
    forall m | 0 <= m < |arcs| - 1 ensures arcs[m].to != arcs[|arcs| - 1].to {
      assert LeadsElsewhere(arcs, m, |arcs| - 1);
    }
    LeavesArcsStep(edges, cyc, |path| - 1);
  }

  /** The arcs are exhausted. */
  lemma SoFarEnds(edges: seq<Edge>, adj: Adjacency, maxLength: int, path: seq<string>, steps: int, results: int,
                  out: seq<Candidate>, capped: bool, start: set<string>, seen: set<string>)
    requires Represents(adj, edges) && SimplePath(edges, path) && |path| <= maxLength
    requires var arcs := Outgoing(edges, path[|path| - 1]);
      SoFar(edges, maxLength, path, arcs, |arcs|, steps, results, out, capped, start, seen)
    ensures steps > 0 && results > 0 ==> Explored(edges, maxLength, path, seen)
    ensures steps > 0 && results == 0 ==> RanOut(edges, path, out, capped, start, |path| - 1)
  {
    assert RepresentsAt(adj, edges, path[|path| - 1]);
    if steps > 0 && results > 0 { AllArcsExplored(edges, adj, maxLength, path, seen); }
    if steps > 0 && results == 0 { NothingToCome(edges, path, out, capped, start); }
  }

  /** A cycle that closes here leaves nothing behind further down. */
  lemma RanOutHere(edges: seq<Edge>, path: seq<string>, out: seq<Candidate>, c: Candidate, before: set<string>)
    requires path != [] && c.entityIds == path && Key(path) !in before
    ensures RanOut(edges, path, out + [c], false, before, |path|)
    ensures NextVertex(path, c.entityIds) == path[0]
  {
  }

  /** Seen from one vertex further up. */
  lemma RanOutDeeper(edges: seq<Edge>, path: seq<string>, to: string, out: seq<Candidate>, capped: bool, before: set<string>)
    requires path != [] && RanOut(edges, path + [to], out, capped, before, |path|)
    ensures RanOut(edges, path, out, capped, before, |path|)
    ensures NextVertex(path, out[|out| - 1].entityIds) == to
  {
    var cyc := out[|out| - 1].entityIds;
    assert cyc[..|path|] == path && cyc[|path|] == to;
  }

  // ------------------------------------------------------- what it has reported

  /** `out` holds sound candidates, pairwise with different keys, and `seen` is
      the set of those keys. */
  ghost predicate Registered(edges: seq<Edge>, maxLength: int, out: seq<Candidate>, seen: set<string>) {
    && SoundAndSeen(edges, maxLength, out, seen) && SeenAreKeys(out, seen)
    && KeysDiffer(out) && FirstOfTheirKeys(edges, maxLength, out)
  }

  ghost predicate SoundAndSeen(edges: seq<Edge>, maxLength: int, out: seq<Candidate>, seen: set<string>) {
    forall i {:trigger Sound(edges, maxLength, out[i])} :: 0 <= i < |out| ==>
      Sound(edges, maxLength, out[i]) && out[i].cap == NotCapped && Key(out[i].entityIds) in seen
  }

  ghost predicate SeenAreKeys(out: seq<Candidate>, seen: set<string>) {
    forall k {:trigger HasKey(out, k)} :: k in seen ==> HasKey(out, k)
  }

  /** Each candidate is the first cycle, in the order of the search, whose key is not the
      key of an earlier candidate. */
  ghost predicate FirstOfTheirKeys(edges: seq<Edge>, maxLength: int, out: seq<Candidate>) {
    forall i: nat {:trigger FirstUnknown(edges, maxLength, out, i)} :: i < |out| ==> FirstUnknown(edges, maxLength, out, i)
  }

  ghost predicate FirstUnknown(edges: seq<Edge>, maxLength: int, out: seq<Candidate>, i: nat)
    requires i < |out|
  {
    forall d {:trigger Admissible(edges, maxLength, d)} ::
      Admissible(edges, maxLength, d) && Before(edges, Closed(d), Closed(out[i].entityIds)) ==> HasKey(out[..i], Key(d))
  }

  ghost predicate KeysDiffer(out: seq<Candidate>) {
    forall i: nat, j: nat {:trigger DifferAt(out, i, j)} :: i < j < |out| ==> DifferAt(out, i, j)
  }

  ghost predicate DifferAt(out: seq<Candidate>, i: nat, j: nat)
    requires i < |out| && j < |out|
  {
    Key(out[i].entityIds) != Key(out[j].entityIds)
  }

  ghost predicate HasKey(out: seq<Candidate>, k: string) {
    exists i :: 0 <= i < |out| && Key(out[i].entityIds) == k
  }

  lemma RegisterOne(edges: seq<Edge>, maxLength: int, out: seq<Candidate>, seen: set<string>, c: Candidate)
    requires Registered(edges, maxLength, out, seen)
    requires Sound(edges, maxLength, c) && c.cap == NotCapped && Key(c.entityIds) !in seen
    requires AllBefore(edges, maxLength, Closed(c.entityIds), seen)
    ensures Registered(edges, maxLength, out + [c], seen + {Key(c.entityIds)})
  {
    OneMoreSound(edges, maxLength, out, seen, c);
    OneMoreKey(out, seen, c);
    OneMoreDiffers(edges, maxLength, out, seen, c);
    OneMoreFirst(edges, maxLength, out, seen, c);
  }

  lemma OneMoreSound(edges: seq<Edge>, maxLength: int, out: seq<Candidate>, seen: set<string>, c: Candidate)
    requires SoundAndSeen(edges, maxLength, out, seen) && Sound(edges, maxLength, c) && c.cap == NotCapped
    ensures SoundAndSeen(edges, maxLength, out + [c], seen + {Key(c.entityIds)})
  {
    var out', seen' := out + [c], seen + {Key(c.entityIds)};
    forall i | 0 <= i < |out'|
      ensures Sound(edges, maxLength, out'[i]) && out'[i].cap == NotCapped && Key(out'[i].entityIds) in seen'
    {
      if i < |out| { assert Sound(edges, maxLength, out[i]); }
    }
  }

  lemma OneMoreKey(out: seq<Candidate>, seen: set<string>, c: Candidate)
    requires SeenAreKeys(out, seen)
    ensures SeenAreKeys(out + [c], seen + {Key(c.entityIds)})
  {
    var out' := out + [c];
    forall k | k in seen + {Key(c.entityIds)} ensures HasKey(out', k) {
      if k in seen {
        assert HasKey(out, k);
        var i :| 0 <= i < |out| && Key(out[i].entityIds) == k;
        assert out'[i] == out[i];
      } else {
        assert out'[|out|] == c;
      }
    }
  }

  lemma OneMoreDiffers(edges: seq<Edge>, maxLength: int, out: seq<Candidate>, seen: set<string>, c: Candidate)
    requires KeysDiffer(out) && SoundAndSeen(edges, maxLength, out, seen) && Key(c.entityIds) !in seen
    ensures KeysDiffer(out + [c])
  {
    var out' := out + [c];
    forall i: nat, j: nat | i < j < |out'| ensures DifferAt(out', i, j) {
      if j < |out| {
        assert DifferAt(out, i, j);
      } else {
        assert Sound(edges, maxLength, out[i]);
      }
    }
  }

  lemma OneMoreFirst(edges: seq<Edge>, maxLength: int, out: seq<Candidate>, seen: set<string>, c: Candidate)
    requires FirstOfTheirKeys(edges, maxLength, out) && AllBefore(edges, maxLength, Closed(c.entityIds), seen)
    requires SeenAreKeys(out, seen)
    ensures FirstOfTheirKeys(edges, maxLength, out + [c])
  {
    var out' := out + [c];
    forall i: nat | i < |out'| ensures FirstUnknown(edges, maxLength, out', i) {
      if i < |out| {
        assert FirstUnknown(edges, maxLength, out, i) && out'[..i] == out[..i];
      } else {
        assert out'[..i] == out;
      }
    }
  }

  /** The candidate dfsCycles builds for a closed path. */
  function MakeCandidate(path: seq<string>, state: bool): Candidate
    requires path != []
  {
    var cyclePath := path + [path[0]];
    Candidate(cyclePath, |cyclePath| - 1, state, if state then 0.8 else 0.5, cyclePath[..|cyclePath| - 1], NotCapped)
  }

  lemma MakeCandidateSound(edges: seq<Edge>, maxLength: int, path: seq<string>, state: bool)
    requires SimplePath(edges, path) && 3 <= |path| <= maxLength
    requires FirstEdgeFlag(edges, path[|path| - 1], path[0], state)
    ensures Sound(edges, maxLength, MakeCandidate(path, state))
    ensures MakeCandidate(path, state).entityIds == path
  {
    var i := FirstEdge(edges, path[|path| - 1], path[0]);
    assert edges[i].fromId == path[|path| - 1] && edges[i].toId == path[0];
  }

  /** Reporting a path that closes with an unknown key. */
  lemma ClosedAnew(edges: seq<Edge>, maxLength: int, path: seq<string>, state: bool, out: seq<Candidate>, seen: set<string>)
    requires SimplePath(edges, path) && 3 <= |path| <= maxLength && Key(path) !in seen
    requires FirstEdgeFlag(edges, path[|path| - 1], path[0], state) && AllBefore(edges, maxLength, Closed(path), seen)
    requires Registered(edges, maxLength, out, seen)
    ensures var more := out + [MakeCandidate(path, state)];
      && Registered(edges, maxLength, more, seen + {Key(path)})
      && RanOut(edges, path, more, false, seen, |path|)
      && NextVertex(path, more[|more| - 1].entityIds) == path[0]
  {
    MakeCandidateSound(edges, maxLength, path, state);
    RegisterOne(edges, maxLength, out, seen, MakeCandidate(path, state));
    RanOutHere(edges, path, out, MakeCandidate(path, state), seen);
  }

  // ----------------------------------------------------------------- search

  /** The state `dfsCycles` threads through its recursion: the budget record, the
      set of keys already reported, and the candidates pushed so far. */
  class CycleSearch {
    const edges: seq<Edge>
    const adj: Adjacency
    const maxLength: int
    var stepsRemaining: int
    var candidatesRemaining: int
    var capped: bool
    var seen: set<string>
    var out: seq<Candidate>
    ghost var entries: nat  // how often Dfs has been entered

    constructor (edges: seq<Edge>, adj: Adjacency, maxLength: int)
      requires Represents(adj, edges)
      ensures Valid() && Open() && out == [] && seen == {} && !capped && entries == 0
      ensures this.edges == edges && this.adj == adj && this.maxLength == maxLength
    {
      this.edges, this.adj, this.maxLength := edges, adj, maxLength;
      stepsRemaining, candidatesRemaining, capped := MAX_CYCLE_DFS_STEPS, MAX_CYCLE_CANDIDATES, false;
      seen, out, entries := {}, [], 0;
    }

    /** Neither budget is used up. */
    predicate Open() reads this {
      stepsRemaining > 0 && candidatesRemaining > 0
    }

    ghost predicate Valid() reads this {
      && Represents(adj, edges)
      && 0 <= stepsRemaining && 0 <= candidatesRemaining
      && entries + stepsRemaining == MAX_CYCLE_DFS_STEPS
      && |out| + candidatesRemaining == MAX_CYCLE_CANDIDATES
      && (capped ==> !Open()) && (stepsRemaining == 0 ==> capped)
      && Registered(edges, maxLength, out, seen)
    }

    /** Everything only moves one way. */
    twostate predicate Progress() reads this {
      && stepsRemaining <= old(stepsRemaining) && candidatesRemaining <= old(candidatesRemaining)
      && old(out) <= out && old(seen) <= seen
    }

    /** It has spent what the search costs, or less because a budget ran out. */
    twostate predicate Takes(cost: nat) reads this {
      entries <= old(entries) + cost && (Open() ==> entries == old(entries) + cost)
    }

    /** On a snapshot without branches at most one cycle is found. */
    twostate predicate Frugal() reads this {
      OneWayOut(edges) ==> |out| <= |old(out)| + 1
    }

    /** The results ran out, and the steps did not. */
    predicate Full() reads this {
      candidatesRemaining == 0 && stepsRemaining > 0
    }

    method Dfs(start: string, current: string, path: seq<string>, depth: nat)
      requires Valid() && stepsRemaining > 0
      requires SimplePath(edges, path) && path[0] == start && path[|path| - 1] == current
      requires depth == |path| - 1
      requires Open() ==> AllBefore(edges, maxLength, path, seen)
      modifies this
      decreases maxLength - depth, 2, 0
      ensures Valid() && Progress() && stepsRemaining < old(stepsRemaining)
      ensures Frugal() && Takes(Cost(edges, maxLength, path))
      ensures Open() ==> Explored(edges, maxLength, path, seen)
      ensures old(Open()) && Full() ==> RanOut(edges, path, out, capped, old(seen), depth)
    {
      stepsRemaining, entries := stepsRemaining - 1, entries + 1;
      if stepsRemaining <= 0 {
        capped := true;
        return;
      }
      if candidatesRemaining <= 0 {
        capped := true;
        return;
      }
      if depth >= maxLength { return; }
      Explore(start, current, path, depth);
    }

    /** The search has been started from the first n keys. */
    ghost predicate KeysSearched(n: nat) reads this {
      && n <= |adj.keys|
      && (Open() ==> ExploredKeys(edges, maxLength, adj.keys[..n], seen))
      && (Full() ==> RanOut(edges, [], out, capped, {}, 0))
      && (OneWayOut(edges) ==> |out| <= n)
      && RootsTaken(edges, maxLength, adj.keys, n, entries, Open())
    }

    method SearchFrom(n: nat)
      requires Valid() && Open() && KeysSearched(n) && n < |adj.keys| && KeysInOrder(edges, adj.keys)
      modifies this
      ensures Valid() && KeysSearched(n + 1)
    {
      var start := adj.keys[n];
      AllBeforeRoot(edges, adj, maxLength, n, seen);
      Dfs(start, start, [start], 0);
      if Full() { RanOutAtRoot(edges, [start], out, capped, old(seen)); }
      if Open() { ExploredKeysStep(edges, maxLength, adj.keys, n, old(seen), seen); }
      RootsTakenStep(edges, maxLength, adj.keys, n, old(entries), entries, Open());
    }

    /** The search is over: every key has been searched, or a budget ran out. */
    lemma SearchEnds(n: nat)
      requires Valid() && KeysSearched(n) && adj.keys == Sources(edges) && (Open() ==> n == |adj.keys|)
      ensures Searched(edges, maxLength, out, stepsRemaining, candidatesRemaining, capped, seen, entries)
    {
      AtMostOneSourceAnEdge(edges);
      assert adj.keys[..|adj.keys|] == adj.keys;
      if Open() { ExploredEverything(edges, adj, maxLength, seen); }
      RootsTakenInAll(edges, maxLength, n, entries, Open());
    }

    /** The loop over the neighbours. */
    method Explore(start: string, current: string, path: seq<string>, depth: nat)
      requires Valid() && Open()
      requires SimplePath(edges, path) && path[0] == start && path[|path| - 1] == current
      requires depth == |path| - 1 && depth < maxLength
      requires AllBefore(edges, maxLength, path, seen)
      modifies this
      decreases maxLength - depth, 1, 0
      ensures Valid() && Progress()
      ensures Frugal() && Takes(CostOfArcs(edges, maxLength, path, |Outgoing(edges, current)|))
      ensures Open() ==> Explored(edges, maxLength, path, seen)
      ensures Full() ==> RanOut(edges, path, out, capped, old(seen), depth)
    {
      var neighbours := adj.Neighbours(current);
      assert RepresentsAt(adj, edges, current);
      for n := 0 to |neighbours|
        invariant Valid() && Progress()
        invariant Frugal() && Takes(CostOfArcs(edges, maxLength, path, n))
        invariant n == 0 ==> out == old(out)
        invariant SoFar(edges, maxLength, path, neighbours, n, stepsRemaining, candidatesRemaining, out, capped,
                        old(seen), seen)
      {
        if stepsRemaining <= 0 || candidatesRemaining <= 0 {
          CostOfArcsGrows(edges, maxLength, path, n, |neighbours|);
          if stepsRemaining > 0 { MoreToCome(edges, path, n, out, capped, old(seen)); }
          capped := true;
          return;
        }
        assert OneWayOut(edges) ==> |neighbours| <= 1;
        NextArc(start, path, depth, neighbours, n, old(seen));
      }
      SoFarEnds(edges, adj, maxLength, path, stepsRemaining, candidatesRemaining, out, capped, old(seen), seen);
    }

    /** One more neighbour, of which the first n have been covered since `first`. */
    method NextArc(start: string, path: seq<string>, depth: nat, arcs: seq<Arc>, n: nat, ghost first: set<string>)
      requires Valid() && Open()
      requires SimplePath(edges, path) && path[0] == start && depth == |path| - 1 && depth < maxLength
      requires arcs == Outgoing(edges, path[|path| - 1]) && n < |arcs|
      requires AllBefore(edges, maxLength, path, first) && first <= seen
      requires SoFar(edges, maxLength, path, arcs, n, stepsRemaining, candidatesRemaining, out, capped, first, seen)
      modifies this
      decreases maxLength - depth, 0, 2
      ensures Valid() && Progress() && Frugal() && Takes(CostOfArc(edges, maxLength, path, arcs[n].to))
      ensures SoFar(edges, maxLength, path, arcs, n + 1, stepsRemaining, candidatesRemaining, out, capped, first, seen)
    {
      ArcMayBeFollowed(edges, maxLength, path, arcs, n, first, seen);
      Follow(start, path, depth, arcs[n]);
      SoFarStep(edges, maxLength, path, arcs, n, stepsRemaining, candidatesRemaining, out, capped,
                first, old(seen), seen);
    }

    /** The path closes: report it unless its key is known. */
    method Close(path: seq<string>, state: bool)
      requires Valid() && Open()
      requires SimplePath(edges, path) && 3 <= |path| <= maxLength
      requires Key(path) !in seen ==> FirstEdgeFlag(edges, path[|path| - 1], path[0], state)
      requires AllBefore(edges, maxLength, Closed(path), seen)
      modifies this`candidatesRemaining, this`seen, this`out
      ensures Valid() && Progress() && Frugal()
      ensures Leads(edges, maxLength, path, path[0], stepsRemaining, candidatesRemaining, out, capped, old(seen), seen)
    {
      var key := Key(path);
      ClosingArc(edges, maxLength, path, seen + {key});
      if key in seen {
        assert seen + {key} == seen;
        return;
      }
      var c := MakeCandidate(path, state);
      ClosedAnew(edges, maxLength, path, state, out, seen);
      seen, out, candidatesRemaining := seen + {key}, out + [c], candidatesRemaining - 1;
    }

    /** The recursive call. */
    method Deeper(start: string, e: Arc, path: seq<string>, depth: nat)
      requires Valid() && Open()
      requires SimplePath(edges, path) && path[0] == start && depth == |path| - 1 && depth < maxLength
      requires HasFlaggedEdge(edges, path[|path| - 1], e.to, e.state) && e.to !in path
      requires AllBefore(edges, maxLength, path + [e.to], seen)
      modifies this
      decreases maxLength - depth, 0, 0
      ensures Valid() && Progress()
      ensures Frugal() && Takes(CostOfArc(edges, maxLength, path, e.to))
      ensures Leads(edges, maxLength, path, e.to, stepsRemaining, candidatesRemaining, out, capped, old(seen), seen)
    {
      FlaggedEdgeIsEdge(edges, path[|path| - 1], e.to, e.state);
      PathExtended(edges, path, e.to);
      Dfs(start, e.to, path + [e.to], depth + 1);
      if Open() { DeeperArc(edges, maxLength, path, e.to, seen); }
      if Full() { RanOutDeeper(edges, path, e.to, out, capped, old(seen)); }
    }

    /** One iteration of the loop over the neighbours. */
    method Follow(start: string, path: seq<string>, depth: nat, e: Arc)
      requires Valid() && Open()
      requires SimplePath(edges, path) && path[0] == start
      requires depth == |path| - 1 && depth < maxLength
      requires HasFlaggedEdge(edges, path[|path| - 1], e.to, e.state)
      requires AllBefore(edges, maxLength, path + [e.to], seen)
      requires e.to == start && 3 <= |path| && Key(path) !in seen ==>
        FirstEdgeFlag(edges, path[|path| - 1], e.to, e.state)
      modifies this
      decreases maxLength - depth, 0, 1
      ensures Valid() && Progress()
      ensures Frugal() && Takes(CostOfArc(edges, maxLength, path, e.to))
      ensures Leads(edges, maxLength, path, e.to, stepsRemaining, candidatesRemaining, out, capped, old(seen), seen)
    {
      if e.to == start && |path| >= 3 {
        Close(path, e.state);
      } else if e.to !in path {
        Deeper(start, e, path, depth);
      } else {
        DeadArc(edges, maxLength, path, e.to, seen);
      }
    }
  }

  // ------------------------------------------------------------ entry point

  ghost predicate AllSound(edges: seq<Edge>, maxLength: int, out: seq<Candidate>) {
    forall i {:trigger Sound(edges, maxLength, out[i])} :: 0 <= i < |out| ==> Sound(edges, maxLength, out[i])
  }

  /** No vertex of a reported cycle has its first edge listed before that of its start. */
  ghost predicate StartsEarliest(edges: seq<Edge>, out: seq<Candidate>) {
    forall c, v :: c in out && v in c.entityIds ==> FirstFrom(edges, c.entityIds[0]) <= FirstFrom(edges, v)
  }

  ghost predicate InSearchOrder(edges: seq<Edge>, out: seq<Candidate>) {
    forall i, j :: 0 <= i < j < |out| ==> Before(edges, Closed(out[i].entityIds), Closed(out[j].entityIds))
  }

  ghost predicate VerticesDiffer(out: seq<Candidate>) {
    forall i: nat, j: nat {:trigger VerticesDifferAt(out, i, j)} :: i < j < |out| ==> VerticesDifferAt(out, i, j)
  }

  ghost predicate VerticesDifferAt(out: seq<Candidate>, i: nat, j: nat)
    requires i < |out| && j < |out|
  {
    Elements(out[i].entityIds) != Elements(out[j].entityIds)
  }

  /** `cyc` is reported: some candidate has exactly its vertices. */
  ghost predicate Reported(out: seq<Candidate>, cyc: seq<string>) {
    exists i :: 0 <= i < |out| && Elements(out[i].entityIds) == Elements(cyc)
  }

  ghost predicate AllCyclesReported(edges: seq<Edge>, maxLength: int, out: seq<Candidate>) {
    forall cyc :: Admissible(edges, maxLength, cyc) ==> Reported(out, cyc)
  }

  /** Cycles over different vertices have different keys. */
  ghost predicate KeysTellApart(edges: seq<Edge>, maxLength: int) {
    forall c, d :: Admissible(edges, maxLength, c) && Admissible(edges, maxLength, d) && Key(c) == Key(d) ==>
      Elements(c) == Elements(d)
  }

  ghost predicate IdsFreeOfBar(edges: seq<Edge>) {
    forall i :: 0 <= i < |edges| ==> Free(edges[i].fromId, '|') && Free(edges[i].toId, '|')
  }

  /** Fewer than n keys cover the cycles of the snapshot. */
  ghost predicate FewerKeysThan(edges: seq<Edge>, maxLength: int, n: nat) {
    exists keys: set<string> :: |keys| < n && CoverKeys(edges, maxLength, keys)
  }

  ghost predicate CoverKeys(edges: seq<Edge>, maxLength: int, keys: set<string>) {
    forall cyc :: Admissible(edges, maxLength, cyc) ==> Key(cyc) in keys
  }

  /** Fewer than n vertex sets cover the cycles of the snapshot. */
  ghost predicate FewerVertexSetsThan(edges: seq<Edge>, maxLength: int, n: nat) {
    exists sets: set<set<string>> :: |sets| < n && CoverVertexSets(edges, maxLength, sets)
  }

  ghost predicate CoverVertexSets(edges: seq<Edge>, maxLength: int, sets: set<set<string>>) {
    forall cyc :: Admissible(edges, maxLength, cyc) ==> Elements(cyc) in sets
  }

  /** The evidence on the last candidate. */
  ghost function CapOf(edges: seq<Edge>, last: Candidate, stepsLeft: int, candidatesLeft: int): CapReason {
    if stepsLeft == 0 then StepsExhausted
    else if candidatesLeft == 0 && LeavesArcs(edges, last.entityIds, 0) then CandidatesExhausted
    else NotCapped
  }

  /** The result, together with what is left of both budgets, and how often the search
      was entered. */
  method DetectCycles(edges: seq<Edge>, maxLength: int := 6)
    returns (out: seq<Candidate>, stepsLeft: int, candidatesLeft: int, ghost entries: nat)
    // soundness
    ensures AllSound(edges, maxLength, out)
    // no two candidates with one key, hence none over the same vertices
    ensures KeysDiffer(out) && VerticesDiffer(out)
    // which of the cycles with one key is reported, and in what order
    ensures FirstOfTheirKeys(edges, maxLength, out)
    ensures StartsEarliest(edges, out) && InSearchOrder(edges, out)
    // the budgets
    ensures 0 <= stepsLeft && entries + stepsLeft == MAX_CYCLE_DFS_STEPS
    ensures 0 <= candidatesLeft && |out| + candidatesLeft == MAX_CYCLE_CANDIDATES
    ensures entries <= TotalCost(edges, maxLength) && (OneWayOut(edges) ==> |out| <= |edges|)
    // while the results last, the steps left are what the search does not cost
    ensures candidatesLeft > 0 ==>
      stepsLeft == if TotalCost(edges, maxLength) < 500_000 then 500_000 - TotalCost(edges, maxLength) else 0
    // while both last, the result is complete exactly if the keys tell the cycles apart
    ensures stepsLeft > 0 && candidatesLeft > 0 ==>
      (AllCyclesReported(edges, maxLength, out) <==> KeysTellApart(edges, maxLength))
    // while the steps last, the results last exactly if there are few enough cycles
    ensures stepsLeft > 0 ==>
      (candidatesLeft > 0 <==> FewerKeysThan(edges, maxLength, MAX_CYCLE_CANDIDATES))
    ensures FewerVertexSetsThan(edges, maxLength, MAX_CYCLE_CANDIDATES) ==> candidatesLeft > 0
    // exactly which candidates are marked
    ensures forall i :: 0 <= i < |out| - 1 ==> out[i].cap == NotCapped
    ensures out != [] ==> out[|out| - 1].cap == CapOf(edges, out[|out| - 1], stepsLeft, candidatesLeft)
    ensures OneWayOut(edges) && out != [] ==> out[|out| - 1].cap != CandidatesExhausted
  {
    var found, capped;
    ghost var seen;
    found, stepsLeft, candidatesLeft, capped, seen, entries := SearchFromEveryKey(edges, maxLength);
    out := found;
    if capped && |out| > 0 { out := MarkLast(out, stepsLeft); }
    SearchSaysWhich(edges, maxLength, found, stepsLeft, candidatesLeft, capped, seen, entries, out);
    SearchSaysHowMany(edges, maxLength, found, stepsLeft, candidatesLeft, capped, seen, entries, out);
    SearchSaysMarks(edges, maxLength, found, stepsLeft, candidatesLeft, capped, seen, entries, out);
  }

  /** What a search over all keys leaves behind. */
  ghost predicate Searched(edges: seq<Edge>, maxLength: int, found: seq<Candidate>, stepsLeft: int, candidatesLeft: int,
                           capped: bool, seen: set<string>, entries: nat)
  {
    && Registered(edges, maxLength, found, seen)
    && 0 <= stepsLeft && entries + stepsLeft == MAX_CYCLE_DFS_STEPS
    && 0 <= candidatesLeft && |found| + candidatesLeft == MAX_CYCLE_CANDIDATES
    && (capped ==> stepsLeft == 0 || candidatesLeft == 0) && (stepsLeft == 0 ==> capped)
    && (stepsLeft > 0 && candidatesLeft > 0 ==>
          CoverKeys(edges, maxLength, seen) && entries == TotalCost(edges, maxLength))
    && (stepsLeft > 0 && candidatesLeft == 0 ==> RanOut(edges, [], found, capped, {}, 0))
    && entries <= TotalCost(edges, maxLength)
    && (OneWayOut(edges) ==> |found| <= |edges|)
  }

  ghost function Marked(found: seq<Candidate>, capped: bool, stepsLeft: int): seq<Candidate> {
    if capped && |found| > 0 then MarkLast(found, stepsLeft) else found
  }

  lemma SearchSaysWhich(edges: seq<Edge>, maxLength: int, found: seq<Candidate>, stepsLeft: int, candidatesLeft: int,
                        capped: bool, seen: set<string>, entries: nat, out: seq<Candidate>)
    requires Searched(edges, maxLength, found, stepsLeft, candidatesLeft, capped, seen, entries)
    requires out == Marked(found, capped, stepsLeft)
    ensures AllSound(edges, maxLength, out) && KeysDiffer(out) && VerticesDiffer(out)
    ensures FirstOfTheirKeys(edges, maxLength, out) && StartsEarliest(edges, out) && InSearchOrder(edges, out)
    ensures SameCycles(out, found)
  {
    UnmarkedSoFar(edges, maxLength, found, seen);
    if capped && |found| > 0 { MarkLastKeeps(edges, maxLength, found, seen, stepsLeft); }
    DistinctKeysDistinctVertices(edges, maxLength, out);
    OrderOfCandidates(edges, maxLength, out);
  }

  lemma SearchSaysHowMany(edges: seq<Edge>, maxLength: int, found: seq<Candidate>, stepsLeft: int, candidatesLeft: int,
                          capped: bool, seen: set<string>, entries: nat, out: seq<Candidate>)
    requires Searched(edges, maxLength, found, stepsLeft, candidatesLeft, capped, seen, entries)
    requires out == Marked(found, capped, stepsLeft)
    ensures stepsLeft > 0 && candidatesLeft > 0 ==>
      (AllCyclesReported(edges, maxLength, out) <==> KeysTellApart(edges, maxLength))
    ensures stepsLeft > 0 ==>
      (candidatesLeft > 0 <==> FewerKeysThan(edges, maxLength, MAX_CYCLE_CANDIDATES))
    ensures FewerVertexSetsThan(edges, maxLength, MAX_CYCLE_CANDIDATES) ==> candidatesLeft > 0
  {
    SearchSaysWhich(edges, maxLength, found, stepsLeft, candidatesLeft, capped, seen, entries, out);
    if stepsLeft > 0 && candidatesLeft > 0 {
      WorthWithinBudget(edges, maxLength, found, seen, out, MAX_CYCLE_CANDIDATES);
    } else if FewerKeysThan(edges, maxLength, MAX_CYCLE_CANDIDATES) {
      ResultsFitKeys(edges, maxLength, out, MAX_CYCLE_CANDIDATES);
    }
    if FewerVertexSetsThan(edges, maxLength, MAX_CYCLE_CANDIDATES) {
      ResultsFitVertexSets(edges, maxLength, out, MAX_CYCLE_CANDIDATES);
    }
  }

  lemma SearchSaysMarks(edges: seq<Edge>, maxLength: int, found: seq<Candidate>, stepsLeft: int, candidatesLeft: int,
                        capped: bool, seen: set<string>, entries: nat, out: seq<Candidate>)
    requires Searched(edges, maxLength, found, stepsLeft, candidatesLeft, capped, seen, entries)
    requires out == Marked(found, capped, stepsLeft)
    ensures forall i :: 0 <= i < |out| - 1 ==> out[i].cap == NotCapped
    ensures out != [] ==> out[|out| - 1].cap == CapOf(edges, out[|out| - 1], stepsLeft, candidatesLeft)
    ensures OneWayOut(edges) && out != [] ==> out[|out| - 1].cap != CandidatesExhausted
  {
    UnmarkedSoFar(edges, maxLength, found, seen);
    if |found| > 0 { MarkedRight(edges, found, capped, stepsLeft, candidatesLeft); }
    if OneWayOut(edges) && out != [] { OneWayLeavesNothing(edges, out[|out| - 1].entityIds); }
  }

  /** Replace the last candidate by a copy that carries the cap evidence. */
  function MarkLast(out: seq<Candidate>, stepsLeft: int): seq<Candidate>
    requires out != []
  {
    var last := out[|out| - 1];
    out[|out| - 1 := last.(cap := if stepsLeft <= 0 then StepsExhausted else CandidatesExhausted)]
  }

  lemma MarkIsNoMatter(edges: seq<Edge>, maxLength: int, c: Candidate, cap: CapReason)
    requires Sound(edges, maxLength, c)
    ensures Sound(edges, maxLength, c.(cap := cap))
  {
  }

  /** Marking keeps what the candidates say. */
  lemma MarkLastKeeps(edges: seq<Edge>, maxLength: int, found: seq<Candidate>, seen: set<string>, stepsLeft: int)
    requires Registered(edges, maxLength, found, seen) && found != []
    ensures var out := MarkLast(found, stepsLeft);
      && AllSound(edges, maxLength, out) && KeysDiffer(out) && FirstOfTheirKeys(edges, maxLength, out)
      && SameCycles(out, found)
  {
    MarkLastKeepsSound(edges, maxLength, found, stepsLeft);
    MarkLastKeepsKeys(found, stepsLeft);
    MarkLastKeepsFirsts(edges, maxLength, found, stepsLeft);
  }

  ghost predicate SameCycles(a: seq<Candidate>, b: seq<Candidate>) {
    |a| == |b| && forall i :: 0 <= i < |a| ==> a[i].entityIds == b[i].entityIds
  }

  lemma MarkLastKeepsSound(edges: seq<Edge>, maxLength: int, found: seq<Candidate>, stepsLeft: int)
    requires AllSound(edges, maxLength, found) && found != []
    ensures AllSound(edges, maxLength, MarkLast(found, stepsLeft))
  {
    var out := MarkLast(found, stepsLeft);
    forall i | 0 <= i < |out| ensures Sound(edges, maxLength, out[i]) {
      assert Sound(edges, maxLength, found[i]);
      MarkIsNoMatter(edges, maxLength, found[i], out[i].cap);
    }
  }

  lemma MarkLastKeepsKeys(found: seq<Candidate>, stepsLeft: int)
    requires KeysDiffer(found) && found != []
    ensures KeysDiffer(MarkLast(found, stepsLeft)) && SameCycles(MarkLast(found, stepsLeft), found)
  {
    var out := MarkLast(found, stepsLeft);
    assert forall i :: 0 <= i < |out| ==> out[i].entityIds == found[i].entityIds;
    forall i: nat, j: nat | i < j < |out| ensures DifferAt(out, i, j) {
      assert DifferAt(found, i, j);
    }
  }

  lemma MarkLastKeepsFirsts(edges: seq<Edge>, maxLength: int, found: seq<Candidate>, stepsLeft: int)
    requires FirstOfTheirKeys(edges, maxLength, found) && found != []
    ensures FirstOfTheirKeys(edges, maxLength, MarkLast(found, stepsLeft))
  {
    var out := MarkLast(found, stepsLeft);
    forall i: nat | i < |out| ensures FirstUnknown(edges, maxLength, out, i) {
      StaysFirstUnknown(edges, maxLength, found, stepsLeft, i);
    }
  }

  lemma StaysFirstUnknown(edges: seq<Edge>, maxLength: int, found: seq<Candidate>, stepsLeft: int, i: nat)
    requires FirstOfTheirKeys(edges, maxLength, found) && i < |found|
    ensures FirstUnknown(edges, maxLength, MarkLast(found, stepsLeft), i)
  {
    assert FirstUnknown(edges, maxLength, found, i);
    SameFirstUnknown(edges, maxLength, found, MarkLast(found, stepsLeft), i);
  }

  lemma SameFirstUnknown(edges: seq<Edge>, maxLength: int, a: seq<Candidate>, b: seq<Candidate>, i: nat)
    requires i < |a| && i < |b| && a[..i] == b[..i] && a[i].entityIds == b[i].entityIds
    requires FirstUnknown(edges, maxLength, a, i)
    ensures FirstUnknown(edges, maxLength, b, i)
  {
    forall d {:trigger Admissible(edges, maxLength, d)} |
      Admissible(edges, maxLength, d) && Before(edges, Closed(d), Closed(b[i].entityIds))
      ensures HasKey(b[..i], Key(d))
    {
      assert HasKey(a[..i], Key(d));
    }
  }

  /** Nothing is marked while the search runs. */
  lemma UnmarkedSoFar(edges: seq<Edge>, maxLength: int, found: seq<Candidate>, seen: set<string>)
    requires Registered(edges, maxLength, found, seen)
    ensures AllSound(edges, maxLength, found)
    ensures forall i :: 0 <= i < |found| ==> found[i].cap == NotCapped
  {
    forall i | 0 <= i < |found| ensures Sound(edges, maxLength, found[i]) && found[i].cap == NotCapped {
    }
  }

  /** The mark is the right one, and the last candidate is the only one to carry it. */
  lemma MarkedRight(edges: seq<Edge>, found: seq<Candidate>, capped: bool, stepsLeft: int, candidatesLeft: int)
    requires found != [] && forall i :: 0 <= i < |found| ==> found[i].cap == NotCapped
    requires 0 <= stepsLeft && 0 <= candidatesLeft
    requires (stepsLeft == 0 ==> capped) && (capped ==> stepsLeft == 0 || candidatesLeft == 0)
    requires stepsLeft > 0 && candidatesLeft == 0 ==> RanOut(edges, [], found, capped, {}, 0)
    ensures var out := if capped then MarkLast(found, stepsLeft) else found;
      && (forall i :: 0 <= i < |out| - 1 ==> out[i].cap == NotCapped)
      && out[|out| - 1].cap == CapOf(edges, out[|out| - 1], stepsLeft, candidatesLeft)
  {
  }

  /** The outer loop: one search per vertex that has an outgoing edge. */
  method SearchFromEveryKey(edges: seq<Edge>, maxLength: int)
    returns (found: seq<Candidate>, stepsLeft: int, candidatesLeft: int, capped: bool, ghost seen: set<string>,
             ghost entries: nat)
    ensures Searched(edges, maxLength, found, stepsLeft, candidatesLeft, capped, seen, entries)
  {
    var adj := BuildAdjacency(edges);
    AtMostOneSourceAnEdge(edges);
    var search := new CycleSearch(edges, adj, maxLength);
    var n := 0;
    while n < |adj.keys|
      invariant n <= |adj.keys| && fresh(search) && search.Valid() && search.KeysSearched(n)
      invariant search.edges == edges && search.adj == adj && search.maxLength == maxLength
    {
      if search.stepsRemaining <= 0 || search.candidatesRemaining <= 0 { break; }
      search.SearchFrom(n);
      n := n + 1;
    }
    search.SearchEnds(n);
    return search.out, search.stepsRemaining, search.candidatesRemaining, search.capped, search.seen, search.entries;
  }

  lemma RanOutAtRoot(edges: seq<Edge>, path: seq<string>, out: seq<Candidate>, capped: bool, before: set<string>)
    requires RanOut(edges, path, out, capped, before, 0)
    ensures RanOut(edges, [], out, capped, {}, 0)
  {
  }

  ghost predicate ExploredKeys(edges: seq<Edge>, maxLength: int, keys: seq<string>, seen: set<string>) {
    forall k :: 0 <= k < |keys| ==> Explored(edges, maxLength, [keys[k]], seen)
  }

  lemma ExploredKeysStep(edges: seq<Edge>, maxLength: int, keys: seq<string>, n: nat,
                         before: set<string>, after: set<string>)
    requires n < |keys| && before <= after
    requires ExploredKeys(edges, maxLength, keys[..n], before)
    requires Explored(edges, maxLength, [keys[n]], after)
    ensures ExploredKeys(edges, maxLength, keys[..n + 1], after)
  {
  }

  lemma StartsAtAKey(edges: seq<Edge>, adj: Adjacency, maxLength: int, cyc: seq<string>) returns (k: nat)
    requires Represents(adj, edges) && Admissible(edges, maxLength, cyc)
    ensures k < |adj.keys| && Extends(edges, maxLength, [adj.keys[k]], cyc)
  {
    assert HasEdge(edges, cyc[0], cyc[1]);
    var i :| 0 <= i < |edges| && edges[i].fromId == cyc[0] && edges[i].toId == cyc[1];
    var n := EdgeIsArc(edges, i);
    assert RepresentsAt(adj, edges, cyc[0]);
    k :| 0 <= k < |adj.keys| && adj.keys[k] == cyc[0];
  }

  /** Every cycle starts somewhere, so searching from every key covers them all. */
  lemma ExploredEverything(edges: seq<Edge>, adj: Adjacency, maxLength: int, seen: set<string>)
    requires Represents(adj, edges) && ExploredKeys(edges, maxLength, adj.keys, seen)
    ensures CoverKeys(edges, maxLength, seen)
  {
    forall cyc | Admissible(edges, maxLength, cyc) ensures Key(cyc) in seen {
      var k := StartsAtAKey(edges, adj, maxLength, cyc);
      assert Explored(edges, maxLength, [adj.keys[k]], seen);
    }
  }

  // -------------------------------------------------- what the result is worth

  lemma OrderOfCandidates(edges: seq<Edge>, maxLength: int, out: seq<Candidate>)
    requires AllSound(edges, maxLength, out) && KeysDiffer(out) && FirstOfTheirKeys(edges, maxLength, out)
    ensures StartsEarliest(edges, out) && InSearchOrder(edges, out)
  {
    forall c, v | c in out && v in c.entityIds ensures FirstFrom(edges, c.entityIds[0]) <= FirstFrom(edges, v) {
      var i: nat :| i < |out| && out[i] == c;
      CandidateStartsEarliest(edges, maxLength, out, i, v);
    }
    forall i, j | 0 <= i < j < |out| ensures Before(edges, Closed(out[i].entityIds), Closed(out[j].entityIds)) {
      CandidatesInOrder(edges, maxLength, out, i, j);
    }
  }

  /** Otherwise the cycle would have been found from that vertex on. */
  lemma CandidateStartsEarliest(edges: seq<Edge>, maxLength: int, out: seq<Candidate>, i: nat, v: string)
    requires AllSound(edges, maxLength, out) && KeysDiffer(out) && FirstOfTheirKeys(edges, maxLength, out)
    requires i < |out| && v in out[i].entityIds
    ensures FirstFrom(edges, out[i].entityIds[0]) <= FirstFrom(edges, v)
  {
    var c := out[i].entityIds;
    assert Sound(edges, maxLength, out[i]) && FirstUnknown(edges, maxLength, out, i);
    var k: nat :| k < |c| && c[k] == v;
    var d := Rotated(edges, maxLength, c, k);
    SameVerticesSameKey(c, d);
    if FirstFrom(edges, v) < FirstFrom(edges, c[0]) {
      assert PartsAt(edges, Closed(d), Closed(c), 0);
      KnownBefore(out, i, Key(c));
    }
  }

  lemma CandidatesInOrder(edges: seq<Edge>, maxLength: int, out: seq<Candidate>, i: nat, j: nat)
    requires AllSound(edges, maxLength, out) && KeysDiffer(out) && FirstOfTheirKeys(edges, maxLength, out)
    requires i < j < |out|
    ensures Before(edges, Closed(out[i].entityIds), Closed(out[j].entityIds))
  {
    var c, d := out[i].entityIds, out[j].entityIds;
    assert Sound(edges, maxLength, out[i]) && Sound(edges, maxLength, out[j]);
    assert DifferAt(out, i, j) && FirstUnknown(edges, maxLength, out, i);
    OneIsBefore(edges, maxLength, c, d);
    if Before(edges, Closed(d), Closed(c)) {
      assert Admissible(edges, maxLength, d);
      EarlierKeyDiffers(out, i, j);
    }
  }

  /** A candidate's key is not among the keys before it. */
  lemma KnownBefore(out: seq<Candidate>, i: nat, k: string)
    requires KeysDiffer(out) && i < |out| && k == Key(out[i].entityIds)
    ensures !HasKey(out[..i], k)
  {
    forall m: nat | m < i ensures Key(out[..i][m].entityIds) != k { assert DifferAt(out, m, i); }
  }

  lemma EarlierKeyDiffers(out: seq<Candidate>, i: nat, j: nat)
    requires KeysDiffer(out) && i < j < |out|
    ensures !HasKey(out[..i], Key(out[j].entityIds))
  {
    forall m: nat | m < i ensures Key(out[..i][m].entityIds) != Key(out[j].entityIds) { assert DifferAt(out, m, j); }
  }

  /** The snapshot leaves no choice: results of the same length report the same cycles, in
      the same order, with the same flags. */
  lemma {:induction false} ResultIsDetermined(edges: seq<Edge>, maxLength: int, a: seq<Candidate>, b: seq<Candidate>)
    requires AllSound(edges, maxLength, a) && KeysDiffer(a) && FirstOfTheirKeys(edges, maxLength, a)
    requires AllSound(edges, maxLength, b) && KeysDiffer(b) && FirstOfTheirKeys(edges, maxLength, b)
    requires |a| == |b|
    ensures forall i :: 0 <= i < |a| ==> a[i].(cap := NotCapped) == b[i].(cap := NotCapped)
  {
    var n := 0;
    while n < |a|
      invariant n <= |a|
      invariant forall i :: 0 <= i < n ==> a[i].(cap := NotCapped) == b[i].(cap := NotCapped)
    {
      NextIsDetermined(edges, maxLength, a, b, n);
      n := n + 1;
    }
  }

  lemma NextIsDetermined(edges: seq<Edge>, maxLength: int, a: seq<Candidate>, b: seq<Candidate>, n: nat)
    requires AllSound(edges, maxLength, a) && KeysDiffer(a) && FirstOfTheirKeys(edges, maxLength, a)
    requires AllSound(edges, maxLength, b) && KeysDiffer(b) && FirstOfTheirKeys(edges, maxLength, b)
    requires n < |a| == |b| && forall i :: 0 <= i < n ==> a[i].(cap := NotCapped) == b[i].(cap := NotCapped)
    ensures a[n].(cap := NotCapped) == b[n].(cap := NotCapped)
  {
    var c, d := a[n].entityIds, b[n].entityIds;
    assert Sound(edges, maxLength, a[n]) && Sound(edges, maxLength, b[n]);
    assert FirstUnknown(edges, maxLength, a, n) && FirstUnknown(edges, maxLength, b, n);
    assert forall i :: 0 <= i < n ==> a[..n][i].entityIds == b[..n][i].entityIds;
    SameEarlierKeys(a[..n], b[..n], Key(c));
    SameEarlierKeys(a[..n], b[..n], Key(d));
    KnownBefore(a, n, Key(c));
    KnownBefore(b, n, Key(d));
    assert Admissible(edges, maxLength, c) && Admissible(edges, maxLength, d);
    if c != d { OneIsBefore(edges, maxLength, c, d); }
  }

  lemma SameEarlierKeys(a: seq<Candidate>, b: seq<Candidate>, k: string)
    requires |a| == |b| && forall i :: 0 <= i < |a| ==> a[i].entityIds == b[i].entityIds
    ensures HasKey(a, k) <==> HasKey(b, k)
  {
    if i :| 0 <= i < |a| && Key(a[i].entityIds) == k { assert Key(b[i].entityIds) == k; }
    if i :| 0 <= i < |b| && Key(b[i].entityIds) == k { assert Key(a[i].entityIds) == k; }
  }

  lemma DistinctKeysDistinctVertices(edges: seq<Edge>, maxLength: int, out: seq<Candidate>)
    requires AllSound(edges, maxLength, out) && KeysDiffer(out)
    ensures VerticesDiffer(out)
  {
    forall i, j | 0 <= i < j < |out| ensures VerticesDifferAt(out, i, j) {
      assert Sound(edges, maxLength, out[i]) && Sound(edges, maxLength, out[j]) && DifferAt(out, i, j);
      if Elements(out[i].entityIds) == Elements(out[j].entityIds) {
        SameVerticesSameKey(out[i].entityIds, out[j].entityIds);
      }
    }
  }

  /** With every key registered, a cycle goes missing exactly where two share a key. */
  lemma CompleteIff(edges: seq<Edge>, maxLength: int, out: seq<Candidate>, seen: set<string>)
    requires AllSound(edges, maxLength, out) && KeysDiffer(out) && CoverKeys(edges, maxLength, seen)
    requires forall k :: k in seen ==> HasKey(out, k)
    ensures AllCyclesReported(edges, maxLength, out) <==> KeysTellApart(edges, maxLength)
  {
    if KeysTellApart(edges, maxLength) {
      forall cyc | Admissible(edges, maxLength, cyc) ensures Reported(out, cyc) {
        assert HasKey(out, Key(cyc));
        var i :| 0 <= i < |out| && Key(out[i].entityIds) == Key(cyc);
        assert Sound(edges, maxLength, out[i]);
        assert Admissible(edges, maxLength, out[i].entityIds);
      }
    }
    if AllCyclesReported(edges, maxLength, out) {
      forall c, d | Admissible(edges, maxLength, c) && Admissible(edges, maxLength, d) && Key(c) == Key(d)
        ensures Elements(c) == Elements(d)
      {
        BothReportedApart(edges, maxLength, out, c, d);
      }
    }
  }

  lemma BothReportedApart(edges: seq<Edge>, maxLength: int, out: seq<Candidate>, c: seq<string>, d: seq<string>)
    requires AllSound(edges, maxLength, out) && KeysDiffer(out) && Distinct(c) && Distinct(d)
    requires Reported(out, c) && Reported(out, d) && Key(c) == Key(d)
    ensures Elements(c) == Elements(d)
  {
    var i: nat :| i < |out| && Elements(out[i].entityIds) == Elements(c);
    var j: nat :| j < |out| && Elements(out[j].entityIds) == Elements(d);
    assert Sound(edges, maxLength, out[i]) && Sound(edges, maxLength, out[j]);
    SameVerticesSameKey(out[i].entityIds, c);
    SameVerticesSameKey(out[j].entityIds, d);
    assert i < j ==> DifferAt(out, i, j);
    assert j < i ==> DifferAt(out, j, i);
  }

  /** Different members of a set are no more than the set. */
  lemma {:induction false} DistinctFit<T(!new)>(s: seq<T>, all: set<T>)
    requires Distinct(s) && forall i :: 0 <= i < |s| ==> s[i] in all
    ensures |s| <= |all|
  {
    if s != [] {
      DistinctFit(s[1..], all - {s[0]});
    }
  }

  /** The candidates are no more than any cover of the cycles has members. */
  lemma ResultsFitKeys(edges: seq<Edge>, maxLength: int, out: seq<Candidate>, n: nat)
    requires AllSound(edges, maxLength, out) && KeysDiffer(out) && FewerKeysThan(edges, maxLength, n)
    ensures |out| < n
  {
    var keys: set<string> :| |keys| < n && CoverKeys(edges, maxLength, keys);
    var s := seq(|out|, i requires 0 <= i < |out| => Key(out[i].entityIds));
    forall i | 0 <= i < |s| ensures s[i] in keys {
      assert Sound(edges, maxLength, out[i]) && Admissible(edges, maxLength, out[i].entityIds);
    }
    forall i, j | 0 <= i < j < |s| ensures s[i] != s[j] { assert DifferAt(out, i, j); }
    DistinctFit(s, keys);
  }

  lemma ResultsFitVertexSets(edges: seq<Edge>, maxLength: int, out: seq<Candidate>, n: nat)
    requires AllSound(edges, maxLength, out) && VerticesDiffer(out) && FewerVertexSetsThan(edges, maxLength, n)
    ensures |out| < n
  {
    var sets: set<set<string>> :| |sets| < n && CoverVertexSets(edges, maxLength, sets);
    var s := seq(|out|, i requires 0 <= i < |out| => Elements(out[i].entityIds));
    forall i | 0 <= i < |s| ensures s[i] in sets {
      assert Sound(edges, maxLength, out[i]) && Admissible(edges, maxLength, out[i].entityIds);
    }
    forall i, j | 0 <= i < j < |s| ensures s[i] != s[j] { assert VerticesDifferAt(out, i, j); }
    DistinctFit(s, sets);
  }

  lemma {:induction false} FewKeys(out: seq<Candidate>, seen: set<string>)
    requires forall k :: k in seen ==> HasKey(out, k)
    ensures |seen| <= |out|
  {
    if out == [] {
      assert forall k :: k in seen ==> HasKey(out, k);
      assert seen == {};
    } else {
      var init, last := out[..|out| - 1], Key(out[|out| - 1].entityIds);
      forall k | k in seen - {last} ensures HasKey(init, k) {
        assert HasKey(out, k);
        var i :| 0 <= i < |out| && Key(out[i].entityIds) == k;
        assert init[i] == out[i];
      }
      FewKeys(init, seen - {last});
    }
  }

  /** Fewer results than the budget: fewer keys than the budget, too. */
  lemma RegisteredKeysAreFew(edges: seq<Edge>, maxLength: int, out: seq<Candidate>, seen: set<string>, n: nat)
    requires CoverKeys(edges, maxLength, seen) && (forall k :: k in seen ==> HasKey(out, k)) && |out| < n
    ensures FewerKeysThan(edges, maxLength, n)
  {
    FewKeys(out, seen);
  }

  /** Within both budgets: complete up to shared keys, and few keys to share. */
  lemma WorthWithinBudget(edges: seq<Edge>, maxLength: int, found: seq<Candidate>, seen: set<string>,
                          out: seq<Candidate>, n: nat)
    requires Registered(edges, maxLength, found, seen) && CoverKeys(edges, maxLength, seen)
    requires AllSound(edges, maxLength, out) && KeysDiffer(out) && |out| == |found| < n
    requires forall i :: 0 <= i < |out| ==> out[i].entityIds == found[i].entityIds
    ensures AllCyclesReported(edges, maxLength, out) <==> KeysTellApart(edges, maxLength)
    ensures FewerKeysThan(edges, maxLength, n)
  {
    forall k | k in seen ensures HasKey(out, k) {
      assert HasKey(found, k);
      var i :| 0 <= i < |found| && Key(found[i].entityIds) == k;
      assert out[i].entityIds == found[i].entityIds;
    }
    CompleteIff(edges, maxLength, out, seen);
    RegisteredKeysAreFew(edges, maxLength, out, seen, n);
  }

  lemma CycleIdsFree(edges: seq<Edge>, cyc: seq<string>)
    requires SimpleCycle(edges, cyc) && IdsFreeOfBar(edges)
    ensures AllFree(cyc, '|')
  {
    forall i | 0 <= i < |cyc| ensures Free(cyc[i], '|') {
      var next := if i + 1 < |cyc| then cyc[i + 1] else cyc[0];
      assert HasEdge(edges, cyc[i], next);
    }
  }

  /** Identifiers without '|' are enough for a complete result. */
  lemma BarFreeKeysTellApart(edges: seq<Edge>, maxLength: int)
    requires IdsFreeOfBar(edges)
    ensures KeysTellApart(edges, maxLength)
  {
    forall c, d | Admissible(edges, maxLength, c) && Admissible(edges, maxLength, d) && Key(c) == Key(d)
      ensures Elements(c) == Elements(d)
    {
      CycleIdsFree(edges, c);
      CycleIdsFree(edges, d);
      SameKeySameVertices(c, d);
    }
  }

  /** Where no vertex branches, a full result is never marked. */
  lemma OneWayLeavesNothing(edges: seq<Edge>, cyc: seq<string>)
    requires OneWayOut(edges)
    ensures !LeavesArcs(edges, cyc, 0)
  {
  }
}
