/**
 The order in which `detectCycles`
 (apps/worker-pattern-discovery/src/graph-anomalies.ts) comes across the cycles of a
 snapshot, told from the positions of the edges alone: start vertices by their first
 edge, and behind a common beginning by the first edge to the next vertex.
 */
module SearchOrder {
  import opened JsStrings
  import opened PaymentGraph

  /** `cyc` is a cycle the detector looks for. */
  ghost predicate Admissible(edges: seq<Edge>, maxLength: int, cyc: seq<string>) {
    SimpleCycle(edges, cyc) && 3 <= |cyc| <= maxLength
  }

  /** The position of the first edge out of `u`, or the number of edges. */
  function FirstFrom(edges: seq<Edge>, u: string): (r: nat)
    ensures r <= |edges| && (r < |edges| ==> edges[r].fromId == u)
    ensures forall i :: 0 <= i < r ==> edges[i].fromId != u
  {
    if edges == [] || edges[0].fromId == u then 0 else 1 + FirstFrom(edges[1..], u)
  }

  /** The position of the first edge from `u` to `v`, or the number of edges. */
  function FirstEdge(edges: seq<Edge>, u: string, v: string): (r: nat)
    ensures r <= |edges| && (r < |edges| ==> edges[r].fromId == u && edges[r].toId == v)
    ensures forall i :: 0 <= i < r ==> !(edges[i].fromId == u && edges[i].toId == v)
  {
    if edges == [] || (edges[0].fromId == u && edges[0].toId == v) then 0 else 1 + FirstEdge(edges[1..], u, v)
  }

  /** The first edge from `u` to `v` carries this flag. */
  ghost predicate FirstEdgeFlag(edges: seq<Edge>, u: string, v: string, state: bool) {
    var i := FirstEdge(edges, u, v);
    i < |edges| && edges[i].isStateOrigin == state
  }

  lemma EdgeHasFirst(edges: seq<Edge>, u: string, v: string)
    requires HasEdge(edges, u, v)
    ensures FirstEdge(edges, u, v) < |edges| && FirstFrom(edges, u) < |edges|
  {
  }

  /** The walk around a cycle, back to where it starts. */
  function Closed(cyc: seq<string>): seq<string> {
    if cyc == [] then [] else cyc + [cyc[0]]
  }

  /** Two walks part at position k, and the first of them takes the earlier edge. */
  ghost predicate PartsAt(edges: seq<Edge>, a: seq<string>, b: seq<string>, k: nat) {
    && k < |a| && k < |b| && a[..k] == b[..k]
    && if k == 0 then FirstFrom(edges, a[0]) < FirstFrom(edges, b[0])
       else FirstEdge(edges, a[k - 1], a[k]) < FirstEdge(edges, b[k - 1], b[k])
  }

  /** The search gets to `a` before it gets to `b`. */
  ghost predicate Before(edges: seq<Edge>, a: seq<string>, b: seq<string>) {
    exists k: nat {:trigger PartsAt(edges, a, b, k)} :: PartsAt(edges, a, b, k)
  }

  /** Of two different cycles one comes before the other. */
  lemma OneIsBefore(edges: seq<Edge>, maxLength: int, c: seq<string>, d: seq<string>)
    requires Admissible(edges, maxLength, c) && Admissible(edges, maxLength, d) && c != d
    ensures Before(edges, Closed(c), Closed(d)) || Before(edges, Closed(d), Closed(c))
  {
    var a, b := Closed(c), Closed(d);
    var k := FirstDifference(c, d);
    if k == 0 {
      assert HasEdge(edges, c[0], c[1]) && HasEdge(edges, d[0], d[1]);
      EdgeHasFirst(edges, c[0], c[1]);
      EdgeHasFirst(edges, d[0], d[1]);
    } else {
      ClosedWalkEdge(edges, c, k);
      ClosedWalkEdge(edges, d, k);
      assert a[k - 1] == a[..k][k - 1] == b[..k][k - 1] == b[k - 1];
      EdgeHasFirst(edges, a[k - 1], a[k]);
      EdgeHasFirst(edges, b[k - 1], b[k]);
    }
    assert PartsAt(edges, a, b, k) || PartsAt(edges, b, a, k);
  }

  lemma ClosedWalkEdge(edges: seq<Edge>, c: seq<string>, k: nat)
    requires SimpleCycle(edges, c) && 0 < k < |Closed(c)|
    ensures HasEdge(edges, Closed(c)[k - 1], Closed(c)[k])
  {
  }

  lemma PrefixIsWhole(c: seq<string>, d: seq<string>)
    requires c != [] && d != [] && Distinct(d) && Closed(c) <= Closed(d)
    ensures c == d
  {
    var a, b := Closed(c), Closed(d);
    assert b[|c|] == a[|c|] == c[0] && b[0] == a[0] == c[0];
    assert c == a[..|c|] == b[..|c|];
  }

  /** Where the walks around two different cycles part: before either of them ends. */
  lemma FirstDifference(c: seq<string>, d: seq<string>) returns (k: nat)
    requires c != [] && d != [] && Distinct(c) && Distinct(d) && c != d
    ensures k < |Closed(c)| && k < |Closed(d)|
    ensures Closed(c)[..k] == Closed(d)[..k] && Closed(c)[k] != Closed(d)[k]
  {
    var a, b := Closed(c), Closed(d);
    if a <= b { PrefixIsWhole(c, d); }
    if b <= a { PrefixIsWhole(d, c); }
    k := 0;
    while k < |a| && k < |b| && a[k] == b[k]
      invariant k <= |a| && k <= |b| && a[..k] == b[..k]
    {
      assert a[..k + 1] == a[..k] + [a[k]] && b[..k + 1] == b[..k] + [b[k]];
      k := k + 1;
    }
    assert a == a[..|a|] && b == b[..|b|];
  }

  /** A cycle may be told from any of its vertices on. */
  lemma Rotated(edges: seq<Edge>, maxLength: int, c: seq<string>, k: nat) returns (d: seq<string>)
    requires Admissible(edges, maxLength, c) && k < |c|
    ensures Admissible(edges, maxLength, d) && d[0] == c[k] && Elements(d) == Elements(c)
  {
    d := c[k..] + c[..k];
    assert forall i :: 0 <= i < |d| ==> d[i] == c[if i < |c| - k then i + k else i + k - |c|];
    forall i | 0 <= i < |d| - 1 ensures HasEdge(edges, d[i], d[i + 1]) {
      var j := if i < |c| - k then i + k else i + k - |c|;
      assert d[i] == c[j];
      if j == |c| - 1 { assert d[i + 1] == c[0]; } else { assert d[i + 1] == c[j + 1]; }
    }
    assert k > 0 ==> d[|d| - 1] == c[k - 1] && HasEdge(edges, c[k - 1], c[k - 1 + 1]);
    forall x ensures x in Elements(d) <==> x in Elements(c) {
      if x in c { assert x in c[k..] || x in c[..k] by { assert c == c[..k] + c[k..]; } }
    }
  }
}
