/**
 Two kinds of snapshot on which `detectCycles`
 (apps/worker-pattern-discovery/src/graph-anomalies.ts) loses a cycle without saying
 so: more cycles than the result budget where nothing branches, and identifiers that
 contain '|'.
 */
module CycleLimits {
  import opened JsStrings
  import opened PaymentGraph
  import opened CycleFinder
  import opened SearchCost
  import opened SearchOrder

  function Link(u: string, v: string): Edge { Edge(u, v, 0, false) }

  function TriangleOf(a: string, b: string, c: string): seq<Edge> {
    [Link(a, b), Link(b, c), Link(c, a)]
  }

  /** A triangle adds one outgoing edge to each of its corners. */
  lemma OutgoingOfTriangle(edges: seq<Edge>, a: string, b: string, c: string, u: string)
    requires a != b && b != c && a != c
    ensures |Outgoing(edges + TriangleOf(a, b, c), u)| == |Outgoing(edges, u)| + if u in [a, b, c] then 1 else 0
  {
    var one := edges + [Link(a, b)];
    var two := one + [Link(b, c)];
    OutgoingOfOneMore(edges, Link(a, b), u);
    OutgoingOfOneMore(one, Link(b, c), u);
    OutgoingOfOneMore(two, Link(c, a), u);
    assert edges + TriangleOf(a, b, c) == two + [Link(c, a)];
  }

  lemma TriangleIsCycle(before: seq<Edge>, a: string, b: string, c: string, after: seq<Edge>)
    requires a != b && b != c && a != c
    ensures Admissible(before + TriangleOf(a, b, c) + after, 6, [a, b, c])
  {
    var edges, n := before + TriangleOf(a, b, c) + after, |before|;
    assert edges[n] == Link(a, b) && edges[n + 1] == Link(b, c) && edges[n + 2] == Link(c, a);
    assert HasEdge(edges, a, b) && HasEdge(edges, b, c) && HasEdge(edges, c, a);
  }

  // ------------------------------------------------ more cycles than results

  /** Identifiers told apart by their length. */
  function Vertex(k: nat): (v: string)
    ensures |v| == k
  {
    seq(k, _ => 'v')
  }

  function Corners(k: nat): seq<string> { [Vertex(3 * k), Vertex(3 * k + 1), Vertex(3 * k + 2)] }

  /** n triangles without a common vertex. */
  function Triangles(n: nat): (edges: seq<Edge>)
    ensures |edges| == 3 * n
  {
    if n == 0 then []
    else Triangles(n - 1) + TriangleOf(Corners(n - 1)[0], Corners(n - 1)[1], Corners(n - 1)[2])
  }

  lemma {:induction false} TrianglesOneWay(n: nat, u: string)
    ensures |Outgoing(Triangles(n), u)| <= if |u| < 3 * n then 1 else 0
  {
    if n > 0 {
      var c := Corners(n - 1);
      TrianglesOneWay(n - 1, u);
      OutgoingOfTriangle(Triangles(n - 1), c[0], c[1], c[2], u);
    }
  }

  lemma {:induction false} TrianglesAreCycles(n: nat, k: nat, after: seq<Edge>)
    requires k < n
    ensures Admissible(Triangles(n) + after, 6, Corners(k))
  {
    var c := Corners(n - 1);
    if k == n - 1 {
      TriangleIsCycle(Triangles(k), c[0], c[1], c[2], after);
    } else {
      var last := TriangleOf(c[0], c[1], c[2]);
      TrianglesAreCycles(n - 1, k, last + after);
      assert Triangles(n) + after == Triangles(n - 1) + (last + after);
    }
  }

  lemma DifferentTriangles(j: nat, k: nat)
    requires j != k
    ensures Elements(Corners(j)) != Elements(Corners(k))
  {
    assert Corners(j)[0] in Elements(Corners(j));
    assert forall v :: v in Elements(Corners(k)) ==> |v| / 3 == k;
  }

  /** Fewer candidates than triangles: one triangle is missing. */
  lemma OneIsMissing(out: seq<Candidate>, n: nat) returns (k: nat)
    requires |out| < n
    ensures k < n && !Reported(out, Corners(k))
  {
    if forall k | 0 <= k < n :: Reported(out, Corners(k)) {
      var all := set i | 0 <= i < |out| :: Elements(out[i].entityIds);
      var sets := seq(n, k requires 0 <= k < n => Elements(Corners(k)));
      forall k | 0 <= k < n ensures sets[k] in all { assert Reported(out, Corners(k)); }
      forall j, k | 0 <= j < k < n ensures sets[j] != sets[k] { DifferentTriangles(j, k); }
      DistinctFit(sets, all);
      AtMostAsMany(out);
      assert false;
    }
    k :| 0 <= k < n && !Reported(out, Corners(k));
  }

  lemma {:induction false} AtMostAsMany(out: seq<Candidate>)
    ensures |set i | 0 <= i < |out| :: Elements(out[i].entityIds)| <= |out|
  {
    var all := set i | 0 <= i < |out| :: Elements(out[i].entityIds);
    if out != [] {
      var init := out[..|out| - 1];
      AtMostAsMany(init);
      assert all == (set i | 0 <= i < |init| :: Elements(init[i].entityIds)) + {Elements(out[|init|].entityIds)} by {
        assert forall i :: 0 <= i < |init| ==> init[i] == out[i];
      }
    }
  }

  lemma ManyTrianglesCost(n: nat)
    ensures OneWayOut(Triangles(n)) && TotalCost(Triangles(n), 6) <= 21 * n
  {
    forall u ensures |Outgoing(Triangles(n), u)| <= 1 { TrianglesOneWay(n, u); }
    OneWayTotal(Triangles(n), 6);
  }

  /** With steps left and no branches nothing is marked. */
  lemma NoneMarked(edges: seq<Edge>, out: seq<Candidate>, stepsLeft: int, candidatesLeft: int)
    requires stepsLeft > 0 && forall i :: 0 <= i < |out| - 1 ==> out[i].cap == NotCapped
    requires out != [] ==> out[|out| - 1].cap == CapOf(edges, out[|out| - 1], stepsLeft, candidatesLeft)
    requires out != [] ==> out[|out| - 1].cap != CandidatesExhausted
    ensures forall i :: 0 <= i < |out| ==> out[i].cap == NotCapped
  {
  }

  /** From 5,001 disjoint triangles on the detector drops a cycle with steps to spare, and
      no candidate carries the cap evidence. */
  method DetectManyTriangles(n: nat) returns (out: seq<Candidate>, ghost missed: seq<string>)
    requires MAX_CYCLE_CANDIDATES < n && 21 * n < MAX_CYCLE_DFS_STEPS
    ensures forall i :: 0 <= i < |out| ==> out[i].cap == NotCapped
    ensures Admissible(Triangles(n), 6, missed) && !Reported(out, missed)
  {
    var edges := Triangles(n);
    var stepsLeft, candidatesLeft;
    ghost var entries;
    out, stepsLeft, candidatesLeft, entries := DetectCycles(edges);
    ManyTrianglesCost(n);
    NoneMarked(edges, out, stepsLeft, candidatesLeft);
    ghost var k := OneIsMissing(out, n);
    TrianglesAreCycles(n, k, []);
    assert Triangles(n) + [] == Triangles(n);
    missed := Corners(k);
  }

  // ------------------------------------------------------- '|' in identifiers

  const First := ["a|b", "c", "d|e"]
  const Second := ["a", "b|c|d", "e"]

  /** Both triangles have the key a|b|c|d|e. */
  lemma KeyCollision()
    ensures Key(First) == Key(Second) && Elements(First) != Elements(Second)
  {
    KeyOfThree("a|b", "c", "d|e");
    KeyOfThree("a", "b|c|d", "e");
    assert "a|b" + "|" + "c" + "|" + "d|e" == "a" + "|" + "b|c|d" + "|" + "e";
    DifferentVertices();
  }

  lemma DifferentVertices()
    ensures Elements(First) != Elements(Second)
  {
    assert "a" in Elements(Second) && "a" !in Elements(First);
  }

  lemma SortedTriple(a: string, b: string, c: string)
    requires Less(a, b) && Less(b, c)
    ensures Sort([a, b, c]) == [a, b, c]
  {
    assert [a, b, c][1..] == [b, c] && [b, c][1..] == [c];
    assert Sort([c]) == [c];
    LessTrichotomy(a, b);
    LessTrichotomy(b, c);
    assert Sort([b, c]) == [b, c];
  }

  lemma JoinOfThree(a: string, b: string, c: string)
    ensures Join([a, b, c], '|') == a + "|" + b + "|" + c
  {
    assert [a, b, c][1..] == [b, c] && [b, c][1..] == [c];
    assert Join([c], '|') == c;
    assert Join([b, c], '|') == b + "|" + c;
    assert b + "|" + c == b + ("|" + c) && a + "|" + (b + "|" + c) == a + "|" + b + "|" + c;
  }

  lemma KeyOfThree(a: string, b: string, c: string)
    requires Less(a, b) && Less(b, c)
    ensures Key([a, b, c]) == a + "|" + b + "|" + c
  {
    SortedTriple(a, b, c);
    JoinOfThree(a, b, c);
  }

  function BarredTriangles(): seq<Edge> {
    TriangleOf("a|b", "c", "d|e") + TriangleOf("a", "b|c|d", "e")
  }

  lemma BarredTrianglesOneWay()
    ensures OneWayOut(BarredTriangles())
  {
    forall u ensures |Outgoing(BarredTriangles(), u)| <= 1 {
      assert [] + TriangleOf("a|b", "c", "d|e") == TriangleOf("a|b", "c", "d|e");
      OutgoingOfTriangle([], "a|b", "c", "d|e", u);
      OutgoingOfTriangle(TriangleOf("a|b", "c", "d|e"), "a", "b|c|d", "e", u);
    }
  }

  lemma BarredTrianglesCollide()
    ensures !KeysTellApart(BarredTriangles(), 6)
  {
    var edges := BarredTriangles();
    TriangleIsCycle([], "a|b", "c", "d|e", TriangleOf("a", "b|c|d", "e"));
    TriangleIsCycle(TriangleOf("a|b", "c", "d|e"), "a", "b|c|d", "e", []);
    assert [] + TriangleOf("a|b", "c", "d|e") + TriangleOf("a", "b|c|d", "e") == edges;
    assert edges + [] == edges;
    assert Admissible(edges, 6, First) && Admissible(edges, 6, Second);
    KeyCollision();
  }

  lemma BarredTrianglesCost()
    ensures TotalCost(BarredTriangles(), 6) <= 42
  {
    BarredTrianglesOneWay();
    OneWayTotal(BarredTriangles(), 6);
    assert |BarredTriangles()| == 6;
  }

  /** On six payments, far from both budgets, one of two cycles is dropped as a duplicate. */
  method DetectBarredTriangles() returns (out: seq<Candidate>)
    ensures forall i :: 0 <= i < |out| ==> out[i].cap == NotCapped
    ensures !AllCyclesReported(BarredTriangles(), 6, out)
  {
    BarredTrianglesCollide();
    BarredTrianglesOneWay();
    var stepsLeft, candidatesLeft;
    ghost var entries;
    out, stepsLeft, candidatesLeft, entries := DetectCycles(BarredTriangles());
    BarredTrianglesCost();
    NoneMarked(BarredTriangles(), out, stepsLeft, candidatesLeft);
  }
}
