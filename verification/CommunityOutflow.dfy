/**
 `detectTightCommunityOutflow`
 (apps/worker-pattern-discovery/src/graph-anomalies.ts): communities with mostly
 internal edges and mostly external income. Its two thresholds cannot be met at once.
 */
module CommunityOutflow {
  import opened PaymentGraph

  const TIGHT_COMMUNITY_INTERNAL_THRESHOLD: real := 0.8
  const TIGHT_COMMUNITY_OUTFLOW_THRESHOLD: real := 0.6

  datatype Community = Community(id: int, memberIds: seq<string>)

  datatype Candidate = Candidate(
    communityId: int,
    memberCount: nat,
    internalRatio: real,
    outflowRatio: real,
    entityIds: seq<string>)

  /** The four counters of the edge loop. */
  datatype Counters = Counters(internalEdges: nat, touching: nat, incomingFromOutside: nat, totalIncoming: nat)

  function Count(members: set<string>, c: Counters, e: Edge): Counters {
    var fromMember, toMember := e.fromId in members, e.toId in members;
    Counters(
      c.internalEdges + (if fromMember && toMember then 1 else 0),
      c.touching + (if fromMember || toMember then 1 else 0),
      c.incomingFromOutside + (if toMember && !fromMember then 1 else 0),
      c.totalIncoming + (if toMember then 1 else 0))
  }

  function CountAll(members: set<string>, edges: seq<Edge>): Counters {
    if edges == [] then Counters(0, 0, 0, 0)
    else Count(members, CountAll(members, edges[..|edges| - 1]), edges[|edges| - 1])
  }

  function Ratio(part: nat, whole: nat): real {
    if whole == 0 then 0.0 else part as real / whole as real
  }

  /** Income is internal or external, and every incoming edge touches the community. */
  lemma {:induction false} CountersBalance(members: set<string>, edges: seq<Edge>)
    ensures var c := CountAll(members, edges);
      && c.totalIncoming == c.internalEdges + c.incomingFromOutside
      && c.touching >= c.totalIncoming
  {
    if edges != [] { CountersBalance(members, edges[..|edges| - 1]); }
  }

  lemma ScaleUp(x: real, y: real, k: real)
    requires x > y && k > 0.0
    ensures x * k > y * k
  {
  }

  lemma LargerWholeSmallerRatio(part: nat, whole: nat, larger: nat)
    requires 0 < whole <= larger
    ensures Ratio(part, larger) <= Ratio(part, whole)
  {
    var p, w, l := part as real, whole as real, larger as real;
    var x, y := p / l, p / w;
    assert x * l == p && y * w == p && x >= 0.0;
    assert x * w <= p by { assert x * (l - w) >= 0.0; }
    if x > y { ScaleUp(x, y, w); }
  }

  lemma PartsOfOne(a: nat, b: nat)
    requires a + b > 0
    ensures Ratio(a, a + b) + Ratio(b, a + b) == 1.0
  {
  }

  /** On every snapshot and every member set the two ratios add up to at most one. */
  lemma RatiosSumToAtMostOne(members: set<string>, edges: seq<Edge>)
    ensures var c := CountAll(members, edges);
      Ratio(c.internalEdges, c.touching) + Ratio(c.incomingFromOutside, c.totalIncoming) <= 1.0
  {
    var c := CountAll(members, edges);
    CountersBalance(members, edges);
    if c.totalIncoming > 0 {
      LargerWholeSmallerRatio(c.internalEdges, c.totalIncoming, c.touching);
      PartsOfOne(c.internalEdges, c.incomingFromOutside);
    } else {
      assert c.internalEdges == 0;
    }
  }

  const Trio: set<string> := {"x", "y", "z"}

  const Inner := Edge("x", "y", 0, false)
  const Incoming := Edge("w", "x", 0, false)

  lemma CountOneMore(init: seq<Edge>, e: Edge)
    requires e == Inner || e == Incoming
    ensures var c, inner := CountAll(Trio, init), if e == Inner then 1 else 0;
      CountAll(Trio, init + [e]) == Counters(c.internalEdges + inner, c.touching + 1,
                                             c.incomingFromOutside + 1 - inner, c.totalIncoming + 1)
  {
    assert (init + [e])[..|init|] == init;
    assert "x" in Trio && "y" in Trio && "w" !in Trio;
  }

  /** One is reached: for every a and b a community of three with a internal edges and b
      incoming ones has ratios a / (a + b) and b / (a + b). */
  lemma {:induction false} SumOfOneIsReached(a: nat, b: nat) returns (edges: seq<Edge>)
    ensures CountAll(Trio, edges) == Counters(a, a + b, b, a + b)
    decreases a + b
  {
    if a > 0 {
      var init := SumOfOneIsReached(a - 1, b);
      CountOneMore(init, Inner);
      edges := init + [Inner];
    } else if b > 0 {
      var init := SumOfOneIsReached(a, b - 1);
      CountOneMore(init, Incoming);
      edges := init + [Incoming];
    } else {
      edges := [];
    }
  }

  /** A community whose two ratios reach x and y. */
  ghost predicate Reaches(members: set<string>, edges: seq<Edge>, x: real, y: real) {
    var c := CountAll(members, edges);
    Ratio(c.internalEdges, c.touching) >= x && Ratio(c.incomingFromOutside, c.totalIncoming) >= y
  }

  /** So two thresholds a / d and b / d can be met together exactly if they add up to at
      most one. */
  lemma ThresholdsReachableIff(a: nat, b: nat, d: nat)
    requires d > 0
    ensures (exists members, edges :: Reaches(members, edges, Ratio(a, d), Ratio(b, d))) <==> a + b <= d
  {
    if a + b <= d {
      var edges := SumOfOneIsReached(d - b, b);
      RatioMonotone(a, d - b, d);
      assert Reaches(Trio, edges, Ratio(a, d), Ratio(b, d));
    }
    if members, edges :| Reaches(members, edges, Ratio(a, d), Ratio(b, d)) {
      RatiosSumToAtMostOne(members, edges);
      SumOfRatios(a, b, d);
    }
  }

  lemma RatioMonotone(a: nat, b: nat, d: nat)
    requires a <= b && d > 0
    ensures Ratio(a, d) <= Ratio(b, d)
  {
    if Ratio(a, d) > Ratio(b, d) { ScaleUp(Ratio(a, d), Ratio(b, d), d as real); }
  }

  lemma ScaledPart(x: real, k: real)
    requires x <= 1.0 && k > 0.0
    ensures x * k <= k
  {
    if x < 1.0 { ScaleUp(1.0, x, k); }
  }

  lemma SumOfRatios(a: nat, b: nat, d: nat)
    requires d > 0
    ensures Ratio(a, d) + Ratio(b, d) == (a + b) as real / d as real
    ensures a + b > d ==> Ratio(a, d) + Ratio(b, d) > 1.0
  {
    var x := Ratio(a, d) + Ratio(b, d);
    assert x * d as real == (a + b) as real;
    if x <= 1.0 { ScaledPart(x, d as real); }
  }

  /** The candidate a community earns, if any. */
  function Judge(c: Community, counters: Counters): seq<Candidate> {
    var internalRatio := Ratio(counters.internalEdges, counters.touching);
    var outflowRatio := Ratio(counters.incomingFromOutside, counters.totalIncoming);
    if internalRatio >= TIGHT_COMMUNITY_INTERNAL_THRESHOLD && outflowRatio >= TIGHT_COMMUNITY_OUTFLOW_THRESHOLD then
      [Candidate(c.id, |c.memberIds|, internalRatio, outflowRatio, c.memberIds)]
    else []
  }

  /** The detector, and its result on every snapshot: nothing. */
  method DetectTightCommunityOutflow(edges: seq<Edge>, communities: seq<Community>) returns (out: seq<Candidate>)
    ensures out == []
  {
    out := [];
    for n := 0 to |communities|
      invariant out == []
    {
      var c := communities[n];
      if |c.memberIds| < 3 { continue; }
      var memberSet := set m | m in c.memberIds;
      var counters := Counters(0, 0, 0, 0);
      for k := 0 to |edges|
        invariant counters == CountAll(memberSet, edges[..k])
      {
        assert edges[..k + 1][..k] == edges[..k];
        counters := Count(memberSet, counters, edges[k]);
      }
      assert edges[..|edges|] == edges;
      RatiosSumToAtMostOne(memberSet, edges);
      out := out + Judge(c, counters);
    }
  }
}
