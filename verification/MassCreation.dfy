/**
 `detectSuddenMassCreation` (apps/worker-pattern-discovery/src/graph-anomalies.ts):
 a sliding window over each group's sorted incorporation dates, standing in for
 "some five members were incorporated within fourteen days of each other".

 Members are object references in the source; here they are positions in the
 snapshot's node list. Dates are the millisecond values of `Date.parse`.
 */
module MassCreation {
  import opened JsStrings

  datatype Option<+T> = None | Some(value: T)

  datatype Kind = Company | Person | Tender | Project | Payment

  datatype Node = Node(
    id: string,
    kind: Kind,
    sharedAddress: Option<string>,
    sharedUboId: Option<string>,
    incorporationDate: Option<int>)

  const SUDDEN_MASS_WINDOW_DAYS: int := 14
  const SUDDEN_MASS_MIN_COUNT: int := 5
  const DAY_MS: int := 86_400_000

  datatype Candidate = Candidate(
    sharedKey: string,
    entityCount: int,
    windowDays: int,
    strength: real,
    entityIds: seq<string>)

  /** The cluster a node belongs to: its shared address, or its shared owner when
      it has no address field. An empty key, like a missing date, excludes it. */
  function GroupKey(n: Node): Option<string> {
    var key := if n.sharedAddress.Some? then n.sharedAddress else n.sharedUboId;
    if n.kind != Company || key == None || key == Some("") || n.incorporationDate == None then None
    else key
  }

  /** The key, case by case: only companies with a date, the address before the owner, and
      an empty text counts as none. */
  lemma GroupKeyCases(n: Node)
    ensures n.kind != Company || n.incorporationDate == None ==> GroupKey(n) == None
    ensures n.kind == Company && n.incorporationDate.Some? ==> match n.sharedAddress
      case Some(a) => GroupKey(n) == (if a == "" then None else Some(a))
      case None => match n.sharedUboId
        case Some(o) => GroupKey(n) == (if o == "" then None else Some(o))
        case None => GroupKey(n) == None
  {
  }

  ghost predicate InGroup(nodes: seq<Node>, k: string, i: int) {
    0 <= i < |nodes| && GroupKey(nodes[i]) == Some(k)
  }

  function Date(nodes: seq<Node>, i: int): int {
    if 0 <= i < |nodes| && nodes[i].incorporationDate.Some? then nodes[i].incorporationDate.value else 0
  }

  function DeltaDays(nodes: seq<Node>, first: int, last: int): real {
    (Date(nodes, last) - Date(nodes, first)) as real / DAY_MS as real
  }

  /** `Math.round`. */
  function Round(x: real): int { (x + 0.5).Floor }

  /** Five different members of group k, all dates within the window. */
  ghost predicate Cluster(nodes: seq<Node>, k: string, idx: seq<int>) {
    && |idx| == SUDDEN_MASS_MIN_COUNT
    && Distinct(idx)
    && (forall j :: 0 <= j < |idx| ==> InGroup(nodes, k, idx[j]))
    && (forall i, j :: 0 <= i < |idx| && 0 <= j < |idx| ==>
          Date(nodes, idx[j]) - Date(nodes, idx[i]) <= SUDDEN_MASS_WINDOW_DAYS * DAY_MS)
  }

  // ----------------------------------------------------------------- sorting

  /** The earlier date first, and on the same date the earlier place in the snapshot. */
  ghost predicate Precedes(nodes: seq<Node>, x: int, y: int) {
    Date(nodes, x) < Date(nodes, y) || (Date(nodes, x) == Date(nodes, y) && x < y)
  }

  ghost predicate InOrder(nodes: seq<Node>, s: seq<int>) {
    forall i, j :: 0 <= i < j < |s| ==> Precedes(nodes, s[i], s[j])
  }

  ghost predicate SortedByDate(nodes: seq<Node>, s: seq<int>) {
    forall i, j :: 0 <= i < j < |s| ==> Date(nodes, s[i]) <= Date(nodes, s[j])
  }

  ghost predicate Ascending(s: seq<int>) {
    forall i, j :: 0 <= i < j < |s| ==> s[i] < s[j]
  }

  lemma PrependInOrder(nodes: seq<Node>, x: int, s: seq<int>)
    requires InOrder(nodes, s) && (s != [] ==> Precedes(nodes, x, s[0]))
    ensures InOrder(nodes, [x] + s)
  {
  }

  lemma {:induction false} InsertInOrder(nodes: seq<Node>, x: int, s: seq<int>)
    requires InOrder(nodes, s) && forall i :: 0 <= i < |s| ==> x < s[i]
    ensures InOrder(nodes, InsertByDate(nodes, x, s))
    ensures forall y :: y in InsertByDate(nodes, x, s) <==> y == x || y in s
  {
    if s == [] || Date(nodes, x) <= Date(nodes, s[0]) {
      PrependInOrder(nodes, x, s);
    } else {
      var t := InsertByDate(nodes, x, s[1..]);
      assert s == [s[0]] + s[1..];
      InsertInOrder(nodes, x, s[1..]);
      assert t[0] in t;
      if t[0] != x {
        var i :| 0 <= i < |s[1..]| && s[1..][i] == t[0];
        assert s[i + 1] == t[0];
      }
      PrependInOrder(nodes, s[0], t);
    }
  }

  /** The sort is stable: on the same date members keep their order. */
  lemma {:induction false} SortByDateStable(nodes: seq<Node>, s: seq<int>)
    requires Ascending(s)
    ensures InOrder(nodes, SortByDate(nodes, s))
    ensures forall y :: y in SortByDate(nodes, s) <==> y in s
  {
    if s != [] {
      assert s == [s[0]] + s[1..];
      SortByDateStable(nodes, s[1..]);
      var t := SortByDate(nodes, s[1..]);
      forall i | 0 <= i < |t| ensures s[0] < t[i] {
        assert t[i] in t;
        var j :| 0 <= j < |s[1..]| && s[1..][j] == t[i];
        assert s[j + 1] == t[i];
      }
      InsertInOrder(nodes, s[0], t);
    }
  }

  function InsertByDate(nodes: seq<Node>, x: int, s: seq<int>): seq<int> {
    if s == [] || Date(nodes, x) <= Date(nodes, s[0]) then [x] + s
    else [s[0]] + InsertByDate(nodes, x, s[1..])
  }

  /** `[...members].sort((a, b) => date(a) - date(b))`, which is stable. */
  function SortByDate(nodes: seq<Node>, s: seq<int>): seq<int> {
    if s == [] then [] else InsertByDate(nodes, s[0], SortByDate(nodes, s[1..]))
  }

  lemma PrependSorted(nodes: seq<Node>, x: int, s: seq<int>)
    requires SortedByDate(nodes, s) && (s != [] ==> Date(nodes, x) <= Date(nodes, s[0]))
    ensures SortedByDate(nodes, [x] + s)
  {
  }

  lemma {:induction false} InsertByDateAdds(nodes: seq<Node>, x: int, s: seq<int>)
    ensures multiset(InsertByDate(nodes, x, s)) == multiset{x} + multiset(s)
  {
    if s != [] && Date(nodes, x) > Date(nodes, s[0]) {
      InsertByDateAdds(nodes, x, s[1..]);
      assert s == [s[0]] + s[1..];
    }
  }

  lemma {:induction false} InsertByDateSorts(nodes: seq<Node>, x: int, s: seq<int>)
    requires SortedByDate(nodes, s)
    ensures SortedByDate(nodes, InsertByDate(nodes, x, s))
  {
    if s == [] || Date(nodes, x) <= Date(nodes, s[0]) {
      PrependSorted(nodes, x, s);
    } else {
      InsertByDateSorts(nodes, x, s[1..]);
      var t := InsertByDate(nodes, x, s[1..]);
      assert t[0] == x || t[0] == s[1];
      PrependSorted(nodes, s[0], t);
    }
  }

  lemma {:induction false} SortByDateCorrect(nodes: seq<Node>, s: seq<int>)
    ensures SortedByDate(nodes, SortByDate(nodes, s))
    ensures multiset(SortByDate(nodes, s)) == multiset(s)
  {
    if s != [] {
      SortByDateCorrect(nodes, s[1..]);
      InsertByDateAdds(nodes, s[0], SortByDate(nodes, s[1..]));
      InsertByDateSorts(nodes, s[0], SortByDate(nodes, s[1..]));
      assert s == [s[0]] + s[1..];
    }
  }

  // ---------------------------------------------------------------- grouping

  /** The members of group k among the first n nodes, in snapshot order. */
  function Members(nodes: seq<Node>, k: string, n: nat): seq<int>
    requires n <= |nodes|
  {
    if n == 0 then []
    else Members(nodes, k, n - 1) + if GroupKey(nodes[n - 1]) == Some(k) then [n - 1] else []
  }

  lemma {:induction false} MembersCorrect(nodes: seq<Node>, k: string, n: nat)
    requires n <= |nodes|
    ensures Distinct(Members(nodes, k, n)) && Ascending(Members(nodes, k, n))
    ensures forall i :: i in Members(nodes, k, n) <==> i < n && InGroup(nodes, k, i)
  {
    if n > 0 {
      MembersCorrect(nodes, k, n - 1);
      var before := Members(nodes, k, n - 1);
      forall j | 0 <= j < |before| ensures before[j] < n - 1 { assert before[j] in before; }
    }
  }

  /** `groups` holds the groups of the first n nodes. */
  ghost predicate Grouped(nodes: seq<Node>, groups: map<string, seq<int>>, n: nat)
    requires n <= |nodes|
  {
    forall k {:trigger Members(nodes, k, n)} ::
      Members(nodes, k, n) == if k in groups then groups[k] else []
  }

  /** Push one node onto its group, which is created when it is new. */
  function AddToGroup(groups: map<string, seq<int>>, key: string, i: int): map<string, seq<int>> {
    groups[key := (if key in groups then groups[key] else []) + [i]]
  }

  lemma GroupStep(nodes: seq<Node>, groups: map<string, seq<int>>, n: nat)
    requires n < |nodes| && Grouped(nodes, groups, n)
    ensures var key := GroupKey(nodes[n]);
      Grouped(nodes, if key.Some? then AddToGroup(groups, key.value, n) else groups, n + 1)
  {
    var key := GroupKey(nodes[n]);
    var after := if key.Some? then AddToGroup(groups, key.value, n) else groups;
    forall k ensures Members(nodes, k, n + 1) == if k in after then after[k] else [] {
      assert Members(nodes, k, n) == if k in groups then groups[k] else [];
    }
  }

  /** The first member of the group, or the number of nodes. */
  function FirstMember(nodes: seq<Node>, k: string): (r: nat)
    ensures r <= |nodes| && (r < |nodes| ==> InGroup(nodes, k, r))
    ensures forall i :: 0 <= i < r ==> !InGroup(nodes, k, i)
  {
    if nodes == [] || GroupKey(nodes[0]) == Some(k) then 0
    else
      var r := 1 + FirstMember(nodes[1..], k);
      assert forall i :: 1 <= i < r ==> nodes[1..][i - 1] == nodes[i] && !InGroup(nodes[1..], k, i - 1);
      r
  }

  /** The keys stand in the order of their first members. */
  ghost predicate KeysInOrder(nodes: seq<Node>, keys: seq<string>) {
    forall i, j :: 0 <= i < j < |keys| ==> FirstMember(nodes, keys[i]) < FirstMember(nodes, keys[j])
  }

  /** A key that is new at node n has its first member there. */
  lemma NewKey(nodes: seq<Node>, groups: map<string, seq<int>>, n: nat, keys: seq<string>)
    requires n < |nodes| && Grouped(nodes, groups, n) && GroupKey(nodes[n]).Some?
    requires GroupKey(nodes[n]).value !in groups
    requires KeysInOrder(nodes, keys) && forall k :: k in keys ==> FirstMember(nodes, k) < n
    ensures var k := GroupKey(nodes[n]).value;
      FirstMember(nodes, k) == n && KeysInOrder(nodes, keys + [k])
  {
    var k := GroupKey(nodes[n]).value;
    assert Members(nodes, k, n) == [];
    MembersCorrect(nodes, k, n);
    assert InGroup(nodes, k, n);
    KeyBehind(nodes, keys, k);
  }

  lemma KeyBehind(nodes: seq<Node>, keys: seq<string>, k: string)
    requires KeysInOrder(nodes, keys) && forall q :: q in keys ==> FirstMember(nodes, q) < FirstMember(nodes, k)
    ensures KeysInOrder(nodes, keys + [k])
  {
    forall i | 0 <= i < |keys| ensures FirstMember(nodes, keys[i]) < FirstMember(nodes, k) { assert keys[i] in keys; }
  }

  method Group(nodes: seq<Node>) returns (keys: seq<string>, groups: map<string, seq<int>>)
    ensures Distinct(keys) && forall k :: k in keys <==> k in groups
    ensures KeysInOrder(nodes, keys)
    ensures Grouped(nodes, groups, |nodes|)
  {
    keys, groups := [], map[];
    for n := 0 to |nodes|
      invariant Distinct(keys) && forall k :: k in keys <==> k in groups
      invariant KeysInOrder(nodes, keys) && forall k :: k in keys ==> FirstMember(nodes, k) < n
      invariant Grouped(nodes, groups, n)
    {
      var key := GroupKey(nodes[n]);
      if key.Some? && key.value !in groups { NewKey(nodes, groups, n, keys); }
      GroupStep(nodes, groups, n);
      if key.Some? {
        if key.value !in groups { keys := keys + [key.value]; }
        groups := AddToGroup(groups, key.value, n);
      }
    }
  }

  // ---------------------------------------------------------------- windows

  predicate Fits(nodes: seq<Node>, s: seq<int>, i: nat)
    requires i + SUDDEN_MASS_MIN_COUNT - 1 < |s|
  {
    DeltaDays(nodes, s[i], s[i + SUDDEN_MASS_MIN_COUNT - 1]) <= SUDDEN_MASS_WINDOW_DAYS as real
  }

  /** A fitting window is a cluster. */
  lemma WindowIsCluster(nodes: seq<Node>, k: string, s: seq<int>, i: nat)
    requires SortedByDate(nodes, s) && Distinct(s) && forall x :: x in s ==> InGroup(nodes, k, x)
    requires i + SUDDEN_MASS_MIN_COUNT - 1 < |s| && Fits(nodes, s, i)
    ensures Cluster(nodes, k, s[i..i + SUDDEN_MASS_MIN_COUNT])
  {
  }

  lemma PositionsOf(s: seq<int>, idx: seq<int>) returns (pos: seq<int>)
    requires Distinct(idx) && forall j :: 0 <= j < |idx| ==> idx[j] in s
    ensures |pos| == |idx| && Distinct(pos)
    ensures forall j :: 0 <= j < |idx| ==> 0 <= pos[j] < |s| && s[pos[j]] == idx[j]
  {
    pos := [];
    while |pos| < |idx|
      invariant |pos| <= |idx|
      invariant forall j :: 0 <= j < |pos| ==> 0 <= pos[j] < |s| && s[pos[j]] == idx[j]
    {
      assert idx[|pos|] in s;
      var p :| 0 <= p < |s| && s[p] == idx[|pos|];
      pos := pos + [p];
    }
  }

  /** Five different positions span at least four steps. */
  lemma FivePositionsSpread(pos: seq<int>) returns (lo: int, hi: int)
    requires |pos| == 5 && Distinct(pos)
    ensures 0 <= lo < 5 && 0 <= hi < 5 && pos[lo] + 4 <= pos[hi]
    ensures forall j :: 0 <= j < 5 ==> pos[lo] <= pos[j]
  {
    lo := 0;
    hi := 0;
    for j := 0 to 5
      invariant 0 <= lo < 5 && 0 <= hi < 5
      invariant forall i :: 0 <= i < j ==> pos[lo] <= pos[i] <= pos[hi]
    {
      if pos[j] < pos[lo] { lo := j; }
      if pos[j] > pos[hi] { hi := j; }
    }
    var a, b, c, d, e := pos[0] - pos[lo], pos[1] - pos[lo], pos[2] - pos[lo], pos[3] - pos[lo], pos[4] - pos[lo];
    assert a != b && a != c && a != d && a != e && b != c && b != d && b != e && c != d && c != e && d != e;
  }

  /** Every cluster shows up as a fitting window that starts no later. */
  lemma ClusterHasWindow(nodes: seq<Node>, k: string, s: seq<int>, idx: seq<int>) returns (i: nat)
    requires SortedByDate(nodes, s) && InOrder(nodes, s) && Distinct(s) && forall x :: InGroup(nodes, k, x) ==> x in s
    requires Cluster(nodes, k, idx)
    ensures i + SUDDEN_MASS_MIN_COUNT - 1 < |s| && Fits(nodes, s, i)
    ensures exists j :: 0 <= j < |idx| && s[i] == idx[j]
    ensures forall j :: 0 <= j < |idx| ==> s[i] == idx[j] || Precedes(nodes, s[i], idx[j])
  {
    forall j | 0 <= j < |idx| ensures idx[j] in s { assert InGroup(nodes, k, idx[j]); }
    var pos := PositionsOf(s, idx);
    var lo, hi := FivePositionsSpread(pos);
    i := pos[lo];
    assert s[pos[hi]] == idx[hi] && s[i] == idx[lo];
    assert Date(nodes, s[i + 4]) <= Date(nodes, s[pos[hi]]);
    forall j | 0 <= j < |idx| ensures s[i] == idx[j] || Precedes(nodes, s[i], idx[j]) {
      assert s[pos[j]] == idx[j] && i <= pos[j];
    }
  }

  lemma RoundIsNearest(x: real)
    ensures Round(x) as real - 0.5 <= x < Round(x) as real + 0.5
  {
  }

  // ------------------------------------------------------------- the detector

  function Ids(nodes: seq<Node>, idx: seq<int>): seq<string> {
    seq(|idx|, i requires 0 <= i < |idx| => if 0 <= idx[i] < |nodes| then nodes[idx[i]].id else "")
  }

  /** `c` reports the cluster `idx`: members that follow one another in the group's order,
      and no cluster of the group starts earlier in it. */
  ghost predicate Names(nodes: seq<Node>, c: Candidate, idx: seq<int>) {
    && Cluster(nodes, c.sharedKey, idx)
    && c == Candidate(c.sharedKey, SUDDEN_MASS_MIN_COUNT, Round(DeltaDays(nodes, idx[0], idx[4])), 0.75, Ids(nodes, idx))
    && InOrder(nodes, idx) && NoneBetween(nodes, c.sharedKey, idx)
    && forall other :: Cluster(nodes, c.sharedKey, other) ==> StartsNoEarlier(nodes, idx[0], other)
  }

  ghost predicate NoneBetween(nodes: seq<Node>, k: string, idx: seq<int>)
    requires |idx| == 5
  {
    forall m :: InGroup(nodes, k, m) && Precedes(nodes, idx[0], m) && Precedes(nodes, m, idx[4]) ==> m in idx
  }

  ghost predicate StartsNoEarlier(nodes: seq<Node>, first: int, idx: seq<int>) {
    forall j :: 0 <= j < |idx| ==> first == idx[j] || Precedes(nodes, first, idx[j])
  }

  ghost predicate NamesACluster(nodes: seq<Node>, c: Candidate) {
    exists idx :: Names(nodes, c, idx)
  }

  /** A reported cluster, told from the nodes: five members, their ids in order, no two of
      them more than fourteen days of 86,400,000 ms apart, and the days between the first
      and the last, rounded with halves up. */
  lemma NamedClusterMeans(nodes: seq<Node>, c: Candidate, idx: seq<int>)
    requires Names(nodes, c, idx)
    ensures |idx| == 5 && |c.entityIds| == 5 && c.entityCount == 5 && c.strength == 0.75
    ensures forall j :: 0 <= j < 5 ==> 0 <= idx[j] < |nodes| && nodes[idx[j]].incorporationDate.Some?
                                       && c.entityIds[j] == nodes[idx[j]].id
    ensures forall i, j :: 0 <= i < 5 && 0 <= j < 5 ==>
      nodes[idx[j]].incorporationDate.value - nodes[idx[i]].incorporationDate.value <= 1_209_600_000
    ensures var span := nodes[idx[4]].incorporationDate.value - nodes[idx[0]].incorporationDate.value;
      86_400_000 * c.windowDays - 43_200_000 <= span < 86_400_000 * c.windowDays + 43_200_000
  {
    forall j | 0 <= j < 5 ensures 0 <= idx[j] < |nodes| && nodes[idx[j]].incorporationDate.Some? {
      assert InGroup(nodes, c.sharedKey, idx[j]);
    }
    SpanOfDays(nodes, idx[0], idx[4]);
  }

  lemma SpanOfDays(nodes: seq<Node>, first: int, last: int)
    ensures var days := Round(DeltaDays(nodes, first, last));
      86_400_000 * days - 43_200_000 <= Date(nodes, last) - Date(nodes, first) < 86_400_000 * days + 43_200_000
  {
    RoundIsNearest(DeltaDays(nodes, first, last));
  }

  /** No window before position n fits. */
  ghost predicate NoFitBefore(nodes: seq<Node>, s: seq<int>, n: nat) {
    forall j: nat :: j < n && j + SUDDEN_MASS_MIN_COUNT - 1 < |s| ==> !Fits(nodes, s, j)
  }

  /** `s` is the group, sorted. */
  ghost predicate SortedGroup(nodes: seq<Node>, k: string, s: seq<int>) {
    && SortedByDate(nodes, s) && InOrder(nodes, s) && Distinct(s)
    && forall x :: InGroup(nodes, k, x) <==> x in s
  }

  lemma PlacesInOrder(nodes: seq<Node>, s: seq<int>, a: nat, b: nat)
    requires InOrder(nodes, s) && a < |s| && b < |s| && Precedes(nodes, s[a], s[b])
    ensures a < b
  {
  }

  /** What stands between two places of the sorted group stands between them in order. */
  lemma BetweenPlaces(nodes: seq<Node>, s: seq<int>, i: nat, p: nat)
    requires InOrder(nodes, s) && i + 4 < |s| && p < |s|
    requires Precedes(nodes, s[i], s[p]) && Precedes(nodes, s[p], s[i + 4])
    ensures s[p] in s[i..i + 5]
  {
    PlacesInOrder(nodes, s, i, p);
    PlacesInOrder(nodes, s, p, i + 4);
    assert s[i..i + 5][p - i] == s[p];
  }

  lemma FirstFitNames(nodes: seq<Node>, k: string, s: seq<int>, i: nat)
    requires SortedGroup(nodes, k, s) && NoFitBefore(nodes, s, i)
    requires i + SUDDEN_MASS_MIN_COUNT - 1 < |s| && Fits(nodes, s, i)
    ensures Names(nodes, Candidate(k, SUDDEN_MASS_MIN_COUNT, Round(DeltaDays(nodes, s[i], s[i + SUDDEN_MASS_MIN_COUNT - 1])),
                                   0.75, Ids(nodes, s[i..i + SUDDEN_MASS_MIN_COUNT])),
                  s[i..i + SUDDEN_MASS_MIN_COUNT])
  {
    WindowIsCluster(nodes, k, s, i);
    var idx := s[i..i + 5];
    forall m | InGroup(nodes, k, m) && Precedes(nodes, idx[0], m) && Precedes(nodes, m, idx[4]) ensures m in idx {
      assert m in s;
      var p :| 0 <= p < |s| && s[p] == m;
      BetweenPlaces(nodes, s, i, p);
    }
    forall other | Cluster(nodes, k, other) ensures StartsNoEarlier(nodes, s[i], other) {
      var w := ClusterHasWindow(nodes, k, s, other);
      assert i <= w;
      forall j | 0 <= j < |other| ensures s[i] == other[j] || Precedes(nodes, s[i], other[j]) {
        assert i < w ==> Precedes(nodes, s[i], s[w]);
      }
    }
  }

  lemma NoFitNoCluster(nodes: seq<Node>, k: string, s: seq<int>)
    requires SortedGroup(nodes, k, s) && NoFitBefore(nodes, s, |s|)
    ensures !HasCluster(nodes, k)
  {
    if idx :| Cluster(nodes, k, idx) { var i := ClusterHasWindow(nodes, k, s, idx); }
  }

  ghost predicate HasCluster(nodes: seq<Node>, k: string) {
    exists idx :: Cluster(nodes, k, idx)
  }

  /** The loop over one group: the first fitting window, if any. */
  method FirstWindow(nodes: seq<Node>, k: string, members: seq<int>) returns (r: Option<Candidate>)
    requires members == Members(nodes, k, |nodes|)
    ensures r.Some? <==> HasCluster(nodes, k)
    ensures r.Some? ==> r.value.sharedKey == k && NamesACluster(nodes, r.value)
  {
    var sorted := SortByDate(nodes, members);
    SortGroup(nodes, k, members);
    if |members| < SUDDEN_MASS_MIN_COUNT {
      NoFitNoCluster(nodes, k, sorted);
      return None;
    }
    var i := 0;
    while i + SUDDEN_MASS_MIN_COUNT - 1 < |sorted|
      invariant 0 <= i && NoFitBefore(nodes, sorted, i)
    {
      var first, last := sorted[i], sorted[i + SUDDEN_MASS_MIN_COUNT - 1];
      var deltaDays := DeltaDays(nodes, first, last);
      if deltaDays <= SUDDEN_MASS_WINDOW_DAYS as real {
        var window := sorted[i..i + SUDDEN_MASS_MIN_COUNT];
        r := Some(Candidate(k, SUDDEN_MASS_MIN_COUNT, Round(deltaDays), 0.75, Ids(nodes, window)));
        FirstFitNames(nodes, k, sorted, i);
        assert HasCluster(nodes, k) by { assert Cluster(nodes, k, window); }
        return;
      }
      i := i + 1;
    }
    NoFitNoCluster(nodes, k, sorted);
    return None;
  }

  lemma SortGroup(nodes: seq<Node>, k: string, members: seq<int>)
    requires members == Members(nodes, k, |nodes|)
    ensures SortedGroup(nodes, k, SortByDate(nodes, members)) && |SortByDate(nodes, members)| == |members|
  {
    MembersCorrect(nodes, k, |nodes|);
    SortByDateCorrect(nodes, members);
    SortByDateStable(nodes, members);
    PermutationKeepsDistinct(members, SortByDate(nodes, members));
  }

  ghost predicate HasCandidate(out: seq<Candidate>, k: string) {
    exists i :: 0 <= i < |out| && out[i].sharedKey == k
  }

  /** `out` answers for the groups in `keys`, once each. */
  ghost predicate Answers(nodes: seq<Node>, keys: seq<string>, out: seq<Candidate>) {
    && (forall k {:trigger HasCandidate(out, k)} :: HasCandidate(out, k) <==> k in keys && HasCluster(nodes, k))
    && (forall i {:trigger NamesACluster(nodes, out[i])} :: 0 <= i < |out| ==> NamesACluster(nodes, out[i]))
  }

  lemma AnswersStep(nodes: seq<Node>, keys: seq<string>, key: string, out: seq<Candidate>, r: Option<Candidate>)
    requires Answers(nodes, keys, out) && key !in keys
    requires r.Some? <==> HasCluster(nodes, key)
    requires r.Some? ==> r.value.sharedKey == key && NamesACluster(nodes, r.value)
    ensures Answers(nodes, keys + [key], if r.Some? then out + [r.value] else out)
  {
    var after := if r.Some? then out + [r.value] else out;
    forall k ensures HasCandidate(after, k) <==> k in keys + [key] && HasCluster(nodes, k) {
      if i :| 0 <= i < |out| && out[i].sharedKey == k { assert after[i].sharedKey == k; }
      if r.Some? { assert after[|out|] == r.value; }
      assert HasCandidate(out, k) <==> k in keys && HasCluster(nodes, k);
    }
    forall i | 0 <= i < |after|
      ensures NamesACluster(nodes, after[i])
    {
      if i < |out| { assert NamesACluster(nodes, out[i]); }
    }
  }

  ghost predicate GroupsAmong(keys: seq<string>, out: seq<Candidate>) {
    forall i {:trigger out[i]} :: 0 <= i < |out| ==> out[i].sharedKey in keys
  }

  ghost predicate GroupsInOrder(nodes: seq<Node>, out: seq<Candidate>) {
    forall i: nat, j: nat {:trigger ReportedBefore(nodes, out, i, j)} :: i < j < |out| ==> ReportedBefore(nodes, out, i, j)
  }

  ghost predicate ReportedBefore(nodes: seq<Node>, out: seq<Candidate>, i: nat, j: nat)
    requires i < |out| && j < |out|
  {
    FirstMember(nodes, out[i].sharedKey) < FirstMember(nodes, out[j].sharedKey)
  }

  lemma OneMoreGroup(nodes: seq<Node>, keys: seq<string>, n: nat, out: seq<Candidate>, c: Candidate)
    requires n < |keys| && KeysInOrder(nodes, keys) && c.sharedKey == keys[n]
    requires GroupsAmong(keys[..n], out) && GroupsInOrder(nodes, out)
    ensures GroupsAmong(keys[..n + 1], out + [c]) && GroupsInOrder(nodes, out + [c])
  {
    var more := out + [c];
    assert keys[..n + 1] == keys[..n] + [keys[n]];
    forall i: nat, j: nat | i < j < |more| ensures ReportedBefore(nodes, more, i, j) {
      if j < |out| {
        assert ReportedBefore(nodes, out, i, j);
      } else {
        var m :| 0 <= m < n && keys[..n][m] == out[i].sharedKey;
        assert keys[m] == more[i].sharedKey;
      }
    }
  }

  /** The first n groups have been searched. */
  ghost predicate Answered(nodes: seq<Node>, keys: seq<string>, n: nat, out: seq<Candidate>)
    requires n <= |keys|
  {
    Answers(nodes, keys[..n], out) && GroupsAmong(keys[..n], out) && GroupsInOrder(nodes, out)
  }

  lemma OneMoreAnswer(nodes: seq<Node>, keys: seq<string>, n: nat, out: seq<Candidate>, r: Option<Candidate>)
    requires n < |keys| && Distinct(keys) && KeysInOrder(nodes, keys) && Answered(nodes, keys, n, out)
    requires r.Some? <==> HasCluster(nodes, keys[n])
    requires r.Some? ==> r.value.sharedKey == keys[n] && NamesACluster(nodes, r.value)
    ensures Answered(nodes, keys, n + 1, if r.Some? then out + [r.value] else out)
  {
    AnswersStep(nodes, keys[..n], keys[n], out, r);
    assert keys[..n + 1] == keys[..n] + [keys[n]];
    if r.Some? { OneMoreGroup(nodes, keys, n, out, r.value); }
  }

  method DetectSuddenMassCreation(nodes: seq<Node>) returns (out: seq<Candidate>)
    // at most one candidate per group
    ensures forall i, j :: 0 <= i < j < |out| ==> out[i].sharedKey != out[j].sharedKey
    // a candidate exactly for the groups that contain a cluster
    ensures forall k :: HasCluster(nodes, k) <==> HasCandidate(out, k)
    // and it names one
    ensures forall i :: 0 <= i < |out| ==> NamesACluster(nodes, out[i])
    // the groups are reported in the order of their first members
    ensures GroupsInOrder(nodes, out)
  {
    var keys, groups := Group(nodes);
    out := [];
    for n := 0 to |keys|
      invariant Answered(nodes, keys, n, out)
    {
      assert Members(nodes, keys[n], |nodes|) == groups[keys[n]];
      var r := FirstWindow(nodes, keys[n], groups[keys[n]]);
      OneMoreAnswer(nodes, keys, n, out, r);
      if r.Some? { out := out + [r.value]; }
    }
    assert keys[..|keys|] == keys;
    forall i, j | 0 <= i < j < |out| ensures out[i].sharedKey != out[j].sharedKey {
      assert ReportedBefore(nodes, out, i, j);
    }
    forall k ensures HasCluster(nodes, k) <==> HasCandidate(out, k) {
      ClusterHasKey(nodes, groups, k);
    }
  }

  lemma ClusterHasKey(nodes: seq<Node>, groups: map<string, seq<int>>, k: string)
    requires Grouped(nodes, groups, |nodes|)
    ensures HasCluster(nodes, k) ==> k in groups
  {
    if idx :| Cluster(nodes, k, idx) {
      assert InGroup(nodes, k, idx[0]);
      MembersCorrect(nodes, k, |nodes|);
      assert Members(nodes, k, |nodes|) != [];
    }
  }
}
