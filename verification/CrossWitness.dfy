/**
 `verifyCrossWitness` and `verifyCrossWitnessWindowed`
 (apps/audit-verifier/src/cross-witness.ts): the comparison of the Postgres audit
 rows with the Fabric ledger over a range of sequence numbers, in one sweep or in
 windows of at most 500,000.

 Sequence numbers travel as decimal strings in the source; here they are the
 integers those strings denote.
 */
module CrossWitness {
  import opened JsStrings

  const CROSS_WITNESS_MAX_RANGE: int := 500_000

  datatype Entry = Entry(seqNo: int, bodyHash: string)

  datatype Divergence = Divergence(seqNo: int, pgBodyHash: string, fabricBodyHash: string)

  datatype Report = Report(
    checked: nat,
    missingFromFabric: seq<int>,
    missingFromPostgres: seq<int>,
    divergentSeqs: seq<Divergence>)

  datatype Error = RangeInvalid | RangeExceedsCap
  datatype Result = Ok(report: Report) | Err(error: Error)

  // ------------------------------------------------------------- the ledgers

  /** `ORDER BY seq ASC` over a unique column. */
  ghost predicate Ascending(rows: seq<Entry>) {
    forall i, j :: 0 <= i < j < |rows| ==> rows[i].seqNo < rows[j].seqNo
  }

  /** The rows of a table or ledger with from <= seq <= to, in its order. */
  function InRange(rows: seq<Entry>, from: int, to: int): seq<Entry> {
    if rows == [] then []
    else
      var init, last := rows[..|rows| - 1], rows[|rows| - 1];
      InRange(init, from, to) + if from <= last.seqNo <= to then [last] else []
  }

  /** What `new Map` keeps of the rows: the last hash of each seq, in lower case. */
  function View(rows: seq<Entry>): map<int, string> {
    if rows == [] then map[]
    else View(rows[..|rows| - 1])[rows[|rows| - 1].seqNo := Lower(rows[|rows| - 1].bodyHash)]
  }

  lemma ViewOfOneMore(rows: seq<Entry>, e: Entry)
    ensures View(rows + [e]) == View(rows)[e.seqNo := Lower(e.bodyHash)]
  {
  }

  lemma {:induction false} ViewOfRange(rows: seq<Entry>, from: int, to: int, s: int)
    ensures s in View(InRange(rows, from, to)) <==> from <= s <= to && s in View(rows)
    ensures s in View(InRange(rows, from, to)) ==> View(InRange(rows, from, to))[s] == View(rows)[s]
  {
    if rows != [] {
      var init, last := rows[..|rows| - 1], rows[|rows| - 1];
      ViewOfRange(init, from, to, s);
      ViewOfOneMore(InRange(init, from, to), last);
      assert InRange(init, from, to) + [] == InRange(init, from, to);
    }
  }

  lemma {:induction false} ViewKeys(rows: seq<Entry>, s: int)
    ensures s in View(rows) <==> exists i :: 0 <= i < |rows| && rows[i].seqNo == s
  {
    if rows != [] {
      var init := rows[..|rows| - 1];
      ViewKeys(init, s);
      if i :| 0 <= i < |rows| && rows[i].seqNo == s && i < |init| { assert init[i].seqNo == s; }
    }
  }

  lemma {:induction false} ViewOfAscending(rows: seq<Entry>, i: nat)
    requires Ascending(rows) && i < |rows|
    ensures rows[i].seqNo in View(rows) && View(rows)[rows[i].seqNo] == Lower(rows[i].bodyHash)
  {
    if i < |rows| - 1 {
      ViewOfAscending(rows[..|rows| - 1], i);
    }
  }

  lemma {:induction false} InRangeAscending(rows: seq<Entry>, from: int, to: int)
    requires Ascending(rows)
    ensures Ascending(InRange(rows, from, to))
    ensures forall e :: e in InRange(rows, from, to) ==> e in rows && from <= e.seqNo <= to
  {
    if rows != [] {
      var init, last := rows[..|rows| - 1], rows[|rows| - 1];
      InRangeAscending(init, from, to);
      var part := InRange(init, from, to);
      forall i | 0 <= i < |part| ensures part[i].seqNo < last.seqNo {
        assert part[i] in init;
      }
    }
  }

  // ---------------------------------------- what one sweep over [lo, hi] means

  /** What one sequence number adds to the report. */
  function Judge(pg: map<int, string>, fab: map<int, string>, r: Report, s: int): Report {
    if s in pg then
      var counted := r.(checked := r.checked + 1);
      if s !in fab then counted.(missingFromFabric := r.missingFromFabric + [s])
      else if fab[s] != pg[s] then counted.(divergentSeqs := r.divergentSeqs + [Divergence(s, pg[s], fab[s])])
      else counted
    else if s in fab then r.(missingFromPostgres := r.missingFromPostgres + [s])
    else r
  }

  const EmptyReport := Report(0, [], [], [])

  /** The uncapped comparison: every sequence number of [lo, hi], in order. */
  function Sweep(pg: map<int, string>, fab: map<int, string>, lo: int, hi: int): Report
    decreases hi - lo + 1
  {
    if hi < lo then EmptyReport else Judge(pg, fab, Sweep(pg, fab, lo, hi - 1), hi)
  }

  function Append(a: Report, b: Report): Report {
    Report(a.checked + b.checked, a.missingFromFabric + b.missingFromFabric,
           a.missingFromPostgres + b.missingFromPostgres, a.divergentSeqs + b.divergentSeqs)
  }

  lemma AppendNothing(a: Report)
    ensures Append(a, EmptyReport) == a
  {
    assert a.missingFromFabric + [] == a.missingFromFabric;
    assert a.missingFromPostgres + [] == a.missingFromPostgres;
    assert a.divergentSeqs + [] == a.divergentSeqs;
  }

  /** What comes last in the second part comes last in the whole. */
  lemma JudgeAppended(pg: map<int, string>, fab: map<int, string>, a: Report, b: Report, s: int)
    ensures Judge(pg, fab, Append(a, b), s) == Append(a, Judge(pg, fab, b, s))
  {
    var l, r := Judge(pg, fab, Append(a, b), s), Append(a, Judge(pg, fab, b, s));
    assert l.missingFromFabric == r.missingFromFabric;
    assert l.missingFromPostgres == r.missingFromPostgres;
    assert l.divergentSeqs == r.divergentSeqs;
  }

  lemma SweepUnfolds(pg: map<int, string>, fab: map<int, string>, lo: int, hi: int)
    requires lo <= hi
    ensures Sweep(pg, fab, lo, hi) == Judge(pg, fab, Sweep(pg, fab, lo, hi - 1), hi)
  {
  }

  /** Sweeping two adjacent ranges and appending is sweeping their union. */
  lemma {:induction false} SweepSplits(pg: map<int, string>, fab: map<int, string>, lo: int, mid: int, hi: int)
    requires lo <= mid + 1 && mid <= hi
    ensures Sweep(pg, fab, lo, hi) == Append(Sweep(pg, fab, lo, mid), Sweep(pg, fab, mid + 1, hi))
    decreases hi - mid
  {
    var first := Sweep(pg, fab, lo, mid);
    if mid < hi {
      SweepSplits(pg, fab, lo, mid, hi - 1);
      SweepUnfolds(pg, fab, lo, hi);
      SweepUnfolds(pg, fab, mid + 1, hi);
      JudgeAppended(pg, fab, first, Sweep(pg, fab, mid + 1, hi - 1), hi);
    } else {
      AppendNothing(first);
    }
  }

  /** A sweep sees only the part of the ledgers inside its range. */
  lemma {:induction false} SweepIsLocal(pg: map<int, string>, fab: map<int, string>,
                                        pg': map<int, string>, fab': map<int, string>, lo: int, hi: int)
    requires forall s :: lo <= s <= hi ==> (s in pg <==> s in pg') && (s in fab <==> s in fab')
    requires forall s :: lo <= s <= hi && s in pg ==> pg[s] == pg'[s]
    requires forall s :: lo <= s <= hi && s in fab ==> fab[s] == fab'[s]
    ensures Sweep(pg, fab, lo, hi) == Sweep(pg', fab', lo, hi)
    decreases hi - lo + 1
  {
    if lo <= hi { SweepIsLocal(pg, fab, pg', fab', lo, hi - 1); }
  }

  /** The three lists, read as sets: the exact condition for each. */
  lemma {:induction false} SweepExact(pg: map<int, string>, fab: map<int, string>, lo: int, hi: int, s: int)
    ensures var r := Sweep(pg, fab, lo, hi);
      && (s in r.missingFromFabric <==> lo <= s <= hi && s in pg && s !in fab)
      && (s in r.missingFromPostgres <==> lo <= s <= hi && s !in pg && s in fab)
      && (forall a, b :: Divergence(s, a, b) in r.divergentSeqs <==>
            lo <= s <= hi && s in pg && s in fab && pg[s] == a && fab[s] == b && a != b)
    decreases hi - lo + 1
  {
    if lo <= hi { SweepExact(pg, fab, lo, hi - 1, s); }
  }

  ghost predicate Increasing(s: seq<int>) {
    forall i, j :: 0 <= i < j < |s| ==> s[i] < s[j]
  }

  lemma {:induction false} SweepListsIncrease(pg: map<int, string>, fab: map<int, string>, lo: int, hi: int)
    ensures var r := Sweep(pg, fab, lo, hi);
      && Increasing(r.missingFromPostgres) && (forall x :: x in r.missingFromPostgres ==> x <= hi)
      && Increasing(r.missingFromFabric) && (forall x :: x in r.missingFromFabric ==> x <= hi)
      && Increasing(SeqsOf(r.divergentSeqs)) && (forall x :: x in SeqsOf(r.divergentSeqs) ==> x <= hi)
    decreases hi - lo + 1
  {
    if lo <= hi {
      SweepListsIncrease(pg, fab, lo, hi - 1);
      var before := Sweep(pg, fab, lo, hi - 1);
      IncreasingOneMore(before.missingFromPostgres, hi);
      IncreasingOneMore(before.missingFromFabric, hi);
      IncreasingOneMore(SeqsOf(before.divergentSeqs), hi);
      SweepUnfolds(pg, fab, lo, hi);
      var after := Sweep(pg, fab, lo, hi);
      assert after.divergentSeqs != before.divergentSeqs ==>
             SeqsOf(after.divergentSeqs) == SeqsOf(before.divergentSeqs) + [hi];
    }
  }

  lemma IncreasingOneMore(s: seq<int>, x: int)
    requires Increasing(s) && forall y :: y in s ==> y <= x - 1
    ensures Increasing(s + [x]) && forall y :: y in s + [x] ==> y <= x
  {
    forall i | 0 <= i < |s| ensures s[i] < x { assert s[i] in s; }
  }

  // ------------------------------------------------ the report, told from the rows

  ghost predicate HasRow(rows: seq<Entry>, s: int) {
    exists i :: 0 <= i < |rows| && rows[i].seqNo == s
  }

  /** The last row with this sequence number carries this hash. */
  ghost predicate LastRow(rows: seq<Entry>, s: int, hash: string) {
    exists i :: 0 <= i < |rows| && rows[i] == Entry(s, hash) && forall j :: i < j < |rows| ==> rows[j].seqNo != s
  }

  lemma {:induction false} ViewHoldsLastRow(rows: seq<Entry>, s: int) returns (hash: string)
    requires s in View(rows)
    ensures LastRow(rows, s, hash) && View(rows)[s] == Lower(hash)
  {
    var init, last := rows[..|rows| - 1], rows[|rows| - 1];
    if last.seqNo == s {
      hash := last.bodyHash;
      assert rows[|rows| - 1] == Entry(s, hash);
    } else {
      hash := ViewHoldsLastRow(init, s);
      var i :| 0 <= i < |init| && init[i] == Entry(s, hash) && forall j :: i < j < |init| ==> init[j].seqNo != s;
      assert rows[i] == Entry(s, hash) && forall j :: i < j < |init| ==> rows[j] == init[j];
    }
  }

  lemma OneLastRow(rows: seq<Entry>, s: int, a: string, b: string)
    requires LastRow(rows, s, a) && LastRow(rows, s, b)
    ensures a == b
  {
    var i :| 0 <= i < |rows| && rows[i] == Entry(s, a) && forall j :: i < j < |rows| ==> rows[j].seqNo != s;
    var k :| 0 <= k < |rows| && rows[k] == Entry(s, b) && forall j :: k < j < |rows| ==> rows[j].seqNo != s;
    assert rows[i].seqNo == s && rows[k].seqNo == s;
  }

  lemma LastRowInView(rows: seq<Entry>, s: int, hash: string)
    requires LastRow(rows, s, hash)
    ensures s in View(rows) && View(rows)[s] == Lower(hash)
  {
    ViewKeys(rows, s);
    var other := ViewHoldsLastRow(rows, s);
    OneLastRow(rows, s, hash, other);
  }

  /** Both ledgers have the sequence number, with hashes that differ in more than letter
      case; the report gives them in lower case. */
  ghost predicate Conflict(pg: seq<Entry>, fabric: seq<Entry>, d: Divergence) {
    exists a, b :: LastRow(pg, d.seqNo, a) && LastRow(fabric, d.seqNo, b) && !SameUpToCase(a, b)
                   && d.pgBodyHash == Lower(a) && d.fabricBodyHash == Lower(b)
  }

  lemma ConflictInViews(pg: seq<Entry>, fabric: seq<Entry>, d: Divergence)
    ensures Conflict(pg, fabric, d) <==>
      && d.seqNo in View(pg) && d.seqNo in View(fabric) && View(pg)[d.seqNo] != View(fabric)[d.seqNo]
      && View(pg)[d.seqNo] == d.pgBodyHash && View(fabric)[d.seqNo] == d.fabricBodyHash
  {
    var s := d.seqNo;
    if a, b :| LastRow(pg, s, a) && LastRow(fabric, s, b) && !SameUpToCase(a, b)
               && d.pgBodyHash == Lower(a) && d.fabricBodyHash == Lower(b) {
      LastRowInView(pg, s, a);
      LastRowInView(fabric, s, b);
      LowerEquatesCases(a, b);
    }
    if s in View(pg) && s in View(fabric) && View(pg)[s] != View(fabric)[s] {
      var a := ViewHoldsLastRow(pg, s);
      var b := ViewHoldsLastRow(fabric, s);
      LowerEquatesCases(a, b);
    }
  }

  function SeqsOf(divergent: seq<Divergence>): (r: seq<int>)
    ensures |r| == |divergent|
  {
    seq(|divergent|, i requires 0 <= i < |divergent| => divergent[i].seqNo)
  }

  ghost function RowsBetween(rows: seq<Entry>, from: int, to: int): set<int> {
    set s | from <= s <= to && HasRow(rows, s)
  }

  lemma {:induction false} SweepChecks(pg: map<int, string>, fab: map<int, string>, lo: int, hi: int)
    ensures Sweep(pg, fab, lo, hi).checked == |set s | lo <= s <= hi && s in pg|
    decreases hi - lo + 1
  {
    if lo <= hi {
      SweepChecks(pg, fab, lo, hi - 1);
      KeysOfOneMore(pg, lo, hi);
      CheckedOfOneMore(pg, fab, Sweep(pg, fab, lo, hi - 1), hi);
    } else {
      assert (set s | lo <= s <= hi && s in pg) == {};
    }
  }

  lemma CheckedOfOneMore(pg: map<int, string>, fab: map<int, string>, r: Report, s: int)
    ensures Judge(pg, fab, r, s).checked == r.checked + if s in pg then 1 else 0
  {
  }

  lemma KeysOfOneMore(pg: map<int, string>, lo: int, hi: int)
    requires lo <= hi
    ensures |set s | lo <= s <= hi && s in pg| == |set s | lo <= s <= hi - 1 && s in pg| + if hi in pg then 1 else 0
  {
    var before := set s | lo <= s <= hi - 1 && s in pg;
    assert (set s | lo <= s <= hi && s in pg) == before + if hi in pg then {hi} else {};
  }

  /** What a report over [from, to] must say, list by list and in ascending order, and how
      many rows of Postgres it must count. */
  ghost predicate Compares(pg: seq<Entry>, fabric: seq<Entry>, from: int, to: int, r: Report) {
    && r.checked == |RowsBetween(pg, from, to)|
    && Increasing(r.missingFromFabric) && Increasing(r.missingFromPostgres) && Increasing(SeqsOf(r.divergentSeqs))
    && (forall s :: s in r.missingFromFabric <==> from <= s <= to && HasRow(pg, s) && !HasRow(fabric, s))
    && (forall s :: s in r.missingFromPostgres <==> from <= s <= to && !HasRow(pg, s) && HasRow(fabric, s))
    && (forall d :: d in r.divergentSeqs <==> from <= d.seqNo <= to && Conflict(pg, fabric, d))
  }

  lemma ChecksRows(pg: seq<Entry>, fabric: seq<Entry>, from: int, to: int)
    ensures Sweep(View(pg), View(fabric), from, to).checked == |RowsBetween(pg, from, to)|
  {
    SweepChecks(View(pg), View(fabric), from, to);
    forall s ensures s in View(pg) <==> HasRow(pg, s) { ViewKeys(pg, s); }
    assert RowsBetween(pg, from, to) == set s | from <= s <= to && s in View(pg);
  }

  lemma SweepCompares(pg: seq<Entry>, fabric: seq<Entry>, from: int, to: int)
    ensures Compares(pg, fabric, from, to, Sweep(View(pg), View(fabric), from, to))
  {
    var r := Sweep(View(pg), View(fabric), from, to);
    SweepListsIncrease(View(pg), View(fabric), from, to);
    ChecksRows(pg, fabric, from, to);
    forall s
      ensures s in r.missingFromFabric <==> from <= s <= to && HasRow(pg, s) && !HasRow(fabric, s)
      ensures s in r.missingFromPostgres <==> from <= s <= to && !HasRow(pg, s) && HasRow(fabric, s)
    {
      SweepExact(View(pg), View(fabric), from, to, s);
      ViewKeys(pg, s);
      ViewKeys(fabric, s);
    }
    forall d ensures d in r.divergentSeqs <==> from <= d.seqNo <= to && Conflict(pg, fabric, d) {
      SweepExact(View(pg), View(fabric), from, to, d.seqNo);
      ConflictInViews(pg, fabric, d);
      assert d == Divergence(d.seqNo, d.pgBodyHash, d.fabricBodyHash);
    }
  }

  // ------------------------------------------------- one capped verification

  /** Over a stretch without Postgres rows the forward lists stand still. */
  lemma {:induction false} NoRowsNoFindings(pg: map<int, string>, fab: map<int, string>, lo: int, mid: int, hi: int)
    requires lo <= mid + 1 && mid <= hi
    requires forall s :: mid < s <= hi ==> s !in pg
    ensures var a, b := Sweep(pg, fab, lo, mid), Sweep(pg, fab, lo, hi);
      a.checked == b.checked && a.missingFromFabric == b.missingFromFabric && a.divergentSeqs == b.divergentSeqs
    decreases hi - mid
  {
    if mid < hi { NoRowsNoFindings(pg, fab, lo, mid, hi - 1); }
  }

  /** The last sequence number settled once the first n rows are processed. */
  function Settled(rows: seq<Entry>, n: nat, to: int): int
    requires n <= |rows|
  {
    if n < |rows| then rows[n].seqNo - 1 else to
  }

  /** `pg` is the view of `rows`, which lie in [from, to]. */
  ghost predicate RowsOf(rows: seq<Entry>, pg: map<int, string>, from: int, to: int) {
    && Ascending(rows) && pg == View(rows)
    && forall i :: 0 <= i < |rows| ==> from <= rows[i].seqNo <= to
  }

  lemma RowsStart(rows: seq<Entry>, pg: map<int, string>, fab: map<int, string>, from: int, to: int)
    requires RowsOf(rows, pg, from, to) && from <= to
    ensures var r := Sweep(pg, fab, from, Settled(rows, 0, to));
      r.checked == 0 && r.missingFromFabric == [] && r.divergentSeqs == []
  {
    forall s | from <= s <= Settled(rows, 0, to) ensures s !in pg { ViewKeys(rows, s); }
    NoRowsNoFindings(pg, fab, from, from - 1, Settled(rows, 0, to));
  }

  lemma RowsStep(rows: seq<Entry>, pg: map<int, string>, fab: map<int, string>, from: int, to: int, n: nat)
    requires RowsOf(rows, pg, from, to) && n < |rows|
    ensures var a := Sweep(pg, fab, from, Settled(rows, n, to));
      var b := Sweep(pg, fab, from, Settled(rows, n + 1, to));
      var j := Judge(pg, fab, a, rows[n].seqNo);
      b.checked == j.checked && b.missingFromFabric == j.missingFromFabric && b.divergentSeqs == j.divergentSeqs
  {
    var next := Settled(rows, n + 1, to);
    forall s | rows[n].seqNo < s <= next ensures s !in pg { ViewKeys(rows, s); }
    NoRowsNoFindings(pg, fab, from, rows[n].seqNo, next);
  }

  method ForwardScan(rows: seq<Entry>, pg: map<int, string>, fab: map<int, string>, from: int, to: int)
    returns (missing: seq<int>, divergent: seq<Divergence>)
    requires RowsOf(rows, pg, from, to) && from <= to
    ensures var r := Sweep(pg, fab, from, to);
      missing == r.missingFromFabric && divergent == r.divergentSeqs && |rows| == r.checked
  {
    missing, divergent := [], [];
    RowsStart(rows, pg, fab, from, to);
    for n := 0 to |rows|
      invariant var r := Sweep(pg, fab, from, Settled(rows, n, to));
        missing == r.missingFromFabric && divergent == r.divergentSeqs && n == r.checked
    {
      RowsStep(rows, pg, fab, from, to, n);
      ViewOfAscending(rows, n);
      var row := rows[n];
      var pgHash := Lower(row.bodyHash);
      if row.seqNo !in fab {
        missing := missing + [row.seqNo];
      } else if fab[row.seqNo] != pgHash {
        divergent := divergent + [Divergence(row.seqNo, pgHash, fab[row.seqNo])];
      }
    }
  }

  function InsertInt(x: int, s: seq<int>): seq<int> {
    if s == [] || x < s[0] then [x] + s else [s[0]] + InsertInt(x, s[1..])
  }

  /** `sort` by BigInt value. */
  function SortInts(s: seq<int>): seq<int> {
    if s == [] then [] else InsertInt(s[0], SortInts(s[1..]))
  }

  lemma {:induction false} InsertIntCorrect(x: int, s: seq<int>)
    requires Increasing(s) && x !in s
    ensures Increasing(InsertInt(x, s))
    ensures forall y :: y in InsertInt(x, s) <==> y == x || y in s
  {
    if s != [] && x > s[0] {
      InsertIntCorrect(x, s[1..]);
      assert s == [s[0]] + s[1..];
      var t := InsertInt(x, s[1..]);
      forall i | 0 <= i < |t| ensures s[0] < t[i] { assert t[i] in t; }
    }
  }

  lemma {:induction false} SortIntsCorrect(s: seq<int>)
    requires Distinct(s)
    ensures Increasing(SortInts(s)) && forall y :: y in SortInts(s) <==> y in s
  {
    if s != [] {
      SortIntsCorrect(s[1..]);
      assert s == [s[0]] + s[1..];
      assert s[0] !in s[1..];
      InsertIntCorrect(s[0], SortInts(s[1..]));
    }
  }

  lemma {:induction false} IncreasingUnique(a: seq<int>, b: seq<int>)
    requires Increasing(a) && Increasing(b) && forall x :: x in a <==> x in b
    ensures a == b
  {
    assert a != [] ==> a[0] in a;
    assert b != [] ==> b[0] in b;
    if a != [] && b != [] {
      assert a[0] in b && b[0] in a;
      assert a[0] == b[0];
      assert a == [a[0]] + a[1..] && b == [b[0]] + b[1..];
      forall x ensures x in a[1..] <==> x in b[1..] {
        assert x in a[1..] ==> x in b && x != a[0];
        assert x in b[1..] ==> x in a && x != b[0];
      }
      IncreasingUnique(a[1..], b[1..]);
    }
  }

  /** Fill `fabBySeq`, remembering the insertion order of its keys. */
  method FillMap(rows: seq<Entry>) returns (keys: seq<int>, m: map<int, string>)
    ensures m == View(rows) && Distinct(keys) && forall s :: s in keys <==> s in m
  {
    keys, m := [], map[];
    for n := 0 to |rows|
      invariant m == View(rows[..n]) && Distinct(keys) && forall s :: s in keys <==> s in m
    {
      assert rows[..n + 1][..n] == rows[..n];
      if rows[n].seqNo !in m { keys := keys + [rows[n].seqNo]; }
      m := m[rows[n].seqNo := Lower(rows[n].bodyHash)];
    }
    assert rows[..|rows|] == rows;
  }

  method ReverseScan(keys: seq<int>, pg: map<int, string>, fab: map<int, string>, from: int, to: int)
    returns (missing: seq<int>)
    requires Distinct(keys) && (forall s :: s in keys <==> s in fab) && (forall s :: s in fab ==> from <= s <= to)
    ensures missing == Sweep(pg, fab, from, to).missingFromPostgres
  {
    missing := [];
    for n := 0 to |keys|
      invariant Distinct(missing) && forall s :: s in missing <==> s in keys[..n] && s !in pg
    {
      assert keys[n] !in keys[..n];
      assert keys[..n + 1] == keys[..n] + [keys[n]];
      if keys[n] !in pg { missing := missing + [keys[n]]; }
    }
    assert keys[..|keys|] == keys;
    SortIntsCorrect(missing);
    SweepListsIncrease(pg, fab, from, to);
    forall s ensures s in SortInts(missing) <==> s in Sweep(pg, fab, from, to).missingFromPostgres {
      SweepExact(pg, fab, from, to, s);
    }
    IncreasingUnique(SortInts(missing), Sweep(pg, fab, from, to).missingFromPostgres);
    missing := SortInts(missing);
  }

  lemma SweepOfLedgers(pg: seq<Entry>, fabric: seq<Entry>, from: int, to: int)
    ensures Sweep(View(InRange(pg, from, to)), View(InRange(fabric, from, to)), from, to)
            == Sweep(View(pg), View(fabric), from, to)
  {
    var pgPart, fabPart := View(InRange(pg, from, to)), View(InRange(fabric, from, to));
    forall s | from <= s <= to
      ensures (s in pgPart <==> s in View(pg)) && (s in fabPart <==> s in View(fabric))
      ensures s in pgPart ==> pgPart[s] == View(pg)[s]
      ensures s in fabPart ==> fabPart[s] == View(fabric)[s]
    {
      ViewOfRange(pg, from, to, s);
      ViewOfRange(fabric, from, to, s);
    }
    SweepIsLocal(pgPart, fabPart, View(pg), View(fabric), from, to);
  }

  method VerifyCrossWitness(pg: seq<Entry>, fabric: seq<Entry>, from: int, to: int) returns (r: Result)
    requires Ascending(pg)
    ensures r == if to < from then Err(RangeInvalid)
                 else if to - from + 1 > CROSS_WITNESS_MAX_RANGE then Err(RangeExceedsCap)
                 else Ok(Sweep(View(pg), View(fabric), from, to))
    // that is: what each list holds, told from the rows
    ensures r.Ok? ==> Compares(pg, fabric, from, to, r.report)
  {
    SweepCompares(pg, fabric, from, to);
    if to < from { return Err(RangeInvalid); }
    var span := to - from + 1;
    if span > CROSS_WITNESS_MAX_RANGE { return Err(RangeExceedsCap); }
    var pgRows := InRange(pg, from, to);
    var fabRows := InRange(fabric, from, to);
    InRangeAscending(pg, from, to);
    forall i | 0 <= i < |pgRows| ensures from <= pgRows[i].seqNo <= to { assert pgRows[i] in pgRows; }
    var fabKeys, fabBySeq := FillMap(fabRows);
    var _, pgBySeq := FillMap(pgRows);
    var missing, divergent := ForwardScan(pgRows, pgBySeq, fabBySeq, from, to);
    forall s | s in fabBySeq ensures from <= s <= to { ViewOfRange(fabric, from, to, s); }
    var missingFromPostgres := ReverseScan(fabKeys, pgBySeq, fabBySeq, from, to);
    SweepOfLedgers(pg, fabric, from, to);
    return Ok(Report(|pgRows|, missing, missingFromPostgres, divergent));
  }

  // ------------------------------------------------------------ in windows

  /** One call of the capped sweep. */
  method OneWindow(pg: seq<Entry>, fabric: seq<Entry>, from: int, to: int) returns (partial: Result)
    requires Ascending(pg) && from <= to < from + 500_000
    ensures partial == Ok(Sweep(View(pg), View(fabric), from, to))
  {
    partial := VerifyCrossWitness(pg, fabric, from, to);
  }

  /** How many windows have been swept when the next one begins at `cursor`. */
  ghost predicate WindowsTo(from: int, to: int, cursor: int, windows: nat) {
    && (cursor <= to ==> cursor - from == windows * 500_000)
    && (cursor == to + 1 ==> (windows - 1) * 500_000 < to - from + 1 <= windows * 500_000)
  }

  lemma WindowsToNext(from: int, to: int, cursor: int, windowTo: int, windows: nat)
    requires cursor <= to && WindowsTo(from, to, cursor, windows)
    requires windowTo == if cursor + 499_999 < to then cursor + 499_999 else to
    ensures WindowsTo(from, to, windowTo + 1, windows + 1)
  {
  }

  /** The windowed sweep reports what the single uncapped sweep would, in the same
      order, and never trips over the cap. */
  method VerifyCrossWitnessWindowed(pg: seq<Entry>, fabric: seq<Entry>, from: int, to: int)
    returns (r: Result, windows: nat)
    requires Ascending(pg)
    ensures to < from ==> r == Err(RangeInvalid)
    ensures from <= to ==> r == Ok(Sweep(View(pg), View(fabric), from, to))
    ensures r.Ok? ==> Compares(pg, fabric, from, to, r.report)
    ensures from <= to ==>
      (windows - 1) * 500_000 < to - from + 1 <= windows * 500_000
  {
    SweepCompares(pg, fabric, from, to);
    windows := 0;
    if to < from { return Err(RangeInvalid), windows; }
    var total := EmptyReport;
    var cursor := from;
    while cursor <= to
      invariant from <= cursor <= to + 1
      invariant total == Sweep(View(pg), View(fabric), from, cursor - 1)
      invariant WindowsTo(from, to, cursor, windows)
    {
      var windowTo := if cursor + CROSS_WITNESS_MAX_RANGE - 1 < to then cursor + CROSS_WITNESS_MAX_RANGE - 1 else to;
      var partial := OneWindow(pg, fabric, cursor, windowTo);
      SweepSplits(View(pg), View(fabric), from, cursor - 1, windowTo);
      if partial.Err? { return partial, windows; }
      WindowsToNext(from, to, cursor, windowTo, windows);
      total := Append(total, partial.report);
      cursor := windowTo + 1;
      windows := windows + 1;
    }
    r := Ok(total);
  }
}
