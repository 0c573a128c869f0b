/**
 `computeReconciliationPlan` and `planSummary`
 (apps/worker-reconcil-audit/src/reconcile.ts), and how the plan relates to the
 cross-witness verifier and to what the anchor loop has actually covered.
 */
module Reconcile {
  import opened JsStrings
  import opened CrossWitness
  import AC = AnchorContract
  import AL = AnchorLoop

  datatype TxField = Null | Tx(hash: string)

  datatype AnchorRow = AnchorRow(seqFrom: int, seqTo: int, polygonTxHash: TxField)

  datatype Plan = Plan(
    missingFromFabric: seq<Entry>,
    missingFromPolygon: seq<Entry>,
    divergent: seq<Divergence>,
    totalChecked: nat)

  datatype Summary = Summary(total: nat, missingFabric: nat, missingPolygon: nat, divergent: nat, clean: bool)

  // -------------------------------------------------------- meaning of a plan

  datatype Verdict = Matched | Missing | Divergent

  function Judgement(a: Entry, fab: map<int, string>): Verdict {
    if a.seqNo !in fab then Missing
    else if fab[a.seqNo] != Lower(a.bodyHash) then Divergent
    else Matched
  }

  /** The commitment was broadcast: its transaction hash is present and not empty. */
  predicate Broadcast(r: AnchorRow) {
    r.polygonTxHash != Null && r.polygonTxHash != Tx("")
  }

  ghost predicate Covered(anchors: seq<AnchorRow>, s: int) {
    exists i :: 0 <= i < |anchors| && Broadcast(anchors[i]) && anchors[i].seqFrom <= s <= anchors[i].seqTo
  }

  function Lowered(a: Entry): Entry { Entry(a.seqNo, Lower(a.bodyHash)) }

  function MissingOf(actions: seq<Entry>, fab: map<int, string>): seq<Entry> {
    if actions == [] then []
    else
      var init, a := actions[..|actions| - 1], actions[|actions| - 1];
      MissingOf(init, fab) + if Judgement(a, fab) == Missing then [Lowered(a)] else []
  }

  function DivergentOf(actions: seq<Entry>, fab: map<int, string>): seq<Divergence> {
    if actions == [] then []
    else
      var init, a := actions[..|actions| - 1], actions[|actions| - 1];
      DivergentOf(init, fab) +
      if Judgement(a, fab) == Divergent then [Divergence(a.seqNo, Lower(a.bodyHash), fab[a.seqNo])] else []
  }

  ghost function UncoveredOf(actions: seq<Entry>, anchors: seq<AnchorRow>): seq<Entry> {
    if actions == [] then []
    else
      var init, a := actions[..|actions| - 1], actions[|actions| - 1];
      UncoveredOf(init, anchors) + if !Covered(anchors, a.seqNo) then [Lowered(a)] else []
  }

  ghost function PlanOf(actions: seq<Entry>, witnesses: seq<Entry>, anchors: seq<AnchorRow>): Plan {
    Plan(MissingOf(actions, View(witnesses)), UncoveredOf(actions, anchors),
         DivergentOf(actions, View(witnesses)), |actions|)
  }

  // ----------------------------------------------------------- the computation

  /** `.filter(broadcast).map(range)`. */
  function Ranges(anchors: seq<AnchorRow>): seq<(int, int)> {
    if anchors == [] then []
    else
      var init, r := anchors[..|anchors| - 1], anchors[|anchors| - 1];
      Ranges(init) + if Broadcast(r) then [(r.seqFrom, r.seqTo)] else []
  }

  ghost predicate SomeRangeHolds(ranges: seq<(int, int)>, s: int) {
    exists i :: 0 <= i < |ranges| && ranges[i].0 <= s <= ranges[i].1
  }

  lemma {:induction false} RangesCover(anchors: seq<AnchorRow>, s: int)
    ensures SomeRangeHolds(Ranges(anchors), s) <==> Covered(anchors, s)
  {
    if anchors != [] {
      var init, r := anchors[..|anchors| - 1], anchors[|anchors| - 1];
      RangesCover(init, s);
      var before, after := Ranges(init), Ranges(anchors);
      if Broadcast(r) { assert after[|before|] == (r.seqFrom, r.seqTo); }
      if i :| 0 <= i < |before| && before[i].0 <= s <= before[i].1 { assert after[i] == before[i]; }
      if i :| 0 <= i < |init| && Broadcast(init[i]) && init[i].seqFrom <= s <= init[i].seqTo {
        assert anchors[i] == init[i];
      }
      if i :| 0 <= i < |anchors| && Broadcast(anchors[i]) && anchors[i].seqFrom <= s <= anchors[i].seqTo {
        assert i < |init| ==> init[i] == anchors[i];
      }
    }
  }

  method IsCovered(ranges: seq<(int, int)>, s: int) returns (covered: bool)
    ensures covered <==> SomeRangeHolds(ranges, s)
  {
    for n := 0 to |ranges|
      invariant forall i :: 0 <= i < n ==> !(ranges[i].0 <= s <= ranges[i].1)
    {
      if ranges[n].0 <= s <= ranges[n].1 { return true; }
    }
    return false;
  }

  method ComputeReconciliationPlan(actions: seq<Entry>, witnesses: seq<Entry>, anchors: seq<AnchorRow>)
    returns (plan: Plan)
    ensures plan == PlanOf(actions, witnesses, anchors)
    // that is: which actions each list names, told from the rows
    ensures forall e :: e in plan.missingFromFabric <==> NamedMissing(actions, witnesses, e)
    ensures forall e :: e in plan.missingFromPolygon <==> NamedUncovered(actions, anchors, e)
    ensures forall d :: d in plan.divergent <==> NamedDivergent(actions, witnesses, d)
    ensures plan.totalChecked == |actions|
  {
    PlanNames(actions, witnesses, anchors);
    var _, fabricBySeq := FillMap(witnesses);
    var missingFromFabric, divergent := [], [];
    for n := 0 to |actions|
      invariant missingFromFabric == MissingOf(actions[..n], fabricBySeq)
      invariant divergent == DivergentOf(actions[..n], fabricBySeq)
    {
      var a := actions[n];
      assert actions[..n + 1][..n] == actions[..n];
      var pgHash := Lower(a.bodyHash);
      if a.seqNo !in fabricBySeq {
        missingFromFabric := missingFromFabric + [Entry(a.seqNo, pgHash)];
      } else if fabricBySeq[a.seqNo] != pgHash {
        divergent := divergent + [Divergence(a.seqNo, pgHash, fabricBySeq[a.seqNo])];
      }
    }
    var ranges := Ranges(anchors);
    var missingFromPolygon := [];
    for n := 0 to |actions|
      invariant missingFromPolygon == UncoveredOf(actions[..n], anchors)
    {
      var a := actions[n];
      assert actions[..n + 1][..n] == actions[..n];
      var covered := IsCovered(ranges, a.seqNo);
      RangesCover(anchors, a.seqNo);
      if !covered {
        missingFromPolygon := missingFromPolygon + [Entry(a.seqNo, Lower(a.bodyHash))];
      }
    }
    assert actions[..|actions|] == actions;
    return Plan(missingFromFabric, missingFromPolygon, divergent, |actions|);
  }

  function PlanSummary(plan: Plan): Summary {
    Summary(plan.totalChecked, |plan.missingFromFabric|, |plan.missingFromPolygon|, |plan.divergent|,
            |plan.missingFromFabric| == 0 && |plan.missingFromPolygon| == 0 && |plan.divergent| == 0)
  }

  // ------------------------------------------------------- what a plan promises

  function MatchedCount(actions: seq<Entry>, fab: map<int, string>): nat {
    if actions == [] then 0
    else MatchedCount(actions[..|actions| - 1], fab) + if Judgement(actions[|actions| - 1], fab) == Matched then 1 else 0
  }

  /** Nothing is lost and nothing is counted twice: matched, missing and divergent
      rows add up to the rows checked. */
  lemma {:induction false} PlanAccountsForEveryAction(actions: seq<Entry>, witnesses: seq<Entry>, anchors: seq<AnchorRow>)
    ensures var p := PlanOf(actions, witnesses, anchors);
      |p.missingFromFabric| + |p.divergent| + MatchedCount(actions, View(witnesses)) == p.totalChecked
  {
    if actions != [] {
      PlanAccountsForEveryAction(actions[..|actions| - 1], witnesses, anchors);
    }
  }

  /** The last witness of the action carries its hash, in whatever letter case. */
  ghost predicate Witnessed(witnesses: seq<Entry>, a: Entry) {
    exists h :: LastRow(witnesses, a.seqNo, h) && SameUpToCase(h, a.bodyHash)
  }

  /** The actions are taken one after the other: the lists of a longer range are those of
      its two parts, one behind the other. */
  lemma {:induction false} PlanSplits(a: seq<Entry>, b: seq<Entry>, witnesses: seq<Entry>, anchors: seq<AnchorRow>)
    ensures var p, q, all := PlanOf(a, witnesses, anchors), PlanOf(b, witnesses, anchors), PlanOf(a + b, witnesses, anchors);
      && all.missingFromFabric == p.missingFromFabric + q.missingFromFabric
      && all.missingFromPolygon == p.missingFromPolygon + q.missingFromPolygon
      && all.divergent == p.divergent + q.divergent
  {
    if b == [] {
      assert a + b == a;
    } else {
      assert (a + b)[..|a + b| - 1] == a + b[..|b| - 1];
      PlanSplits(a, b[..|b| - 1], witnesses, anchors);
    }
  }

  lemma JudgementMeans(a: Entry, witnesses: seq<Entry>)
    ensures Judgement(a, View(witnesses)) == Missing <==> !HasRow(witnesses, a.seqNo)
    ensures Judgement(a, View(witnesses)) == Matched <==> Witnessed(witnesses, a)
  {
    ViewKeys(witnesses, a.seqNo);
    if a.seqNo in View(witnesses) {
      var h := ViewHoldsLastRow(witnesses, a.seqNo);
      LowerEquatesCases(h, a.bodyHash);
      forall g | LastRow(witnesses, a.seqNo, g) ensures g == h { OneLastRow(witnesses, a.seqNo, g, h); }
    } else {
      forall g ensures !LastRow(witnesses, a.seqNo, g) {
        if LastRow(witnesses, a.seqNo, g) { LastRowInView(witnesses, a.seqNo, g); }
      }
    }
  }

  /** Some commitment over the sequence number has a transaction hash that is not empty. */
  ghost predicate OnPolygon(anchors: seq<AnchorRow>, s: int) {
    exists i, h :: 0 <= i < |anchors| && anchors[i].polygonTxHash == Tx(h) && h != ""
                   && anchors[i].seqFrom <= s <= anchors[i].seqTo
  }

  lemma CoveredMeans(anchors: seq<AnchorRow>, s: int)
    ensures Covered(anchors, s) <==> OnPolygon(anchors, s)
  {
    if i :| 0 <= i < |anchors| && Broadcast(anchors[i]) && anchors[i].seqFrom <= s <= anchors[i].seqTo {
      assert anchors[i].polygonTxHash == Tx(anchors[i].polygonTxHash.hash);
    }
    if i, h :| 0 <= i < |anchors| && anchors[i].polygonTxHash == Tx(h) && h != ""
               && anchors[i].seqFrom <= s <= anchors[i].seqTo {
      assert Broadcast(anchors[i]);
    }
  }

  /** The action is an entry of the list of unwitnessed actions .. */
  ghost predicate NamedMissing(actions: seq<Entry>, witnesses: seq<Entry>, e: Entry) {
    exists a :: a in actions && e == Lowered(a) && !HasRow(witnesses, a.seqNo)
  }

  /** .. of those without a broadcast commitment .. */
  ghost predicate NamedUncovered(actions: seq<Entry>, anchors: seq<AnchorRow>, e: Entry) {
    exists a :: a in actions && e == Lowered(a) && !OnPolygon(anchors, a.seqNo)
  }

  /** .. or of those whose last witness carries another hash. */
  ghost predicate NamedDivergent(actions: seq<Entry>, witnesses: seq<Entry>, d: Divergence) {
    exists a, h :: a in actions && LastRow(witnesses, a.seqNo, h) && !SameUpToCase(h, a.bodyHash)
                   && d == Divergence(a.seqNo, Lower(a.bodyHash), Lower(h))
  }

  /** What each list of the plan holds, told from the rows. */
  lemma {:induction false} PlanNames(actions: seq<Entry>, witnesses: seq<Entry>, anchors: seq<AnchorRow>)
    ensures var p := PlanOf(actions, witnesses, anchors);
      && (forall e :: e in p.missingFromFabric <==> NamedMissing(actions, witnesses, e))
      && (forall e :: e in p.missingFromPolygon <==> NamedUncovered(actions, anchors, e))
      && (forall d :: d in p.divergent <==> NamedDivergent(actions, witnesses, d))
  {
    if actions != [] {
      var init, last := actions[..|actions| - 1], actions[|actions| - 1];
      assert actions == init + [last];
      PlanNames(init, witnesses, anchors);
      NamesMissing(init, last, witnesses);
      NamesUncovered(init, last, anchors);
      NamesDivergent(init, last, witnesses);
    }
  }

  lemma NamesMissing(init: seq<Entry>, last: Entry, witnesses: seq<Entry>)
    ensures forall e :: NamedMissing(init + [last], witnesses, e) <==>
      NamedMissing(init, witnesses, e) || (Judgement(last, View(witnesses)) == Missing && e == Lowered(last))
  {
    JudgementMeans(last, witnesses);
    forall e ensures NamedMissing(init + [last], witnesses, e) <==>
      NamedMissing(init, witnesses, e) || (!HasRow(witnesses, last.seqNo) && e == Lowered(last))
    {
      if a :| a in init && e == Lowered(a) && !HasRow(witnesses, a.seqNo) { assert a in init + [last]; }
      assert last in init + [last];
    }
  }

  lemma NamesUncovered(init: seq<Entry>, last: Entry, anchors: seq<AnchorRow>)
    ensures forall e :: NamedUncovered(init + [last], anchors, e) <==>
      NamedUncovered(init, anchors, e) || (!Covered(anchors, last.seqNo) && e == Lowered(last))
  {
    CoveredMeans(anchors, last.seqNo);
    forall e ensures NamedUncovered(init + [last], anchors, e) <==>
      NamedUncovered(init, anchors, e) || (!OnPolygon(anchors, last.seqNo) && e == Lowered(last))
    {
      if a :| a in init && e == Lowered(a) && !OnPolygon(anchors, a.seqNo) { assert a in init + [last]; }
      assert last in init + [last];
    }
  }

  lemma NamesDivergent(init: seq<Entry>, last: Entry, witnesses: seq<Entry>)
    ensures forall d :: NamedDivergent(init + [last], witnesses, d) <==>
      NamedDivergent(init, witnesses, d)
      || (Judgement(last, View(witnesses)) == Divergent
          && d == Divergence(last.seqNo, Lower(last.bodyHash), View(witnesses)[last.seqNo]))
  {
    forall d ensures NamedDivergent(init + [last], witnesses, d) <==>
      NamedDivergent(init, witnesses, d) || NamedDivergent([last], witnesses, d)
    {
      if a, h :| a in init && LastRow(witnesses, a.seqNo, h) && !SameUpToCase(h, a.bodyHash)
                 && d == Divergence(a.seqNo, Lower(a.bodyHash), Lower(h)) {
        assert a in init + [last];
      }
      if a, h :| a in [last] && LastRow(witnesses, a.seqNo, h) && !SameUpToCase(h, a.bodyHash)
                 && d == Divergence(a.seqNo, Lower(a.bodyHash), Lower(h)) {
        assert a in init + [last];
      }
    }
    forall d ensures NamedDivergent([last], witnesses, d) <==>
      Judgement(last, View(witnesses)) == Divergent
      && d == Divergence(last.seqNo, Lower(last.bodyHash), View(witnesses)[last.seqNo])
    {
      OneDivergent(last, witnesses, d);
    }
  }

  lemma OneDivergent(a: Entry, witnesses: seq<Entry>, d: Divergence)
    ensures NamedDivergent([a], witnesses, d) <==>
      Judgement(a, View(witnesses)) == Divergent
      && d == Divergence(a.seqNo, Lower(a.bodyHash), View(witnesses)[a.seqNo])
  {
    JudgementMeans(a, witnesses);
    forall h | LastRow(witnesses, a.seqNo, h)
      ensures a.seqNo in View(witnesses) && View(witnesses)[a.seqNo] == Lower(h)
      ensures SameUpToCase(h, a.bodyHash) <==> Lower(h) == Lower(a.bodyHash)
    {
      LastRowInView(witnesses, a.seqNo, h);
      LowerEquatesCases(h, a.bodyHash);
    }
    if a.seqNo in View(witnesses) {
      var h := ViewHoldsLastRow(witnesses, a.seqNo);
      assert a in [a];
    }
  }

  /** A clean summary means every action is witnessed with its own hash and anchored. */
  lemma CleanMeansWitnessedAndAnchored(actions: seq<Entry>, witnesses: seq<Entry>, anchors: seq<AnchorRow>)
    ensures PlanSummary(PlanOf(actions, witnesses, anchors)).clean <==>
      forall i :: 0 <= i < |actions| ==> Witnessed(witnesses, actions[i]) && OnPolygon(anchors, actions[i].seqNo)
  {
    CleanByJudgement(actions, witnesses, anchors);
    forall i | 0 <= i < |actions|
      ensures Judgement(actions[i], View(witnesses)) == Matched <==> Witnessed(witnesses, actions[i])
      ensures Covered(anchors, actions[i].seqNo) <==> OnPolygon(anchors, actions[i].seqNo)
    {
      JudgementMeans(actions[i], witnesses);
      CoveredMeans(anchors, actions[i].seqNo);
    }
  }

  lemma {:induction false} CleanByJudgement(actions: seq<Entry>, witnesses: seq<Entry>, anchors: seq<AnchorRow>)
    ensures PlanSummary(PlanOf(actions, witnesses, anchors)).clean <==>
      forall i :: 0 <= i < |actions| ==>
        Judgement(actions[i], View(witnesses)) == Matched && Covered(anchors, actions[i].seqNo)
  {
    if actions != [] {
      var init := actions[..|actions| - 1];
      CleanByJudgement(init, witnesses, anchors);
      assert forall i :: 0 <= i < |init| ==> init[i] == actions[i];
    }
  }

  // ------------------------------------------- agreement with the cross-witness

  function SeqNos(entries: seq<Entry>): (r: seq<int>)
    ensures |r| == |entries|
  {
    seq(|entries|, i requires 0 <= i < |entries| => entries[i].seqNo)
  }

  /** After the first n rows of a range the two scans have found the same. */
  lemma {:induction false} ScansAgree(rows: seq<Entry>, pg: map<int, string>, fab: map<int, string>,
                                      from: int, to: int, n: nat)
    requires RowsOf(rows, pg, from, to) && from <= to && n <= |rows|
    ensures var r := Sweep(pg, fab, from, Settled(rows, n, to));
      SeqNos(MissingOf(rows[..n], fab)) == r.missingFromFabric && DivergentOf(rows[..n], fab) == r.divergentSeqs
      && r.checked == n
  {
    if n == 0 {
      RowsStart(rows, pg, fab, from, to);
    } else {
      ScansAgree(rows, pg, fab, from, to, n - 1);
      RowsStep(rows, pg, fab, from, to, n - 1);
      ViewOfAscending(rows, n - 1);
      OneMoreScanned(rows, fab, n - 1);
    }
  }

  lemma OneMoreScanned(rows: seq<Entry>, fab: map<int, string>, n: nat)
    requires n < |rows|
    ensures SeqNos(MissingOf(rows[..n + 1], fab)) ==
            SeqNos(MissingOf(rows[..n], fab)) + (if Judgement(rows[n], fab) == Missing then [rows[n].seqNo] else [])
    ensures DivergentOf(rows[..n + 1], fab) ==
            DivergentOf(rows[..n], fab) +
            (if Judgement(rows[n], fab) == Divergent
             then [Divergence(rows[n].seqNo, Lower(rows[n].bodyHash), fab[rows[n].seqNo])] else [])
  {
    assert rows[..n + 1][..n] == rows[..n];
  }

  /** On the same rows, the reconciler and the cross-witness verifier report the same
      missing and divergent sequence numbers. */
  lemma PlanAgreesWithCrossWitness(pg: seq<Entry>, fabric: seq<Entry>, anchors: seq<AnchorRow>, from: int, to: int)
    requires Ascending(pg) && from <= to
    ensures var plan := PlanOf(InRange(pg, from, to), InRange(fabric, from, to), anchors);
      var report := Sweep(View(pg), View(fabric), from, to);
      && SeqNos(plan.missingFromFabric) == report.missingFromFabric
      && plan.divergent == report.divergentSeqs
      && plan.totalChecked == report.checked
  {
    var rows, fab := InRange(pg, from, to), View(InRange(fabric, from, to));
    InRangeAscending(pg, from, to);
    forall i | 0 <= i < |rows| ensures from <= rows[i].seqNo <= to { assert rows[i] in rows; }
    ScansAgree(rows, View(rows), fab, from, to, |rows|);
    assert rows[..|rows|] == rows;
    SweepOfLedgers(pg, fabric, from, to);
  }

  // --------------------------------------------- agreement with the anchor loop

  /** The anchor loop's table as the reconciler reads it. */
  function AnchorRows<D>(db: seq<AL.Row<D>>): (r: seq<AnchorRow>)
    ensures |r| == |db|
  {
    seq(|db|, i requires 0 <= i < |db| => AnchorRow(db[i].seqFrom, db[i].seqTo, Tx(db[i].polygonTxHash)))
  }

  /** In every reachable state of the anchor loop a row counts as covered exactly
      up to the cursor. */
  lemma CoveredUpToTheCursor<D>(hash: AL.Hashing<D>, hashes: seq<D>, events: seq<AL.Event<D>>, s: int)
    requires s >= 1
    ensures var db := AL.Run(hash, AL.Initial(hashes), events).db;
      Covered(AnchorRows(db), s) <==> s <= AL.MaxSeqTo(db)
  {
    var db := AL.Run(hash, AL.Initial(hashes), events).db;
    AL.DatabaseTiles(hash, hashes, events, s);
    var log, rows := AL.Recorded(db), AnchorRows(db);
    if i :| 0 <= i < |db| && AC.Covers(log[i], s) {
      assert Broadcast(rows[i]) && rows[i].seqFrom <= s <= rows[i].seqTo;
    }
    if i :| 0 <= i < |rows| && Broadcast(rows[i]) && rows[i].seqFrom <= s <= rows[i].seqTo {
      assert AC.Covers(log[i], s);
    }
  }

  /** The actions beyond the cursor, in order. */
  function Beyond(actions: seq<Entry>, cursor: int): seq<Entry> {
    if actions == [] then []
    else
      var init, a := actions[..|actions| - 1], actions[|actions| - 1];
      Beyond(init, cursor) + if a.seqNo > cursor then [Lowered(a)] else []
  }

  /** So the plan asks the anchor worker for exactly the rows it has not anchored. */
  lemma {:induction false} MissingFromPolygonIsBeyondTheCursor<D>(
    hash: AL.Hashing<D>, hashes: seq<D>, events: seq<AL.Event<D>>, actions: seq<Entry>, witnesses: seq<Entry>)
    requires forall i :: 0 <= i < |actions| ==> actions[i].seqNo >= 1
    ensures var db := AL.Run(hash, AL.Initial(hashes), events).db;
      PlanOf(actions, witnesses, AnchorRows(db)).missingFromPolygon == Beyond(actions, AL.MaxSeqTo(db))
  {
    if actions != [] {
      MissingFromPolygonIsBeyondTheCursor(hash, hashes, events, actions[..|actions| - 1], witnesses);
      CoveredUpToTheCursor(hash, hashes, events, actions[|actions| - 1].seqNo);
    }
  }
}
