/**
 The periodic anchor loop (apps/worker-anchor/src/index.ts): a cursor kept in
 Postgres that advances against the contract's commitment log, with failures
 possible before, between and after the two writes.

 Other writers only append to `audit.actions`; its row with sequence number s is
 `actions[s - 1]`.
 */
module AnchorLoop {
  import opened AnchorContract
  import opened Merkle

  const MAX_ANCHOR_BATCH_SEQS: nat := 100_000
  const MAX_SAFE_INTEGER: nat := 9_007_199_254_740_991

  /** A transaction hash is never the empty string. */
  type TxHash = s: string | s != "" witness "0x"

  datatype Row<+D> = Row(seqFrom: nat, seqTo: nat, rootHash: D, polygonTxHash: TxHash)

  /** The hash functions, and the all-zero digest the contract refuses. */
  datatype Hashing<!D> = Hashing(node: (D, D) -> D, emptyRoot: D, zero: D)

  datatype State<+D> = State(actions: seq<D>, chain: seq<Commitment<D>>, db: seq<Row<D>>)

  /** What becomes of `anchor.commit` when the contract would accept it. */
  datatype CommitOutcome = Returned(txHash: TxHash) | NotSent | LandedButThrew

  /** What becomes of the INSERT. */
  datatype InsertOutcome = Inserted | NotInserted | InsertedButThrew

  datatype Outcome = Outcome(readsFail: bool, commit: CommitOutcome, insert: InsertOutcome)

  datatype Event<+D> = Append(bodyHash: D) | Tick(outcome: Outcome)

  // ------------------------------------------------------------------ one tick

  /** `SELECT MAX(seq_to)`, zero on an empty table. */
  function MaxSeqTo<D>(db: seq<Row<D>>): nat {
    if db == [] then 0
    else
      var before := MaxSeqTo(db[..|db| - 1]);
      var last := db[|db| - 1].seqTo;
      if last > before then last else before
  }

  function Min(a: nat, b: nat): nat { if a < b then a else b }

  function RangeRoot<D>(hash: Hashing<D>, actions: seq<D>, fromSeq: nat, toSeq: nat): D
    requires 1 <= fromSeq <= toSeq <= |actions|
  {
    Root(hash.node, hash.emptyRoot, actions[fromSeq - 1..toSeq])
  }

  function AsCommitment<D>(r: Row<D>): Commitment<D> {
    Commitment(r.seqFrom, r.seqTo, r.rootHash)
  }

  /** The commitment the next tick would try, if there is anything to anchor. */
  function Attempt<D>(hash: Hashing<D>, s: State<D>): (c: Commitment<D>)
    requires MaxSeqTo(s.db) < |s.actions|
    ensures 1 <= c.fromSeq <= c.toSeq <= |s.actions|
  {
    var fromSeq := MaxSeqTo(s.db) + 1;
    var toSeq := Min(|s.actions|, fromSeq + MAX_ANCHOR_BATCH_SEQS - 1);
    Commitment(fromSeq, toSeq, RangeRoot(hash, s.actions, fromSeq, toSeq))
  }

  predicate Reverts<D(==)>(hash: Hashing<D>, s: State<D>, c: Commitment<D>) {
    c.toSeq > MAX_SAFE_INTEGER || Check(s.chain, hash.zero, c.fromSeq, c.toSeq, c.rootHash) != Accepted
  }

  /** A tick that gets as far as a landed commit. */
  predicate Lands<D(==)>(hash: Hashing<D>, s: State<D>, o: Outcome) {
    && !o.readsFail && MaxSeqTo(s.db) < |s.actions|
    && !Reverts(hash, s, Attempt(hash, s))
    && o.commit != NotSent
  }

  /** A landed commit whose database row also lands. */
  predicate Records(o: Outcome) {
    o.commit.Returned? && o.insert != NotInserted
  }

  function Step<D(==)>(hash: Hashing<D>, s: State<D>, e: Event<D>): State<D> {
    match e
    case Append(d) => s.(actions := s.actions + [d])
    case Tick(o) =>
      if !Lands(hash, s, o) then s
      else
        var c := Attempt(hash, s);
        var landed := s.(chain := s.chain + [c]);
        if !Records(o) then landed
        else landed.(db := s.db + [Row(c.fromSeq, c.toSeq, c.rootHash, o.commit.txHash)])
  }

  /** One row more, right behind the last, with the hash the commit returned. */
  ghost predicate Extends<D>(before: seq<Row<D>>, after: seq<Row<D>>, o: Outcome) {
    && |after| == |before| + 1 && after[..|before|] == before
    && after[|before|].seqFrom == MaxSeqTo(before) + 1
    && o.commit.Returned? && after[|before|].polygonTxHash == o.commit.txHash
  }

  datatype TickResult = Idle | Anchored | Failed

  /** The worker together with the three stores it touches. */
  class AnchorWorker<D(==)> {
    const hash: Hashing<D>
    var actions: seq<D>          // audit.actions
    var chain: seq<Commitment<D>>  // VIGILAnchor's log
    var db: seq<Row<D>>          // audit.anchor_commitment

    constructor (hash: Hashing<D>, actions: seq<D>)
      ensures this.hash == hash && Contents() == Initial(actions)
    {
      this.hash, this.actions, chain, db := hash, actions, [], [];
    }

    ghost function Contents(): State<D> reads this {
      State(actions, chain, db)
    }

    /** The body of the `while (!stopping)` loop. */
    method TickOnce(o: Outcome) returns (r: TickResult)
      modifies this
      ensures Contents() == Step(hash, old(Contents()), Tick(o))
      ensures r == Anchored <==> old(Lands(hash, Contents(), o)) && o.commit.Returned? && o.insert == Inserted
      ensures r == Idle <==> !o.readsFail && old(|actions| <= MaxSeqTo(db))
      ensures |db| > |old(db)| ==> Extends(old(db), db, o)
      ensures |chain| > |old(chain)| ==> chain[|chain| - 1].toSeq <= 9_007_199_254_740_991
    {
      if o.readsFail { return Failed; }
      var tail := |actions|;
      if tail == 0 { return Idle; }
      var lastAnchoredTo := MaxSeqTo(db);
      if tail <= lastAnchoredTo { return Idle; }
      var fromSeq := lastAnchoredTo + 1;
      var toSeq := Min(tail, fromSeq + MAX_ANCHOR_BATCH_SEQS - 1);
      var rootHash := ComputeRoot(hash.node, hash.emptyRoot, actions[fromSeq - 1..toSeq]);
      assert Commitment(fromSeq, toSeq, rootHash) == Attempt(hash, Contents());
      r := CommitAndRecord(o, fromSeq, toSeq, rootHash);
    }

    /** `anchor.commit`, then the INSERT into audit.anchor_commitment. */
    method CommitAndRecord(o: Outcome, fromSeq: nat, toSeq: nat, rootHash: D) returns (r: TickResult)
      requires !o.readsFail && MaxSeqTo(db) < |actions|
      requires Commitment(fromSeq, toSeq, rootHash) == Attempt(hash, Contents())
      modifies this`chain, this`db
      ensures Contents() == Step(hash, old(Contents()), Tick(o))
      ensures r == Anchored <==> old(Lands(hash, Contents(), o)) && o.commit.Returned? && o.insert == Inserted
      ensures r != Idle
      ensures |db| > |old(db)| ==> Extends(old(db), db, o)
      ensures |chain| > |old(chain)| ==> chain[|chain| - 1].toSeq <= 9_007_199_254_740_991
    {
      if toSeq > MAX_SAFE_INTEGER { return Failed; }
      if Check(chain, hash.zero, fromSeq, toSeq, rootHash) != Accepted { return Failed; }
      if o.commit == NotSent { return Failed; }
      chain := chain + [Commitment(fromSeq, toSeq, rootHash)];
      if o.commit == LandedButThrew { return Failed; }
      if o.insert == NotInserted { return Failed; }
      db := db + [Row(fromSeq, toSeq, rootHash, o.commit.txHash)];
      return if o.insert == InsertedButThrew then Failed else Anchored;
    }

    /** The boot-time comparison of the two cursors; None when they agree. */
    method BootCheck() returns (diverged: bool, chainLastToSeq: nat, dbLastToSeq: nat)
      ensures diverged <==> LastToSeq(chain) != MaxSeqTo(db)
      ensures chainLastToSeq == LastToSeq(chain) && dbLastToSeq == MaxSeqTo(db)
    {
      var chainTotal := |chain|;
      chainLastToSeq := 0;
      if chainTotal > 0 {
        chainLastToSeq := chain[chainTotal - 1].toSeq;
      }
      dbLastToSeq := MaxSeqTo(db);
      diverged := chainLastToSeq != dbLastToSeq;
    }
  }

  // ------------------------------------------------------------------ all runs

  function Initial<D>(actions: seq<D>): State<D> { State(actions, [], []) }

  function Run<D(==)>(hash: Hashing<D>, s: State<D>, events: seq<Event<D>>): State<D> {
    if events == [] then s
    else Step(hash, Run(hash, s, events[..|events| - 1]), events[|events| - 1])
  }

  /** The database table, read as commitments. */
  function Recorded<D>(db: seq<Row<D>>): (r: seq<Commitment<D>>)
    ensures |r| == |db|
  {
    seq(|db|, i requires 0 <= i < |db| => AsCommitment(db[i]))
  }

  ghost predicate RootsMatch<D>(hash: Hashing<D>, actions: seq<D>, log: seq<Commitment<D>>) {
    forall i :: 0 <= i < |log| ==> RootMatches(hash, actions, log[i])
  }

  /** A commitment of bounded width whose root is the Merkle root of its rows. */
  ghost predicate RootMatches<D>(hash: Hashing<D>, actions: seq<D>, c: Commitment<D>) {
    && 1 <= c.fromSeq <= c.toSeq <= |actions|
    && c.toSeq - c.fromSeq + 1 <= MAX_ANCHOR_BATCH_SEQS
    && c.rootHash == RangeRoot(hash, actions, c.fromSeq, c.toSeq)
  }

  /** The chain holds one commitment the database does not know. */
  ghost predicate Ahead<D>(s: State<D>) {
    |s.chain| == |s.db| + 1
  }

  ghost predicate Consistent<D>(hash: Hashing<D>, s: State<D>) {
    && Contiguous(s.chain)
    && Recorded(s.db) <= s.chain
    && |s.chain| <= |s.db| + 1
    && RootsMatch(hash, s.actions, s.chain)
    && MaxSeqTo(s.db) == LastToSeq(Recorded(s.db))
  }

  lemma AppendKeepsRoots<D>(hash: Hashing<D>, actions: seq<D>, log: seq<Commitment<D>>, d: D)
    requires RootsMatch(hash, actions, log)
    ensures RootsMatch(hash, actions + [d], log)
  {
    forall i | 0 <= i < |log| ensures RootMatches(hash, actions + [d], log[i]) {
      var c := log[i];
      assert RootMatches(hash, actions, c);
      assert (actions + [d])[c.fromSeq - 1..c.toSeq] == actions[c.fromSeq - 1..c.toSeq];
    }
  }

  lemma LandingKeepsRoots<D>(hash: Hashing<D>, s: State<D>, o: Outcome)
    requires Lands(hash, s, o) && RootsMatch(hash, s.actions, s.chain)
    ensures RootsMatch(hash, s.actions, s.chain + [Attempt(hash, s)])
  {
  }

  lemma RecordRow<D>(db: seq<Row<D>>, row: Row<D>)
    ensures Recorded(db + [row]) == Recorded(db) + [AsCommitment(row)]
    ensures MaxSeqTo(db + [row]) == (if row.seqTo > MaxSeqTo(db) then row.seqTo else MaxSeqTo(db))
  {
  }

  lemma StepKeepsConsistent<D>(hash: Hashing<D>, s: State<D>, e: Event<D>)
    requires Consistent(hash, s)
    ensures Consistent(hash, Step(hash, s, e))
  {
    match e
    case Append(d) => AppendKeepsRoots(hash, s.actions, s.chain, d);
    case Tick(o) =>
      if Lands(hash, s, o) {
        var c := Attempt(hash, s);
        NotAheadWhenLanding(hash, s, o);
        AcceptedCommitKeepsContiguity(s.chain, hash.zero, c);
        LandingKeepsRoots(hash, s, o);
        if Records(o) {
          RecordRow(s.db, Row(c.fromSeq, c.toSeq, c.rootHash, o.commit.txHash));
        }
      }
  }

  /** The contiguity guard admits a commit only while the two logs agree. */
  lemma NotAheadWhenLanding<D>(hash: Hashing<D>, s: State<D>, o: Outcome)
    requires Consistent(hash, s) && Lands(hash, s, o)
    ensures !Ahead(s) && s.chain == Recorded(s.db)
  {
  }

  lemma AheadMeansLater<D>(hash: Hashing<D>, s: State<D>)
    requires Consistent(hash, s)
    ensures Ahead(s) ==> LastToSeq(s.chain) > MaxSeqTo(s.db)
    ensures !Ahead(s) ==> s.chain == Recorded(s.db)
  {
  }

  /** The main invariant of every run, whatever fails and whenever. */
  lemma {:induction false} EveryRunConsistent<D>(hash: Hashing<D>, actions: seq<D>, events: seq<Event<D>>)
    ensures Consistent(hash, Run(hash, Initial(actions), events))
  {
    if events != [] {
      var init := events[..|events| - 1];
      EveryRunConsistent(hash, actions, init);
      StepKeepsConsistent(hash, Run(hash, Initial(actions), init), events[|events| - 1]);
    }
  }

  lemma RecordedIsContiguous<D>(hash: Hashing<D>, s: State<D>)
    requires Consistent(hash, s)
    ensures Contiguous(Recorded(s.db))
    ensures forall i :: 0 <= i < |s.db| ==> i < |s.chain| && Recorded(s.db)[i] == s.chain[i]
  {
    var log := Recorded(s.db);
    assert log == s.chain[..|log|];
  }

  /** Database ranges tile 1..lastAnchoredTo: no gap, no overlap, bounded width. */
  lemma DatabaseTiles<D>(hash: Hashing<D>, actions: seq<D>, events: seq<Event<D>>, q: nat)
    ensures var s := Run(hash, Initial(actions), events);
      && ((exists i :: 0 <= i < |s.db| && Covers(Recorded(s.db)[i], q)) <==> 1 <= q <= MaxSeqTo(s.db))
      && (forall i, j :: (0 <= i < |s.db| && 0 <= j < |s.db|
                          && Covers(Recorded(s.db)[i], q) && Covers(Recorded(s.db)[j], q)) ==> i == j)
      && (forall i :: 0 <= i < |s.db| ==> s.db[i].seqTo - s.db[i].seqFrom + 1 <= MAX_ANCHOR_BATCH_SEQS)
  {
    var s := Run(hash, Initial(actions), events);
    EveryRunConsistent(hash, actions, events);
    var log := Recorded(s.db);
    RecordedIsContiguous(hash, s);
    ContiguousLogTiles(log, q);
    forall i | 0 <= i < |s.db| ensures s.db[i].seqTo - s.db[i].seqFrom + 1 <= MAX_ANCHOR_BATCH_SEQS {
      assert log[i] == s.chain[i];
      assert RootMatches(hash, s.actions, s.chain[i]);
    }
  }

  /** A tick puts the chain ahead exactly when its commit lands and its row does not. */
  lemma TickWedgesIff<D>(hash: Hashing<D>, s: State<D>, o: Outcome)
    requires Consistent(hash, s) && !Ahead(s)
    ensures Ahead(Step(hash, s, Tick(o))) <==> Lands(hash, s, o) && !Records(o)
  {
  }

  /** Once ahead, neither log ever changes again. */
  lemma {:induction false} AheadIsForever<D>(hash: Hashing<D>, s: State<D>, events: seq<Event<D>>)
    requires Consistent(hash, s) && Ahead(s)
    ensures Run(hash, s, events).chain == s.chain && Run(hash, s, events).db == s.db
    ensures Consistent(hash, Run(hash, s, events))
  {
    if events != [] {
      var init, e := events[..|events| - 1], events[|events| - 1];
      AheadIsForever(hash, s, init);
      var t := Run(hash, s, init);
      StepKeepsConsistent(hash, t, e);
      if e.Tick? && Lands(hash, t, e.outcome) { NotAheadWhenLanding(hash, t, e.outcome); }
    }
  }

  /** The boot check fires on exactly the wedged states. */
  lemma BootCheckExact<D>(hash: Hashing<D>, actions: seq<D>, events: seq<Event<D>>)
    ensures var s := Run(hash, Initial(actions), events);
      LastToSeq(s.chain) != MaxSeqTo(s.db) <==> Ahead(s)
  {
    EveryRunConsistent(hash, actions, events);
    AheadMeansLater(hash, Run(hash, Initial(actions), events));
  }

  // ------------------------------------------------------------------ catch-up

  ghost predicate Good<D>(hash: Hashing<D>, s: State<D>, e: Event<D>) {
    && e.Tick? && !e.outcome.readsFail && e.outcome.commit.Returned? && e.outcome.insert != NotInserted
    && |s.actions| <= MAX_SAFE_INTEGER
    && (MaxSeqTo(s.db) < |s.actions| ==> Attempt(hash, s).rootHash != hash.zero)
  }

  /** While the logs agree, each undisturbed tick anchors a full batch or the rest. */
  lemma GoodTickAdvances<D>(hash: Hashing<D>, s: State<D>, e: Event<D>)
    requires Consistent(hash, s) && !Ahead(s) && MaxSeqTo(s.db) <= |s.actions| && Good(hash, s, e)
    ensures var t := Step(hash, s, e);
      && !Ahead(t) && t.actions == s.actions
      && MaxSeqTo(t.db) == Min(|s.actions|, MaxSeqTo(s.db) + MAX_ANCHOR_BATCH_SEQS)
  {
    AheadMeansLater(hash, s);
    if MaxSeqTo(s.db) < |s.actions| {
      var c := Attempt(hash, s);
      assert Check(s.chain, hash.zero, c.fromSeq, c.toSeq, c.rootHash) == Accepted;
      assert Lands(hash, s, e.outcome);
      RecordRow(s.db, Row(c.fromSeq, c.toSeq, c.rootHash, e.outcome.commit.txHash));
    }
  }

  ghost predicate AllGood<D>(hash: Hashing<D>, s: State<D>, events: seq<Event<D>>) {
    events == [] ||
    (AllGood(hash, s, events[..|events| - 1])
     && Good(hash, Run(hash, s, events[..|events| - 1]), events[|events| - 1]))
  }

  function CursorAfter(tail: nat, start: nat, n: nat): nat {
    Min(tail, start + n * 100_000)
  }

  /** `t` is `s` after n undisturbed ticks: the cursor is n full batches on, or at the tail. */
  ghost predicate CaughtUp<D>(hash: Hashing<D>, s: State<D>, t: State<D>, n: nat) {
    && Consistent(hash, t) && !Ahead(t) && t.actions == s.actions
    && MaxSeqTo(t.db) == CursorAfter(|s.actions|, MaxSeqTo(s.db), n)
  }

  lemma MinOfOneMore(tail: nat, start: nat, n: nat, steps: nat)
    requires steps == n + 1
    ensures Min(tail, CursorAfter(tail, start, n) + MAX_ANCHOR_BATCH_SEQS) == CursorAfter(tail, start, steps)
  {
  }

  lemma OneMoreBatch<D>(hash: Hashing<D>, s: State<D>, t: State<D>, n: nat, e: Event<D>)
    requires CaughtUp(hash, s, t, n) && Good(hash, t, e)
    ensures CaughtUp(hash, s, Step(hash, t, e), n + 1)
  {
    var u := Step(hash, t, e);
    assert MaxSeqTo(t.db) <= |t.actions|;
    assert Consistent(hash, u) by { StepKeepsConsistent(hash, t, e); }
    assert !Ahead(u) && u.actions == s.actions
           && MaxSeqTo(u.db) == Min(|s.actions|, MaxSeqTo(t.db) + MAX_ANCHOR_BATCH_SEQS) by {
      GoodTickAdvances(hash, t, e);
    }
    MinOfOneMore(|s.actions|, MaxSeqTo(s.db), n, n + 1);
  }

  lemma {:induction false} GoodTicksCatchUp<D>(hash: Hashing<D>, s: State<D>, events: seq<Event<D>>)
    requires Consistent(hash, s) && !Ahead(s) && MaxSeqTo(s.db) <= |s.actions| && AllGood(hash, s, events)
    ensures CaughtUp(hash, s, Run(hash, s, events), |events|)
  {
    if events != [] {
      var init, last := events[..|events| - 1], events[|events| - 1];
      GoodTicksCatchUp(hash, s, init);
      OneMoreBatch(hash, s, Run(hash, s, init), |init|, last);
    }
  }

  // ----------------------------------------------------------- what it is for

  /** A batch is at most 2^17 rows, so its tree has at most 17 layers above the rows. */
  lemma BatchFitsSeventeenLayers(n: nat)
    requires 1 <= n <= MAX_ANCHOR_BATCH_SEQS
    ensures CeilLog2(n) <= 17
  {
    var k := 17;
    PowersOfTwo(k);
    CeilLog2AtMost(n, k);
  }

  lemma PowersOfTwo(k: nat)
    ensures k == 17 ==> Pow2(k) == 131_072
  {
    assert Pow2(8) == 256;
    assert Pow2(17) == 131_072;
  }

  lemma RowProvable<D>(hash: Hashing<D>, actions: seq<D>, c: Commitment<D>, q: nat) returns (proof: seq<D>)
    requires RootMatches(hash, actions, c) && Covers(c, q)
    ensures |proof| <= 17
    ensures Climb(hash.node, actions[q - 1], q - c.fromSeq, proof) == c.rootHash
  {
    var leaves := actions[c.fromSeq - 1..c.toSeq];
    var i: nat := q - c.fromSeq;
    assert leaves[i] == actions[q - 1];
    proof := InclusionProof(hash.node, leaves, i);
    assert |proof| <= 17 && Climb(hash.node, leaves[i], i, proof) == Root(hash.node, hash.emptyRoot, leaves) by {
      BatchFitsSeventeenLayers(|leaves|);
      InclusionProofVerifies(hash.node, hash.emptyRoot, leaves, i);
    }
  }

  lemma CoveringCommitment<D>(hash: Hashing<D>, s: State<D>, q: nat) returns (k: nat)
    requires Consistent(hash, s) && 1 <= q <= MaxSeqTo(s.db)
    ensures k < |s.chain| && Covers(s.chain[k], q) && RootMatches(hash, s.actions, s.chain[k])
  {
    var log := Recorded(s.db);
    RecordedIsContiguous(hash, s);
    ContiguousLogTiles(log, q);
    k :| 0 <= k < |log| && Covers(log[k], q);
    assert s.chain[k] == log[k];
  }

  /** `proof` leads from row q to the root of the k-th commitment, which covers it. */
  ghost predicate Proves<D>(hash: Hashing<D>, s: State<D>, q: nat, k: nat, proof: seq<D>) {
    && k < |s.chain| && Covers(s.chain[k], q) && 1 <= q <= |s.actions|
    && |proof| <= 17
    && Climb(hash.node, s.actions[q - 1], q - s.chain[k].fromSeq, proof) == s.chain[k].rootHash
  }

  /** Every anchored row can be proved against an on-chain root with at most 17
      digests, in every reachable state, however the rows were anchored. */
  lemma AnchoredRowsProvable<D>(hash: Hashing<D>, actions: seq<D>, events: seq<Event<D>>, q: nat)
    returns (k: nat, proof: seq<D>)
    requires 1 <= q <= MaxSeqTo(Run(hash, Initial(actions), events).db)
    ensures Proves(hash, Run(hash, Initial(actions), events), q, k, proof)
  {
    EveryRunConsistent(hash, actions, events);
    k, proof := CoveredRowProvable(hash, Run(hash, Initial(actions), events), q);
  }

  lemma CoveredRowProvable<D>(hash: Hashing<D>, s: State<D>, q: nat) returns (k: nat, proof: seq<D>)
    requires Consistent(hash, s) && 1 <= q <= MaxSeqTo(s.db)
    ensures Proves(hash, s, q, k, proof)
  {
    k := CoveringCommitment(hash, s, q);
    proof := RowProvable(hash, s.actions, s.chain[k], q);
  }

  // ------------------------------------------- the ledger verifier's tail check

  /** `LedgerVerifier.verifyCommitment` compares the committed root with the body hash
      of the range's last row. */
  predicate TailCheck<D(==)>(actions: seq<D>, c: Commitment<D>)
    requires 1 <= c.toSeq <= |actions|
  {
    actions[c.toSeq - 1] == c.rootHash
  }

  /** The rows of a commitment. */
  function RowsOf<D>(actions: seq<D>, c: Commitment<D>): seq<D>
    requires 1 <= c.fromSeq <= c.toSeq <= |actions|
  {
    actions[c.fromSeq - 1..c.toSeq]
  }

  /** The last row's body hash is not one of the hashes the commitment's tree is made of. */
  ghost predicate LastRowIsNotANode<D(!new)>(hash: Hashing<D>, actions: seq<D>, c: Commitment<D>)
    requires 1 <= c.fromSeq <= c.toSeq <= |actions|
  {
    forall p :: p in HashedPairs(hash.node, RowsOf(actions, c)) ==> hash.node(p.0, p.1) != actions[c.toSeq - 1]
  }

  /** What the anchor loop commits is a Merkle root, so the check passes exactly on the
      commitments that cover a single row. */
  lemma TailCheckPassesOnlySingleRows<D(!new)>(hash: Hashing<D>, actions: seq<D>, events: seq<Event<D>>, k: nat)
    requires k < |Run(hash, Initial(actions), events).chain|
    ensures var s := Run(hash, Initial(actions), events);
      var c := s.chain[k];
      && 1 <= c.fromSeq <= c.toSeq <= |s.actions|
      && (LastRowIsNotANode(hash, s.actions, c) ==> (TailCheck(s.actions, c) <==> c.fromSeq == c.toSeq))
  {
    var s := Run(hash, Initial(actions), events);
    EveryRunConsistent(hash, actions, events);
    if LastRowIsNotANode(hash, s.actions, s.chain[k]) { RootVersusTail(hash, s.actions, s.chain[k]); }
  }

  /** The root of more than one row is one of those hashes. */
  lemma RootIsNotARow<D(!new)>(hash: Hashing<D>, rows: seq<D>, row: D)
    requires |rows| > 1 && forall p :: p in HashedPairs(hash.node, rows) ==> hash.node(p.0, p.1) != row
    ensures Root(hash.node, hash.emptyRoot, rows) != row
  {
    var p := RootIsANode(hash.node, hash.emptyRoot, rows);
  }

  lemma RootVersusTail<D(!new)>(hash: Hashing<D>, actions: seq<D>, c: Commitment<D>)
    requires RootMatches(hash, actions, c) && LastRowIsNotANode(hash, actions, c)
    ensures TailCheck(actions, c) <==> c.fromSeq == c.toSeq
  {
    var rows := RowsOf(actions, c);
    if c.fromSeq < c.toSeq {
      RootIsNotARow(hash, rows, actions[c.toSeq - 1]);
    } else {
      assert rows[0] == actions[c.toSeq - 1];
      RootOfOne(hash.node, hash.emptyRoot, rows);
    }
  }
}
