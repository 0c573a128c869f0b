/**
 `processHighSigBatch` (apps/worker-anchor/src/high-sig-loop.ts): the fast lane
 that anchors each high-significance event on its own, and gives a batch up after
 five consecutive failures.

 A batch is the list `listPendingHighSig(50)` returned: distinct events that have no
 anchor transaction yet. What the chain and the database do with each event is an
 outcome supplied from outside.
 */
module HighSigLoop {
  import opened JsStrings
  import AC = AnchorContract
  import AL = AnchorLoop

  const MAX_CONSECUTIVE_BATCH_FAILURES: nat := 5
  const BATCH_LIMIT: nat := 50

  datatype CommitOutcome = Landed | NotLanded | LandedButThrew
  datatype SetOutcome = Stored | NotStored | StoredButThrew

  datatype Outcome = Outcome(commit: CommitOutcome, setAnchorTx: SetOutcome, recordFails: bool)

  datatype Attempt = Attempt(eventId: string, outcome: Outcome)

  datatype BatchResult = BatchResult(succeeded: nat, failed: nat, attempted: nat, bailedOut: bool)

  /** The commit is on the chain. */
  predicate OnChain(o: Outcome) { o.commit != NotLanded }

  /** The event's anchor transaction is in the database. */
  predicate Persisted(o: Outcome) { o.commit == Landed && o.setAnchorTx != NotStored }

  /** Nothing threw before `succeeded++`; a failing public-anchor row is swallowed. */
  predicate Succeeds(o: Outcome) { o.commit == Landed && o.setAnchorTx == Stored }

  // ------------------------------------------------------------------ histories

  ghost function AnchoredBy(h: seq<Attempt>): set<string> {
    set i | 0 <= i < |h| && Persisted(h[i].outcome) :: h[i].eventId
  }

  /** No event is attempted once its anchor transaction is stored. */
  ghost predicate Legal(h: seq<Attempt>) {
    forall i :: 0 <= i < |h| ==> h[i].eventId !in AnchoredBy(h[..i])
  }

  function Commits(h: seq<Attempt>, e: string): nat {
    if h == [] then 0
    else Commits(h[..|h| - 1], e) + if h[|h| - 1].eventId == e && OnChain(h[|h| - 1].outcome) then 1 else 0
  }

  /** Commits that landed although the call threw. */
  function LostReplies(h: seq<Attempt>, e: string): nat {
    if h == [] then 0
    else LostReplies(h[..|h| - 1], e) +
         if h[|h| - 1].eventId == e && h[|h| - 1].outcome.commit == LandedButThrew then 1 else 0
  }

  /** Calls to setAnchorTx that threw. */
  function SetFailures(h: seq<Attempt>, e: string): nat {
    if h == [] then 0
    else SetFailures(h[..|h| - 1], e) +
         if h[|h| - 1].eventId == e && h[|h| - 1].outcome.commit == Landed && h[|h| - 1].outcome.setAnchorTx != Stored
         then 1 else 0
  }

  lemma AnchoredGrows(h: seq<Attempt>, a: Attempt)
    ensures AnchoredBy(h + [a]) == AnchoredBy(h) + if Persisted(a.outcome) then {a.eventId} else {}
  {
    var g := h + [a];
    assert g[|h|] == a;
    assert forall i :: 0 <= i < |h| ==> g[i] == h[i];
  }

  lemma LegalPrefix(h: seq<Attempt>, n: nat)
    requires Legal(h) && n <= |h|
    ensures Legal(h[..n])
  {
    forall i | 0 <= i < n ensures h[..n][i].eventId !in AnchoredBy(h[..n][..i]) {
      assert h[..n][..i] == h[..i];
    }
  }

  lemma LegalStep(h: seq<Attempt>, a: Attempt)
    requires Legal(h) && a.eventId !in AnchoredBy(h)
    ensures Legal(h + [a])
  {
  }

  /** At-most-once up to lost acknowledgements: an event has at most one commit beyond
      those whose reply was lost and those whose setAnchorTx call threw. */
  lemma {:induction false} CommitsAccountedFor(h: seq<Attempt>, e: string)
    requires Legal(h)
    ensures Commits(h, e) <= 1 + LostReplies(h, e) + SetFailures(h, e)
    ensures e !in AnchoredBy(h) ==> Commits(h, e) == LostReplies(h, e) + SetFailures(h, e)
  {
    if h != [] {
      var init, a := h[..|h| - 1], h[|h| - 1];
      assert a.eventId !in AnchoredBy(init);
      assert Commits(init, e) <= 1 + LostReplies(init, e) + SetFailures(init, e)
             && (e !in AnchoredBy(init) ==> Commits(init, e) == LostReplies(init, e) + SetFailures(init, e)) by {
        LegalPrefix(h, |h| - 1);
        CommitsAccountedFor(init, e);
      }
      assert AnchoredBy(h) == AnchoredBy(init) + (if Persisted(a.outcome) then {a.eventId} else {}) by {
        AnchoredGrows(init, a);
        assert init + [a] == h;
      }
    }
  }

  // --------------------------------------------------------------- the bail-out

  /** The last five of the first m attempts all failed. */
  predicate FiveFailed(outcomes: seq<Outcome>, m: nat)
    requires m <= |outcomes|
  {
    m >= MAX_CONSECUTIVE_BATCH_FAILURES
    && forall i :: m - MAX_CONSECUTIVE_BATCH_FAILURES <= i < m ==> !Succeeds(outcomes[i])
  }

  function Successes(outcomes: seq<Outcome>, m: nat): (r: nat)
    requires m <= |outcomes|
    ensures r <= m
  {
    if m == 0 then 0 else Successes(outcomes, m - 1) + if Succeeds(outcomes[m - 1]) then 1 else 0
  }

  /** The first m attempts of a batch. */
  function Attempts(pending: seq<string>, outcomes: seq<Outcome>, m: nat): (r: seq<Attempt>)
    requires m <= |pending| && |pending| == |outcomes|
    ensures |r| == m
  {
    seq(m, i requires 0 <= i < m => Attempt(pending[i], outcomes[i]))
  }

  /** The events that reach the chain, and those that get a public row. */
  function Committed(pending: seq<string>, outcomes: seq<Outcome>, m: nat): seq<string>
    requires m <= |pending| && |pending| == |outcomes|
  {
    if m == 0 then []
    else Committed(pending, outcomes, m - 1) + if OnChain(outcomes[m - 1]) then [pending[m - 1]] else []
  }

  function Recorded(pending: seq<string>, outcomes: seq<Outcome>, m: nat): seq<string>
    requires m <= |pending| && |pending| == |outcomes|
  {
    if m == 0 then []
    else
      var o := outcomes[m - 1];
      Recorded(pending, outcomes, m - 1) + if Succeeds(o) && !o.recordFails then [pending[m - 1]] else []
  }

  /** What m attempts add to the chain and to the public rows. */
  ghost predicate Wrote(pending: seq<string>, outcomes: seq<Outcome>, m: nat, oldLog: seq<string>, log: seq<string>,
                        oldRows: seq<string>, rows: seq<string>)
    requires m <= |pending| && |pending| == |outcomes|
  {
    log == oldLog + Committed(pending, outcomes, m) && rows == oldRows + Recorded(pending, outcomes, m)
  }

  lemma WroteStep(pending: seq<string>, outcomes: seq<Outcome>, m: nat, oldLog: seq<string>, log: seq<string>,
                  oldRows: seq<string>, rows: seq<string>)
    requires m < |pending| == |outcomes| && Wrote(pending, outcomes, m, oldLog, log, oldRows, rows)
    ensures var o, e := outcomes[m], pending[m];
      Wrote(pending, outcomes, m + 1, oldLog, log + (if OnChain(o) then [e] else []),
            oldRows, rows + if Succeeds(o) && !o.recordFails then [e] else [])
  {
  }

  // ------------------------------------------------------------------ the worker

  class HighSigWorker {
    var anchored: set<string>   // events whose chain_anchor_tx is set
    var log: seq<string>        // the event behind each commit of this lane
    var published: seq<string>  // rows of audit.public_anchor
    ghost var history: seq<Attempt>

    constructor ()
      ensures Valid() && history == []
    {
      anchored, log, published, history := {}, [], [], [];
    }

    ghost predicate Valid() reads this {
      && Legal(history)
      && anchored == AnchoredBy(history)
      && forall e {:trigger Occurrences(log, e)} :: Occurrences(log, e) == Commits(history, e)
    }

    method ProcessHighSigBatch(pending: seq<string>, outcomes: seq<Outcome>) returns (r: BatchResult)
      requires Valid()
      requires |pending| <= BATCH_LIMIT && Distinct(pending) && forall e :: e in pending ==> e !in anchored
      requires |outcomes| == |pending|
      modifies this
      ensures Valid()
      ensures r.attempted <= |pending| && history == old(history) + Attempts(pending, outcomes, r.attempted)
      // when the batch stops
      ensures r.bailedOut <==> FiveFailed(outcomes, r.attempted)
      ensures r.attempted == StopsAt(Batch(pending, outcomes), 0)
      ensures forall m :: 0 <= m < r.attempted ==> !FiveFailed(outcomes, m)
      ensures !r.bailedOut ==> r.attempted == |pending|
      // what it reports
      ensures r.succeeded == Successes(outcomes, r.attempted) && r.failed == r.attempted - r.succeeded
      // what it leaves behind, in the order of the batch
      ensures Wrote(pending, outcomes, r.attempted, old(log), log, old(published), published)
    {
      var succeeded, failed, consecutiveFailures := 0, 0, 0;
      for n := 0 to |pending|
        invariant Valid() && history == old(history) + Attempts(pending, outcomes, n)
        invariant forall k :: n <= k < |pending| ==> pending[k] !in anchored
        invariant Running(outcomes, n, succeeded, consecutiveFailures) && succeeded + failed == n
        invariant Wrote(pending, outcomes, n, old(log), log, old(published), published)
      {
        RunningStep(outcomes, n, succeeded, consecutiveFailures);
        AttemptsStep(pending, outcomes, n);
        WroteStep(pending, outcomes, n, old(log), log, old(published), published);
        var ok := ProcessOne(pending[n], outcomes[n]);
        if ok {
          succeeded := succeeded + 1;
          consecutiveFailures := 0;
        } else {
          failed := failed + 1;
          consecutiveFailures := consecutiveFailures + 1;
          if consecutiveFailures >= MAX_CONSECUTIVE_BATCH_FAILURES {
            StopsThere(Batch(pending, outcomes), 0, n + 1);
            return BatchResult(succeeded, failed, succeeded + failed, true);
          }
        }
      }
      StopsThere(Batch(pending, outcomes), 0, |pending|);
      return BatchResult(succeeded, failed, succeeded + failed, false);
    }

    /** One iteration: commit, then the dedup gate, then the best-effort row. */
    method ProcessOne(e: string, o: Outcome) returns (ok: bool)
      requires Valid() && e !in anchored
      modifies this
      ensures Valid() && history == old(history) + [Attempt(e, o)] && ok == Succeeds(o)
      ensures ok <==> o.commit == Landed && o.setAnchorTx == Stored
      ensures anchored == old(anchored) +
        match (o.commit, o.setAnchorTx) case (Landed, Stored) => {e} case (Landed, StoredButThrew) => {e} case _ => {}
      ensures log == old(log) + match o.commit case NotLanded => [] case Landed => [e] case LandedButThrew => [e]
      ensures published == old(published) + if ok && !o.recordFails then [e] else []
    {
      LegalStep(history, Attempt(e, o));
      AnchoredGrows(history, Attempt(e, o));
      history := history + [Attempt(e, o)];
      assert history[..|history| - 1] == old(history);
      if o.commit == NotLanded { return false; }
      OneMoreOccurrence(log, e);
      log := log + [e];
      if o.commit == LandedButThrew { return false; }
      if o.setAnchorTx == NotStored { return false; }
      anchored := anchored + {e};
      if o.setAnchorTx == StoredButThrew { return false; }
      if !o.recordFails { published := published + [e]; }
      return true;
    }
  }

  function Occurrences(log: seq<string>, e: string): nat {
    if log == [] then 0 else Occurrences(log[..|log| - 1], e) + if log[|log| - 1] == e then 1 else 0
  }

  lemma OneMoreOccurrence(log: seq<string>, x: string)
    ensures forall e :: Occurrences(log + [x], e) == Occurrences(log, e) + if x == e then 1 else 0
  {
  }

  /** Exactly the last c of the first n attempts failed in a row. */
  ghost predicate Trailing(outcomes: seq<Outcome>, n: nat, c: nat)
    requires n <= |outcomes|
  {
    c <= n && (forall i :: n - c <= i < n ==> !Succeeds(outcomes[i])) && (c < n ==> Succeeds(outcomes[n - c - 1]))
  }

  /** Where the loop stands after n attempts without a bail-out. */
  ghost predicate Running(outcomes: seq<Outcome>, n: nat, succeeded: nat, c: nat)
    requires n <= |outcomes|
  {
    && succeeded == Successes(outcomes, n)
    && Trailing(outcomes, n, c) && c < MAX_CONSECUTIVE_BATCH_FAILURES
    && forall m :: 0 <= m <= n ==> !FiveFailed(outcomes, m)
  }

  lemma RunningStep(outcomes: seq<Outcome>, n: nat, succeeded: nat, c: nat)
    requires n < |outcomes| && Running(outcomes, n, succeeded, c)
    ensures Succeeds(outcomes[n]) ==> Running(outcomes, n + 1, succeeded + 1, 0)
    ensures !Succeeds(outcomes[n]) ==> Successes(outcomes, n + 1) == succeeded
    ensures !Succeeds(outcomes[n]) && c + 1 < MAX_CONSECUTIVE_BATCH_FAILURES ==> Running(outcomes, n + 1, succeeded, c + 1)
    ensures !Succeeds(outcomes[n]) && c + 1 == MAX_CONSECUTIVE_BATCH_FAILURES ==> FiveFailed(outcomes, n + 1)
  {
  }

  lemma AttemptsStep(pending: seq<string>, outcomes: seq<Outcome>, n: nat)
    requires n < |pending| == |outcomes|
    ensures Attempts(pending, outcomes, n + 1) == Attempts(pending, outcomes, n) + [Attempt(pending[n], outcomes[n])]
  {
  }

  // ------------------------------------------------------------------ whole runs

  datatype Batch = Batch(pending: seq<string>, outcomes: seq<Outcome>)

  /** How far a batch gets: the first five failures in a row, or its end. */
  function StopsAt(b: Batch, m: nat): (r: nat)
    requires m <= |b.outcomes|
    ensures m <= r <= |b.outcomes|
    decreases |b.outcomes| - m
  {
    if FiveFailed(b.outcomes, m) || m == |b.outcomes| then m else StopsAt(b, m + 1)
  }

  lemma {:induction false} StopsThere(b: Batch, m: nat, n: nat)
    requires m <= n <= |b.outcomes| && (FiveFailed(b.outcomes, n) || n == |b.outcomes|)
    requires forall k :: m <= k < n ==> !FiveFailed(b.outcomes, k)
    ensures StopsAt(b, m) == n
    decreases n - m
  {
    if m < n { StopsThere(b, m + 1, n); }
  }

  ghost function RunHistory(batches: seq<Batch>): seq<Attempt>
    requires forall i :: 0 <= i < |batches| ==> |batches[i].pending| == |batches[i].outcomes|
  {
    if batches == [] then []
    else
      var b := batches[|batches| - 1];
      RunHistory(batches[..|batches| - 1]) + Attempts(b.pending, b.outcomes, StopsAt(b, 0))
  }

  /** Each batch lists distinct events that are still pending when it starts. */
  ghost predicate ListsPending(batches: seq<Batch>) {
    && (forall i :: 0 <= i < |batches| ==> |batches[i].pending| == |batches[i].outcomes|)
    && forall i :: 0 <= i < |batches| ==>
         && Distinct(batches[i].pending)
         && forall e :: e in batches[i].pending ==> e !in AnchoredBy(RunHistory(batches[..i]))
  }

  lemma {:induction false} BatchStaysLegal(h: seq<Attempt>, b: Batch, n: nat)
    requires |b.pending| == |b.outcomes| && n <= |b.pending| && Distinct(b.pending)
    requires Legal(h) && forall e :: e in b.pending ==> e !in AnchoredBy(h)
    ensures Legal(h + Attempts(b.pending, b.outcomes, n))
    ensures forall k :: n <= k < |b.pending| ==> b.pending[k] !in AnchoredBy(h + Attempts(b.pending, b.outcomes, n))
  {
    if n == 0 {
      assert h + Attempts(b.pending, b.outcomes, 0) == h;
    } else {
      BatchStaysLegal(h, b, n - 1);
      AttemptsStep(b.pending, b.outcomes, n - 1);
      var g, a := h + Attempts(b.pending, b.outcomes, n - 1), Attempt(b.pending[n - 1], b.outcomes[n - 1]);
      LegalStep(g, a);
      AnchoredGrows(g, a);
      assert h + Attempts(b.pending, b.outcomes, n) == g + [a];
    }
  }

  lemma {:induction false} EveryRunLegal(batches: seq<Batch>)
    requires ListsPending(batches)
    ensures Legal(RunHistory(batches))
  {
    if batches != [] {
      var n := |batches| - 1;
      var init, b := batches[..n], batches[n];
      forall i | 0 <= i < n ensures init[..i] == batches[..i] { }
      EveryRunLegal(init);
      BatchStaysLegal(RunHistory(init), b, StopsAt(b, 0));
    }
  }

  /** Over any number of batches the lane commits an event at most once more often
      than it lost a reply or failed to store one. */
  lemma EveryRunAccountsForCommits(batches: seq<Batch>, e: string)
    requires ListsPending(batches)
    ensures var h := RunHistory(batches);
      Commits(h, e) <= 1 + LostReplies(h, e) + SetFailures(h, e)
  {
    EveryRunLegal(batches);
    CommitsAccountedFor(RunHistory(batches), e);
  }

  // ------------------------------------------------- the lane's own sequence numbers

  /** The lane commits [t, t] with t the event's time in seconds. The contract takes
      that exactly when t happens to be the next sequence number. */
  lemma FastLaneNeedsTheNextSeq<D>(log: seq<AC.Commitment<D>>, zero: D, t: nat, recordHash: D)
    ensures AC.Check(log, zero, t, t, recordHash) == AC.Accepted <==>
            recordHash != zero && t == AC.LastToSeq(log) + 1
  {
  }

  /** So on the log the hourly loop writes, an event later than the audit chain is long
      is refused. */
  lemma {:induction false} FastLaneRefusedOnHourlyLog<D>(hash: AL.Hashing<D>, hashes: seq<D>, events: seq<AL.Event<D>>,
                                                         t: nat, recordHash: D)
    requires t > |AL.Run(hash, AL.Initial(hashes), events).actions| + 1
    ensures AC.Check(AL.Run(hash, AL.Initial(hashes), events).chain, hash.zero, t, t, recordHash) != AC.Accepted
  {
    var s := AL.Run(hash, AL.Initial(hashes), events);
    AL.EveryRunConsistent(hash, hashes, events);
    if s.chain != [] { assert AL.RootMatches(hash, s.actions, s.chain[|s.chain| - 1]); }
    FastLaneNeedsTheNextSeq(s.chain, hash.zero, t, recordHash);
  }
}
