/** The commitment log and the guards of VIGILAnchor.sol
    (contracts/contracts/VIGILAnchor.sol). */
module AnchorContract {

  const MAX_RANGE_PER_COMMIT: nat := 1_000_000

  datatype Commitment<+D> = Commitment(fromSeq: nat, toSeq: nat, rootHash: D)

  datatype Guard = Accepted | InvalidRange | EmptyRoot | RangeTooLarge | NonContiguous

  /** `lastToSeq`, which starts at zero. */
  function LastToSeq<D>(log: seq<Commitment<D>>): nat {
    if log == [] then 0 else log[|log| - 1].toSeq
  }

  /** The checks of `commit`, in their order. */
  function Check<D(==)>(log: seq<Commitment<D>>, zero: D, fromSeq: nat, toSeq: nat, rootHash: D): Guard {
    if fromSeq > toSeq then InvalidRange
    else if rootHash == zero then EmptyRoot
    else if toSeq - fromSeq + 1 > MAX_RANGE_PER_COMMIT then RangeTooLarge
    else if log == [] then (if fromSeq != 1 then NonContiguous else Accepted)
    else if fromSeq != LastToSeq(log) + 1 then NonContiguous
    else Accepted
  }

  /** Which guard fires, when: each comes after the ones before it. */
  lemma GuardFires<D>(log: seq<Commitment<D>>, zero: D, fromSeq: nat, toSeq: nat, rootHash: D)
    ensures var g, next := Check(log, zero, fromSeq, toSeq, rootHash), if log == [] then 1 else log[|log| - 1].toSeq + 1;
      && (g == InvalidRange <==> toSeq < fromSeq)
      && (g == EmptyRoot <==> fromSeq <= toSeq && rootHash == zero)
      && (g == RangeTooLarge <==> toSeq >= fromSeq + 1_000_000 && rootHash != zero)
      && (g == NonContiguous <==> fromSeq <= toSeq < fromSeq + 1_000_000 && rootHash != zero && fromSeq != next)
      && (g == Accepted <==> fromSeq <= toSeq < fromSeq + 1_000_000 && rootHash != zero && fromSeq == next)
  {
  }

  /** Consecutive, non-empty ranges from 1 on. */
  ghost predicate Contiguous<D>(log: seq<Commitment<D>>) {
    && (forall i :: 0 <= i < |log| ==> log[i].fromSeq <= log[i].toSeq)
    && (log != [] ==> log[0].fromSeq == 1)
    && (forall i :: 0 < i < |log| ==> log[i].fromSeq == log[i - 1].toSeq + 1)
  }

  /** Whoever the committer is, the guards keep the log contiguous. */
  lemma AcceptedCommitKeepsContiguity<D>(log: seq<Commitment<D>>, zero: D, c: Commitment<D>)
    requires Contiguous(log) && Check(log, zero, c.fromSeq, c.toSeq, c.rootHash) == Accepted
    ensures Contiguous(log + [c]) && LastToSeq(log + [c]) == c.toSeq
  {
  }

  /** Entry ends grow along a contiguous log. */
  lemma {:induction false} EndsGrow<D>(log: seq<Commitment<D>>, i: nat, j: nat)
    requires Contiguous(log) && i < j < |log|
    ensures log[i].toSeq < log[j].fromSeq
  {
    if i + 1 < j { EndsGrow(log, i, j - 1); }
  }

  ghost predicate Covers<D>(c: Commitment<D>, s: nat) { c.fromSeq <= s <= c.toSeq }

  /** A contiguous log covers each of 1..lastToSeq exactly once, and nothing else. */
  lemma {:induction false} ContiguousLogTiles<D>(log: seq<Commitment<D>>, s: nat)
    requires Contiguous(log)
    ensures (exists i :: 0 <= i < |log| && Covers(log[i], s)) <==> 1 <= s <= LastToSeq(log)
    ensures forall i, j :: 0 <= i < |log| && 0 <= j < |log| && Covers(log[i], s) && Covers(log[j], s) ==> i == j
  {
    forall i, j | 0 <= i < j < |log| ensures !(Covers(log[i], s) && Covers(log[j], s)) {
      EndsGrow(log, i, j);
    }
    if log != [] {
      var init, last := log[..|log| - 1], log[|log| - 1];
      ContiguousLogTiles(init, s);
      assert Covers(last, s) <==> last.fromSeq <= s <= last.toSeq;
      if init != [] { assert init[|init| - 1] == log[|log| - 2]; }
      if i :| 0 <= i < |init| && Covers(init[i], s) { assert Covers(log[i], s); }
      if i :| 0 <= i < |log| && Covers(log[i], s) && i < |init| { assert Covers(init[i], s); }
    }
  }
}
