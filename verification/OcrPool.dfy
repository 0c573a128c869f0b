/**
 `OcrPool` (apps/worker-document/src/ocr-pool.ts): a fixed set of workers, a free
 list, and a first-in-first-out queue of callers.

 A call to `recognise` is a job. It arrives (`checkout`), runs once it holds a
 worker, and finishes (`checkin` in the `finally` block), whether it succeeded or
 threw.
 */
module OcrPool {
  import opened JsStrings

  type Worker = int
  type Job = int

  /** A job and the worker it was given. */
  datatype Lease = Lease(job: Job, worker: Worker)

  function WorkersOf(leases: seq<Lease>): (r: seq<Worker>)
    ensures |r| == |leases|
  {
    seq(|leases|, i requires 0 <= i < |leases| => leases[i].worker)
  }

  // --------------------------------------------------------- conservation

  /** Free and lent-out workers together are the workers; callers wait only while no
      worker is free; and jobs start in the order they arrived. */
  ghost predicate Consistent(workers: seq<Worker>, available: seq<Worker>, leases: seq<Lease>,
                             waitQueue: seq<Job>, arrivals: seq<Job>, started: seq<Job>) {
    && Distinct(workers)
    && multiset(available) + multiset(WorkersOf(leases)) == multiset(workers)
    && (waitQueue != [] ==> available == [])
    && started + waitQueue == arrivals
    && (forall i :: 0 <= i < |leases| ==> leases[i].job in started)
  }

  lemma MultiplicityOne(s: seq<Worker>, w: Worker)
    requires Distinct(s)
    ensures multiset(s)[w] <= 1
  {
    DistinctMultiset(s);
  }

  /** The free list and the lent-out workers are disjoint, free of duplicates, and
      together exactly the workers. */
  lemma WorkersPartitioned(workers: seq<Worker>, available: seq<Worker>, leases: seq<Lease>,
                           waitQueue: seq<Job>, arrivals: seq<Job>, started: seq<Job>)
    requires Consistent(workers, available, leases, waitQueue, arrivals, started)
    ensures Distinct(available) && Distinct(WorkersOf(leases))
    ensures forall w :: w in available ==> w !in WorkersOf(leases)
    ensures forall w :: w in workers <==> w in available || w in WorkersOf(leases)
    ensures |available| + |leases| == |workers|
  {
    var lent := WorkersOf(leases);
    forall w ensures multiset(available)[w] + multiset(lent)[w] <= 1 {
      MultiplicityOne(workers, w);
      assert (multiset(available) + multiset(lent))[w] == multiset(workers)[w];
    }
    NoRepetition(available);
    NoRepetition(lent);
    forall w ensures w in workers <==> w in available || w in lent {
      assert w in multiset(workers) <==> w in multiset(available) || w in multiset(lent);
    }
    forall w | w in available ensures w !in lent {
      assert multiset(available)[w] >= 1;
      assert w in lent ==> multiset(lent)[w] >= 1;
    }
    assert |multiset(available) + multiset(lent)| == |multiset(workers)|;
  }

  function Min(a: nat, b: nat): nat { if a < b then a else b }

  /** The pool never idles a worker while a caller waits: as many jobs run as there
      are workers or unfinished jobs, whichever is fewer. */
  lemma BusyIsMaximal(workers: seq<Worker>, available: seq<Worker>, leases: seq<Lease>,
                      waitQueue: seq<Job>, arrivals: seq<Job>, started: seq<Job>)
    requires Consistent(workers, available, leases, waitQueue, arrivals, started)
    ensures |leases| == Min(|workers|, |leases| + |waitQueue|)
  {
    WorkersPartitioned(workers, available, leases, waitQueue, arrivals, started);
  }

  lemma LeaseAdded(leases: seq<Lease>, l: Lease)
    ensures multiset(WorkersOf(leases + [l])) == multiset(WorkersOf(leases)) + multiset{l.worker}
  {
    assert WorkersOf(leases + [l]) == WorkersOf(leases) + [l.worker];
  }

  lemma LeaseRemoved(leases: seq<Lease>, i: nat)
    requires i < |leases|
    ensures multiset(WorkersOf(leases[..i] + leases[i + 1..])) + multiset{leases[i].worker} == multiset(WorkersOf(leases))
  {
    var ws := WorkersOf(leases);
    assert ws == ws[..i] + [ws[i]] + ws[i + 1..];
    assert WorkersOf(leases[..i] + leases[i + 1..]) == ws[..i] + ws[i + 1..];
  }

  /** With every worker free there is no lease. */
  lemma NoLeases(workers: seq<Worker>, leases: seq<Lease>)
    requires multiset(workers) + multiset(WorkersOf(leases)) == multiset(workers)
    ensures leases == []
  {
    assert |multiset(workers) + multiset(WorkersOf(leases))| == |workers| + |leases|;
  }

  /** Lending out the worker on top of the free list. */
  lemma LendOut(workers: seq<Worker>, available: seq<Worker>, leases: seq<Lease>,
                waitQueue: seq<Job>, arrivals: seq<Job>, started: seq<Job>, job: Job)
    requires Consistent(workers, available, leases, waitQueue, arrivals, started) && available != []
    ensures var n := |available| - 1;
      && available == available[..n] + [available[n]]
      && Consistent(workers, available[..n], leases + [Lease(job, available[n])], waitQueue, arrivals + [job], started + [job])
  {
    var n := |available| - 1;
    assert available == available[..n] + [available[n]];
    LeaseAdded(leases, Lease(job, available[n]));
  }

  /** Joining the end of the queue. */
  lemma QueueUp(workers: seq<Worker>, leases: seq<Lease>, waitQueue: seq<Job>, arrivals: seq<Job>, started: seq<Job>, job: Job)
    requires Consistent(workers, [], leases, waitQueue, arrivals, started)
    ensures Consistent(workers, [], leases, waitQueue + [job], arrivals + [job], started)
  {
    assert started + (waitQueue + [job]) == (started + waitQueue) + [job];
  }

  /** Handing the i-th lease's worker to the oldest waiter. */
  lemma HandOver(workers: seq<Worker>, leases: seq<Lease>, waitQueue: seq<Job>, arrivals: seq<Job>, started: seq<Job>, i: nat)
    requires Consistent(workers, [], leases, waitQueue, arrivals, started) && i < |leases| && waitQueue != []
    ensures Consistent(workers, [], leases[..i] + leases[i + 1..] + [Lease(waitQueue[0], leases[i].worker)],
                       waitQueue[1..], arrivals, started + [waitQueue[0]])
  {
    LeaseRemoved(leases, i);
    LeaseAdded(leases[..i] + leases[i + 1..], Lease(waitQueue[0], leases[i].worker));
    assert started + [waitQueue[0]] + waitQueue[1..] == started + waitQueue;
  }

  /** Putting it back on the free list when nobody waits. */
  lemma PutBack(workers: seq<Worker>, available: seq<Worker>, leases: seq<Lease>, arrivals: seq<Job>, started: seq<Job>, i: nat)
    requires Consistent(workers, available, leases, [], arrivals, started) && i < |leases|
    ensures Consistent(workers, available + [leases[i].worker], leases[..i] + leases[i + 1..], [], arrivals, started)
  {
    LeaseRemoved(leases, i);
  }

  // ------------------------------------------------------------------ the class

  class OcrPool {
    const size: nat
    var workers: seq<Worker>
    var available: seq<Worker>
    var waitQueue: seq<Job>
    var initialised: bool
    ghost var left: nat           // workers created by calls of `init` that then threw
    ghost var leases: seq<Lease>
    ghost var arrivals: seq<Job>  // every job, in order of its checkout
    ghost var started: seq<Job>   // every job that was given a worker, in that order

    constructor (size: nat := 4)
      ensures this.size == size && !initialised && Valid() && arrivals == [] && left == 0
    {
      this.size := size;
      workers, available, waitQueue, initialised := [], [], [], false;
      left, leases, arrivals, started := 0, [], [], [];
    }

    ghost predicate Valid() reads this {
      && Consistent(workers, available, leases, waitQueue, arrivals, started)
      && |workers| == left + (if initialised then size else 0)
      && (!initialised ==> available == workers && arrivals == [])
    }

    /** `init`; `created` is what the successive createWorker calls return. If they are
        fewer than `size`, the next one throws: the workers stay in both lists, and the next
        call of `init` starts from the beginning. */
    method Init(created: seq<Worker>) returns (threw: bool)
      requires Valid() && |created| <= size && Distinct(workers + created)
      modifies this
      ensures Valid()
      ensures threw <==> !old(initialised) && |created| < size
      ensures initialised <==> !threw
      ensures old(initialised) ==> workers == old(workers) && available == old(available) && left == old(left)
      ensures !old(initialised) ==> workers == old(workers) + created && available == workers
      ensures !old(initialised) ==> left == old(left) + if threw then |created| else 0
      ensures waitQueue == old(waitQueue) && leases == old(leases) && arrivals == old(arrivals) && started == old(started)
    {
      if initialised { return false; }
      for i := 0 to size
        invariant i <= |created|
        invariant workers == old(workers) + created[..i] && available == workers
        invariant !initialised && left == old(left)
        invariant waitQueue == old(waitQueue) && leases == old(leases) && arrivals == old(arrivals) && started == old(started)
      {
        if i == |created| {
          assert created[..i] == created;
          NoLeases(old(workers), leases);
          left := left + |created|;
          return true;
        }
        workers := workers + [created[i]];
        available := available + [created[i]];
        assert created[..i + 1] == created[..i] + [created[i]];
      }
      assert created[..size] == created;
      NoLeases(old(workers), leases);
      initialised := true;
      return false;
    }

    /** `checkout`: the free worker on top of the stack, or a place at the end of the queue. */
    method Checkout(job: Job) returns (ready: seq<Worker>)
      requires Valid() && initialised
      modifies this
      ensures Valid() && initialised && workers == old(workers) && left == old(left) && arrivals == old(arrivals) + [job]
      ensures old(available) != [] ==>
        && old(available) == available + ready && |ready| == 1 && waitQueue == old(waitQueue)
        && leases == old(leases) + [Lease(job, ready[0])] && started == old(started) + [job]
      ensures old(available) == [] ==>
        && available == [] && ready == [] && waitQueue == old(waitQueue) + [job]
        && leases == old(leases) && started == old(started)
    {
      if |available| > 0 {
        LendOut(workers, available, leases, waitQueue, arrivals, started, job);
        arrivals := arrivals + [job];
        var worker := available[|available| - 1];
        available := available[..|available| - 1];
        leases := leases + [Lease(job, worker)];
        started := started + [job];
        return [worker];
      }
      QueueUp(workers, leases, waitQueue, arrivals, started, job);
      arrivals := arrivals + [job];
      waitQueue := waitQueue + [job];
      return [];
    }

    /** `checkin(worker)` by the holder of lease i: to the oldest waiter, or back to the
        free list. */
    method Checkin(worker: Worker, ghost i: nat) returns (resumed: seq<Job>)
      requires Valid() && initialised && i < |leases| && leases[i].worker == worker
      modifies this
      ensures Valid() && initialised && workers == old(workers) && left == old(left) && arrivals == old(arrivals)
      ensures old(waitQueue) != [] ==>
        && resumed == [old(waitQueue)[0]] && waitQueue == old(waitQueue)[1..]
        && started == old(started) + resumed && available == old(available)
        && leases == old(leases)[..i] + old(leases)[i + 1..] + [Lease(resumed[0], worker)]
      ensures old(waitQueue) == [] ==>
        && resumed == [] && waitQueue == [] && started == old(started)
        && leases == old(leases)[..i] + old(leases)[i + 1..] && available == old(available) + [worker]
    {
      if |waitQueue| > 0 {
        HandOver(workers, leases, waitQueue, arrivals, started, i);
        var next := waitQueue[0];
        waitQueue := waitQueue[1..];
        leases := leases[..i] + leases[i + 1..] + [Lease(next, worker)];
        started := started + [next];
        return [next];
      } else {
        PutBack(workers, available, leases, arrivals, started, i);
        available := available + [worker];
        leases := leases[..i] + leases[i + 1..];
        return [];
      }
    }
  }
}
