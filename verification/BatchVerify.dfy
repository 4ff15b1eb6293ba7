/**
 Batch verification, sequential and in parallel, crates/pqc-tls/src/batch_verify.rs:23-138.
 The parallel verifier is a loop that lets any worker take its next atomic step, so what is
 proved holds for every interleaving of the threads.
 */
module BatchVerify {
  import opened Crypto
  import opened Sorting

  datatype SignatureEntry = SignatureEntry(message: Bytes, signature: Bytes, publicKey: Bytes)

  datatype BatchResult = BatchResult(total: nat, verified: nat, failed: nat, failedIndices: seq<int>)

  // ----- Specification -----

  function Flags(scheme: Scheme, entries: seq<SignatureEntry>): (flags: seq<bool>)
    ensures |flags| == |entries|
    ensures forall i :: 0 <= i < |entries| ==>
              flags[i] == scheme.verify(entries[i].publicKey, entries[i].message, entries[i].signature)
  {
    seq(|entries|, i requires 0 <= i < |entries| =>
      scheme.verify(entries[i].publicKey, entries[i].message, entries[i].signature))
  }

  function FailedIndices(flags: seq<bool>): (failed: seq<int>)
    ensures |failed| <= |flags|
    ensures forall i :: i in failed <==> 0 <= i < |flags| && !flags[i]
  {
    if flags == [] then []
    else
      var n := |flags| - 1;
      var before := FailedIndices(flags[..n]);
      assert forall i :: 0 <= i < n ==> flags[..n][i] == flags[i];
      if flags[n] then before else before + [n]
  }

  /** What a verifier reports: how many pass and fail, and which fail, in order. */
  function Tally(flags: seq<bool>): BatchResult {
    var failed := FailedIndices(flags);
    BatchResult(|flags|, |flags| - |failed|, |failed|, failed)
  }

  /** Each failing index is listed exactly once, in ascending order. */
  lemma {:induction false} FailedIndicesAscending(flags: seq<bool>)
    ensures Ascending(FailedIndices(flags))
    ensures forall i :: multiset(FailedIndices(flags))[i] == if 0 <= i < |flags| && !flags[i] then 1 else 0
  {
    if flags == [] {
    } else {
      var n := |flags| - 1;
      FailedIndicesAscending(flags[..n]);
      assert forall i :: 0 <= i < n ==> flags[..n][i] == flags[i];
      var before := FailedIndices(flags[..n]);
      hide FailedIndices;
      AppendLarger(before, n);
    }
  }

  lemma AppendLarger(s: seq<int>, n: int)
    requires Ascending(s) && forall i :: i in s ==> i < n
    ensures Ascending(s + [n])
    ensures forall i :: multiset(s + [n])[i] == if i == n then 1 else multiset(s)[i]
  {
    forall k | 0 <= k < |s|
      ensures s[k] < n
    {
      assert s[k] in s;
    }
    assert n !in multiset(s);
    assert multiset(s + [n]) == multiset(s) + multiset{n};
  }

  // ----- What a report says -----

  /** The result on so many entries, of which those at the given indices pass: how many there are, how
      many pass, how many fail, and which fail, in ascending order. */
  ghost predicate Reports(result: BatchResult, n: nat, passing: set<int>) {
    && (forall i :: i in passing ==> 0 <= i < n)
    && result.total == n == result.verified + result.failed
    && result.verified == |passing|
    && result.failed == |result.failedIndices| && Ascending(result.failedIndices)
    && forall i :: i in result.failedIndices <==> 0 <= i < n && i !in passing
  }

  /** The indices of the flags that are set. */
  function Set(flags: seq<bool>): (indices: set<int>)
    ensures forall i :: i in indices <==> 0 <= i < |flags| && flags[i]
  {
    set i | 0 <= i < |flags| && flags[i]
  }

  lemma {:induction false} TallyCounts(flags: seq<bool>)
    ensures Tally(flags).verified == |Set(flags)|
  {
    if flags == [] {
      assert Set(flags) == {};
    } else {
      var n := |flags| - 1;
      var before := flags[..n];
      TallyCounts(before);
      TallyStep(flags);
      hide Tally;
      assert Set(flags) == if flags[n] then Set(before) + {n} else Set(before);
    }
  }

  lemma TallyStep(flags: seq<bool>)
    requires flags != []
    ensures Tally(flags).verified
         == Tally(flags[..|flags| - 1]).verified + if flags[|flags| - 1] then 1 else 0
  {}

  lemma TallyReports(flags: seq<bool>)
    ensures Reports(Tally(flags), |flags|, Set(flags))
  {
    TallyCounts(flags);
    FailedIndicesAscending(flags);
    hide Ascending;
  }

  /** The entries whose signature verifies for their message under their key. */
  function Verifying(scheme: Scheme, entries: seq<SignatureEntry>): set<int> {
    set i | 0 <= i < |entries| && scheme.verify(entries[i].publicKey, entries[i].message, entries[i].signature)
  }

  lemma BatchReports(scheme: Scheme, entries: seq<SignatureEntry>)
    ensures Reports(Tally(Flags(scheme, entries)), |entries|, Verifying(scheme, entries))
  {
    TallyReports(Flags(scheme, entries));
    assert Set(Flags(scheme, entries)) == Verifying(scheme, entries);
  }

  // ----- Sequential -----

  method BatchVerifySequential(scheme: Scheme, entries: seq<SignatureEntry>) returns (result: BatchResult)
    ensures result == Tally(Flags(scheme, entries))
    ensures Reports(result, |entries|, Verifying(scheme, entries))
  {
    var verified, failed := 0, 0;
    var failedIndices: seq<int> := [];
    ghost var flags := Flags(scheme, entries);
    assert flags[..0] == [];
    for i := 0 to |entries|
      invariant Tally(flags[..i]) == BatchResult(i, verified, failed, failedIndices)
    {
      assert flags[..i + 1][..i] == flags[..i];
      if scheme.verify(entries[i].publicKey, entries[i].message, entries[i].signature) {
        verified := verified + 1;
      } else {
        failed := failed + 1;
        failedIndices := failedIndices + [i];
      }
    }
    assert flags[..|entries|] == flags;
    result := BatchResult(|entries|, verified, failed, failedIndices);
    BatchReports(scheme, entries);
  }

  // ----- Parallel -----

  /** A thread over the chunk [base, end): `next` is the entry it is at, and `pending` says that it
      has counted that entry as failed but not yet pushed its index. */
  datatype Worker = Worker(base: nat, next: nat, end: nat, pending: bool)

  predicate InChunk(worker: Worker, i: int) {
    worker.base <= i < worker.end
  }

  predicate InDone(worker: Worker, i: int) {
    worker.base <= i < worker.next
  }

  ghost predicate Covered(workers: seq<Worker>, i: int) {
    exists w :: 0 <= w < |workers| && InChunk(workers[w], i)
  }

  ghost predicate DealtWith(workers: seq<Worker>, i: int) {
    exists w :: 0 <= w < |workers| && InDone(workers[w], i)
  }

  /** The chunks, in order, cover each index below n exactly once. */
  ghost predicate Partition(workers: seq<Worker>, n: nat) {
    && (forall w :: 0 <= w < |workers| ==> workers[w].base <= workers[w].next <= workers[w].end <= n)
    && (forall v, w :: 0 <= v < w < |workers| ==> workers[v].end <= workers[w].base)
    && (forall i :: 0 <= i < n ==> Covered(workers, i))
  }

  /** The indices that the workers have dealt with. */
  ghost predicate Processed(workers: seq<Worker>, done: set<int>) {
    forall i :: i in done <==> DealtWith(workers, i)
  }

  ghost predicate PendingWorkers(workers: seq<Worker>, pending: set<int>, flags: seq<bool>) {
    && (forall w :: w in pending <==> 0 <= w < |workers| && workers[w].pending)
    && (forall w :: w in pending ==> workers[w].next < workers[w].end <= |flags| && !flags[workers[w].next])
  }

  /** The shared vector holds exactly the failing indices dealt with, each once. */
  ghost predicate Pushed(failedIndices: seq<int>, done: set<int>, flags: seq<bool>) {
    forall i :: multiset(failedIndices)[i] == if i in done && 0 <= i < |flags| && !flags[i] then 1 else 0
  }

  /** The first index of a chunk. */
  function BaseIndex(chunk: nat, chunkSize: nat): nat {
    chunk * chunkSize
  }

  lemma BaseIndexNext(chunk: nat, chunkSize: nat)
    ensures BaseIndex(0, chunkSize) == 0 && BaseIndex(chunk + 1, chunkSize) == BaseIndex(chunk, chunkSize) + chunkSize
  {}

  /** Enough entries a thread to cover them all. */
  function ChunkSize(n: nat, threads: nat): nat
    requires threads > 0
  {
    (n + threads - 1) / threads
  }

  method SpawnWorkers(n: nat, numThreads: nat) returns (workers: seq<Worker>)
    requires n > 0
    ensures Partition(workers, n)
    ensures forall w :: 0 <= w < |workers| ==> workers[w].next == workers[w].base && !workers[w].pending
  {
    hide Partition, BaseIndex, ChunkSize;
    var threads := if numThreads > 1 then numThreads else 1;
    var chunkSize := ChunkSize(n, threads);
    ChunkSizePositive(n, threads);
    workers := [];
    NoWorkers();
    BaseIndexNext(0, chunkSize);
    while BaseIndex(|workers|, chunkSize) < n
      invariant forall w :: 0 <= w < |workers| ==> workers[w].next == workers[w].base && !workers[w].pending
      invariant Partition(workers, if BaseIndex(|workers|, chunkSize) < n then BaseIndex(|workers|, chunkSize) else n)
      decreases n - BaseIndex(|workers|, chunkSize)
    {
      var base := BaseIndex(|workers|, chunkSize);
      var end := if base + chunkSize < n then base + chunkSize else n;
      PartitionExtend(workers, base, end);
      BaseIndexNext(|workers|, chunkSize);
      workers := workers + [Worker(base, base, end, false)];
    }
  }

  lemma NoWorkers()
    ensures Partition([], 0)
  {}

  lemma ChunkSizePositive(n: nat, threads: nat)
    requires n > 0 && threads > 0
    ensures ChunkSize(n, threads) > 0
  {}

  lemma PartitionExtend(workers: seq<Worker>, n: nat, end: nat)
    requires Partition(workers, n) && n < end
    ensures Partition(workers + [Worker(n, n, end, false)], end)
  {
    var workers' := workers + [Worker(n, n, end, false)];
    forall i | 0 <= i < end
      ensures Covered(workers', i)
    {
      if i < n {
        assert Covered(workers, i);
        var w :| 0 <= w < |workers| && InChunk(workers[w], i);
        assert workers'[w] == workers[w];
      } else {
        assert InChunk(workers'[|workers|], i);
      }
    }
  }

  /** A worker with entries left. */
  predicate Running(workers: seq<Worker>, w: int) {
    0 <= w < |workers| && workers[w].next < workers[w].end
  }

  method BatchVerifyParallel(scheme: Scheme, entries: seq<SignatureEntry>, numThreads: nat)
    returns (result: BatchResult)
    requires entries != []
    ensures result == Tally(Flags(scheme, entries))
    ensures Reports(result, |entries|, Verifying(scheme, entries))
  {
    hide Partition, Processed, PendingWorkers, Pushed, FailedIndices, Flags, Reports, Verifying;
    BatchReports(scheme, entries);
    ghost var flags := Flags(scheme, entries);
    var verified, failed := 0, 0;
    var failedIndices: seq<int> := [];
    var workers := SpawnWorkers(|entries|, numThreads);
    ghost var done: set<int>, pending: set<int> := {}, {};
    NothingDone(workers, flags);
    while exists w :: 0 <= w < |workers| && Running(workers, w)
      invariant Partition(workers, |entries|) && Processed(workers, done)
      invariant PendingWorkers(workers, pending, flags) && Pushed(failedIndices, done, flags)
      invariant failed == |failedIndices| + |pending|
      invariant verified + |failedIndices| == |done|
      invariant |pending| <= |workers|
      decreases |entries| - |done|, |workers| - |pending|
    {
      var w :| 0 <= w < |workers| && Running(workers, w);
      var i := workers[w].next;
      StepBounds(workers, w, done, pending, flags);
      if workers[w].pending {
        AdvanceFailed(workers, w, done, pending, flags, failedIndices);
        failedIndices := failedIndices + [i];
        workers := workers[w := workers[w].(next := i + 1, pending := false)];
        done, pending := done + {i}, pending - {w};
      } else if scheme.verify(entries[i].publicKey, entries[i].message, entries[i].signature) {
        AdvanceVerified(workers, w, done, pending, flags, failedIndices);
        verified := verified + 1;
        workers := workers[w := workers[w].(next := i + 1)];
        done := done + {i};
      } else {
        CountFailed(workers, w, done, pending, flags);
        failed := failed + 1;
        workers := workers[w := workers[w].(pending := true)];
        pending := pending + {w};
      }
      DoneBounded(workers, done, pending, flags);
    }
    AllDone(workers, done, pending, flags, failedIndices);
    SortNumbersAscending(failedIndices);
    FailedIndicesAscending(flags);
    AscendingUnique(SortNumbers(failedIndices), FailedIndices(flags));
    result := BatchResult(|entries|, verified, failed, SortNumbers(failedIndices));
  }

  // ----- The steps of a worker -----

  lemma NothingDone(workers: seq<Worker>, flags: seq<bool>)
    requires forall w :: 0 <= w < |workers| ==> workers[w].next == workers[w].base && !workers[w].pending
    ensures Processed(workers, {}) && PendingWorkers(workers, {}, flags) && Pushed([], {}, flags)
  {}

  /** The entry a running worker is at lies in the batch and has not been dealt with by anyone. */
  lemma StepBounds(workers: seq<Worker>, w: int, done: set<int>, pending: set<int>, flags: seq<bool>)
    requires Partition(workers, |flags|) && Processed(workers, done) && PendingWorkers(workers, pending, flags)
    requires Running(workers, w)
    ensures workers[w].next < |flags| && workers[w].next !in done
    ensures workers[w].pending <==> w in pending
    ensures workers[w].pending ==> !flags[workers[w].next]
  {
    var i := workers[w].next;
    forall v | 0 <= v < |workers|
      ensures !InDone(workers[v], i)
    {}
    assert !DealtWith(workers, i);
  }

  lemma AdvancePartition(workers: seq<Worker>, w: int, n: nat, pending: bool, next: nat)
    requires Partition(workers, n) && 0 <= w < |workers| && workers[w].base <= next <= workers[w].end
    ensures Partition(workers[w := workers[w].(next := next, pending := pending)], n)
  {
    var workers' := workers[w := workers[w].(next := next, pending := pending)];
    forall i | 0 <= i < n
      ensures Covered(workers', i)
    {
      assert Covered(workers, i);
      var v :| 0 <= v < |workers| && InChunk(workers[v], i);
      assert InChunk(workers'[v], i);
    }
  }

  lemma AdvanceProcessed(workers: seq<Worker>, w: int, done: set<int>, pending: bool)
    requires Processed(workers, done) && Running(workers, w) && workers[w].base <= workers[w].next
    ensures Processed(
      workers[w := workers[w].(next := workers[w].next + 1, pending := pending)], done + {workers[w].next})
  {
    var i := workers[w].next;
    var workers' := workers[w := workers[w].(next := i + 1, pending := pending)];
    assert InDone(workers'[w], i);
    forall k
      ensures k in done + {i} <==> DealtWith(workers', k)
    {
      if k in done {
        var v :| 0 <= v < |workers| && InDone(workers[v], k);
        assert InDone(workers'[v], k);
      }
      if DealtWith(workers', k) {
        var v :| 0 <= v < |workers'| && InDone(workers'[v], k);
        assert k == i || InDone(workers[v], k);
      }
    }
  }

  lemma AdvanceFailed(workers: seq<Worker>, w: int, done: set<int>, pending: set<int>, flags: seq<bool>,
                      pushed: seq<int>)
    requires Partition(workers, |flags|) && Processed(workers, done) && PendingWorkers(workers, pending, flags)
    requires Pushed(pushed, done, flags) && Running(workers, w) && workers[w].pending
    ensures
      var i := workers[w].next;
      var workers' := workers[w := workers[w].(next := i + 1, pending := false)];
      && Partition(workers', |flags|) && Processed(workers', done + {i})
      && PendingWorkers(workers', pending - {w}, flags)
      && Pushed(pushed + [i], done + {i}, flags)
  {
    StepBounds(workers, w, done, pending, flags);
    AdvancePartition(workers, w, |flags|, false, workers[w].next + 1);
    AdvanceProcessed(workers, w, done, false);
    hide Partition, Processed;
  }

  lemma AdvanceVerified(workers: seq<Worker>, w: int, done: set<int>, pending: set<int>, flags: seq<bool>,
                        pushed: seq<int>)
    requires Partition(workers, |flags|) && Processed(workers, done) && PendingWorkers(workers, pending, flags)
    requires Pushed(pushed, done, flags) && Running(workers, w) && !workers[w].pending
    requires workers[w].next < |flags| && flags[workers[w].next]
    ensures
      var i := workers[w].next;
      var workers' := workers[w := workers[w].(next := i + 1)];
      && Partition(workers', |flags|) && Processed(workers', done + {i}) && PendingWorkers(workers', pending, flags)
      && Pushed(pushed, done + {i}, flags)
  {
    AdvancePartition(workers, w, |flags|, false, workers[w].next + 1);
    AdvanceProcessed(workers, w, done, false);
    hide Partition, Processed;
    assert workers[w].(next := workers[w].next + 1, pending := false) == workers[w].(next := workers[w].next + 1);
  }

  lemma CountFailed(workers: seq<Worker>, w: int, done: set<int>, pending: set<int>, flags: seq<bool>)
    requires Partition(workers, |flags|) && Processed(workers, done) && PendingWorkers(workers, pending, flags)
    requires Running(workers, w) && !workers[w].pending && workers[w].next < |flags| && !flags[workers[w].next]
    ensures
      var workers' := workers[w := workers[w].(pending := true)];
      Partition(workers', |flags|) && Processed(workers', done) && PendingWorkers(workers', pending + {w}, flags)
  {
    AdvancePartition(workers, w, |flags|, true, workers[w].next);
    var workers' := workers[w := workers[w].(pending := true)];
    assert workers[w].(next := workers[w].next, pending := true) == workers[w].(pending := true);
    hide Partition;
    ProcessedSame(workers, workers', done);
    hide Processed;
  }

  lemma ProcessedSame(workers: seq<Worker>, workers': seq<Worker>, done: set<int>)
    requires Processed(workers, done) && |workers| == |workers'|
    requires forall v :: 0 <= v < |workers| ==>
      workers'[v].base == workers[v].base && workers'[v].next == workers[v].next
    ensures Processed(workers', done)
  {
    forall k
      ensures DealtWith(workers', k) <==> DealtWith(workers, k)
    {
      if DealtWith(workers, k) {
        var v :| 0 <= v < |workers| && InDone(workers[v], k);
        assert InDone(workers'[v], k);
      }
      if DealtWith(workers', k) {
        var v :| 0 <= v < |workers'| && InDone(workers'[v], k);
        assert InDone(workers[v], k);
      }
    }
  }

  function Below(n: nat): (s: set<int>)
    ensures forall i :: i in s <==> 0 <= i < n
    ensures |s| == n
  {
    if n == 0 then {} else Below(n - 1) + {n - 1}
  }

  lemma SubsetSize(s: set<int>, n: nat)
    requires forall i :: i in s ==> 0 <= i < n
    ensures |s| <= n
    ensures |s| == n ==> s == Below(n)
  {
    var all := Below(n);
    assert s <= all;
    assert all == s + (all - s);
    assert |all| == |s| + |all - s|;
  }

  lemma DoneBounded(workers: seq<Worker>, done: set<int>, pending: set<int>, flags: seq<bool>)
    requires Partition(workers, |flags|) && Processed(workers, done) && PendingWorkers(workers, pending, flags)
    ensures forall i :: i in done ==> 0 <= i < |flags|
    ensures |done| <= |flags| && |pending| <= |workers|
  {
    SubsetSize(done, |flags|);
    SubsetSize(pending, |workers|);
  }

  /** When no worker runs any more, every index has been dealt with and nothing is pending. */
  lemma AllDone(workers: seq<Worker>, done: set<int>, pending: set<int>, flags: seq<bool>, pushed: seq<int>)
    requires Partition(workers, |flags|) && Processed(workers, done) && PendingWorkers(workers, pending, flags)
    requires Pushed(pushed, done, flags) && !exists w :: 0 <= w < |workers| && Running(workers, w)
    ensures |done| == |flags| && pending == {}
    ensures multiset(pushed) == multiset(FailedIndices(flags))
  {
    hide Pushed, FailedIndices;
    NothingPending(workers, pending, flags);
    forall i | 0 <= i < |flags|
      ensures i in done
    {
      AllDealtWith(workers, |flags|, i);
    }
    DoneBounded(workers, done, pending, flags);
    hide Partition, Processed, PendingWorkers;
    AllPushed(done, flags, pushed);
  }

  lemma NothingPending(workers: seq<Worker>, pending: set<int>, flags: seq<bool>)
    requires PendingWorkers(workers, pending, flags) && !exists w :: 0 <= w < |workers| && Running(workers, w)
    ensures pending == {}
  {
    forall w
      ensures w !in pending
    {
      assert w in pending ==> Running(workers, w);
    }
  }

  lemma AllDealtWith(workers: seq<Worker>, n: nat, i: int)
    requires Partition(workers, n) && !exists w :: 0 <= w < |workers| && Running(workers, w)
    requires 0 <= i < n
    ensures DealtWith(workers, i)
  {
    assert Covered(workers, i);
    var w :| 0 <= w < |workers| && InChunk(workers[w], i);
    assert !Running(workers, w);
    assert InDone(workers[w], i);
  }

  lemma AllPushed(done: set<int>, flags: seq<bool>, pushed: seq<int>)
    requires (forall i :: i in done <==> 0 <= i < |flags|) && Pushed(pushed, done, flags)
    ensures |done| == |flags| && multiset(pushed) == multiset(FailedIndices(flags))
  {
    hide FailedIndices;
    assert done == Below(|flags|);
    FailedIndicesAscending(flags);
    var a, b := multiset(pushed), multiset(FailedIndices(flags));
    hide Pushed;
    assert forall i :: a[i] == b[i];
    assert a == b;
  }
}
