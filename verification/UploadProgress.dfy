/** The progress counters of upload_file: bytes and chunks are conserved exactly when no index repeats. */
module UploadProgress {
  import opened Chunks
  import opened UploadSpec
  import opened UploadProofs

  predicate InFile(job: Job, indexes: seq<nat>)
    requires job.chunkSize > 0
  {
    forall i <- indexes :: i < TotalChunks(job)
  }

  /** The lengths of the chunks sent, added without the clamp. */
  function SumLengths(job: Job, indexes: seq<nat>): int
    requires job.chunkSize > 0
  {
    if indexes == [] then 0
    else |ChunkAt(job.content, job.chunkSize, indexes[0])| + SumLengths(job, indexes[1..])
  }

  /** Bytes held at the start of an attempt that will send these indexes. */
  function HeldAtStart(job: Job, indexes: seq<nat>): int
    requires job.chunkSize > 0
  {
    HeldBytes(|job.content|, job.chunkSize, TotalChunks(job), AsSet(indexes))
  }

  lemma {:induction false} HeldWithNoneMissing(job: Job, n: nat)
    requires job.chunkSize > 0 && n <= TotalChunks(job)
    ensures HeldBytes(|job.content|, job.chunkSize, n, {}) == Min(Offset(n, job.chunkSize), |job.content|)
  {
    if n > 0 {
      HeldWithNoneMissing(job, n - 1);
      OffsetStep(n - 1, job.chunkSize);
      InRange(|job.content|, job.chunkSize, n - 1);
    }
  }

  lemma {:induction false} HeldWithOneMore(job: Job, n: nat, missing: set<nat>, i: nat)
    requires job.chunkSize > 0 && i !in missing
    ensures HeldBytes(|job.content|, job.chunkSize, n, missing) ==
            HeldBytes(|job.content|, job.chunkSize, n, missing + {i})
            + if i < n then ChunkLength(|job.content|, job.chunkSize, i) else 0
  {
    if n > 0 {
      HeldWithOneMore(job, n - 1, missing, i);
    }
  }

  /**
   What is held at the start plus what is sent is the file size exactly when no index is sent twice;
   otherwise it is more, and the clamp would change it.
   */
  lemma {:induction false} BytesConservedIffDistinct(job: Job, indexes: seq<nat>)
    requires job.chunkSize > 0 && InFile(job, indexes)
    ensures HeldAtStart(job, indexes) + SumLengths(job, indexes) >= |job.content|
    ensures HeldAtStart(job, indexes) + SumLengths(job, indexes) == |job.content| <==> Distinct(indexes)
  {
    if indexes == [] {
      HeldWithNoneMissing(job, TotalChunks(job));
      InRange(|job.content|, job.chunkSize, 0);
      assert AsSet(indexes) == {};
    } else {
      assert indexes[0] in indexes && forall j <- indexes[1..] :: j in indexes;
      BytesConservedIffDistinct(job, indexes[1..]);
      DistinctCons(indexes);
      OneIndexMore(job, indexes);
    }
  }

  lemma OneIndexMore(job: Job, indexes: seq<nat>)
    requires job.chunkSize > 0 && indexes != [] && indexes[0] < TotalChunks(job)
    ensures var more := HeldAtStart(job, indexes) + SumLengths(job, indexes);
            var fewer := HeldAtStart(job, indexes[1..]) + SumLengths(job, indexes[1..]);
            if indexes[0] in indexes[1..] then more > fewer else more == fewer
  {
    var i, others := indexes[0], indexes[1..];
    ChunkIsExpected(job, i);
    if i in others {
      assert AsSet(indexes) == AsSet(others);
    } else {
      assert AsSet(indexes) == AsSet(others) + {i};
      HeldWithOneMore(job, TotalChunks(job), AsSet(others), i);
    }
  }

  lemma DistinctCons(indexes: seq<nat>)
    requires indexes != []
    ensures Distinct(indexes) <==> indexes[0] !in indexes[1..] && Distinct(indexes[1..])
  {
    var others := indexes[1..];
    if indexes[0] !in others && Distinct(others) {
      forall i, j | 0 <= i < j < |indexes| ensures indexes[i] != indexes[j] {
        assert indexes[j] == others[j - 1];
        if i > 0 {
          assert indexes[i] == others[i - 1];
        }
      }
    }
  }

  lemma {:induction false} SetSize(indexes: seq<nat>)
    ensures |AsSet(indexes)| <= |indexes|
    ensures |AsSet(indexes)| == |indexes| <==> Distinct(indexes)
  {
    if indexes != [] {
      var others := indexes[1..];
      SetSize(others);
      DistinctCons(indexes);
      assert AsSet(indexes) == AsSet(others) + {indexes[0]};
    }
  }

  lemma {:induction false} SumLengthsSnoc(job: Job, indexes: seq<nat>, i: nat)
    requires job.chunkSize > 0
    ensures SumLengths(job, indexes + [i]) == SumLengths(job, indexes) + |ChunkAt(job.content, job.chunkSize, i)|
  {
    if indexes == [] {
      assert [i][1..] == [];
    } else {
      assert (indexes + [i])[1..] == indexes[1..] + [i];
      SumLengthsSnoc(job, indexes[1..], i);
    }
  }

  lemma {:induction false} SumLengthsSplit(job: Job, a: seq<nat>, b: seq<nat>)
    requires job.chunkSize > 0
    ensures SumLengths(job, a + b) == SumLengths(job, a) + SumLengths(job, b) && SumLengths(job, b) >= 0
  {
    if a == [] {
      assert a + b == b;
      if b != [] {
        SumLengthsSplit(job, [], b[1..]);
        assert [] + b[1..] == b[1..];
      }
    } else {
      assert (a + b)[1..] == a[1..] + b;
      SumLengthsSplit(job, a[1..], b);
    }
  }

  /** The counters after k acknowledged chunks, with no clamp applied. */
  predicate Exact(job: Job, p: Progress, indexes: seq<nat>, k: nat)
    requires job.chunkSize > 0 && k <= |indexes|
  {
    && p.bytesSent == HeldAtStart(job, indexes) + SumLengths(job, indexes[..k])
    && p.chunksDone == TotalChunks(job) - |indexes| + k
  }

  lemma BeginIsExact(job: Job, node: Node, frames: nat, indexes: seq<nat>)
    requires job.chunkSize > 0 && InFile(job, indexes) && Distinct(indexes)
    ensures Exact(job, Begin(job, node, frames, indexes), indexes, 0)
  {
    SetSize(indexes);
    RangeSize(AsSet(indexes), TotalChunks(job));
    BytesConservedIffDistinct(job, indexes);
    HeldIsNat(job, TotalChunks(job), AsSet(indexes));
  }

  lemma {:induction false} HeldIsNat(job: Job, n: nat, missing: set<nat>)
    requires job.chunkSize > 0 && n <= TotalChunks(job)
    ensures HeldBytes(|job.content|, job.chunkSize, n, missing) >= 0
  {
    if n > 0 {
      HeldIsNat(job, n - 1, missing);
      ChunkIsExpected(job, n - 1);
    }
  }

  /** The clamp changes nothing: the unclamped sum never passes the file size. */
  lemma ClampIsIdle(job: Job, p: Progress, indexes: seq<nat>, k: nat)
    requires job.chunkSize > 0 && InFile(job, indexes) && Distinct(indexes)
    requires k < |indexes| && Exact(job, p, indexes, k)
    ensures var data := ChunkAt(job.content, job.chunkSize, indexes[k]);
            p.bytesSent + |data| <= |job.content| && Exact(job, Advance(job, p, data), indexes, k + 1)
  {
    assert indexes[..k + 1] == indexes[..k] + [indexes[k]];
    assert indexes == indexes[..k + 1] + indexes[k + 1..];
    SumLengthsSnoc(job, indexes[..k], indexes[k]);
    SumLengthsSplit(job, indexes[..k + 1], indexes[k + 1..]);
    BytesConservedIffDistinct(job, indexes);
  }

  /**
   For any list of distinct missing chunks of the file: when every chunk has been acknowledged the
   byte count is the file size and the chunk count is the total.
   */
  lemma {:induction false} ProgressEndsFull(job: Job, p: Progress, indexes: seq<nat>, k: nat, fate: nat -> Fate)
    requires job.chunkSize > 0 && InFile(job, indexes) && Distinct(indexes)
    requires k <= |indexes| && Exact(job, p, indexes, k)
    ensures var (q, stop) := Send(job, p, indexes, k, fate);
            && q.bytesSent <= |job.content| && q.chunksDone <= TotalChunks(job)
            && (stop.None? ==> q.bytesSent == |job.content| && q.chunksDone == TotalChunks(job))
            && (stop.Some? ==> stop.value != Completed)
    decreases |indexes| - k
  {
    SumLengthsSplit(job, indexes[..k], indexes[k..]);
    assert indexes[..k] + indexes[k..] == indexes;
    BytesConservedIffDistinct(job, indexes);
    if k < |indexes| {
      ClampIsIdle(job, p, indexes, k);
      var (next, stop) := SendOne(job, p, indexes[k], fate(k));
      if stop.None? {
        ProgressEndsFull(job, next, indexes, k + 1, fate);
      }
    } else {
      assert indexes[..k] == indexes;
    }
  }

  lemma InSessionProgress(digest: Digest, job: Job, p: Progress, indexes: seq<nat>, chunk: nat -> Fate, finalize: Fate)
    requires job.chunkSize > 0 && InFile(job, indexes) && Distinct(indexes) && Exact(job, p, indexes, 0)
    ensures var (q, ending) := InSession(digest, job, p, indexes, chunk, finalize);
            ending == Completed ==> q.bytesSent == |job.content| && q.chunksDone == TotalChunks(job)
  {
    ProgressEndsFull(job, p, indexes, 0, chunk);
    var (after, stop) := Send(job, p, indexes, 0, chunk);
    FinishKeepsCounters(digest, job, after, finalize);
  }

  lemma FinishKeepsCounters(digest: Digest, job: Job, p: Progress, fate: Fate)
    requires job.chunkSize > 0
    ensures var q := Finish(digest, job, p, fate).0;
            q.bytesSent == p.bytesSent && q.chunksDone == p.chunksDone
  {
  }

  lemma PendingInFile(job: Job, node: Node, indexes: seq<nat>)
    requires job.chunkSize > 0 && Pending(job, node, indexes, 0)
    ensures InFile(job, indexes) && Distinct(indexes)
  {
    assert indexes[0..] == indexes;
  }

  /** Against the node, a completed upload reports the whole file sent. */
  lemma CompletedProgressIsFull(digest: Digest, job: Job, p: Progress, connection: Connection)
    requires job.chunkSize > 0 && job.nodeChunkSize > 0 && GoodNode(job, p.node)
    ensures var (q, ending) := Attempt(digest, job, p, connection);
            ending == Completed ==> q.bytesSent == |job.content| && q.chunksDone == TotalChunks(job)
  {
    if p.node.stored.None? && connection.Connected? && job.nodeChunkSize == job.chunkSize {
      OpenPending(job, p.node);
      var (node, reply) := NodeOpen(job, p.node);
      var indexes := ToSend(job, reply);
      PendingInFile(job, node, indexes);
      BeginIsExact(job, node, p.frames, indexes);
      InSessionProgress(digest, job, Begin(job, node, p.frames, indexes), indexes, connection.chunk, connection.finalize);
    }
  }
}
