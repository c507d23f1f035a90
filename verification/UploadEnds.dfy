/** What ends upload_file, said of its own arguments: success, the errors that are final, and the retries. */
module UploadEnds {
  import opened Bytes
  import opened Chunks
  import opened UploadSpec
  import opened UploadProofs
  import opened Wrappers

  /**
   With a planned chunk size that is the node's, one healthy connection within the configured attempts, at
   least one, stores the file, after any losses and whatever the node forgot.
   */
  lemma HealthyUploadStoresTheFile(digest: Digest, content: ByteString, plannedChunkSize: int, nodeChunkSize: nat, node: Node,
                                   maxAttempts: int, schedule: Schedule, good: nat)
    requires plannedChunkSize == nodeChunkSize > 0
    requires GoodNode(Job(content, nodeChunkSize, nodeChunkSize), node)
    requires 1 <= good <= if maxAttempts < 1 then 1 else maxAttempts
    requires Healthy(schedule.connection(good))
    requires forall a: nat :: 1 <= a < good ==> Transient(schedule.connection(a))
    ensures var (p, ending, _) := UploadRun(digest, content, plannedChunkSize, nodeChunkSize, node, maxAttempts, schedule);
            (ending == Some(Completed) || ending == Some(Deduplicated)) && p.node.stored == Some(content)
  {
    var job := Job(content, nodeChunkSize, nodeChunkSize);
    HealthyConnectionCompletes(digest, job, Progress(node, 0, 0, 0), 1, good, AttemptLimit(maxAttempts), schedule);
  }

  /** Whatever happens, a reported success means that the node stores the file; no ending means a negative size. */
  lemma UploadRunIsSound(digest: Digest, content: ByteString, plannedChunkSize: int, nodeChunkSize: nat, node: Node,
                         maxAttempts: int, schedule: Schedule, c: nat)
    requires c > 0 && (plannedChunkSize >= 0 ==> c == if plannedChunkSize == 0 then 524288 else plannedChunkSize)
    requires nodeChunkSize > 0 && GoodNode(Job(content, c, nodeChunkSize), node)
    ensures var (p, ending, failures) := UploadRun(digest, content, plannedChunkSize, nodeChunkSize, node, maxAttempts, schedule);
            && (ending.None? <==> plannedChunkSize < 0)
            && (ending.None? ==> p == Progress(node, 0, 0, 0) && failures == 0)
            && (ending == Some(Completed) || ending == Some(Deduplicated) ==> p.node.stored == Some(content))
  {
    UploadStoresTheFile(digest, Job(content, c, nodeChunkSize), node, maxAttempts, schedule);
  }

  // ---------------------------------------------------------------- before the first chunk

  /** The connection is lost before the node is asked to open a session. */
  predicate LostFirst(connection: Connection) {
    connection.NotConnected? || connection.HandshakeLost?
  }

  /** The error that ends the call on this connection, for a node with this chunk size. */
  function FinalError(job: Job, node: Node, connection: Connection): Option<Reason> {
    match connection
    case UnknownHost => Some(HostUnknown)
    case HandshakeRefused => Some(CryptoRefused)
    case Connected(Refused, _, _) => Some(OpenRefused)
    case Connected(Delivered, _, _) =>
      if node.stored.None? && job.nodeChunkSize != job.chunkSize then Some(ChunkSizeMismatch) else None
    case _ => None
  }

  lemma LostFirstRetries(digest: Digest, job: Job, p: Progress, connection: Connection)
    requires job.chunkSize > 0 && LostFirst(connection)
    ensures Attempt(digest, job, p, connection) == (p, Retry)
  {
  }

  lemma FinalErrorEnds(digest: Digest, job: Job, p: Progress, connection: Connection)
    requires job.chunkSize > 0 && job.nodeChunkSize > 0 && FinalError(job, p.node, connection).Some?
    ensures var (q, ending) := Attempt(digest, job, p, connection);
            && ending == Fatal(FinalError(job, p.node, connection).value)
            && q.frames == p.frames && q.node.stored == p.node.stored
  {
  }

  lemma {:induction false} AttemptsBeforeAnError(digest: Digest, job: Job, p: Progress, attempt: nat, last: nat,
                                                 schedule: Schedule, n: nat)
    requires job.chunkSize > 0 && job.nodeChunkSize > 0 && attempt <= n <= last
    requires forall a: nat :: attempt <= a < n ==> LostFirst(schedule.connection(a))
    requires LostFirst(schedule.connection(n)) ==> n == last
    requires !LostFirst(schedule.connection(n)) ==> FinalError(job, p.node, schedule.connection(n)).Some?
    ensures var (q, ending, failures) := Attempts(digest, job, p, attempt, last, schedule);
            && ending == Fatal(if LostFirst(schedule.connection(n)) then Exhausted
                               else FinalError(job, p.node, schedule.connection(n)).value)
            && failures == n - attempt + 1 && q.frames == p.frames
    decreases n - attempt
  {
    var before := p.(node := Forgetting(p.node, schedule.forget(attempt)));
    assert before.node.stored == p.node.stored;
    if LostFirst(schedule.connection(attempt)) {
      LostFirstRetries(digest, job, before, schedule.connection(attempt));
      if attempt < n {
        AttemptsBeforeAnError(digest, job, before, attempt + 1, last, schedule, n);
      }
    } else {
      FinalErrorEnds(digest, job, before, schedule.connection(attempt));
    }
  }

  /**
   Connections lost before a session are retried up to the configured number, at least one, and no
   further; an unknown host, a refused handshake or session, or another chunk size ends the call at once.
   No chunk is sent.
   */
  lemma UploadAttemptsAreCounted(digest: Digest, content: ByteString, plannedChunkSize: int, nodeChunkSize: nat, node: Node,
                                 maxAttempts: int, schedule: Schedule, n: nat)
    requires plannedChunkSize > 0 && nodeChunkSize > 0
    requires 1 <= n <= if maxAttempts < 1 then 1 else maxAttempts
    requires forall a: nat :: 1 <= a < n ==> LostFirst(schedule.connection(a))
    requires LostFirst(schedule.connection(n)) ==> n == if maxAttempts < 1 then 1 else maxAttempts
    requires !LostFirst(schedule.connection(n)) ==>
               FinalError(Job(content, plannedChunkSize, nodeChunkSize), node, schedule.connection(n)).Some?
    ensures var (p, ending, failures) := UploadRun(digest, content, plannedChunkSize, nodeChunkSize, node, maxAttempts, schedule);
            && ending == Some(Fatal(
                 if LostFirst(schedule.connection(n)) then Exhausted
                 else FinalError(Job(content, plannedChunkSize, nodeChunkSize), node, schedule.connection(n)).value))
            && failures == n && p.frames == 0
  {
    var job := Job(content, plannedChunkSize, nodeChunkSize);
    AttemptsBeforeAnError(digest, job, Progress(node, 0, 0, 0), 1, AttemptLimit(maxAttempts), schedule, n);
  }

  /** A node that stores the content already answers at once, and nothing is sent. */
  lemma StoredContentIsNotSent(digest: Digest, job: Job, p: Progress, connection: Connection)
    requires job.chunkSize > 0 && p.node.stored.Some? && connection.Connected? && connection.open.Delivered?
    ensures Attempt(digest, job, p, connection) == (p, Deduplicated)
  {
  }

  // ---------------------------------------------------------------- in a session

  /** One chunk: stored unless the request was lost or refused; a loss is retried, a refusal is final. */
  lemma ChunkEnds(job: Job, p: Progress, indexes: seq<nat>, k: nat, fate: Fate)
    requires job.chunkSize > 0 && job.nodeChunkSize == job.chunkSize
    requires k < |indexes| && Pending(job, p.node, indexes, k)
    ensures var (q, stop) := SendOne(job, p, indexes[k], fate);
            var data := ChunkAt(job.content, job.chunkSize, indexes[k]);
            && q.frames == p.frames + 1
            && (stop == None <==> fate.Delivered?)
            && (stop == Some(Retry) <==> fate.LostBefore? || fate.LostAfter?)
            && (stop == Some(Fatal(ChunkRefused)) <==> fate.Refused?)
            && q.node == if fate.Delivered? || fate.LostAfter?
                         then p.node.(session := Some(p.node.session.value[indexes[k] := data])) else p.node
  {
    SendStep(job, p.node, indexes, k);
  }

  /**
   The first chunk that is not acknowledged ends the loop: each chunk before it cost one frame, as it does
   itself, and the session has gained exactly the chunks before it, and it too if only its answer was lost.
   */
  lemma {:induction false} FirstLossDecides(job: Job, p: Progress, indexes: seq<nat>, k: nat, fate: nat -> Fate, gap: nat)
    requires job.chunkSize > 0 && job.nodeChunkSize == job.chunkSize
    requires k <= gap < |indexes| && Pending(job, p.node, indexes, k)
    requires forall i: nat :: k <= i < gap ==> fate(i).Delivered?
    requires !fate(gap).Delivered?
    ensures var (q, stop) := Send(job, p, indexes, k, fate);
            && q.frames == p.frames + (gap - k) + 1
            && stop == Some(if fate(gap).Refused? then Fatal(ChunkRefused) else Retry)
            && q.node.session.Some?
            && (forall i: nat :: i in q.node.session.value <==>
                  i in p.node.session.value || i in indexes[k..gap] || (fate(gap).LostAfter? && i == indexes[gap]))
    decreases gap - k
  {
    ChunkEnds(job, p, indexes, k, fate(k));
    assert k < gap ==> indexes[k..gap] == [indexes[k]] + indexes[k + 1..gap];
    SendOneIsSound(job, p, indexes, k, fate(k));
    if k < gap {
      FirstLossDecides(job, SendOne(job, p, indexes[k], fate(k)).0, indexes, k + 1, fate, gap);
    }
  }

  /** A new upload sends the chunks in the order of the file: after a loss at one, the node holds exactly those before it. */
  lemma NewUploadFillsInOrder(digest: Digest, job: Job, p: Progress, chunk: nat -> Fate, finalize: Fate, gap: nat)
    requires job.chunkSize > 0 && job.nodeChunkSize == job.chunkSize && p.node == Node(None, None)
    requires gap < TotalChunks(job) && !chunk(gap).Delivered?
    requires forall i: nat :: i < gap ==> chunk(i).Delivered?
    ensures var (q, ending) := Attempt(digest, job, p, Connected(Delivered, chunk, finalize));
            && ending == (if chunk(gap).Refused? then Fatal(ChunkRefused) else Retry)
            && q.frames == p.frames + gap + 1 && q.node.session.Some?
            && forall i: nat :: i in q.node.session.value <==> i < gap || (chunk(gap).LostAfter? && i == gap)
  {
    OpenPending(job, p.node);
    var (node, reply) := NodeOpen(job, p.node);
    var indexes := ToSend(job, reply);
    FirstLossDecides(job, Begin(job, node, p.frames, indexes), indexes, 0, chunk, gap);
    forall i: nat
      ensures i in indexes[0..gap] <==> i < gap
    {
      if i < gap {
        assert indexes[0..gap][i] == i;
      }
    }
  }

  /** FINALIZE_UPLOAD of a complete session: a loss is retried, a refusal is final, an answer completes. */
  lemma FinalizeEnds(digest: Digest, job: Job, p: Progress, fate: Fate)
    requires job.chunkSize > 0
    requires p.node.session.Some? && p.node.stored.None? && GoodSession(job, p.node.session.value)
    requires forall i: nat :: i < TotalChunks(job) ==> i in p.node.session.value
    ensures var (q, ending) := Finish(digest, job, p, fate);
            && (ending == Completed <==> fate.Delivered?)
            && (ending == Retry <==> fate.LostBefore? || fate.LostAfter?)
            && (ending == Fatal(FinalizeRefused) <==> fate.Refused?)
            && (q.node.stored == Some(job.content) <==> fate.Delivered? || fate.LostAfter?)
  {
    FinishIsSound(digest, job, p, fate);
    CompleteSessionIsTheFile(job, p.node.session.value);
  }
}
