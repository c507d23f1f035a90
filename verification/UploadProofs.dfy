/** Correctness of upload_file under every failure schedule, its retransmission bound and its progress. */
module UploadProofs {
  import opened Bytes
  import opened Chunks
  import opened UploadSpec
  import opened Wrappers

  // ---------------------------------------------------------------- what the node holds

  /** Every chunk of the session is the file's chunk at that index. */
  predicate GoodSession(job: Job, session: Session)
    requires job.chunkSize > 0
  {
    forall i <- session :: i < TotalChunks(job) && session[i] == ChunkAt(job.content, job.chunkSize, i)
  }

  predicate GoodNode(job: Job, node: Node)
    requires job.chunkSize > 0
  {
    && (node.session.Some? ==> GoodSession(job, node.session.value))
    && (node.stored.Some? ==> node.stored.value == job.content)
  }

  lemma {:induction false} MissingBelowIs(session: Session, n: nat)
    ensures forall i: nat :: i in MissingBelow(session, n) <==> i < n && i !in session
    ensures Distinct(MissingBelow(session, n))
  {
    if n > 0 {
      MissingBelowIs(session, n - 1);
    }
  }

  predicate Distinct(s: seq<nat>) {
    forall i, j :: 0 <= i < j < |s| ==> s[i] != s[j]
  }

  lemma ChunkIsExpected(job: Job, i: nat)
    requires job.chunkSize > 0 && i < TotalChunks(job)
    ensures |ChunkAt(job.content, job.chunkSize, i)| == ChunkLength(|job.content|, job.chunkSize, i) > 0
    ensures job.nodeChunkSize == job.chunkSize ==>
              |ChunkAt(job.content, job.chunkSize, i)| == ExpectedSize(job, i)
  {
    var c, size, total := job.chunkSize, |job.content|, TotalChunks(job);
    InRange(size, c, i);
    InRange(size, c, i + 1);
    InRange(size, c, total);
    OffsetStep(i, c);
    if i == total - 1 {
      assert Offset(total, c) >= size;
    }
  }

  /** A session with every chunk assembles to the source file. */
  lemma CompleteSessionIsTheFile(job: Job, session: Session)
    requires job.chunkSize > 0 && GoodSession(job, session)
    requires forall i: nat :: i < TotalChunks(job) ==> i in session
    ensures Assemble(session, TotalChunks(job)) == job.content
  {
    var n := TotalChunks(job);
    assert seq(n, i requires 0 <= i < n => session[i]) == Cut(job.content, job.chunkSize, n);
    JoinAll(job.content, job.chunkSize);
  }

  // ---------------------------------------------------------------- one attempt

  /** The indexes from k on are exactly the chunks the session lacks. */
  ghost predicate Pending(job: Job, node: Node, indexes: seq<nat>, k: nat)
    requires job.chunkSize > 0 && k <= |indexes|
  {
    && node.session.Some? && node.stored.None? && GoodSession(job, node.session.value)
    && Distinct(indexes)
    && (forall i: nat :: i in indexes[k..] <==> i < TotalChunks(job) && i !in node.session.value)
  }

  lemma OpenPending(job: Job, node: Node)
    requires job.chunkSize > 0 && GoodNode(job, node) && node.stored.None?
    ensures var (afterOpen, reply) := NodeOpen(job, node);
            !reply.AlreadyStored? && Pending(job, afterOpen, ToSend(job, reply), 0)
  {
    var (afterOpen, reply) := NodeOpen(job, node);
    if node.session.Some? {
      MissingBelowIs(node.session.value, TotalChunks(job));
    }
    var indexes := ToSend(job, reply);
    assert indexes[0..] == indexes;
    if node.session.None? {
      forall i: nat
        ensures i in indexes <==> i < TotalChunks(job)
      {
        if i < TotalChunks(job) {
          assert indexes[i] == i;
        }
      }
    }
  }

  lemma SendStep(job: Job, node: Node, indexes: seq<nat>, k: nat)
    requires job.chunkSize > 0 && job.nodeChunkSize == job.chunkSize
    requires k < |indexes| && Pending(job, node, indexes, k)
    ensures var data := ChunkAt(job.content, job.chunkSize, indexes[k]);
            var (next, accepted) := NodeChunk(job, node, indexes[k], data);
            && data != [] && accepted
            && next == node.(session := Some(node.session.value[indexes[k] := data]))
            && indexes[k] < TotalChunks(job) && indexes[k] !in node.session.value
            && Pending(job, next, indexes, k + 1)
  {
    var i := indexes[k];
    assert i in indexes[k..];
    ChunkIsExpected(job, i);
    assert indexes[k..] == [i] + indexes[k + 1..];
    assert i !in indexes[k + 1..];
    var data := ChunkAt(job.content, job.chunkSize, i);
    var next := node.session.value[i := data];
    assert GoodSession(job, next);
    var later := indexes[k + 1..];
    forall j: nat
      ensures j in later <==> j < TotalChunks(job) && j !in next
    {
      assert j in indexes[k..] <==> j == i || j in later;
      assert j in next <==> j == i || j in node.session.value;
    }
  }

  /** Whatever is lost, the node keeps only correct chunks, the loop stops early only for a lost or
      refused request, and every frame but the last of a failed attempt stores one more chunk. */
  ghost predicate SoundSend(job: Job, p: Progress, q: Progress, stop: Option<Ending>)
    requires job.chunkSize > 0
  {
    && q.node.session.Some? && q.node.stored.None? && GoodSession(job, q.node.session.value)
    && (stop.Some? ==> stop.value == Retry || stop.value == Fatal(ChunkRefused))
    && q.frames + MissingCount(job, q.node) <= p.frames + MissingCount(job, p.node) + (if stop.Some? then 1 else 0)
  }

  lemma SendOneIsSound(job: Job, p: Progress, indexes: seq<nat>, k: nat, fate: Fate)
    requires job.chunkSize > 0 && job.nodeChunkSize == job.chunkSize
    requires k < |indexes| && Pending(job, p.node, indexes, k)
    ensures var (q, stop) := SendOne(job, p, indexes[k], fate);
            && SoundSend(job, p, q, stop)
            && (stop.None? ==> Pending(job, q.node, indexes, k + 1))
            && (stop.None? <==> fate.Delivered?)
            && (stop.Some? && stop.value != Retry ==> fate.Refused?)
  {
    SendStep(job, p.node, indexes, k);
    MissingFalls(job, p.node, indexes[k], ChunkAt(job.content, job.chunkSize, indexes[k]));
  }

  lemma {:induction false} SendIsSound(job: Job, p: Progress, indexes: seq<nat>, k: nat, fate: nat -> Fate)
    requires job.chunkSize > 0 && job.nodeChunkSize == job.chunkSize
    requires k <= |indexes| && Pending(job, p.node, indexes, k)
    ensures var (q, stop) := Send(job, p, indexes, k, fate);
            && SoundSend(job, p, q, stop)
            && (stop.None? ==> Pending(job, q.node, indexes, |indexes|))
            && ((forall j: nat :: fate(j).Delivered?) ==> stop.None?)
            && ((forall j: nat :: !fate(j).Refused?) ==> stop.None? || stop.value == Retry)
    decreases |indexes| - k
  {
    if k < |indexes| {
      SendOneIsSound(job, p, indexes, k, fate(k));
      var (next, stop) := SendOne(job, p, indexes[k], fate(k));
      if stop.None? {
        SendIsSound(job, next, indexes, k + 1, fate);
      }
    }
  }

  /** How many chunks the node still lacks. */
  function MissingCount(job: Job, node: Node): (n: int)
    requires job.chunkSize > 0
  {
    if node.stored.Some? then 0
    else if node.session.None? then TotalChunks(job)
    else TotalChunks(job) - |node.session.value.Keys|
  }

  lemma MissingFalls(job: Job, node: Node, i: nat, data: ByteString)
    requires job.chunkSize > 0 && node.session.Some? && node.stored.None? && i !in node.session.value
    ensures MissingCount(job, node.(session := Some(node.session.value[i := data]))) == MissingCount(job, node) - 1
  {
    assert node.session.value[i := data].Keys == node.session.value.Keys + {i};
  }

  lemma {:induction false} RangeSize(s: set<nat>, n: nat)
    requires forall i <- s :: i < n
    ensures |s| <= n
  {
    if n == 0 {
      assert s == {};
    } else {
      RangeSize(s - {n - 1}, n - 1);
    }
  }

  lemma MissingCountIsNat(job: Job, node: Node)
    requires job.chunkSize > 0 && GoodNode(job, node)
    ensures 0 <= MissingCount(job, node) <= TotalChunks(job)
  {
    if node.session.Some? {
      RangeSize(node.session.value.Keys, TotalChunks(job));
    }
  }

  /** Reasons no schedule can lead to: the loop never runs into them. */
  predicate Impossible(ending: Ending) {
    ending in {Fatal(UnexpectedEof), Fatal(ChunkRejected), Fatal(Incomplete), Fatal(HashMismatch)}
  }

  lemma FinishIsSound(digest: Digest, job: Job, p: Progress, fate: Fate)
    requires job.chunkSize > 0
    requires p.node.session.Some? && p.node.stored.None? && GoodSession(job, p.node.session.value)
    requires forall i: nat :: i < TotalChunks(job) ==> i in p.node.session.value
    ensures var (q, ending) := Finish(digest, job, p, fate);
            && GoodNode(job, q.node) && !Impossible(ending) && ending != Deduplicated && q.frames == p.frames
            && (ending == Completed ==> q.node == Node(None, Some(job.content)))
            && (ending == Completed <==> fate == Delivered)
            && (ending == Retry ==> MissingCount(job, q.node) <= MissingCount(job, p.node))
  {
    CompleteSessionIsTheFile(job, p.node.session.value);
    MissingCountIsNat(job, p.node);
  }

  ghost predicate Healthy(connection: Connection) {
    connection.Connected? && connection.open.Delivered? && connection.finalize.Delivered?
    && forall k: nat :: connection.chunk(k).Delivered?
  }

  /** Losses only: nothing is refused. */
  ghost predicate Transient(connection: Connection) {
    match connection
    case NotConnected => true
    case HandshakeLost => true
    case Connected(open, chunk, finalize) =>
      !open.Refused? && !finalize.Refused? && forall k: nat :: !chunk(k).Refused?
    case _ => false
  }

  /** One attempt is sound, and spends at most one frame more than the chunks it stores. */
  ghost predicate SoundAttempt(job: Job, p: Progress, q: Progress, ending: Ending)
    requires job.chunkSize > 0
  {
    && GoodNode(job, q.node) && !Impossible(ending)
    && (ending == Completed ==> q.node == Node(None, Some(job.content)))
    && (ending == Deduplicated ==> q.node == p.node && p.node.stored == Some(job.content))
    && (ending == Completed || ending == Deduplicated ==> q.frames <= p.frames + MissingCount(job, p.node))
    && (ending == Retry ==> q.frames + MissingCount(job, q.node) <= p.frames + MissingCount(job, p.node) + 1)
    && q.frames <= p.frames + MissingCount(job, p.node) + 1
  }

  lemma InSessionIsSound(digest: Digest, job: Job, p: Progress, indexes: seq<nat>, chunk: nat -> Fate, finalize: Fate)
    requires job.chunkSize > 0 && job.nodeChunkSize == job.chunkSize && Pending(job, p.node, indexes, 0)
    ensures var (q, ending) := InSession(digest, job, p, indexes, chunk, finalize);
            && SoundAttempt(job, p, q, ending) && ending != Deduplicated
            && ((forall j: nat :: chunk(j).Delivered?) && finalize.Delivered? ==> ending == Completed)
            && ((forall j: nat :: !chunk(j).Refused?) && !finalize.Refused? ==> ending in {Completed, Retry})
  {
    SendIsSound(job, p, indexes, 0, chunk);
    var (after, stop) := Send(job, p, indexes, 0, chunk);
    MissingCountIsNat(job, after.node);
    if stop.None? {
      FinishIsSound(digest, job, after, finalize);
    }
  }

  lemma AttemptIsSound(digest: Digest, job: Job, p: Progress, connection: Connection)
    requires job.chunkSize > 0 && job.nodeChunkSize > 0 && GoodNode(job, p.node)
    ensures var (q, ending) := Attempt(digest, job, p, connection);
            && SoundAttempt(job, p, q, ending)
            && (job.nodeChunkSize == job.chunkSize && Healthy(connection) ==> ending in {Completed, Deduplicated})
            && (job.nodeChunkSize == job.chunkSize && Transient(connection) ==> ending in {Completed, Deduplicated, Retry})
  {
    MissingCountIsNat(job, p.node);
    if p.node.stored.None? && connection.Connected? {
      OpenPending(job, p.node);
      var (node, reply) := NodeOpen(job, p.node);
      assert MissingCount(job, node) == MissingCount(job, p.node);
      if job.nodeChunkSize == job.chunkSize {
        var indexes := ToSend(job, reply);
        InSessionIsSound(digest, job, Begin(job, node, p.frames, indexes), indexes, connection.chunk, connection.finalize);
      }
    }
  }

  lemma ForgettingIsGood(job: Job, node: Node, forget: Forget)
    requires job.chunkSize > 0 && GoodNode(job, node)
    ensures GoodNode(job, Forgetting(node, forget))
  {
  }

  // ---------------------------------------------------------------- the whole upload

  /**
   Every failure schedule, with any forgetting between attempts: an upload that reports success leaves
   the node storing exactly the source file, and FINALIZE_UPLOAD is never answered INCOMPLETE or with a
   hash mismatch.
   */
  lemma {:induction false} AttemptsAreSound(digest: Digest, job: Job, p: Progress, attempt: nat, last: nat, schedule: Schedule)
    requires job.chunkSize > 0 && job.nodeChunkSize > 0 && attempt <= last && GoodNode(job, p.node)
    ensures var (q, ending, failures) := Attempts(digest, job, p, attempt, last, schedule);
            && GoodNode(job, q.node) && !Impossible(ending) && ending != Retry
            && (ending == Completed || ending == Deduplicated ==> q.node.stored == Some(job.content))
    decreases last - attempt
  {
    ForgettingIsGood(job, p.node, schedule.forget(attempt));
    var before := p.(node := Forgetting(p.node, schedule.forget(attempt)));
    AttemptIsSound(digest, job, before, schedule.connection(attempt));
    var (next, ending) := Attempt(digest, job, before, schedule.connection(attempt));
    if ending.Retry? && attempt < last {
      AttemptsAreSound(digest, job, next, attempt + 1, last, schedule);
    }
  }

  lemma UploadStoresTheFile(digest: Digest, job: Job, node: Node, maxAttempts: int, schedule: Schedule)
    requires job.chunkSize > 0 && job.nodeChunkSize > 0 && GoodNode(job, node)
    ensures var (q, ending, _) := Upload(digest, job, node, maxAttempts, schedule);
            && !Impossible(ending)
            && (ending == Completed || ending == Deduplicated ==> q.node.stored == Some(job.content))
            && (q.node.session.Some? ==> GoodSession(job, q.node.session.value))
  {
    AttemptsAreSound(digest, job, Progress(node, 0, 0, 0), 1, AttemptLimit(maxAttempts), schedule);
  }

  /** While the node forgets nothing, each failed attempt wastes at most one UPLOAD_CHUNK frame. */
  lemma {:induction false} AttemptsRetransmit(digest: Digest, job: Job, p: Progress, attempt: nat, last: nat,
                                              schedule: Schedule)
    requires job.chunkSize > 0 && job.nodeChunkSize > 0 && attempt <= last && GoodNode(job, p.node)
    requires forall a: nat :: schedule.forget(a).ForgetNothing?
    ensures var (q, _, failures) := Attempts(digest, job, p, attempt, last, schedule);
            q.frames - p.frames <= MissingCount(job, p.node) + failures
    decreases last - attempt
  {
    AttemptIsSound(digest, job, p, schedule.connection(attempt));
    assert p.(node := p.node) == p;
    var (next, ending) := Attempt(digest, job, p, schedule.connection(attempt));
    if ending.Retry? && attempt < last {
      AttemptsRetransmit(digest, job, next, attempt + 1, last, schedule);
    }
  }

  lemma UploadRetransmissionBound(digest: Digest, job: Job, node: Node, maxAttempts: int, schedule: Schedule)
    requires job.chunkSize > 0 && job.nodeChunkSize > 0 && GoodNode(job, node)
    requires forall a: nat :: schedule.forget(a).ForgetNothing?
    ensures var (q, _, failures) := Upload(digest, job, node, maxAttempts, schedule);
            q.frames <= MissingCount(job, node) + failures
  {
    AttemptsRetransmit(digest, job, Progress(node, 0, 0, 0), 1, AttemptLimit(maxAttempts), schedule);
  }

  // ---------------------------------------------------------------- a good connection suffices

  /** After any losses, one healthy connection within the attempt limit completes the upload. */
  lemma {:induction false} HealthyConnectionCompletes(digest: Digest, job: Job, p: Progress, attempt: nat, good: nat,
                                                      last: nat, schedule: Schedule)
    requires job.chunkSize > 0 && job.nodeChunkSize == job.chunkSize && GoodNode(job, p.node)
    requires attempt <= good <= last && Healthy(schedule.connection(good))
    requires forall a: nat :: attempt <= a < good ==> Transient(schedule.connection(a))
    ensures var (q, ending, _) := Attempts(digest, job, p, attempt, last, schedule);
            ending in {Completed, Deduplicated} && q.node.stored == Some(job.content)
    decreases good - attempt
  {
    ForgettingIsGood(job, p.node, schedule.forget(attempt));
    var before := p.(node := Forgetting(p.node, schedule.forget(attempt)));
    AttemptIsSound(digest, job, before, schedule.connection(attempt));
    var (next, ending) := Attempt(digest, job, before, schedule.connection(attempt));
    if ending.Retry? {
      HealthyConnectionCompletes(digest, job, next, attempt + 1, good, last, schedule);
    }
  }
}
