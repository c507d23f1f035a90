/** upload_file as it runs: the hashing loop, the retry loop, the progress sum and the chunk loop. */
module UploadClient {
  import opened Bytes
  import opened Chunks
  import opened UploadSpec
  import opened Wrappers

  const HASH_BLOCK: nat := 64 * 1024

  /** Reads the source block by block: the bytes fed to the hasher, and the size. */
  method StreamFileSha256(content: ByteString) returns (hashed: ByteString, size: nat)
    ensures hashed == content && size == |content|
  {
    hashed, size := [], 0;
    while true
      invariant size <= |content| && hashed == content[..size]
      decreases |content| - size
    {
      var block := content[size..Min(size + HASH_BLOCK, |content|)];
      if block == [] {
        return;
      }
      hashed := hashed + block;
      size := size + |block|;
    }
  }

  /** sum(min(chunk_size, file_size - index * chunk_size) ...) over the chunks already held. */
  method SumHeld(size: nat, chunkSize: nat, total: nat, missing: set<nat>) returns (bytes: int)
    ensures bytes == HeldBytes(size, chunkSize, total, missing)
  {
    bytes := 0;
    for index := 0 to total
      invariant bytes == HeldBytes(size, chunkSize, index, missing)
    {
      if index !in missing {
        bytes := bytes + Min(chunkSize, size - Offset(index, chunkSize));
      }
    }
  }

  /** Reads one chunk, sends it and waits for its acknowledgement. */
  method SendChunk(job: Job, before: Progress, index: nat, fate: Fate) returns (p: Progress, stop: Option<Ending>)
    requires job.chunkSize > 0
    ensures (p, stop) == SendOne(job, before, index, fate)
  {
    p := before;
    var chunk := ReadAt(job.content, Offset(index, job.chunkSize), job.chunkSize);
    if chunk == [] && index < TotalChunks(job) {
      return p, Some(Fatal(UnexpectedEof));
    }
    p := p.(frames := p.frames + 1);
    if fate.LostBefore? {
      return p, Some(Retry);
    }
    if fate.Refused? {
      return p, Some(Fatal(ChunkRefused));
    }
    var (after, accepted) := NodeChunk(job, p.node, index, chunk);
    p := p.(node := after);
    if fate.LostAfter? {
      return p, Some(Retry);
    }
    if !accepted {
      return p, Some(Fatal(ChunkRejected));
    }
    p := p.(bytesSent := Min(p.bytesSent + |chunk|, |job.content|), chunksDone := p.chunksDone + 1);
    return p, None;
  }

  /** Sends the chunks at these indexes in order. */
  method SendChunks(job: Job, start: Progress, indexes: seq<nat>, fate: nat -> Fate)
    returns (p: Progress, stop: Option<Ending>)
    requires job.chunkSize > 0
    ensures (p, stop) == Send(job, start, indexes, 0, fate)
  {
    p, stop := start, None;
    for k := 0 to |indexes|
      invariant stop.None? && Send(job, start, indexes, 0, fate) == Send(job, p, indexes, k, fate)
    {
      p, stop := SendChunk(job, p, indexes[k], fate(k));
      if stop.Some? {
        return;
      }
    }
  }

  /** One connection of the retry loop. */
  method TryOnce(digest: Digest, job: Job, before: Progress, connection: Connection) returns (p: Progress, ending: Ending)
    requires job.chunkSize > 0
    ensures (p, ending) == Attempt(digest, job, before, connection)
  {
    p := before;
    match connection {
      case NotConnected => return p, Retry;
      case UnknownHost => return p, Fatal(HostUnknown);
      case HandshakeLost => return p, Retry;
      case HandshakeRefused => return p, Fatal(CryptoRefused);
      case Connected(open, chunk, finalize) =>
        if open.LostBefore? { return p, Retry; }
        if open.Refused? { return p, Fatal(OpenRefused); }
        var (node, reply) := NodeOpen(job, before.node);
        if open.LostAfter? { return p.(node := node), Retry; }
        if reply.AlreadyStored? { return p, Deduplicated; }
        if job.nodeChunkSize > 0 && job.nodeChunkSize != job.chunkSize {
          return p.(node := node), Fatal(ChunkSizeMismatch);
        }
        var indexes := ToSend(job, reply);
        var missing := AsSet(indexes);
        var held := SumHeld(|job.content|, job.chunkSize, TotalChunks(job), missing);
        p := Progress(node, before.frames, Max0(held), Max0(TotalChunks(job) - |missing|));
        var stop;
        p, stop := SendChunks(job, p, indexes, chunk);
        if stop.Some? {
          return p, stop.value;
        }
        if finalize.LostBefore? { return p, Retry; }
        if finalize.Refused? { return p.(node := p.node.(session := None)), Fatal(FinalizeRefused); }
        var answer;
        var finished := NodeFinalize(digest, job, p.node);
        node, answer := finished.0, finished.1;
        p := p.(node := node);
        return p, if finalize.LostAfter? then Retry else answer;
    }
  }

  method UploadFile(digest: Digest, content: ByteString, plannedChunkSize: int, nodeChunkSize: nat, node: Node,
                    maxAttempts: int, schedule: Schedule)
    returns (p: Progress, ending: Option<Ending>, failures: nat)
    ensures (p, ending, failures)
            == UploadRun(digest, content, plannedChunkSize, nodeChunkSize, node, maxAttempts, schedule)
  {
    p, failures := Progress(node, 0, 0, 0), 0;
    var chunkSize := PlanChunkSize(plannedChunkSize);
    if chunkSize.None? {
      return p, None, 0;
    }
    var hashed, size := StreamFileSha256(content);
    var job := Job(hashed, chunkSize.value, nodeChunkSize);
    var last := AttemptLimit(maxAttempts);
    var attempt: nat := 1;
    while true
      invariant 1 <= attempt <= last
      invariant var (q, e, f) := Attempts(digest, job, p, attempt, last, schedule);
                Upload(digest, job, node, maxAttempts, schedule) == (q, e, f + failures)
      decreases last - attempt
    {
      p := p.(node := Forgetting(p.node, schedule.forget(attempt)));
      var how;
      p, how := TryOnce(digest, job, p, schedule.connection(attempt));
      if how.Completed? || how.Deduplicated? {
        return p, Some(how), failures;
      }
      failures := failures + 1;
      if !how.Retry? {
        return p, Some(how), failures;
      }
      if attempt >= last {
        return p, Some(Fatal(Exhausted)), failures;
      }
      attempt := attempt + 1;
    }
  }
}
