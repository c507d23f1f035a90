/**
 What one call of upload_file does, as a function of the connection losses it meets and of what the
 storage node forgets between attempts.

 The node is the environment: a session holds the chunks received so far and the store holds finished
 content under the file's hash.  Encryption is the identity, and the digest is an arbitrary function.
 */
module UploadSpec {
  import opened Bytes
  import opened Chunks
  import opened Wrappers

  /** The source file, the client's chunk size, and the chunk size the node is configured with. */
  datatype Job = Job(content: ByteString, chunkSize: nat, nodeChunkSize: nat)

  type Session = map<nat, ByteString>

  /** stored is what the node keeps under the hash of this job's file. */
  datatype Node = Node(session: Option<Session>, stored: Option<ByteString>)

  /** A request is answered; or it never arrives; or it takes effect and the answer is lost; or it is refused. */
  datatype Fate = Delivered | LostBefore | LostAfter | Refused

  datatype Connection =
    | NotConnected
    | UnknownHost
    | HandshakeLost
    | HandshakeRefused
    | Connected(open: Fate, chunk: nat -> Fate, finalize: Fate)

  /** What the node loses before an attempt: nothing, some chunks of the session, or the session. */
  datatype Forget = ForgetNothing | ForgetChunks(lost: set<nat>) | ForgetSession

  datatype Schedule = Schedule(forget: nat -> Forget, connection: nat -> Connection)

  datatype Reason =
    | HostUnknown | CryptoRefused | OpenRefused | ChunkSizeMismatch | UnexpectedEof
    | ChunkRefused | ChunkRejected | FinalizeRefused | Incomplete | HashMismatch | Exhausted

  datatype Ending = Completed | Deduplicated | Retry | Fatal(reason: Reason)

  /** The node, the UPLOAD_CHUNK frames sent so far, and the progress of the current attempt. */
  datatype Progress = Progress(node: Node, frames: nat, bytesSent: nat, chunksDone: nat)

  function TotalChunks(job: Job): (n: nat)
    requires job.chunkSize > 0
  {
    NumChunks(|job.content|, job.chunkSize)
  }

  function ChunkLength(size: nat, c: nat, i: nat): int {
    Min(c, size - Offset(i, c))
  }

  /** The bytes of the chunks below n that are not in missing. */
  function HeldBytes(size: nat, c: nat, n: nat, missing: set<nat>): int {
    if n == 0 then 0
    else HeldBytes(size, c, n - 1, missing) + if n - 1 in missing then 0 else ChunkLength(size, c, n - 1)
  }

  function AsSet(indexes: seq<nat>): set<nat> {
    set i <- indexes
  }

  function Max0(n: int): nat {
    if n < 0 then 0 else n
  }

  // ---------------------------------------------------------------- the node

  function MissingBelow(session: Session, n: nat): (r: seq<nat>)
  {
    if n == 0 then []
    else MissingBelow(session, n - 1) + if n - 1 in session then [] else [n - 1]
  }

  /** The missingChunks field of OPEN_UPLOAD: absent for a new session. */
  datatype OpenReply = AlreadyStored | Resumed(missing: seq<nat>) | NewSession

  function NodeOpen(job: Job, node: Node): (Node, OpenReply)
    requires job.chunkSize > 0
  {
    if node.stored.Some? then (node, AlreadyStored)
    else if node.session.Some? then (node, Resumed(MissingBelow(node.session.value, TotalChunks(job))))
    else (node.(session := Some(map[])), NewSession)
  }

  function ExpectedSize(job: Job, i: nat): int
    requires job.chunkSize > 0
  {
    var total := TotalChunks(job);
    if i < total - 1 then job.nodeChunkSize
    else
      var last := |job.content| - Offset(Max0(total - 1), job.nodeChunkSize);
      if last > 0 then last else job.nodeChunkSize
  }

  /** UPLOAD_CHUNK at the node: stores a chunk of the right index and size once; false is a refusal. */
  function NodeChunk(job: Job, node: Node, i: nat, data: ByteString): (Node, bool)
    requires job.chunkSize > 0
  {
    if node.session.None? || data == [] || i >= TotalChunks(job) || |data| != ExpectedSize(job, i) then (node, false)
    else if i in node.session.value then (node, true)
    else (node.(session := Some(node.session.value[i := data])), true)
  }

  function Assemble(session: Session, n: nat): ByteString
    requires forall i: nat :: i < n ==> i in session
  {
    Flatten(seq(n, i requires 0 <= i < n => session[i]))
  }

  /** FINALIZE_UPLOAD at the node. */
  function NodeFinalize(digest: Digest, job: Job, node: Node): (Node, Ending)
    requires job.chunkSize > 0
  {
    if node.session.None? then (node, Fatal(FinalizeRefused))
    else if exists i: nat :: i < TotalChunks(job) && i !in node.session.value then (node, Fatal(Incomplete))
    else
      var assembled := Assemble(node.session.value, TotalChunks(job));
      if digest(assembled) != digest(job.content) then (node.(session := None), Fatal(HashMismatch))
      else (Node(None, Some(assembled)), Completed)
  }

  function Forgetting(node: Node, forget: Forget): Node {
    match forget
    case ForgetNothing => node
    case ForgetChunks(lost) => if node.session.Some? then node.(session := Some(node.session.value - lost)) else node
    case ForgetSession => node.(session := None)
  }

  // ---------------------------------------------------------------- the client

  /** The chunks an attempt will send. */
  function ToSend(job: Job, reply: OpenReply): seq<nat>
    requires job.chunkSize > 0 && !reply.AlreadyStored?
  {
    match reply
    case Resumed(missing) => missing
    case NewSession => seq(TotalChunks(job), i requires 0 <= i => i)
  }

  /** The progress counters before the first chunk of an attempt. */
  function Begin(job: Job, node: Node, frames: nat, indexes: seq<nat>): Progress
    requires job.chunkSize > 0
  {
    var missing := AsSet(indexes);
    var total := TotalChunks(job);
    Progress(node, frames, Max0(HeldBytes(|job.content|, job.chunkSize, total, missing)), Max0(total - |missing|))
  }

  /** The counters after one acknowledged chunk. */
  function Advance(job: Job, p: Progress, data: ByteString): Progress {
    p.(bytesSent := Min(p.bytesSent + |data|, |job.content|) as nat, chunksDone := p.chunksDone + 1)
  }

  /** One chunk: read, sent and acknowledged; Some is how the attempt ends here. */
  function SendOne(job: Job, p: Progress, i: nat, fate: Fate): (Progress, Option<Ending>)
    requires job.chunkSize > 0
  {
    var data := ChunkAt(job.content, job.chunkSize, i);
    if data == [] && i < TotalChunks(job) then (p, Some(Fatal(UnexpectedEof)))
    else
      var sent := p.(frames := p.frames + 1);
      var (node, accepted) := NodeChunk(job, p.node, i, data);
      match fate
      case LostBefore => (sent, Some(Retry))
      case Refused => (sent, Some(Fatal(ChunkRefused)))
      case LostAfter => (sent.(node := node), Some(Retry))
      case Delivered =>
        if accepted then (Advance(job, sent.(node := node), data), None)
        else (sent.(node := node), Some(Fatal(ChunkRejected)))
  }

  /** The chunk loop from position k on; None means every chunk was acknowledged. */
  function Send(job: Job, p: Progress, indexes: seq<nat>, k: nat, fate: nat -> Fate): (Progress, Option<Ending>)
    requires job.chunkSize > 0 && k <= |indexes|
    decreases |indexes| - k
  {
    if k == |indexes| then (p, None)
    else
      var (next, stop) := SendOne(job, p, indexes[k], fate(k));
      if stop.Some? then (next, stop) else Send(job, next, indexes, k + 1, fate)
  }

  function Finish(digest: Digest, job: Job, p: Progress, fate: Fate): (Progress, Ending)
    requires job.chunkSize > 0
  {
    var (node, ending) := NodeFinalize(digest, job, p.node);
    match fate
    case LostBefore => (p, Retry)
    case LostAfter => (p.(node := node), Retry)
    case Refused => (p.(node := p.node.(session := None)), Fatal(FinalizeRefused))
    case Delivered => (p.(node := node), ending)
  }

  /** An open session: all its chunks, then FINALIZE_UPLOAD. */
  function InSession(digest: Digest, job: Job, p: Progress, indexes: seq<nat>, chunk: nat -> Fate, finalize: Fate)
    : (Progress, Ending)
    requires job.chunkSize > 0
  {
    var (after, stop) := Send(job, p, indexes, 0, chunk);
    if stop.Some? then (after, stop.value) else Finish(digest, job, after, finalize)
  }

  /** One attempt, from connecting to the answer of FINALIZE_UPLOAD. */
  function Attempt(digest: Digest, job: Job, p: Progress, connection: Connection): (Progress, Ending)
    requires job.chunkSize > 0
  {
    match connection
    case NotConnected => (p, Retry)
    case UnknownHost => (p, Fatal(HostUnknown))
    case HandshakeLost => (p, Retry)
    case HandshakeRefused => (p, Fatal(CryptoRefused))
    case Connected(open, chunk, finalize) =>
      var (node, reply) := NodeOpen(job, p.node);
      match open
      case LostBefore => (p, Retry)
      case Refused => (p, Fatal(OpenRefused))
      case LostAfter => (p.(node := node), Retry)
      case Delivered =>
        if reply.AlreadyStored? then (p, Deduplicated)
        else if job.nodeChunkSize > 0 && job.nodeChunkSize != job.chunkSize then
          (p.(node := node), Fatal(ChunkSizeMismatch))
        else
          var indexes := ToSend(job, reply);
          InSession(digest, job, Begin(job, node, p.frames, indexes), indexes, chunk, finalize)
  }

  /** The retry loop from an attempt on, with the number of attempts that did not finish. */
  function Attempts(digest: Digest, job: Job, p: Progress, attempt: nat, last: nat, schedule: Schedule)
    : (Progress, Ending, nat)
    requires job.chunkSize > 0 && attempt <= last
    decreases last - attempt
  {
    var before := p.(node := Forgetting(p.node, schedule.forget(attempt)));
    var (next, ending) := Attempt(digest, job, before, schedule.connection(attempt));
    if ending.Completed? || ending.Deduplicated? then (next, ending, 0)
    else if ending.Retry? && attempt < last then
      var (end, how, failures) := Attempts(digest, job, next, attempt + 1, last, schedule);
      (end, how, failures + 1)
    else (next, if ending.Retry? then Fatal(Exhausted) else ending, 1)
  }

  function Upload(digest: Digest, job: Job, node: Node, maxAttempts: int, schedule: Schedule): (Progress, Ending, nat)
    requires job.chunkSize > 0
  {
    Attempts(digest, job, Progress(node, 0, 0, 0), 1, AttemptLimit(maxAttempts), schedule)
  }

  /** The chunk size of a plan: a default for a missing one, an error (None) for a negative one. */
  function PlanChunkSize(planned: int): (c: Option<nat>)
    ensures planned < 0 <==> c.None?
    ensures planned > 0 ==> c == Some(planned)
    ensures planned == 0 ==> c == Some(524288)
  {
    if planned < 0 then None else if planned == 0 then Some(DEFAULT_CHUNK_SIZE) else Some(planned)
  }

  /** upload_file on an existing source file; no ending is the error of a negative chunk size. */
  function UploadRun(digest: Digest, content: ByteString, plannedChunkSize: int, nodeChunkSize: nat, node: Node,
                     maxAttempts: int, schedule: Schedule): (Progress, Option<Ending>, nat)
  {
    match PlanChunkSize(plannedChunkSize)
    case None => (Progress(node, 0, 0, 0), None, 0)
    case Some(c) =>
      var (p, ending, failures) := Upload(digest, Job(content, c, nodeChunkSize), node, maxAttempts, schedule);
      (p, Some(ending), failures)
  }
}
