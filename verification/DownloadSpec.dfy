/**
 What one call of download_file does to the local files, as a function of everything the outside
 world may answer: the node's replies, connection losses at any point, a write that stops half way,
 and the process dying.

 The files are the .part file, its .part.json sidecar and the target.  The running hasher is
 represented by the bytes fed to it; its digest is an arbitrary function of those bytes.
 */
module DownloadSpec {
  import opened Bytes
  import opened Chunks
  import opened Wrappers

  /** The readable content of .part.json. */
  datatype Sidecar = Sidecar(sha256Whole: string, chunkSize: int)

  datatype Disk = Disk(part: Option<ByteString>, sidecar: Option<Sidecar>, target: Option<ByteString>)

  datatype Plan = Plan(sha256Whole: string, chunkSize: int, totalChunks: int, sizeBytes: int)

  function ChunkSize(plan: Plan): (c: nat)
    ensures c > 0
    ensures c == if plan.chunkSize > 0 then plan.chunkSize else 524288
  {
    if plan.chunkSize > 0 then plan.chunkSize else DEFAULT_CHUNK_SIZE
  }

  /** How the write of one chunk ends: whole, with an OSError, or with the death of the process. */
  datatype WriteFate = Written | Short(kept: nat) | Killed(kept: nat)

  datatype Reply =
    | Lost
    | NotAChunk
    | Undecryptable
    | Chunk(data: ByteString, hash: string, fate: WriteFate)

  /** How far one attempt gets; a total of 0 or a size of 0 means the node did not report it. */
  datatype Opening =
    | Refused
    | Unresolvable
    | LostEarly
    | Rejected
    | DiedEarly
    | Opened(totalChunks: int, fileSize: int, reply: nat -> Reply)

  datatype SidecarWrite = SidecarWritten | SidecarUntouched | SidecarClobbered

  datatype World = World(sidecarWrite: SidecarWrite, opening: nat -> Opening)

  /** The variables of the retry loop. */
  datatype Transfer = Transfer(
    part: Option<ByteString>,
    hashed: ByteString,
    written: nat,
    totalChunks: int,
    totalBytes: int,
    requests: nat,
    failures: nat)

  /** How an attempt ends: break, retry, an exception that leaves the loop, or no process any more. */
  datatype Ending = Done | Retry | Fatal | Died

  datatype Outcome = Downloaded(size: nat) | HashMismatch | Failed | Dead

  datatype Report = Report(disk: Disk, outcome: Outcome, requests: nat, failures: nat)

  function Size(part: Option<ByteString>): nat {
    if part.Some? then |part.value| else 0
  }

  function Contents(part: Option<ByteString>): ByteString {
    if part.Some? then part.value else []
  }

  /** Truncates .part to a chunk boundary and hashes what is kept. */
  function Realign(x: Transfer, c: nat): Transfer
    requires c > 0
  {
    var keep := ReadAt(Contents(x.part), 0, Offset(Size(x.part) / c, c));
    x.(part := if x.part.Some? then Some(keep) else None, hashed := keep, written := |keep|)
  }

  /** The chunk loop, from index on. */
  function Fetch(digest: Digest, x: Transfer, index: nat, reply: nat -> Reply): (Transfer, Ending)
    decreases x.totalChunks - index
  {
    if index >= x.totalChunks then (x, Done)
    else
      var asked := x.(requests := x.requests + 1);
      match reply(index)
      case Lost => (asked, Retry)
      case NotAChunk => (asked, Fatal)
      case Undecryptable => (asked, Fatal)
      case Chunk(data, hash, fate) =>
        if digest(data) != hash then (asked, Fatal)
        else
          match fate
          case Written => Fetch(digest, Append(asked, data), index + 1, reply)
          case Short(kept) => (asked.(part := Some(Contents(x.part) + data[..Min(kept, |data|)])), Retry)
          case Killed(kept) => (asked.(part := Some(Contents(x.part) + data[..Min(kept, |data|)])), Died)
  }

  /** write, flush, hasher.update and the byte count for one whole chunk. */
  function Append(x: Transfer, data: ByteString): Transfer {
    x.(part := Some(Contents(x.part) + data), hashed := x.hashed + data, written := x.written + |data|)
  }

  function OrElse(reported: int, known: int): int {
    if reported != 0 then reported else known
  }

  /** Whether the kept prefix is longer than the file. */
  predicate Oversized(x: Transfer, resume: nat, keepBytes: nat) {
    || (x.totalBytes > 0 && keepBytes > x.totalBytes)
    || (x.totalBytes <= 0 && resume > x.totalChunks)
  }

  /** One attempt: realign, connect, open the session, drop an oversized prefix, fetch the rest. */
  function Attempt(digest: Digest, x: Transfer, c: nat, opening: Opening): (Transfer, Ending)
    requires c > 0
  {
    var resume := Size(x.part) / c;
    var p := Realign(x, c);
    match opening
    case Refused => (p, Retry)
    case Unresolvable => (p, Fatal)
    case DiedEarly => (p, Died)
    case LostEarly => (p.(part := Some(Contents(p.part))), Retry)
    case Rejected => (p.(part := Some(Contents(p.part))), Fatal)
    case Opened(totalChunks, fileSize, reply) =>
      var open := p.(part := Some(Contents(p.part)), totalChunks := OrElse(totalChunks, p.totalChunks),
                     totalBytes := OrElse(fileSize, p.totalBytes));
      if Oversized(open, resume, Offset(resume, c)) then
        Fetch(digest, open.(part := Some([]), hashed := [], written := 0), 0, reply)
      else
        Fetch(digest, open, resume, reply)
  }

  /** The retry loop from a given attempt on; failures counts the attempts that did not finish. */
  function Attempts(digest: Digest, x: Transfer, c: nat, attempt: nat, last: nat, opening: nat -> Opening)
    : (Transfer, Ending)
    requires c > 0 && attempt <= last
    decreases last - attempt
  {
    var (next, ending) := Attempt(digest, x, c, opening(attempt));
    if ending == Done then (next, Done)
    else
      var failed := next.(failures := next.failures + 1);
      if ending == Retry && attempt < last then Attempts(digest, failed, c, attempt + 1, last, opening)
      else (failed, if ending == Retry then Fatal else ending)
  }

  /** Removes a .part left by another file or chunk size, and its sidecar with it. */
  function DiscardStale(disk: Disk, plan: Plan): Disk {
    if disk.part.Some? && disk.sidecar != Some(Sidecar(plan.sha256Whole, ChunkSize(plan)))
    then disk.(part := None, sidecar := None)
    else disk
  }

  function WriteSidecar(disk: Disk, plan: Plan, write: SidecarWrite): Disk {
    match write
    case SidecarWritten => disk.(sidecar := Some(Sidecar(plan.sha256Whole, ChunkSize(plan))))
    case SidecarUntouched => disk
    case SidecarClobbered => disk.(sidecar := None)
  }

  function Prepared(disk: Disk, plan: Plan, write: SidecarWrite): Disk {
    WriteSidecar(DiscardStale(disk, plan), plan, write)
  }

  function Start(disk: Disk, plan: Plan): Transfer {
    Transfer(disk.part, [], 0, plan.totalChunks, plan.sizeBytes, 0, 0)
  }

  /** The check of the whole-file hash and the rename. */
  function Conclude(digest: Digest, disk: Disk, plan: Plan, x: Transfer, ending: Ending): Report {
    match ending
    case Done =>
      if plan.sha256Whole != "" && digest(x.hashed) != plan.sha256Whole then
        Report(Disk(None, None, disk.target), HashMismatch, x.requests, x.failures)
      else
        Report(Disk(None, None, x.part), Downloaded(x.written), x.requests, x.failures)
    case Died => Report(disk.(part := x.part), Dead, x.requests, x.failures)
    case _ => Report(disk.(part := x.part), Failed, x.requests, x.failures)
  }

  function Download(digest: Digest, disk: Disk, plan: Plan, maxAttempts: int, world: World): Report {
    var prepared := Prepared(disk, plan, world.sidecarWrite);
    var (x, ending) := Attempts(digest, Start(prepared, plan), ChunkSize(plan), 1, AttemptLimit(maxAttempts),
                                world.opening);
    Conclude(digest, prepared, plan, x, ending)
  }
}
