/** download_file as it runs: loops over attempts, hash blocks and chunks, updating the files in place. */
module DownloadClient {
  import opened Bytes
  import opened Chunks
  import opened DownloadSpec
  import opened Wrappers

  const HASH_BLOCK: nat := 64 * 1024

  class Downloader {
    // The files beside the save path.
    var part: Option<ByteString>
    var sidecar: Option<Sidecar>
    var target: Option<ByteString>

    // The variables of the retry loop.
    var hashed: ByteString
    var bytesWritten: nat
    var totalChunks: int
    var totalBytes: int

    // Counted for the reader: REQUEST_CHUNK frames sent, attempts that did not finish.
    var requests: nat
    var failures: nat

    constructor (disk: Disk)
      ensures Files() == disk
    {
      part, sidecar, target := disk.part, disk.sidecar, disk.target;
      hashed, bytesWritten, totalChunks, totalBytes, requests, failures := [], 0, 0, 0, 0, 0;
    }

    ghost function Files(): Disk
      reads this
    {
      Disk(part, sidecar, target)
    }

    ghost function State(): Transfer
      reads this
    {
      Transfer(part, hashed, bytesWritten, totalChunks, totalBytes, requests, failures)
    }

    /** Cuts .part back to whole chunks and hashes what is kept. */
    method RealignAndRehash(chunkSize: nat) returns (resumeFromChunk: nat)
      requires chunkSize > 0
      modifies this`part, this`hashed, this`bytesWritten
      ensures resumeFromChunk == Size(old(part)) / chunkSize
      ensures State() == Realign(old(State()), chunkSize)
    {
      resumeFromChunk := Size(part) / chunkSize;
      var keepBytes := TruncateTo(resumeFromChunk, chunkSize);
      hashed, bytesWritten := [], 0;
      if keepBytes > 0 {
        Rehash();
      }
    }

    /** Drops a partly written chunk from the end of .part. */
    method TruncateTo(chunks: nat, chunkSize: nat) returns (keepBytes: nat)
      requires chunkSize > 0 && chunks == Size(part) / chunkSize
      modifies this`part
      ensures keepBytes == Offset(chunks, chunkSize) == Size(part)
      ensures part == if old(part).Some? then Some(ReadAt(Contents(old(part)), 0, keepBytes)) else None
      ensures Contents(part) == ReadAt(Contents(old(part)), 0, keepBytes)
    {
      keepBytes := Offset(chunks, chunkSize);
      assert keepBytes <= Size(part);
      assert ReadAt(Contents(part), 0, keepBytes) == Contents(part)[..keepBytes];
      assert keepBytes == Size(part) ==> Contents(part)[..keepBytes] == Contents(part);
      if part.Some? && |part.value| != keepBytes {
        part := Some(part.value[..keepBytes]);
      }
    }

    /** Hashes .part block by block. */
    method Rehash()
      requires part.Some?
      modifies this`hashed, this`bytesWritten
      ensures hashed == part.value && bytesWritten == |part.value|
    {
      hashed, bytesWritten := [], 0;
      var position := 0;
      while position < |part.value|
        invariant 0 <= position <= |part.value|
        invariant hashed == part.value[..position] && bytesWritten == position
      {
        var block := part.value[position..Min(position + HASH_BLOCK, |part.value|)];
        hashed := hashed + block;
        bytesWritten := bytesWritten + |block|;
        position := position + |block|;
      }
    }

    /** Requests the chunks from index on; stops at the first that does not arrive whole. */
    method FetchChunks(digest: Digest, first: nat, reply: nat -> Reply) returns (ending: Ending)
      requires part.Some?
      modifies this`part, this`hashed, this`bytesWritten, this`requests
      ensures Fetch(digest, old(State()), first, reply) == (State(), ending)
    {
      ghost var start := State();
      var index := first;
      while index < totalChunks
        invariant part.Some? && first <= index
        invariant Fetch(digest, start, first, reply) == Fetch(digest, State(), index, reply)
        decreases totalChunks - index
      {
        ghost var x := State();
        requests := requests + 1;
        var answer := reply(index);
        if !answer.Chunk? {
          return if answer.Lost? then Retry else Fatal;
        }
        if digest(answer.data) != answer.hash {
          return Fatal;
        }
        if !answer.fate.Written? {
          WritePartly(answer.data, answer.fate.kept);
          return if answer.fate.Short? then Retry else Died;
        }
        WriteWhole(answer.data);
        assert State() == Append(x.(requests := x.requests + 1), answer.data);
        index := index + 1;
      }
      return Done;
    }

    method WritePartly(data: ByteString, kept: nat)
      requires part.Some?
      modifies this`part
      ensures part == Some(old(part).value + data[..Min(kept, |data|)])
    {
      part := Some(part.value + data[..Min(kept, |data|)]);
    }

    method WriteWhole(data: ByteString)
      requires part.Some?
      modifies this`part, this`hashed, this`bytesWritten
      ensures State() == Append(old(State()), data)
    {
      part := Some(part.value + data);
      hashed := hashed + data;
      bytesWritten := bytesWritten + |data|;
    }

    /** The body of the retry loop. */
    method TryOnce(digest: Digest, chunkSize: nat, opening: Opening) returns (ending: Ending)
      requires chunkSize > 0
      modifies this`part, this`hashed, this`bytesWritten, this`totalChunks, this`totalBytes, this`requests
      ensures Attempt(digest, old(State()), chunkSize, opening) == (State(), ending)
    {
      var resumeFromChunk := RealignAndRehash(chunkSize);
      var keepBytes := resumeFromChunk * chunkSize;
      match opening {
        case Refused => return Retry;
        case Unresolvable => return Fatal;
        case DiedEarly => return Died;
        case LostEarly =>
          OpenForAppend();
          return Retry;
        case Rejected =>
          OpenForAppend();
          return Fatal;
        case Opened(reportedChunks, reportedSize, reply) =>
          OpenForAppend();
          if reportedChunks != 0 { totalChunks := reportedChunks; }
          if reportedSize != 0 { totalBytes := reportedSize; }
          var oversized :=
            || (totalBytes > 0 && keepBytes > totalBytes)
            || (totalBytes <= 0 && resumeFromChunk > totalChunks);
          if oversized {
            resumeFromChunk := 0;
            part := Some([]);
            hashed := [];
            bytesWritten := 0;
          }
          ending := FetchChunks(digest, resumeFromChunk, reply);
      }
    }

    /** open(part_path, "ab") creates an empty .part when there is none. */
    method OpenForAppend()
      modifies this`part
      ensures part == Some(Contents(old(part)))
    {
      if part.None? {
        part := Some([]);
      }
    }

    /** Drops a .part that belongs to another file, and records which file is being downloaded. */
    method PrepareSidecar(plan: Plan, write: SidecarWrite)
      modifies this`part, this`sidecar
      ensures Files() == Prepared(old(Files()), plan, write)
    {
      var chunkSize := ChunkSize(plan);
      if part.Some? {
        var sameFile := sidecar == Some(Sidecar(plan.sha256Whole, chunkSize));
        if !sameFile {
          part := None;
          sidecar := None;
        }
      }
      match write {
        case SidecarWritten => sidecar := Some(Sidecar(plan.sha256Whole, chunkSize));
        case SidecarUntouched =>
        case SidecarClobbered => sidecar := None;
      }
    }

    /** The retry loop. */
    method RetryUntilDone(digest: Digest, chunkSize: nat, last: nat, opening: nat -> Opening) returns (ending: Ending)
      requires chunkSize > 0 && last >= 1
      modifies this`part, this`hashed, this`bytesWritten, this`totalChunks, this`totalBytes, this`requests, this`failures
      ensures Attempts(digest, old(State()), chunkSize, 1, last, opening) == (State(), ending)
    {
      ghost var start := State();
      var attempt: nat := 1;
      while true
        invariant 1 <= attempt <= last
        invariant Attempts(digest, start, chunkSize, 1, last, opening)
                  == Attempts(digest, State(), chunkSize, attempt, last, opening)
        decreases last - attempt
      {
        ending := TryOnce(digest, chunkSize, opening(attempt));
        if ending == Done {
          return;
        }
        failures := failures + 1;
        if ending != Retry {
          return;
        }
        if attempt >= last {
          return Fatal;
        }
        attempt := attempt + 1;
      }
    }

    method DownloadFile(digest: Digest, plan: Plan, maxAttempts: int, world: World) returns (outcome: Outcome)
      modifies this
      ensures Report(Files(), outcome, requests, failures) == Download(digest, old(Files()), plan, maxAttempts, world)
    {
      PrepareSidecar(plan, world.sidecarWrite);
      totalBytes, totalChunks := plan.sizeBytes, plan.totalChunks;
      hashed, bytesWritten, requests, failures := [], 0, 0, 0;
      var ending := RetryUntilDone(digest, ChunkSize(plan), AttemptLimit(maxAttempts), world.opening);
      if ending != Done {
        return if ending == Died then Dead else Failed;
      }
      if plan.sha256Whole != "" && digest(hashed) != plan.sha256Whole {
        part := None;
        sidecar := None;
        return HashMismatch;
      }
      target := part;
      part := None;
      sidecar := None;
      return Downloaded(bytesWritten);
    }
  }
}
