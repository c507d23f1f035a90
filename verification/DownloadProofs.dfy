/**
 Safety of download_file against any node, and correctness over any number of runs against nodes that
 serve chunk i from offset i * chunkSize.
 */
module DownloadProofs {
  import opened Bytes
  import opened Chunks
  import opened DownloadSpec
  import opened Wrappers

  // ---------------------------------------------------------------- any node, any stale .part

  /** The running hasher and the byte count cover .part except for its last torn bytes. */
  predicate Behind(x: Transfer, torn: nat) {
    && x.hashed <= Contents(x.part) && |Contents(x.part)| == |x.hashed| + torn
    && x.written == |x.hashed|
  }

  /** The bytes that the chunk loop leaves in the file without hashing them: those of a write cut short. */
  function Torn(digest: Digest, total: int, index: nat, reply: nat -> Reply): nat
    decreases total - index
  {
    if index >= total || !reply(index).Chunk? || digest(reply(index).data) != reply(index).hash then 0
    else
      match reply(index).fate
      case Written => Torn(digest, total, index + 1, reply)
      case Short(kept) => Min(kept, |reply(index).data|)
      case Killed(kept) => Min(kept, |reply(index).data|)
  }

  lemma {:induction false} FetchCovers(digest: Digest, x: Transfer, index: nat, reply: nat -> Reply)
    requires x.part == Some(x.hashed) && x.written == |x.hashed|
    ensures var (end, ending) := Fetch(digest, x, index, reply);
            && Behind(end, Torn(digest, x.totalChunks, index, reply)) && end.part.Some?
            && (ending == Done ==> end.part == Some(end.hashed))
    decreases x.totalChunks - index
  {
    if index < x.totalChunks && reply(index).Chunk? {
      var data := reply(index).data;
      if reply(index).fate.Written? {
        FetchCovers(digest, Append(x.(requests := x.requests + 1), data), index + 1, reply);
      }
    }
  }

  /** The torn bytes of one attempt. */
  function AttemptTorn(digest: Digest, x: Transfer, c: nat, opening: Opening): nat
    requires c > 0
  {
    if !opening.Opened? then 0
    else
      var resume, p := Size(x.part) / c, Realign(x, c);
      var open := p.(totalChunks := OrElse(opening.totalChunks, p.totalChunks),
                     totalBytes := OrElse(opening.fileSize, p.totalBytes));
      Torn(digest, open.totalChunks, if Oversized(open, resume, Offset(resume, c)) then 0 else resume, opening.reply)
  }

  lemma AttemptCovers(digest: Digest, x: Transfer, c: nat, opening: Opening)
    requires c > 0
    ensures var (end, ending) := Attempt(digest, x, c, opening);
            && Behind(end, AttemptTorn(digest, x, c, opening))
            && (ending == Done ==> end.part == Some(end.hashed))
  {
    if opening.Opened? {
      var resume := Size(x.part) / c;
      var p := Realign(x, c);
      var open := p.(part := Some(Contents(p.part)), totalChunks := OrElse(opening.totalChunks, p.totalChunks),
                     totalBytes := OrElse(opening.fileSize, p.totalBytes));
      assert Contents(p.part) == p.hashed;
      FetchCovers(digest, open, resume, opening.reply);
      FetchCovers(digest, open.(part := Some([]), hashed := [], written := 0), 0, opening.reply);
    }
  }

  /** The torn bytes of the last attempt made; those of earlier attempts are truncated or overwritten. */
  function AttemptsTorn(digest: Digest, x: Transfer, c: nat, attempt: nat, last: nat, opening: nat -> Opening): nat
    requires c > 0 && attempt <= last
    decreases last - attempt
  {
    var (next, ending) := Attempt(digest, x, c, opening(attempt));
    if ending == Retry && attempt < last then
      AttemptsTorn(digest, next.(failures := next.failures + 1), c, attempt + 1, last, opening)
    else AttemptTorn(digest, x, c, opening(attempt))
  }

  /** However the loop ends, the hasher covers .part but for a torn last write; there is none when it is done. */
  lemma {:induction false} AttemptsCover(digest: Digest, x: Transfer, c: nat, attempt: nat, last: nat,
                                         opening: nat -> Opening)
    requires c > 0 && attempt <= last
    ensures var (end, ending) := Attempts(digest, x, c, attempt, last, opening);
            && ending != Retry
            && Behind(end, AttemptsTorn(digest, x, c, attempt, last, opening))
            && (ending == Done ==> end.part == Some(end.hashed))
    decreases last - attempt
  {
    AttemptCovers(digest, x, c, opening(attempt));
    var (next, ending) := Attempt(digest, x, c, opening(attempt));
    if ending == Done {
      assert Attempts(digest, x, c, attempt, last, opening) == (next, Done);
    } else {
      var failed := next.(failures := next.failures + 1);
      assert Behind(failed, AttemptTorn(digest, x, c, opening(attempt)));
      if ending == Retry && attempt < last {
        AttemptsCover(digest, failed, c, attempt + 1, last, opening);
      }
    }
  }

  /**
   Whatever the node sends and whatever .part was found: the target is replaced only by the bytes of
   .part, of the reported size and, when a whole-file hash is expected, with that digest; in every
   other case it is untouched.
   */
  lemma TargetOnlyVerified(digest: Digest, disk: Disk, plan: Plan, maxAttempts: int, world: World)
    ensures var r := Download(digest, disk, plan, maxAttempts, world);
            && (r.outcome.Downloaded? ==>
                  && r.disk.part.None? && r.disk.sidecar.None?
                  && r.disk.target.Some? && |r.disk.target.value| == r.outcome.size
                  && (plan.sha256Whole != "" ==> digest(r.disk.target.value) == plan.sha256Whole))
            && (!r.outcome.Downloaded? ==> r.disk.target == disk.target)
            && (r.outcome.HashMismatch? ==> r.disk == Disk(None, None, disk.target) && plan.sha256Whole != "")
  {
    AttemptsCover(digest, Start(Prepared(disk, plan, world.sidecarWrite), plan), ChunkSize(plan), 1,
                  AttemptLimit(maxAttempts), world.opening);
  }

  // ---------------------------------------------------------------- honest nodes

  /** The node reports the true totals and, when it sends a chunk, sends the bytes at that offset. */
  ghost predicate Honest(content: ByteString, c: nat, o: Opening)
    requires c > 0
  {
    o.Opened? ==>
      && o.totalChunks == NumChunks(|content|, c)
      && o.fileSize == |content|
      && forall i: nat :: o.reply(i).Chunk? ==>
           i < NumChunks(|content|, c) && o.reply(i).data == ChunkAt(content, c, i)
  }

  ghost predicate HonestWorld(content: ByteString, c: nat, opening: nat -> Opening)
    requires c > 0
  {
    forall a: nat :: Honest(content, c, opening(a))
  }

  /** The first i chunks of a file. */
  function Head(content: ByteString, c: nat, i: nat): ByteString {
    content[..Min(Offset(i, c), |content|)]
  }

  lemma QuotientAtLeast(size: nat, c: nat, i: nat)
    requires c > 0 && Offset(i, c) <= size
    ensures i <= size / c
  {
    if size / c < i {
      OffsetMonotone(size / c + 1, i, c);
      OffsetStep(size / c, c);
    }
  }

  /** Truncating to whole chunks keeps the number of whole chunks, and gives a head of the file. */
  lemma RealignPrefix(x: Transfer, content: ByteString, c: nat)
    requires c > 0 && Contents(x.part) <= content
    ensures var resume := Size(x.part) / c;
            && Offset(resume, c) <= |content|
            && resume <= NumChunks(|content|, c)
            && Contents(Realign(x, c).part) == Head(content, c, resume)
            && Size(Realign(x, c).part) / c == resume
  {
    var resume := Size(x.part) / c;
    assert Offset(resume, c) <= Size(x.part);
    InRange(|content|, c, resume);
    if resume > 0 {
      OffsetStep(resume - 1, c);
    }
    QuotientAtLeast(Offset(resume, c), c, resume);
  }

  /** What a fetch from an honest node does to a transfer whose .part is the first index chunks. */
  predicate Fetched(x: Transfer, y: Transfer, ending: Ending, content: ByteString, c: nat, index: nat)
    requires c > 0
  {
    && y.part.Some? && y.part.value <= content
    && y.failures == x.failures && y.totalChunks == x.totalChunks
    && (ending == Done ==> y.part.value == content && y.requests == x.requests + NumChunks(|content|, c) - index)
    && (ending != Done ==> index <= Size(y.part) / c && y.requests + index <= x.requests + Size(y.part) / c + 1)
  }

  /** The node's answer to the request for this chunk is a whole chunk that is written. */
  predicate Arrives(digest: Digest, index: nat, o: Opening)
    requires o.Opened?
  {
    o.reply(index).Chunk? && digest(o.reply(index).data) == o.reply(index).hash && o.reply(index).fate.Written?
  }

  lemma FetchTears(digest: Digest, x: Transfer, content: ByteString, c: nat, index: nat, o: Opening, kept: nat)
    requires c > 0 && o.Opened? && Honest(content, c, o) && index < x.totalChunks
    requires index <= NumChunks(|content|, c) && x.part == Some(Head(content, c, index))
    requires o.reply(index).Chunk? && digest(o.reply(index).data) == o.reply(index).hash
    requires o.reply(index).fate == Short(kept) || o.reply(index).fate == Killed(kept)
    ensures var (y, ending) := Fetch(digest, x, index, o.reply); Fetched(x, y, ending, content, c, index)
  {
    PartialChunk(content, c, index, Min(kept, |o.reply(index).data|));
  }

  lemma FetchStops(digest: Digest, x: Transfer, content: ByteString, c: nat, index: nat, o: Opening)
    requires c > 0 && o.Opened? && Honest(content, c, o)
    requires index <= NumChunks(|content|, c)
    requires content != [] ==> x.totalChunks == NumChunks(|content|, c)
    requires x.part == Some(Head(content, c, index))
    requires index < x.totalChunks ==> !Arrives(digest, index, o)
    ensures var (y, ending) := Fetch(digest, x, index, o.reply); Fetched(x, y, ending, content, c, index)
  {
    QuotientOfHead(content, c, index);
    if index < x.totalChunks && o.reply(index).Chunk? && digest(o.reply(index).data) == o.reply(index).hash {
      match o.reply(index).fate
      case Written =>
      case Short(kept) => FetchTears(digest, x, content, c, index, o, kept);
      case Killed(kept) => FetchTears(digest, x, content, c, index, o, kept);
    }
  }

  lemma NextChunk(x: Transfer, content: ByteString, c: nat, index: nat)
    requires c > 0 && index < NumChunks(|content|, c) && x.part == Some(Head(content, c, index))
    ensures Append(x, ChunkAt(content, c, index)).part == Some(Head(content, c, index + 1))
  {
    InRange(|content|, c, index);
    AppendChunk(content, c, index);
  }

  /**
   Fetching from an honest node: .part stays a prefix, ends as the whole file when the loop is done,
   and each request but at most one per failed attempt adds a whole chunk.
   */
  lemma {:induction false} FetchHonest(digest: Digest, x: Transfer, content: ByteString, c: nat, index: nat, o: Opening)
    requires c > 0 && o.Opened? && Honest(content, c, o)
    requires index <= NumChunks(|content|, c)
    requires content != [] ==> x.totalChunks == NumChunks(|content|, c)
    requires x.part == Some(Head(content, c, index))
    ensures var (y, ending) := Fetch(digest, x, index, o.reply); Fetched(x, y, ending, content, c, index)
    decreases x.totalChunks - index
  {
    if index < x.totalChunks && Arrives(digest, index, o) {
      var next := Append(x.(requests := x.requests + 1), o.reply(index).data);
      NextChunk(x.(requests := x.requests + 1), content, c, index);
      FetchHonest(digest, next, content, c, index + 1, o);
      assert Fetch(digest, x, index, o.reply) == Fetch(digest, next, index + 1, o.reply);
    } else {
      FetchStops(digest, x, content, c, index, o);
    }
  }

  lemma QuotientOfHead(content: ByteString, c: nat, index: nat)
    requires c > 0 && index <= NumChunks(|content|, c)
    ensures index < NumChunks(|content|, c) ==> index <= |Head(content, c, index)| / c
    ensures index == NumChunks(|content|, c) ==> Head(content, c, index) == content
    ensures index <= |Head(content, c, index)| / c + 1
  {
    InRange(|content|, c, index);
    if index < NumChunks(|content|, c) {
      QuotientAtLeast(Offset(index, c), c, index);
    } else if index > 0 {
      QuotientAtLeast(|content|, c, index - 1);
    }
  }

  lemma PartialChunk(content: ByteString, c: nat, index: nat, kept: nat)
    requires c > 0 && index < NumChunks(|content|, c) && kept <= |ChunkAt(content, c, index)|
    ensures var part := Head(content, c, index) + ChunkAt(content, c, index)[..kept];
            part <= content && index <= |part| / c
  {
    InRange(|content|, c, index);
    AppendChunk(content, c, index);
    QuotientAtLeast(Offset(index, c) + kept, c, index);
  }

  /** Chunks of the file that a .part does not hold whole. */
  function Missing(content: ByteString, c: nat, part: Option<ByteString>): int
    requires c > 0
  {
    NumChunks(|content|, c) - Size(part) / c
  }

  lemma AttemptHonest(digest: Digest, x: Transfer, content: ByteString, c: nat, o: Opening)
    requires c > 0 && Honest(content, c, o) && Contents(x.part) <= content
    ensures var (y, ending) := Attempt(digest, x, c, o);
            && Contents(y.part) <= content && y.failures == x.failures
            && (ending == Done ==> y.part == Some(content)
                                   && y.requests == x.requests + Missing(content, c, x.part))
            && (ending != Done ==> y.requests + Missing(content, c, y.part)
                                   <= x.requests + Missing(content, c, x.part) + 1)
            && (ending != Done ==> Size(x.part) / c <= Size(y.part) / c)
  {
    RealignPrefix(x, content, c);
    if o.Opened? {
      var resume := Size(x.part) / c;
      var p := Realign(x, c);
      var open := p.(part := Some(Contents(p.part)), totalChunks := OrElse(o.totalChunks, p.totalChunks),
                     totalBytes := OrElse(o.fileSize, p.totalBytes));
      if content == [] {
        assert resume == 0 && Head(content, c, 0) == [];
        FetchHonest(digest, open.(hashed := [], written := 0), content, c, 0, o);
      } else {
        InRange(|content|, c, 0);
      }
      FetchHonest(digest, open, content, c, resume, o);
    }
  }

  /** A run keeps .part a prefix of the true content, finishes only with all of it, and wastes at most
      one request per failed attempt. */
  lemma {:induction false} AttemptsHonest(digest: Digest, x: Transfer, content: ByteString, c: nat, attempt: nat,
                                          last: nat, opening: nat -> Opening)
    requires c > 0 && attempt <= last && HonestWorld(content, c, opening) && Contents(x.part) <= content
    ensures var (y, ending) := Attempts(digest, x, c, attempt, last, opening);
            && Contents(y.part) <= content
            && (ending == Done ==> y.part == Some(content))
            && y.requests - x.requests <= Missing(content, c, x.part) + (y.failures - x.failures)
            && (ending != Done ==> y.requests - x.requests + Missing(content, c, y.part)
                                   <= Missing(content, c, x.part) + (y.failures - x.failures))
            && (ending != Done ==> Size(x.part) / c <= Size(y.part) / c)
            && 0 <= y.failures - x.failures <= last - attempt + 1
    decreases last - attempt
  {
    AttemptHonest(digest, x, content, c, opening(attempt));
    var (next, ending) := Attempt(digest, x, c, opening(attempt));
    RealignPrefix(next, content, c);
    if ending == Retry && attempt < last {
      AttemptsHonest(digest, next.(failures := next.failures + 1), content, c, attempt + 1, last, opening);
    }
  }

  // ---------------------------------------------------------------- runs over one save path

  /** store(h) is the content nodes hold under whole-file hash h. */
  type Store = string -> ByteString

  /** A .part with a readable sidecar is a prefix of the file the sidecar names. */
  predicate GoodDisk(store: Store, disk: Disk) {
    disk.part.Some? && disk.sidecar.Some? ==> disk.part.value <= store(disk.sidecar.value.sha256Whole)
  }

  /** Whether a sidecar left on disk, if it is not rewritten, can name another file than this plan's. */
  predicate SidecarTrusted(store: Store, disk: Disk, plan: Plan) {
    disk.part.None? && disk.sidecar.Some? ==>
      store(plan.sha256Whole) <= store(disk.sidecar.value.sha256Whole)
  }

  lemma PreparedPrefix(store: Store, disk: Disk, plan: Plan, write: SidecarWrite)
    requires GoodDisk(store, disk)
    ensures Contents(Prepared(disk, plan, write).part) <= store(plan.sha256Whole)
  {
  }

  /**
   One run against honest nodes.  The hash-mismatch branch is never reached, success leaves exactly the
   content, and the number of chunk requests is at most the chunks missing at the start plus the number
   of failed attempts.  The disk stays good when the sidecar was rewritten, or what is left can be trusted.
   */
  lemma HonestRun(digest: Digest, store: Store, disk: Disk, plan: Plan, maxAttempts: int, world: World)
    requires GoodDisk(store, disk)
    requires HonestWorld(store(plan.sha256Whole), ChunkSize(plan), world.opening)
    requires digest(store(plan.sha256Whole)) == plan.sha256Whole
    ensures var content := store(plan.sha256Whole);
            var prepared := Prepared(disk, plan, world.sidecarWrite);
            var r := Download(digest, disk, plan, maxAttempts, world);
            && !r.outcome.HashMismatch?
            && (r.outcome.Downloaded? ==> r.disk.target == Some(content) && r.outcome.size == |content|)
            && Contents(r.disk.part) <= content
            && r.requests <= Missing(content, ChunkSize(plan), prepared.part) + r.failures
            && ((world.sidecarWrite.SidecarUntouched? ==> SidecarTrusted(store, disk, plan)) ==> GoodDisk(store, r.disk))
  {
    var content := store(plan.sha256Whole);
    var prepared := Prepared(disk, plan, world.sidecarWrite);
    PreparedPrefix(store, disk, plan, world.sidecarWrite);
    var x := Start(prepared, plan);
    AttemptsHonest(digest, x, content, ChunkSize(plan), 1, AttemptLimit(maxAttempts), world.opening);
    AttemptsCover(digest, x, ChunkSize(plan), 1, AttemptLimit(maxAttempts), world.opening);
  }

  /** A session that serves every chunk, in which the process dies while the last one is written. */
  ghost predicate Dying(digest: Digest, content: ByteString, c: nat, o: Opening)
    requires c > 0
  {
    && o.Opened? && Honest(content, c, o)
    && forall i: nat :: i < NumChunks(|content|, c) ==>
         o.reply(i) == Chunk(ChunkAt(content, c, i), digest(ChunkAt(content, c, i)),
                             if i + 1 < NumChunks(|content|, c) then Written else Killed(c))
  }

  function DyingOpening(digest: Digest, content: ByteString, c: nat): (o: Opening)
    requires c > 0
    ensures Dying(digest, content, c, o)
  {
    var n := NumChunks(|content|, c);
    Opened(n, |content|, (i: nat) =>
      if i < n then Chunk(ChunkAt(content, c, i), digest(ChunkAt(content, c, i)), if i + 1 < n then Written else Killed(c))
      else Lost)
  }

  lemma LastChunk(content: ByteString, c: nat, index: nat)
    requires c > 0 && index + 1 == NumChunks(|content|, c)
    ensures var data := ChunkAt(content, c, index);
            Head(content, c, index) + data[..Min(c, |data|)] == content
  {
    var data := ChunkAt(content, c, index);
    InRange(|content|, c, index);
    InRange(|content|, c, index + 1);
    AppendChunk(content, c, index);
    assert data[..Min(c, |data|)] == data;
  }

  lemma {:induction false} FetchDying(digest: Digest, x: Transfer, content: ByteString, c: nat, index: nat, o: Opening)
    requires c > 0 && index < NumChunks(|content|, c) && x.totalChunks == NumChunks(|content|, c)
    requires x.part == Some(Head(content, c, index)) && Dying(digest, content, c, o)
    ensures Fetch(digest, x, index, o.reply).1 == Died && Fetch(digest, x, index, o.reply).0.part == Some(content)
    decreases x.totalChunks - index
  {
    var data := ChunkAt(content, c, index);
    if index + 1 < NumChunks(|content|, c) {
      var next := Append(x.(requests := x.requests + 1), data);
      NextChunk(x.(requests := x.requests + 1), content, c, index);
      FetchDying(digest, next, content, c, index + 1, o);
      assert Fetch(digest, x, index, o.reply) == Fetch(digest, next, index + 1, o.reply);
    } else {
      LastChunk(content, c, index);
      assert o.reply(index) == Chunk(data, digest(data), Killed(c));
    }
  }

  /** Without a .part an attempt that opens fetches from the first chunk. */
  lemma AttemptFromNothing(digest: Digest, x: Transfer, c: nat, o: Opening)
    requires c > 0 && x.part.None? && o.Opened? && o.totalChunks > 0 && o.fileSize > 0
    ensures var open := x.(part := Some([]), hashed := [], written := 0, totalChunks := o.totalChunks, totalBytes := o.fileSize);
            Attempt(digest, x, c, o) == Fetch(digest, open, 0, o.reply)
  {
  }

  lemma AttemptDying(digest: Digest, x: Transfer, content: ByteString, c: nat, o: Opening)
    requires c > 0 && content != [] && x.part.None? && Dying(digest, content, c, o)
    ensures Attempt(digest, x, c, o).1 == Died && Attempt(digest, x, c, o).0.part == Some(content)
  {
    InRange(|content|, c, 0);
    AttemptFromNothing(digest, x, c, o);
    var open := x.(part := Some([]), hashed := [], written := 0, totalChunks := o.totalChunks, totalBytes := o.fileSize);
    assert Head(content, c, 0) == [];
    FetchDying(digest, open, content, c, 0, o);
  }

  /**
   The condition of HonestRun on an unwritten sidecar is exact: when the leftover sidecar cannot be
   trusted, an honest node and a process death leave a .part that its sidecar misdescribes.
   */
  lemma UntrustedSidecarMisleads(digest: Digest, store: Store, disk: Disk, plan: Plan, maxAttempts: int, world: World)
    requires GoodDisk(store, disk) && !SidecarTrusted(store, disk, plan)
    requires world.sidecarWrite.SidecarUntouched?
    requires Dying(digest, store(plan.sha256Whole), ChunkSize(plan), world.opening(1))
    ensures !GoodDisk(store, Download(digest, disk, plan, maxAttempts, world).disk)
  {
    assert store(plan.sha256Whole) != [];
    AttemptDying(digest, Start(Prepared(disk, plan, SidecarUntouched), plan), store(plan.sha256Whole), ChunkSize(plan),
                 world.opening(1));
  }

  datatype Run = Run(plan: Plan, maxAttempts: int, world: World)

  function RunOn(digest: Digest, disk: Disk, run: Run): Report {
    Download(digest, disk, run.plan, run.maxAttempts, run.world)
  }

  /** The disk after runs for any files and chunk sizes under one save path. */
  function AfterRuns(digest: Digest, disk: Disk, runs: seq<Run>): Disk {
    if runs == [] then disk
    else RunOn(digest, AfterRuns(digest, disk, runs[..|runs| - 1]), runs[|runs| - 1]).disk
  }

  ghost predicate HonestRuns(digest: Digest, store: Store, runs: seq<Run>) {
    forall run <- runs ::
      && HonestWorld(store(run.plan.sha256Whole), ChunkSize(run.plan), run.world.opening)
      && digest(store(run.plan.sha256Whole)) == run.plan.sha256Whole
      && !run.world.sidecarWrite.SidecarUntouched?
  }

  lemma {:induction false} RunsKeepDiskGood(digest: Digest, store: Store, disk: Disk, runs: seq<Run>)
    requires GoodDisk(store, disk) && HonestRuns(digest, store, runs)
    ensures GoodDisk(store, AfterRuns(digest, disk, runs))
  {
    if runs != [] {
      var earlier, run := runs[..|runs| - 1], runs[|runs| - 1];
      RunsKeepDiskGood(digest, store, disk, earlier);
      HonestRun(digest, store, AfterRuns(digest, disk, earlier), run.plan, run.maxAttempts, run.world);
    }
  }

  /** Over any sequence of runs, all that HonestRun says of one run holds of the i-th, for its own file. */
  lemma EveryRunIsCorrect(digest: Digest, store: Store, disk: Disk, runs: seq<Run>, i: nat)
    requires GoodDisk(store, disk) && HonestRuns(digest, store, runs) && i < |runs|
    ensures var content := store(runs[i].plan.sha256Whole);
            var before := AfterRuns(digest, disk, runs[..i]);
            var prepared := Prepared(before, runs[i].plan, runs[i].world.sidecarWrite);
            var r := RunOn(digest, before, runs[i]);
            && !r.outcome.HashMismatch?
            && (r.outcome.Downloaded? ==> r.disk.target == Some(content) && r.outcome.size == |content|)
            && Contents(r.disk.part) <= content
            && r.requests <= Missing(content, ChunkSize(runs[i].plan), prepared.part) + r.failures
  {
    RunsKeepDiskGood(digest, store, disk, runs[..i]);
    HonestRun(digest, store, AfterRuns(digest, disk, runs[..i]), runs[i].plan, runs[i].maxAttempts, runs[i].world);
  }

  // ---------------------------------------------------------------- a good connection suffices

  /** The node serves every chunk of the file, each arrives and is written. */
  ghost predicate Healthy(digest: Digest, content: ByteString, c: nat, o: Opening)
    requires c > 0
  {
    && o.Opened? && Honest(content, c, o)
    && forall i: nat :: i < NumChunks(|content|, c) ==>
         o.reply(i) == Chunk(ChunkAt(content, c, i), digest(ChunkAt(content, c, i)), Written)
  }

  /** Only connections are lost and writes fall short: nothing that ends the retry loop. */
  ghost predicate Transient(digest: Digest, o: Opening) {
    || o.Refused?
    || o.LostEarly?
    || (o.Opened? && forall i: nat ::
          o.reply(i).Lost? || (o.reply(i).Chunk? && o.reply(i).hash == digest(o.reply(i).data) && !o.reply(i).fate.Killed?))
  }

  lemma {:induction false} FetchHealthy(digest: Digest, x: Transfer, content: ByteString, c: nat, index: nat, o: Opening)
    requires c > 0 && Healthy(digest, content, c, o) && x.totalChunks == NumChunks(|content|, c)
    ensures Fetch(digest, x, index, o.reply).1 == Done
    decreases x.totalChunks - index
  {
    if index < x.totalChunks {
      FetchHealthy(digest, Append(x.(requests := x.requests + 1), ChunkAt(content, c, index)), content, c, index + 1, o);
    }
  }

  lemma {:induction false} FetchTransient(digest: Digest, x: Transfer, index: nat, o: Opening)
    requires Transient(digest, o) && o.Opened?
    ensures Fetch(digest, x, index, o.reply).1 in {Done, Retry}
    decreases x.totalChunks - index
  {
    if index < x.totalChunks && o.reply(index).Chunk? {
      FetchTransient(digest, Append(x.(requests := x.requests + 1), o.reply(index).data), index + 1, o);
    }
  }

  lemma AttemptTransient(digest: Digest, x: Transfer, c: nat, o: Opening)
    requires c > 0 && Transient(digest, o)
    ensures Attempt(digest, x, c, o).1 in {Done, Retry}
  {
    if o.Opened? {
      var resume := Size(x.part) / c;
      var p := Realign(x, c);
      var open := p.(part := Some(Contents(p.part)), totalChunks := OrElse(o.totalChunks, p.totalChunks),
                     totalBytes := OrElse(o.fileSize, p.totalBytes));
      FetchTransient(digest, open, resume, o);
      FetchTransient(digest, open.(part := Some([]), hashed := [], written := 0), 0, o);
    }
  }

  lemma AttemptHealthy(digest: Digest, x: Transfer, content: ByteString, c: nat, o: Opening)
    requires c > 0 && content != [] && Healthy(digest, content, c, o)
    ensures Attempt(digest, x, c, o).1 == Done
  {
    InRange(|content|, c, 0);
    var resume := Size(x.part) / c;
    var p := Realign(x, c);
    var open := p.(part := Some(Contents(p.part)), totalChunks := NumChunks(|content|, c), totalBytes := |content|);
    FetchHealthy(digest, open, content, c, resume, o);
    FetchHealthy(digest, open.(part := Some([]), hashed := [], written := 0), content, c, 0, o);
  }

  lemma {:induction false} AttemptsReachHealthy(digest: Digest, x: Transfer, content: ByteString, c: nat,
                                                attempt: nat, good: nat, last: nat, opening: nat -> Opening)
    requires c > 0 && content != [] && attempt <= good <= last
    requires Healthy(digest, content, c, opening(good))
    requires forall a: nat :: attempt <= a < good ==> Transient(digest, opening(a))
    ensures Attempts(digest, x, c, attempt, last, opening).1 == Done
    decreases good - attempt
  {
    if attempt == good {
      AttemptHealthy(digest, x, content, c, opening(attempt));
    } else {
      AttemptTransient(digest, x, c, opening(attempt));
      var (next, ending) := Attempt(digest, x, c, opening(attempt));
      if ending == Retry {
        AttemptsReachHealthy(digest, next.(failures := next.failures + 1), content, c, attempt + 1, good, last, opening);
      }
    }
  }

  /** After any transient failures, one healthy connection within the attempt limit finishes the download. */
  lemma HealthyConnectionFinishes(digest: Digest, store: Store, disk: Disk, plan: Plan, maxAttempts: int,
                                  world: World, good: nat)
    requires GoodDisk(store, disk)
    requires HonestWorld(store(plan.sha256Whole), ChunkSize(plan), world.opening)
    requires digest(store(plan.sha256Whole)) == plan.sha256Whole
    requires 1 <= good <= AttemptLimit(maxAttempts)
    requires store(plan.sha256Whole) != []
    requires Healthy(digest, store(plan.sha256Whole), ChunkSize(plan), world.opening(good))
    requires forall a: nat :: 1 <= a < good ==> Transient(digest, world.opening(a))
    ensures var r := Download(digest, disk, plan, maxAttempts, world);
            r.outcome == Downloaded(|store(plan.sha256Whole)|) && r.disk.target == Some(store(plan.sha256Whole))
  {
    HonestRun(digest, store, disk, plan, maxAttempts, world);
    AttemptsReachHealthy(digest, Start(Prepared(disk, plan, world.sidecarWrite), plan), store(plan.sha256Whole),
                         ChunkSize(plan), 1, good, AttemptLimit(maxAttempts), world.opening);
  }

  lemma {:induction false} AttemptsOnEmpty(digest: Digest, x: Transfer, c: nat, attempt: nat, last: nat,
                                           opening: nat -> Opening)
    requires c > 0 && attempt <= last && HonestWorld([], c, opening) && Contents(x.part) == [] && x.totalChunks > 0
    ensures Attempts(digest, x, c, attempt, last, opening).1 != Done
    decreases last - attempt
  {
    var (next, ending) := Attempt(digest, x, c, opening(attempt));
    if ending == Retry && attempt < last {
      AttemptsOnEmpty(digest, next.(failures := next.failures + 1), c, attempt + 1, last, opening);
    }
  }

  lemma EmptyPlanFinishes(digest: Digest, x: Transfer, c: nat, last: nat, opening: nat -> Opening)
    requires c > 0 && last >= 1 && Honest([], c, opening(1)) && opening(1).Opened?
    requires Contents(x.part) == [] && x.totalChunks <= 0
    ensures Attempts(digest, x, c, 1, last, opening).1 == Done
  {
    assert Attempt(digest, x, c, opening(1)).1 == Done;
  }

  /** Without a mismatch, a run succeeds exactly when its last attempt fetched everything. */
  lemma SucceedsWhenDone(digest: Digest, disk: Disk, plan: Plan, maxAttempts: int, world: World)
    ensures var x := Start(Prepared(disk, plan, world.sidecarWrite), plan);
            var ending := Attempts(digest, x, ChunkSize(plan), 1, AttemptLimit(maxAttempts), world.opening).1;
            var outcome := Download(digest, disk, plan, maxAttempts, world).outcome;
            !outcome.HashMismatch? ==> (outcome.Downloaded? <==> ending == Done)
  {
  }

  /**
   An empty file: the node reports no chunks, so the plan's count stands, and the coordinator plans one
   chunk for size 0.  No honest world then lets the download succeed; with a plan of no chunks the
   first session that opens finishes it.
   */
  lemma EmptyFileNeedsEmptyPlan(digest: Digest, store: Store, disk: Disk, plan: Plan, maxAttempts: int, world: World)
    requires GoodDisk(store, disk) && store(plan.sha256Whole) == []
    requires HonestWorld([], ChunkSize(plan), world.opening) && digest([]) == plan.sha256Whole
    requires world.opening(1).Opened?
    ensures Download(digest, disk, plan, maxAttempts, world).outcome.Downloaded? <==> plan.totalChunks <= 0
  {
    var x := Start(Prepared(disk, plan, world.sidecarWrite), plan);
    PreparedPrefix(store, disk, plan, world.sidecarWrite);
    HonestRun(digest, store, disk, plan, maxAttempts, world);
    SucceedsWhenDone(digest, disk, plan, maxAttempts, world);
    if plan.totalChunks > 0 {
      AttemptsOnEmpty(digest, x, ChunkSize(plan), 1, AttemptLimit(maxAttempts), world.opening);
    } else {
      EmptyPlanFinishes(digest, x, ChunkSize(plan), AttemptLimit(maxAttempts), world.opening);
    }
  }
}
