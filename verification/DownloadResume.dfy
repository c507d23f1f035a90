/**
 What download_file keeps for the next attempt and the next run, and what ends it: resuming from a .part
 that fits, discarding one that does not, and the answers that are retried or final.
 */
module DownloadResume {
  import opened Bytes
  import opened Chunks
  import opened DownloadSpec
  import opened DownloadProofs
  import opened Wrappers

  // ---------------------------------------------------------------- from run to run

  /** The files hold nothing to resume, or a .part whose sidecar names this file and chunk size. */
  predicate Resumable(disk: Disk, plan: Plan, c: nat) {
    disk.part.None? || disk.sidecar == Some(Sidecar(plan.sha256Whole, c))
  }

  /**
   A .part whose sidecar fits is resumed: only its missing chunks are requested, and an unfinished run
   leaves at least its whole chunks, having gained one for each request but one a failed attempt.
   */
  lemma FittingPartIsResumed(digest: Digest, store: Store, disk: Disk, plan: Plan, maxAttempts: int, world: World, c: nat)
    requires c == if plan.chunkSize > 0 then plan.chunkSize else 524288
    requires GoodDisk(store, disk) && Resumable(disk, plan, c)
    requires HonestWorld(store(plan.sha256Whole), c, world.opening)
    requires digest(store(plan.sha256Whole)) == plan.sha256Whole
    ensures var content := store(plan.sha256Whole);
            var r := Download(digest, disk, plan, maxAttempts, world);
            && r.requests <= Missing(content, c, disk.part) + r.failures
            && (!r.outcome.Downloaded? ==>
                  && Size(disk.part) / c <= Size(r.disk.part) / c
                  && r.requests + Missing(content, c, r.disk.part) <= Missing(content, c, disk.part) + r.failures)
  {
    HonestRun(digest, store, disk, plan, maxAttempts, world);
    PreparedPrefix(store, disk, plan, world.sidecarWrite);
    PreparedPart(disk, plan, world.sidecarWrite, c);
    var prepared := Prepared(disk, plan, world.sidecarWrite);
    var start := Start(prepared, plan);
    AttemptsHonest(digest, start, store(plan.sha256Whole), c, 1, AttemptLimit(maxAttempts), world.opening);
    var (x, ending) := Attempts(digest, start, c, 1, AttemptLimit(maxAttempts), world.opening);
    ConcludeKeepsPart(digest, prepared, plan, x, ending);
    assert Download(digest, disk, plan, maxAttempts, world) == Conclude(digest, prepared, plan, x, ending);
  }

  lemma PreparedPart(disk: Disk, plan: Plan, write: SidecarWrite, c: nat)
    requires c == if plan.chunkSize > 0 then plan.chunkSize else 524288
    requires Resumable(disk, plan, c)
    ensures Prepared(disk, plan, write).part == disk.part
  {
  }

  lemma ConcludeKeepsPart(digest: Digest, disk: Disk, plan: Plan, x: Transfer, ending: Ending)
    ensures var r := Conclude(digest, disk, plan, x, ending);
            && r.requests == x.requests && r.failures == x.failures
            && (!r.outcome.Downloaded? && !r.outcome.HashMismatch? ==> ending != Done && r.disk.part == x.part)
  {
  }

  /** A .part whose sidecar is missing or names something else counts for nothing, against any node. */
  lemma StalePartIsDiscarded(digest: Digest, disk: Disk, plan: Plan, maxAttempts: int, world: World, c: nat)
    requires c == if plan.chunkSize > 0 then plan.chunkSize else 524288
    requires !Resumable(disk, plan, c)
    ensures Download(digest, disk, plan, maxAttempts, world)
            == Download(digest, Disk(None, None, disk.target), plan, maxAttempts, world)
  {
  }

  /** An unfinished run that could write its sidecar leaves files to resume from, against any node. */
  lemma UnfinishedRunIsResumable(digest: Digest, disk: Disk, plan: Plan, maxAttempts: int, world: World, c: nat)
    requires c == if plan.chunkSize > 0 then plan.chunkSize else 524288
    requires world.sidecarWrite.SidecarWritten?
    ensures var r := Download(digest, disk, plan, maxAttempts, world);
            r.outcome.Failed? || r.outcome.Dead? ==> r.disk.sidecar == Some(Sidecar(plan.sha256Whole, c))
  {
    var prepared := Prepared(disk, plan, world.sidecarWrite);
    assert prepared.sidecar == Some(Sidecar(plan.sha256Whole, c));
    var (x, ending) := Attempts(digest, Start(prepared, plan), ChunkSize(plan), 1, AttemptLimit(maxAttempts), world.opening);
    ConcludeKeepsSidecar(digest, prepared, plan, x, ending);
    assert Download(digest, disk, plan, maxAttempts, world) == Conclude(digest, prepared, plan, x, ending);
  }

  lemma ConcludeKeepsSidecar(digest: Digest, disk: Disk, plan: Plan, x: Transfer, ending: Ending)
    ensures var r := Conclude(digest, disk, plan, x, ending);
            r.outcome.Failed? || r.outcome.Dead? ==> r.disk.sidecar == disk.sidecar
  {
  }

  datatype Try = Try(maxAttempts: int, world: World)

  /** The requests and failed attempts of runs of one plan, up to the first that succeeds. */
  function Tally(digest: Digest, disk: Disk, plan: Plan, tries: seq<Try>): (tally: (nat, nat))
    decreases |tries|
  {
    if tries == [] then (0, 0)
    else
      var r := Download(digest, disk, plan, tries[0].maxAttempts, tries[0].world);
      if r.outcome.Downloaded? then (r.requests, r.failures)
      else
        var (requests, failures) := Tally(digest, r.disk, plan, tries[1..]);
        (r.requests + requests, r.failures + failures)
  }

  /**
   However often the program is started again: until the download succeeds, all its runs together request
   at most the chunks missing at the start and one chunk for every failed attempt.
   */
  lemma {:induction false} RunsTogetherResume(digest: Digest, store: Store, disk: Disk, plan: Plan, tries: seq<Try>, c: nat)
    requires c == if plan.chunkSize > 0 then plan.chunkSize else 524288
    requires GoodDisk(store, disk) && Resumable(disk, plan, c)
    requires digest(store(plan.sha256Whole)) == plan.sha256Whole
    requires forall t <- tries ::
      HonestWorld(store(plan.sha256Whole), c, t.world.opening) && t.world.sidecarWrite.SidecarWritten?
    ensures var (requests, failures) := Tally(digest, disk, plan, tries);
            requests <= Missing(store(plan.sha256Whole), c, disk.part) + failures
    decreases |tries|
  {
    if tries == [] {
      MissingIsNat(store, disk, plan, c);
    } else {
      var t := tries[0];
      var r := Download(digest, disk, plan, t.maxAttempts, t.world);
      assert t in tries;
      FittingPartIsResumed(digest, store, disk, plan, t.maxAttempts, t.world, c);
      HonestRun(digest, store, disk, plan, t.maxAttempts, t.world);
      if !r.outcome.Downloaded? {
        UnfinishedRunIsResumable(digest, disk, plan, t.maxAttempts, t.world, c);
        RunsTogetherResume(digest, store, r.disk, plan, tries[1..], c);
      }
    }
  }

  lemma MissingIsNat(store: Store, disk: Disk, plan: Plan, c: nat)
    requires c > 0 && GoodDisk(store, disk) && Resumable(disk, plan, c)
    ensures 0 <= Missing(store(plan.sha256Whole), c, disk.part)
  {
    RealignPrefix(Start(disk, plan), store(plan.sha256Whole), c);
  }

  // ---------------------------------------------------------------- an oversized .part

  /** The whole chunks of .part pass the file size, or, when no size is known, its number of chunks. */
  predicate TooLong(x: Transfer, c: nat, o: Opening)
    requires c > 0 && o.Opened?
  {
    var chunks := Size(x.part) / c;
    var bytes := if o.fileSize != 0 then o.fileSize else x.totalBytes;
    var total := if o.totalChunks != 0 then o.totalChunks else x.totalChunks;
    if bytes > 0 then chunks * c > bytes else chunks > total
  }

  /** A .part that is too long is started again from nothing. */
  lemma OversizedPartIsReset(digest: Digest, x: Transfer, c: nat, o: Opening)
    requires c > 0 && o.Opened? && TooLong(x, c, o)
    ensures var total := if o.totalChunks != 0 then o.totalChunks else x.totalChunks;
            var bytes := if o.fileSize != 0 then o.fileSize else x.totalBytes;
            Attempt(digest, x, c, o)
            == Fetch(digest, Transfer(Some([]), [], 0, total, bytes, x.requests, x.failures), 0, o.reply)
  {
  }

  /** Any other .part is kept to its last whole chunk, hashed, and continued from there. */
  lemma FittingPartIsContinued(digest: Digest, x: Transfer, c: nat, o: Opening)
    requires c > 0 && o.Opened? && !TooLong(x, c, o)
    ensures var total := if o.totalChunks != 0 then o.totalChunks else x.totalChunks;
            var bytes := if o.fileSize != 0 then o.fileSize else x.totalBytes;
            var chunks := Size(x.part) / c;
            && 0 <= chunks * c <= |Contents(x.part)|
            && var kept := Contents(x.part)[..chunks * c];
               Attempt(digest, x, c, o)
               == Fetch(digest, Transfer(Some(kept), kept, |kept|, total, bytes, x.requests, x.failures), chunks, o.reply)
  {
  }

  // ---------------------------------------------------------------- what ends an attempt

  /** The first chunk that does not arrive decides how the chunk loop ends, and costs the last request. */
  lemma {:induction false} FirstGapDecides(digest: Digest, x: Transfer, index: nat, o: Opening, gap: nat)
    requires o.Opened? && index <= gap < x.totalChunks
    requires forall i: nat :: index <= i < gap ==> Arrives(digest, i, o)
    requires !Arrives(digest, gap, o)
    ensures var (y, ending) := Fetch(digest, x, index, o.reply);
            && y.requests == x.requests + (gap - index) + 1
            && (ending == Retry <==> o.reply(gap).Lost? || (Genuine(digest, o.reply(gap)) && o.reply(gap).fate.Short?))
            && (ending == Died <==> Genuine(digest, o.reply(gap)) && o.reply(gap).fate.Killed?)
            && ending != Done
    decreases gap - index
  {
    if index < gap {
      assert Arrives(digest, index, o);
      var next := Append(x.(requests := x.requests + 1), o.reply(index).data);
      FirstGapDecides(digest, next, index + 1, o, gap);
    }
  }

  /** A chunk with the digest the node announced for it. */
  predicate Genuine(digest: Digest, reply: Reply) {
    reply.Chunk? && digest(reply.data) == reply.hash
  }

  /** When every chunk arrives the loop is done, after one request for each. */
  lemma {:induction false} AllArrive(digest: Digest, x: Transfer, index: nat, o: Opening)
    requires o.Opened? && index <= x.totalChunks
    requires forall i: nat :: index <= i < x.totalChunks ==> Arrives(digest, i, o)
    ensures var (y, ending) := Fetch(digest, x, index, o.reply);
            ending == Done && y.requests == x.requests + (x.totalChunks - index)
    decreases x.totalChunks - index
  {
    if index < x.totalChunks {
      assert Arrives(digest, index, o);
      AllArrive(digest, Append(x.(requests := x.requests + 1), o.reply(index).data), index + 1, o);
    }
  }

  predicate Unreachable(o: Opening) {
    o.Refused? || o.LostEarly?
  }

  /** How an attempt without a session ends; it requests nothing. */
  lemma NoSession(digest: Digest, x: Transfer, c: nat, o: Opening)
    requires c > 0 && !o.Opened?
    ensures var (y, ending) := Attempt(digest, x, c, o);
            && y.requests == x.requests && y.failures == x.failures
            && (ending == Retry <==> Unreachable(o))
            && (ending == Fatal <==> o.Rejected? || o.Unresolvable?)
            && (ending == Died <==> o.DiedEarly?)
  {
  }

  lemma {:induction false} UnreachableAttempts(digest: Digest, x: Transfer, c: nat, attempt: nat, last: nat,
                                               opening: nat -> Opening, n: nat)
    requires c > 0 && attempt <= n <= last
    requires forall a: nat :: attempt <= a < n ==> Unreachable(opening(a))
    requires if n < last then opening(n).Rejected? || opening(n).Unresolvable? else !opening(n).Opened? && !opening(n).DiedEarly?
    ensures var (y, ending) := Attempts(digest, x, c, attempt, last, opening);
            ending == Fatal && y.requests == x.requests && y.failures == x.failures + (n - attempt) + 1
    decreases n - attempt
  {
    NoSession(digest, x, c, opening(attempt));
    if attempt < n {
      var next := Attempt(digest, x, c, opening(attempt)).0;
      UnreachableAttempts(digest, next.(failures := next.failures + 1), c, attempt + 1, last, opening, n);
    }
  }

  /**
   Connections that fail are retried up to the configured number of attempts, at least one, and no further;
   a rejected session or an unknown host ends the call at once.  Either way no chunk is requested.
   */
  lemma AttemptsAreCounted(digest: Digest, disk: Disk, plan: Plan, maxAttempts: int, world: World, n: nat)
    requires 1 <= n <= if maxAttempts < 1 then 1 else maxAttempts
    requires forall a: nat :: 1 <= a < n ==> Unreachable(world.opening(a))
    requires var last := if maxAttempts < 1 then 1 else maxAttempts;
             if n < last then world.opening(n).Rejected? || world.opening(n).Unresolvable?
             else !world.opening(n).Opened? && !world.opening(n).DiedEarly?
    ensures var r := Download(digest, disk, plan, maxAttempts, world);
            r.outcome == Failed && r.failures == n && r.requests == 0
  {
    var x := Start(Prepared(disk, plan, world.sidecarWrite), plan);
    UnreachableAttempts(digest, x, ChunkSize(plan), 1, AttemptLimit(maxAttempts), world.opening, n);
  }
}
