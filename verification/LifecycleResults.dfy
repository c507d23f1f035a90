/** What the invariants of LifecycleRuns say to a user of the coordinator, and exactly where they need their guards. */
module LifecycleResults {
  import opened RegistrySpec
  import opened RegistryProofs
  import opened Lifecycle
  import opened LifecycleTable
  import opened UploadSlots
  import opened ManifestCache
  import opened LifecycleRuns
  import opened Wrappers

  // ---------------------------------------------------------------- every run

  /** A live reservation is keyed by the id of an UPLOADING or DELETED row on the reservation's node. */
  lemma ReservationsHaveUnfinishedRows(config: Config, events: seq<Event>, rid: string)
    requires IsRun(config, START, events, NO_CLAIMS)
    requires rid in After(config, START, events, NO_CLAIMS).registry.reservations
    ensures var s := After(config, START, events, NO_CLAIMS);
            var found := Lookup(s.rows, rid);
            && found.Some? && found.value.node == s.registry.reservations[rid].nodeId
            && (found.value.status == UPLOADING || found.value.status == DELETED)
  {
    EveryRunIsSound(config, events, NO_CLAIMS);
    var s := After(config, START, events, NO_CLAIMS);
    assert Backed(s.rows, rid, s.registry.reservations[rid], UNFINISHED);
  }

  /** The versions of every room and name are exactly 1 to the number of its rows, rising with insertion. */
  lemma VersionsAfterAnyRun(config: Config, events: seq<Event>, room: string, name: string)
    requires IsRun(config, START, events, NO_CLAIMS)
    ensures var rows := After(config, START, events, NO_CLAIMS).rows;
            && (forall v: nat :: Taken(rows, room, name, v) <==> 1 <= v <= Count(rows, room, name))
            && (forall i, j :: 0 <= i < j < |rows| && rows[i].room == rows[j].room && rows[i].name == rows[j].name
                  ==> rows[i].version < rows[j].version)
  {
    EveryRunIsSound(config, events, NO_CLAIMS);
    VersionsAreExact(After(config, START, events, NO_CLAIMS).rows, room, name);
  }

  /** Every row's content has an origin; a READY or shared row's origin was completed with its hash. */
  lemma ProvenanceAfterAnyRun(config: Config, events: seq<Event>, i: nat)
    requires IsRun(config, START, events, NO_CLAIMS)
    requires i < |After(config, START, events, NO_CLAIMS).rows|
    ensures var s := After(config, START, events, NO_CLAIMS);
            exists j: nat :: j < |s.rows| && OriginAt(s.rows, s.audit, i, j)
  {
    EveryRunIsSound(config, events, NO_CLAIMS);
    var s := After(config, START, events, NO_CLAIMS);
    assert HasOrigin(s.rows, s.audit, i);
  }

  /** Each record of sharing is preceded by the record of the completion it relies on. */
  lemma SharingFollowsCompletion(config: Config, events: seq<Event>, p: nat)
    requires IsRun(config, START, events, NO_CLAIMS)
    requires p < |After(config, START, events, NO_CLAIMS).audit|
    requires After(config, START, events, NO_CLAIMS).audit[p].Deduplicated?
    ensures var s := After(config, START, events, NO_CLAIMS);
            exists j: nat :: j < |s.rows| && s.audit[p].storedName == Canonical(s.rows[j].room, s.rows[j].id)
              && Completed(s.rows[j].id, s.audit[p].sha) in s.audit[..p]
  {
    EveryRunIsSound(config, events, NO_CLAIMS);
    var s := After(config, START, events, NO_CLAIMS);
    assert Justified(s.rows, s.audit, p);
  }

  /** A record of completion is made exactly when its row becomes READY with the reported hash. */
  lemma CompletionsAreRecorded(s: State, c: Connection, id: string, sha: string, otherFields: bool)
    requires Valid(s.registry) && DistinctIds(s.rows)
    ensures var (s', result) := UploadComplete(s, c, id, sha, otherFields);
            && (result.Accepted? <==> s'.audit == s.audit + [Completed(id, sha)])
            && (result.Accepted? ==> Lookup(s'.rows, id).Some?)
            && (result.Accepted? ==> Lookup(s'.rows, id).value.status == READY && Lookup(s'.rows, id).value.sha == sha)
            && (!result.Accepted? ==> s'.audit == s.audit && Declined(s.rows, s'.rows))
  {
    var (s', result) := UploadComplete(s, c, id, sha, otherFields);
    assert |s.audit + [Completed(id, sha)]| != |s.audit|;
    if result.Accepted? {
      LookupSetStatus(s.rows, {id}, ANY_STATUS, READY, id);
      AnyStatus(Lookup(s.rows, id).value.status);
    } else {
      SetStatusDeclines(s.rows, {id}, {UPLOADING}, DELETED);
      SetStatusDeclines(s.rows, {id}, ANY_STATUS, DELETED);
    }
  }

  lemma AnyStatus(status: Status)
    ensures status in ANY_STATUS
  {
    match status
    case UPLOADING => case READY => case MISSING => case DELETED =>
  }

  // ---------------------------------------------------------------- runs with guarded deletions

  /** While users delete no row whose slot is reserved, a node's counter is at most its UPLOADING rows. */
  lemma LoadIsBackedByUploads(config: Config, events: seq<Event>, claims: Claims, k: string)
    requires IsRun(config, START, events, claims) && claims.slots
    requires k in After(config, START, events, claims).registry.byId
    ensures var s := After(config, START, events, claims);
            s.registry.nodes[s.registry.byId[k]].activeUploads <= |UploadingOn(s.rows, k)|
  {
    EveryRunIsSound(config, events, claims);
    var s := After(config, START, events, claims);
    LoadAtMostUploading(s.rows, s.registry, k);
  }

  /** Deletion keeps the slots on UPLOADING rows exactly when it strands none, as for any row not UPLOADING. */
  lemma DeletionStrandsExactly(s: State, id: string, permitted: bool)
    requires SlotsBacked(s.rows, s.registry, IN_PROGRESS)
    ensures SlotsBacked(DeleteFile(s, id, permitted).rows, DeleteFile(s, id, permitted).registry, IN_PROGRESS)
            <==> !StrandsSlot(s, Delete(id, permitted))
    ensures (Lookup(s.rows, id).Some? ==> Lookup(s.rows, id).value.status != UPLOADING)
            ==> !StrandsSlot(s, Delete(id, permitted))
  {
    DeletedSlotsInProgress(s.rows, s.registry, id);
    if id in s.registry.reservations {
      assert Backed(s.rows, id, s.registry.reservations[id], IN_PROGRESS);
    }
  }

  lemma DeletionUploading(rows: seq<Row>, id: string, k: string)
    ensures UploadingOn(SetStatus(rows, {id}, ANY_STATUS, DELETED), k) == UploadingOn(rows, k) - {id}
  {
    var rows' := SetStatus(rows, {id}, ANY_STATUS, DELETED);
    forall other | other in UploadingOn(rows, k) - {id}
      ensures other in UploadingOn(rows', k)
    {
      var i :| 0 <= i < |rows| && rows[i].id == other && rows[i].node == k && rows[i].status == UPLOADING;
      assert rows'[i] == rows[i] && rows'[i] in rows';
    }
    forall other | other in UploadingOn(rows', k)
      ensures other in UploadingOn(rows, k) - {id}
    {
      var i :| 0 <= i < |rows'| && rows'[i].id == other && rows'[i].node == k && rows'[i].status == UPLOADING;
      AnyStatus(rows[i].status);
      assert rows[i] in rows;
    }
  }

  /**
   The bound on the counter itself: where a node's load is at most its UPLOADING rows, a deletion keeps it
   so if and only if it does not delete an UPLOADING row of a node at its bound.
   */
  lemma DeletionKeepsBoundExactly(s: State, id: string, permitted: bool, k: string)
    requires Inv(s.registry) && k in s.registry.byId && Load(s.registry, k) <= |UploadingOn(s.rows, k)|
    ensures var s' := DeleteFile(s, id, permitted);
            Load(s'.registry, k) <= |UploadingOn(s'.rows, k)|
            <==> !(permitted && id in UploadingOn(s.rows, k) && Load(s.registry, k) == |UploadingOn(s.rows, k)|)
  {
    DeletionUploading(s.rows, id, k);
  }

  /** Every row that a user deletes in the run is not UPLOADING. */
  ghost predicate DeletesNoUploading(config: Config, s: State, events: seq<Event>, claims: Claims)
    requires Valid(s.registry) && IsRun(config, s, events, claims)
    decreases |events|
  {
    events == [] ||
    (&& (events[0].Delete? && events[0].permitted && Lookup(s.rows, events[0].fileId).Some? ==>
           Lookup(s.rows, events[0].fileId).value.status != UPLOADING)
     && DeletesNoUploading(config, Next(config, s, events[0]), events[1..], claims))
  }

  /** Such a run strands no slot. */
  lemma {:induction false} NoUploadingDeleted(config: Config, s: State, events: seq<Event>, claims: Claims)
    requires Sound(s, claims.(slots := true)) && IsRun(config, s, events, claims)
    requires DeletesNoUploading(config, s, events, claims)
    ensures IsRun(config, s, events, claims.(slots := true))
    ensures After(config, s, events, claims.(slots := true)) == After(config, s, events, claims)
    decreases |events|
  {
    if events != [] {
      var e := events[0];
      if e.Delete? {
        DeletionStrandsExactly(s, e.fileId, e.permitted);
      }
      StepKeepsSound(config, s, e, claims.(slots := true));
      NoUploadingDeleted(config, Next(config, s, e), events[1..], claims);
    }
  }

  /** In a run in which users delete no UPLOADING row, a node's counter is at most its UPLOADING rows. */
  lemma LoadIsBackedWhenNoUploadIsDeleted(config: Config, events: seq<Event>, k: string)
    requires IsRun(config, START, events, NO_CLAIMS) && DeletesNoUploading(config, START, events, NO_CLAIMS)
    requires k in After(config, START, events, NO_CLAIMS).registry.byId
    ensures var s := After(config, START, events, NO_CLAIMS);
            s.registry.nodes[s.registry.byId[k]].activeUploads <= |UploadingOn(s.rows, k)|
  {
    NoUploadingDeleted(config, START, events, NO_CLAIMS);
    LoadIsBackedByUploads(config, events, NO_CLAIMS.(slots := true), k);
  }

  // ---------------------------------------------------------------- runs with guarded completions

  /** While completions do not intrude, no room ever has two live rows of one hash. */
  lemma OneLiveRowPerRoomAndHash(config: Config, events: seq<Event>, claims: Claims, i: nat, j: nat)
    requires IsRun(config, START, events, claims) && claims.rooms
    requires i < j < |After(config, START, events, claims).rows|
    ensures var rows := After(config, START, events, claims).rows;
            !(Live(rows[i]) && Live(rows[j]) && rows[i].room == rows[j].room && rows[i].sha == rows[j].sha)
  {
    EveryRunIsSound(config, events, claims);
    var rows := After(config, START, events, claims).rows;
    assert !Collide(rows[i], rows[j]);
  }

  /** A completion delivered for a row still UPLOADING does not intrude. */
  lemma UploadingRowsDoNotIntrude(s: State, c: Connection, id: string, sha: string, otherFields: bool)
    requires Valid(s.registry) && LiveUnique(s.rows)
    requires Lookup(s.rows, id).Some? ==> Lookup(s.rows, id).value.status == UPLOADING
    ensures !Intrudes(s, Complete(c, id, sha, otherFields))
  {
    if Lookup(s.rows, id).Some? {
      var i :| 0 <= i < |s.rows| && s.rows[i] == Lookup(s.rows, id).value;
      UploadingIsAlone(s.rows, i);
    }
  }

  /** A completion keeps the property exactly when it does not intrude. */
  lemma CompletionKeepsUniqueExactly(s: State, c: Connection, id: string, sha: string, otherFields: bool)
    requires Valid(s.registry) && LiveUnique(s.rows) && DistinctIds(s.rows)
    ensures LiveUnique(UploadComplete(s, c, id, sha, otherFields).0.rows)
            <==> !Intrudes(s, Complete(c, id, sha, otherFields))
  {
    var (s', result) := UploadComplete(s, c, id, sha, otherFields);
    if result.Accepted? {
      var i :| 0 <= i < |s.rows| && s.rows[i] == Lookup(s.rows, id).value;
      ReadyKeepsUnique(s.rows, i);
    } else {
      SetStatusDeclines(s.rows, {id}, {UPLOADING}, DELETED);
      SetStatusDeclines(s.rows, {id}, ANY_STATUS, DELETED);
      UniqueDeclined(s.rows, s'.rows);
    }
  }

  /** Every completion of the run that finds its row finds it UPLOADING. */
  ghost predicate CompletesUploadingOnly(config: Config, s: State, events: seq<Event>, claims: Claims)
    requires Valid(s.registry) && IsRun(config, s, events, claims)
    decreases |events|
  {
    events == [] ||
    (&& (events[0].Complete? && Lookup(s.rows, events[0].fileId).Some? ==>
           Lookup(s.rows, events[0].fileId).value.status == UPLOADING)
     && CompletesUploadingOnly(config, Next(config, s, events[0]), events[1..], claims))
  }

  /** Such a run has no intrusion. */
  lemma {:induction false} UploadingOnlyNeverIntrudes(config: Config, s: State, events: seq<Event>, claims: Claims)
    requires Sound(s, claims.(rooms := true)) && IsRun(config, s, events, claims)
    requires CompletesUploadingOnly(config, s, events, claims)
    ensures IsRun(config, s, events, claims.(rooms := true))
    ensures After(config, s, events, claims.(rooms := true)) == After(config, s, events, claims)
    decreases |events|
  {
    if events != [] {
      var e := events[0];
      if e.Complete? {
        UploadingRowsDoNotIntrude(s, e.c, e.fileId, e.sha, e.otherFields);
      }
      StepKeepsSound(config, s, e, claims.(rooms := true));
      UploadingOnlyNeverIntrudes(config, Next(config, s, e), events[1..], claims);
    }
  }

  /** While UPLOAD_COMPLETE is delivered only for UPLOADING rows, no room has two live rows of one hash. */
  lemma OneLiveRowWhenCompletingUploads(config: Config, events: seq<Event>, i: nat, j: nat)
    requires IsRun(config, START, events, NO_CLAIMS) && CompletesUploadingOnly(config, START, events, NO_CLAIMS)
    requires i < j < |After(config, START, events, NO_CLAIMS).rows|
    ensures var rows := After(config, START, events, NO_CLAIMS).rows;
            !(Live(rows[i]) && Live(rows[j]) && rows[i].room == rows[j].room && rows[i].sha == rows[j].sha)
  {
    UploadingOnlyNeverIntrudes(config, START, events, NO_CLAIMS);
    OneLiveRowPerRoomAndHash(config, events, NO_CLAIMS.(rooms := true), i, j);
  }

  // ---------------------------------------------------------------- when DELETED is terminal

  predicate IsDeleted(s: State, id: string) {
    Lookup(s.rows, id).Some? && Lookup(s.rows, id).value.status == DELETED
  }

  /** Nothing guards the old status: an acceptable completion, and no other, brings a deleted row back. */
  lemma DeletedStaysExactly(s: State, c: Connection, id: string, sha: string, otherFields: bool)
    requires Valid(s.registry) && IsDeleted(s, id)
    ensures var s' := UploadComplete(s, c, id, sha, otherFields).0;
            && (Lookup(s'.rows, id) == Lookup(s.rows, id) <==> !Acceptable(s, c, id, sha, otherFields))
            && (Acceptable(s, c, id, sha, otherFields) ==>
                  Lookup(s'.rows, id) == Some(Lookup(s.rows, id).value.(status := READY)))
  {
    AnyStatus(DELETED);
    LookupSetStatus(s.rows, {id}, {UPLOADING}, DELETED, id);
    LookupSetStatus(s.rows, {id}, ANY_STATUS, DELETED, id);
    LookupSetStatus(s.rows, {id}, ANY_STATUS, READY, id);
  }

  /** The event is an acceptable completion of this row. */
  predicate Revives(s: State, e: Event, id: string)
    requires Valid(s.registry)
  {
    e.Complete? && e.fileId == id && Acceptable(s, e.c, id, e.sha, e.otherFields)
  }

  lemma OtherCompletion(s: State, c: Connection, other: string, sha: string, otherFields: bool, id: string)
    requires Valid(s.registry) && other != id
    ensures Lookup(UploadComplete(s, c, other, sha, otherFields).0.rows, id) == Lookup(s.rows, id)
  {
    LookupSetStatus(s.rows, {other}, {UPLOADING}, DELETED, id);
    LookupSetStatus(s.rows, {other}, ANY_STATUS, DELETED, id);
    LookupSetStatus(s.rows, {other}, ANY_STATUS, READY, id);
  }

  lemma InitKeepsDeleted(config: Config, s: State, q: InitRequest, id: string)
    requires Valid(s.registry) && Offered(config, s.registry, q.now, q.first, q.second) && IsDeleted(s, id)
    ensures IsDeleted(InitUpload(config, s, q).0, id)
  {
    var existing := Existing(config, s, q);
    if existing.Some? {
      LookupAppend(s.rows, DedupRow(s, q, existing.value), id);
    } else {
      var pick := Picked(config, s.registry, q.now, q.first, q.second);
      if pick.Some? {
        LookupAppend(s.rows, FreshRow(s, q, pick.value), id);
      }
    }
  }

  lemma ReconcileKeepsDeleted(s: State, a: AuthRequest, id: string)
    requires Valid(s.registry) && IsDeleted(s, id)
    ensures IsDeleted(StorageAuth(s, a), id)
  {
    if a.manifest.Some? {
      LookupSetStatus(s.rows, LostIds(s.rows, a.nodeId, NormalizeAll(a.manifest.value)), {READY}, MISSING, id);
    }
  }

  /** Of all events only an acceptable completion of the row itself ends DELETED. */
  lemma StepKeepsDeletedExactly(config: Config, s: State, e: Event, id: string)
    requires Valid(s.registry) && CanHappen(config, s, e) && IsDeleted(s, id)
    ensures IsDeleted(Next(config, s, e), id) <==> !Revives(s, e, id)
  {
    match e
    case Init(q) => InitKeepsDeleted(config, s, q, id);
    case Complete(c, fileId, sha, otherFields) =>
      if fileId == id {
        DeletedStaysExactly(s, c, id, sha, otherFields);
      } else {
        OtherCompletion(s, c, fileId, sha, otherFields, id);
      }
    case Fail(_, fileId) => LookupSetStatus(s.rows, {fileId}, ANY_STATUS, DELETED, id);
    case Clean(cutoff) => LookupSetStatus(s.rows, OrphanIds(s.rows, cutoff), {UPLOADING}, DELETED, id);
    case Delete(fileId, _) => LookupSetStatus(s.rows, {fileId}, ANY_STATUS, DELETED, id);
    case Auth(a) => ReconcileKeepsDeleted(s, a, id);
    case _ =>
  }

  /** The row is DELETED in every state of the run. */
  ghost predicate AlwaysDeleted(config: Config, s: State, events: seq<Event>, claims: Claims, id: string)
    requires Valid(s.registry) && IsRun(config, s, events, claims)
    decreases |events|
  {
    IsDeleted(s, id) && (events == [] || AlwaysDeleted(config, Next(config, s, events[0]), events[1..], claims, id))
  }

  /** No event of the run is an acceptable completion of the row. */
  ghost predicate NeverRevived(config: Config, s: State, events: seq<Event>, claims: Claims, id: string)
    requires Valid(s.registry) && IsRun(config, s, events, claims)
    decreases |events|
  {
    events == [] ||
    (!Revives(s, events[0], id) && NeverRevived(config, Next(config, s, events[0]), events[1..], claims, id))
  }

  /** A deleted row stays DELETED all through a run if and only if the run never completes it acceptably. */
  lemma {:induction false} DeletedIsTerminalExactly(config: Config, s: State, events: seq<Event>, claims: Claims, id: string)
    requires Valid(s.registry) && IsRun(config, s, events, claims) && IsDeleted(s, id)
    ensures AlwaysDeleted(config, s, events, claims, id) <==> NeverRevived(config, s, events, claims, id)
    ensures NeverRevived(config, s, events, claims, id) ==> IsDeleted(After(config, s, events, claims), id)
    decreases |events|
  {
    if events != [] {
      StepKeepsDeletedExactly(config, s, events[0], id);
      if !Revives(s, events[0], id) {
        DeletedIsTerminalExactly(config, Next(config, s, events[0]), events[1..], claims, id);
      }
    }
  }

  // ---------------------------------------------------------------- runs with guarded deltas

  /** While its node's own deltas unlist no READY row, a download of a READY row is never refused as not on its node. */
  lemma DownloadsFindReadyFiles(config: Config, events: seq<Event>, claims: Claims, row: Row, legacy: string, now: int)
    requires IsRun(config, START, events, claims) && row.node in claims.manifests
    requires row in After(config, START, events, claims).rows && row.status == READY && Normalize(row.sha) != ""
    ensures var r := After(config, START, events, claims).registry;
            ResolveStorageNode(config, r, row, legacy, now) ==
            if row.node == "" then Served(legacy)
            else if GetStorageAddress(config, r, row.node, now) == "" then Unavailable
            else Served(GetStorageAddress(config, r, row.node, now))
  {
    EveryRunIsSound(config, events, claims);
    var s := After(config, START, events, claims);
    ReadyRowsAreServed(config, s.rows, s.registry, row, legacy, now, claims.manifests);
  }

  /**
   Whatever a node unlisted before: from its next full manifest on, until a delta of its own unlists a
   READY row again, its READY rows are never refused as not on it.
   */
  lemma ManifestRestoresDownloads(config: Config, earlier: seq<Event>, a: AuthRequest, later: seq<Event>,
                                  row: Row, legacy: string, now: int)
    requires IsRun(config, START, earlier, NO_CLAIMS) && a.manifest.Some?
    requires var s := After(config, START, earlier, NO_CLAIMS);
             && Admits(config, s, Auth(a), NO_CLAIMS)
             && IsRun(config, Next(config, s, Auth(a)), later, NO_CLAIMS.(manifests := iset{a.nodeId}))
    requires row.node == a.nodeId && row.status == READY && Normalize(row.sha) != ""
    requires row in After(config, Next(config, After(config, START, earlier, NO_CLAIMS), Auth(a)), later,
                          NO_CLAIMS.(manifests := iset{a.nodeId})).rows
    ensures var r := After(config, Next(config, After(config, START, earlier, NO_CLAIMS), Auth(a)), later,
                           NO_CLAIMS.(manifests := iset{a.nodeId})).registry;
            ResolveStorageNode(config, r, row, legacy, now) != FileNotOnNode
  {
    var claims := NO_CLAIMS.(manifests := iset{a.nodeId});
    var s := After(config, START, earlier, NO_CLAIMS);
    EveryRunIsSound(config, earlier, NO_CLAIMS);
    FullManifestRestores(config, s, a, NO_CLAIMS);
    assert NO_CLAIMS.manifests + iset{a.nodeId} == iset{a.nodeId};
    var s' := Next(config, s, Auth(a));
    RunKeepsSound(config, s', later, claims);
    var end := After(config, s', later, claims);
    ReadyRowsAreServed(config, end.rows, end.registry, row, legacy, now, iset{a.nodeId});
  }

  // ---------------------------------------------------------------- which row is shared

  lemma {:induction false} PickPrefix(config: Config, r: Registry, some: seq<Row>, more: seq<Row>, legacy: string, now: int)
    requires Valid(r) && PickReusable(config, r, some, legacy, now).Some?
    ensures PickReusable(config, r, some + more, legacy, now) == PickReusable(config, r, some, legacy, now)
    decreases |some|
  {
    assert (some + more)[0] == some[0];
    if !Reusable(config, r, some[0], legacy, now) {
      assert (some + more)[1..] == some[1..] + more;
      PickPrefix(config, r, some[1..], more, legacy, now);
    }
  }

  predicate Offers(config: Config, r: Registry, row: Row, sha: string, legacy: string, now: int)
    requires Valid(r)
  {
    row.sha == sha && row.status == READY && Reusable(config, r, row, legacy, now)
  }

  /** Picking among the READY rows of a hash is finding the first row that offers its content. */
  lemma {:induction false} PickScans(config: Config, r: Registry, rows: seq<Row>, sha: string, legacy: string, now: int)
    requires Valid(r)
    ensures var pick := PickReusable(config, r, ReadyRows(rows, sha), legacy, now);
            if pick.None? then forall row <- rows :: !Offers(config, r, row, sha, legacy, now)
            else exists i :: 0 <= i < |rows| && rows[i] == pick.value && Offers(config, r, rows[i], sha, legacy, now)
                   && forall j :: 0 <= j < i ==> !Offers(config, r, rows[j], sha, legacy, now)
  {
    if rows != [] {
      PickScans(config, r, rows[1..], sha, legacy, now);
      var pick := PickReusable(config, r, ReadyRows(rows, sha), legacy, now);
      if Offers(config, r, rows[0], sha, legacy, now) {
        assert pick.value == rows[0];
      } else {
        PickSkips(config, r, rows, sha, legacy, now);
        if pick.Some? {
          var i :| 0 <= i < |rows[1..]| && rows[1..][i] == pick.value && Offers(config, r, rows[1..][i], sha, legacy, now)
            && forall j :: 0 <= j < i ==> !Offers(config, r, rows[1..][j], sha, legacy, now);
          assert rows[i + 1] == pick.value;
          forall j | 0 <= j < i + 1
            ensures !Offers(config, r, rows[j], sha, legacy, now)
          {
            assert j > 0 ==> rows[j] == rows[1..][j - 1];
          }
        }
      }
    }
  }

  lemma PickSkips(config: Config, r: Registry, rows: seq<Row>, sha: string, legacy: string, now: int)
    requires Valid(r) && rows != [] && !Offers(config, r, rows[0], sha, legacy, now)
    ensures PickReusable(config, r, ReadyRows(rows, sha), legacy, now) == PickReusable(config, r, ReadyRows(rows[1..], sha), legacy, now)
  {
    var rest := ReadyRows(rows[1..], sha);
    assert [rows[0]] + rest != [] && ([rows[0]] + rest)[1..] == rest;
    assert [] + rest == rest;
  }

  /** The shared row is the oldest READY row of the hash whose node can serve it. */
  lemma OldestServableRowIsShared(config: Config, s: State, q: InitRequest)
    requires Valid(s.registry) && Existing(config, s, q).Some?
    ensures exists i :: 0 <= i < |s.rows| && s.rows[i] == Existing(config, s, q).value
              && Offers(config, s.registry, s.rows[i], q.sha, q.legacy, q.now)
              && forall j :: 0 <= j < i ==> !Offers(config, s.registry, s.rows[j], q.sha, q.legacy, q.now)
  {
    var all := ReadyRows(s.rows, q.sha);
    var n := if |all| <= CANDIDATE_LIMIT then |all| else CANDIDATE_LIMIT;
    assert all[..n] == Candidates(s.rows, q.sha);
    assert all == all[..n] + all[n..];
    PickPrefix(config, s.registry, all[..n], all[n..], q.legacy, q.now);
    PickScans(config, s.registry, s.rows, q.sha, q.legacy, q.now);
  }
}
