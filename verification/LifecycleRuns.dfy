/**
 The coordinator over whole runs: every step keeps the invariants of the table, the upload slots and the
 manifest cache, so every state of every run has them.
 */
module LifecycleRuns {
  import opened RegistrySpec
  import opened RegistryProofs
  import opened Lifecycle
  import opened LifecycleTable
  import opened UploadSlots
  import opened ManifestCache
  import opened Wrappers

  /**
   Which of the properties that need something of the environment are claimed of a run.
     slots: no user deletes a row whose slot is still reserved
     rooms: no completion is accepted for a row while another live row of its room has its hash
     manifests: the nodes of which no manifest delta removes the hash of a READY row
   */
  datatype Claims = Claims(slots: bool, rooms: bool, manifests: iset<string>)

  const NO_CLAIMS := Claims(false, false, iset{})

  predicate TableSound(s: State, rooms: bool) {
    && DistinctIds(s.rows) && Numbered(s.rows)
    && Originated(s.rows, s.audit) && AllJustified(s.rows, s.audit)
    && (rooms ==> LiveUnique(s.rows))
  }

  predicate SlotsSound(s: State, slots: bool) {
    && SlotsBacked(s.rows, s.registry, UNFINISHED)
    && (slots ==> SlotsBacked(s.rows, s.registry, IN_PROGRESS))
  }

  ghost predicate Sound(s: State, claims: Claims) {
    && Inv(s.registry) && "" !in s.registry.byId
    && TableSound(s, claims.rooms)
    && SlotsSound(s, claims.slots)
    && CacheAgrees(s.rows, s.registry, claims.manifests)
  }

  /** An acceptable UPLOAD_COMPLETE finds another live row of the room with the same hash. */
  predicate Intrudes(s: State, e: Event)
    requires Valid(s.registry)
  {
    && e.Complete?
    && Acceptable(s, e.c, e.fileId, e.sha, e.otherFields)
    && LiveElsewhere(s.rows, Lookup(s.rows, e.fileId).value)
  }

  /** A user deletes a row whose upload slot is still reserved. */
  predicate StrandsSlot(s: State, e: Event) {
    e.Delete? && e.permitted && e.fileId in s.registry.reservations
  }

  /** A manifest delta of one of these nodes removes the hash of a READY row of its own. */
  predicate Unlists(s: State, e: Event, ks: iset<string>)
    requires Valid(s.registry)
  {
    && e.ManifestDelta? && Reporter(s, e.c).Some?
    && Reporter(s, e.c).value in ks && Drops(s.rows, s.registry, Reporter(s, e.c).value, e.removed)
  }

  /** File ids are new and not empty, connections are new, and each keeps its node id, which is not empty. */
  predicate Ordinary(s: State, e: Event)
    requires Valid(s.registry)
  {
    match e
    case Init(q) => q.fileId != "" && Lookup(s.rows, q.fileId).None?
    case Auth(a) => a.nodeId != "" && KeepsId(s.registry, a.c, a.nodeId)
    case Accept(c, _, _) => c !in s.registry.byConnection
    case _ => true
  }

  predicate Admits(config: Config, s: State, e: Event, claims: Claims)
    requires Valid(s.registry)
  {
    && CanHappen(config, s, e) && Ordinary(s, e)
    && (claims.slots ==> !StrandsSlot(s, e))
    && (claims.rooms ==> !Intrudes(s, e))
    && !Unlists(s, e, claims.manifests)
  }

  // ---------------------------------------------------------------- the table

  /** A completion is accepted exactly when it was acceptable. */
  lemma AcceptedExactly(s: State, c: Connection, id: string, sha: string, otherFields: bool)
    requires Valid(s.registry)
    ensures UploadComplete(s, c, id, sha, otherFields).1.Accepted? <==> Acceptable(s, c, id, sha, otherFields)
  {
    if Acceptable(s, c, id, sha, otherFields) {
      assert UploadComplete(s, c, id, sha, otherFields) == CompleteAt(s, Reporter(s, c).value, id, sha);
    }
  }

  lemma SetStatusDeclines(rows: seq<Row>, ids: set<string>, from: set<Status>, to: Status)
    requires to == DELETED || to == MISSING
    ensures Declined(rows, SetStatus(rows, ids, from, to))
  {
  }

  lemma TableDeclined(s: State, s': State, rooms: bool)
    requires TableSound(s, rooms) && Declined(s.rows, s'.rows) && s'.audit == s.audit
    ensures TableSound(s', rooms)
  {
    NumberedRestatused(s.rows, s'.rows);
    OriginatedKept(s.rows, s'.rows, s.audit, s.audit);
    JustifiedSame(s.rows, s'.rows, s.audit);
    if rooms {
      UniqueDeclined(s.rows, s'.rows);
    }
  }

  /** Every event but INIT_UPLOAD and an accepted completion only makes rows decline. */
  lemma OthersDecline(config: Config, s: State, e: Event)
    requires Valid(s.registry) && CanHappen(config, s, e) && !e.Init?
    requires e.Complete? ==> !UploadComplete(s, e.c, e.fileId, e.sha, e.otherFields).1.Accepted?
    ensures Declined(s.rows, Next(config, s, e).rows) && Next(config, s, e).audit == s.audit
  {
    match e
    case Complete(_, fileId, _, _) =>
      SetStatusDeclines(s.rows, {fileId}, {UPLOADING}, DELETED);
      SetStatusDeclines(s.rows, {fileId}, ANY_STATUS, DELETED);
    case Fail(_, fileId) => SetStatusDeclines(s.rows, {fileId}, ANY_STATUS, DELETED);
    case Delete(fileId, _) => SetStatusDeclines(s.rows, {fileId}, ANY_STATUS, DELETED);
    case Clean(cutoff) => SetStatusDeclines(s.rows, OrphanIds(s.rows, cutoff), {UPLOADING}, DELETED);
    case Auth(a) => AuthDeclines(s, a);
    case _ =>
  }

  lemma AuthDeclines(s: State, a: AuthRequest)
    requires Valid(s.registry)
    ensures Declined(s.rows, StorageAuth(s, a).rows)
  {
    if a.manifest.Some? {
      var manifest := NormalizeAll(a.manifest.value);
      SetStatusDeclines(s.rows, LostIds(s.rows, a.nodeId, manifest), {READY}, MISSING);
    }
  }

  /** The row that an accepted completion makes READY. */
  lemma AcceptedRow(s: State, c: Connection, id: string, sha: string, otherFields: bool)
    requires Valid(s.registry) && DistinctIds(s.rows)
    requires UploadComplete(s, c, id, sha, otherFields).1.Accepted?
    ensures var s' := UploadComplete(s, c, id, sha, otherFields).0;
            && Lookup(s.rows, id).Some? && Lookup(s.rows, id).value.sha == sha
            && Restatused(s.rows, s'.rows) && s'.audit == s.audit + [Completed(id, sha)]
            && s'.rows == SetStatus(s.rows, {id}, ANY_STATUS, READY)
            && forall i :: 0 <= i < |s.rows| && s.rows[i].id == id ==> s.rows[i].sha == sha
  {
    forall i | 0 <= i < |s.rows| && s.rows[i].id == id
      ensures s.rows[i].sha == sha
    {
      LookupAt(s.rows, i);
    }
  }

  /** A row that becomes READY with its completion on record. */
  lemma TableReadied(s: State, s': State, id: string, sha: string, rooms: bool)
    requires TableSound(s, rooms)
    requires Restatused(s.rows, s'.rows) && s'.rows == SetStatus(s.rows, {id}, ANY_STATUS, READY)
    requires s'.audit == s.audit + [Completed(id, sha)]
    requires forall i :: 0 <= i < |s.rows| && s.rows[i].id == id ==> s.rows[i].sha == sha
    requires rooms ==> LiveUnique(s'.rows)
    ensures TableSound(s', rooms)
  {
    NumberedRestatused(s.rows, s'.rows);
    assert s'.audit[|s.audit|] == Completed(id, sha);
    OriginatedKept(s.rows, s'.rows, s.audit, s'.audit);
    JustifiedNext(s.rows, s'.rows, s.audit, Completed(id, sha));
  }

  lemma TableAccepted(s: State, c: Connection, id: string, sha: string, otherFields: bool, rooms: bool)
    requires Valid(s.registry) && TableSound(s, rooms)
    requires UploadComplete(s, c, id, sha, otherFields).1.Accepted?
    requires rooms ==> !LiveElsewhere(s.rows, Lookup(s.rows, id).value)
    ensures TableSound(UploadComplete(s, c, id, sha, otherFields).0, rooms)
  {
    AcceptedRow(s, c, id, sha, otherFields);
    if rooms {
      var i :| 0 <= i < |s.rows| && s.rows[i] == Lookup(s.rows, id).value;
      ReadyKeepsUnique(s.rows, i);
    }
    TableReadied(s, UploadComplete(s, c, id, sha, otherFields).0, id, sha, rooms);
  }

  lemma DistinctAppend(rows: seq<Row>, row: Row)
    requires DistinctIds(rows) && Lookup(rows, row.id).None?
    ensures DistinctIds(rows + [row])
  {
    forall i, j | 0 <= i < j < |rows + [row]|
      ensures (rows + [row])[i].id != (rows + [row])[j].id
    {
      assert rows[i] in rows;
    }
  }

  lemma TableFresh(s: State, q: InitRequest, node: string, rooms: bool)
    requires TableSound(s, rooms) && Lookup(s.rows, q.fileId).None? && Rejection(s, q).None?
    ensures TableSound(s.(rows := s.rows + [FreshRow(s, q, node)]), rooms)
  {
    var row := FreshRow(s, q, node);
    DistinctAppend(s.rows, row);
    NumberedAppend(s.rows, row);
    OriginatedFresh(s.rows, s.audit, row);
    JustifiedSame(s.rows, s.rows + [row], s.audit);
    if rooms {
      UniqueAppend(s.rows, row);
    }
  }

  lemma TableShared(s: State, q: InitRequest, existing: Row, address: string, rooms: bool)
    requires TableSound(s, rooms) && Lookup(s.rows, q.fileId).None? && Rejection(s, q).None?
    requires existing in s.rows && existing.status == READY && existing.sha == q.sha
    ensures TableSound(InitDedup(s, q, existing, address).0, rooms)
  {
    if q.fault != InsertFails {
      var row := DedupRow(s, q, existing);
      var entry := Deduplicated(q.fileId, existing.storedName, q.sha);
      DistinctAppend(s.rows, row);
      NumberedAppend(s.rows, row);
      OriginatedShared(s.rows, s.audit, row, existing, entry);
      SharedEntryJustified(s.rows, s.audit, row, existing, entry);
      if rooms {
        UniqueAppend(s.rows, row);
      }
    }
  }

  lemma SharedEntryJustified(rows: seq<Row>, audit: seq<AuditEntry>, row: Row, existing: Row, entry: AuditEntry)
    requires Originated(rows, audit) && AllJustified(rows, audit) && existing in rows && existing.status == READY
    requires row.storedName == existing.storedName && row.sha == existing.sha && row.node == existing.node
    requires entry.Deduplicated? && entry.storedName == existing.storedName && entry.sha == row.sha
    ensures AllJustified(rows + [row], audit + [entry])
  {
    OriginatedShared(rows, audit, row, existing, entry);
    var rows' := rows + [row];
    var j: nat :| j < |rows| && existing.storedName == Canonical(rows[j].room, rows[j].id)
      && rows[j].sha == row.sha && rows[j].node == row.node && Completed(rows[j].id, row.sha) in audit;
    assert rows'[j] == rows[j];
    JustifiedNext(rows, rows', audit, entry);
  }

  /** The row that INIT_UPLOAD finds reusable. */
  function Existing(config: Config, s: State, q: InitRequest): Option<Row>
    requires Valid(s.registry)
  {
    PickReusable(config, s.registry, Candidates(s.rows, q.sha), q.legacy, q.now)
  }

  lemma TableInit(config: Config, s: State, q: InitRequest, rooms: bool)
    requires Valid(s.registry) && Offered(config, s.registry, q.now, q.first, q.second)
    requires TableSound(s, rooms) && Lookup(s.rows, q.fileId).None?
    ensures TableSound(InitUpload(config, s, q).0, rooms)
  {
    if Rejection(s, q).None? {
      var existing := Existing(config, s, q);
      if existing.Some? {
        TableShared(s, q, existing.value, ShareAddress(config, s.registry, existing.value, q.legacy, q.now), rooms);
      } else {
        var pick := Picked(config, s.registry, q.now, q.first, q.second);
        if pick.Some? {
          TableFresh(s, q, pick.value, rooms);
        }
      }
    }
  }

  lemma StepKeepsTable(config: Config, s: State, e: Event, claims: Claims)
    requires Sound(s, claims) && Admits(config, s, e, claims)
    ensures TableSound(Next(config, s, e), claims.rooms)
  {
    if e.Init? {
      TableInit(config, s, e.request, claims.rooms);
    } else if e.Complete? && UploadComplete(s, e.c, e.fileId, e.sha, e.otherFields).1.Accepted? {
      AcceptedExactly(s, e.c, e.fileId, e.sha, e.otherFields);
      TableAccepted(s, e.c, e.fileId, e.sha, e.otherFields, claims.rooms);
    } else {
      OthersDecline(config, s, e);
      TableDeclined(s, Next(config, s, e), claims.rooms);
    }
  }

  // ---------------------------------------------------------------- the registry

  lemma AuthKeepsInv(r: Registry, a: AuthRequest)
    requires Inv(r) && KeepsId(r, a.c, a.nodeId)
    ensures Inv(AuthRegistry(r, a))
  {
    AuthenticateKeeps(r, a.c, a.nodeId, a.address, a.now);
    if a.freeBytes.Some? {
      CapacityKeeps(Authenticate(r, a.c, a.nodeId, a.address, a.now), a.c, a.freeBytes.value);
    }
  }

  lemma FreshKeepsInv(config: Config, s: State, q: InitRequest)
    requires Inv(s.registry) && Offered(config, s.registry, q.now, q.first, q.second)
    ensures Inv(InitFresh(config, s, q).0.registry)
  {
    SelectKeeps(config, s.registry, q.now, q.fileId, q.ttl, q.first, q.second);
    ReleaseKeeps(Select(config, s.registry, q.now, q.fileId, q.ttl, q.first, q.second), q.fileId);
  }

  lemma CompleteRowReleases(s: State, reporter: string, id: string, sha: string)
    requires Valid(s.registry)
    ensures CompleteRow(s, reporter, id, sha).0.registry == Release(s.registry, id)
  {
  }

  /** The registry after UPLOAD_COMPLETE: unchanged, with the slot freed, or with the hash added besides. */
  lemma CompleteRegistry(s: State, c: Connection, id: string, sha: string, otherFields: bool)
    requires Valid(s.registry)
    ensures var r, r' := s.registry, UploadComplete(s, c, id, sha, otherFields).0.registry;
            || r' == r || r' == Release(r, id)
            || (Reporter(s, c).Some? && r' == MarkFileAdded(Release(r, id), Reporter(s, c).value, sha))
  {
    if Reporter(s, c).Some? {
      CompleteRowReleases(s, Reporter(s, c).value, id, sha);
    }
  }

  lemma ReportKeepsInv(s: State, c: Connection, id: string, sha: string, otherFields: bool)
    requires Inv(s.registry)
    ensures Inv(UploadComplete(s, c, id, sha, otherFields).0.registry)
  {
    CompleteRegistry(s, c, id, sha, otherFields);
    ReleaseKeeps(s.registry, id);
    if Reporter(s, c).Some? {
      FileAddedKeeps(Release(s.registry, id), Reporter(s, c).value, sha);
    }
  }

  lemma StorageAuthKeepsInv(s: State, a: AuthRequest)
    requires Inv(s.registry) && KeepsId(s.registry, a.c, a.nodeId)
    ensures Inv(StorageAuth(s, a).registry)
  {
    AuthKeepsInv(s.registry, a);
    if a.manifest.Some? {
      ManifestKeeps(AuthRegistry(s.registry, a), a.nodeId, a.manifest.value);
    }
  }

  lemma InitKeepsInv(config: Config, s: State, q: InitRequest)
    requires Inv(s.registry) && Offered(config, s.registry, q.now, q.first, q.second)
    ensures Inv(InitUpload(config, s, q).0.registry)
  {
    if Rejection(s, q).None? && Existing(config, s, q).None? {
      FreshKeepsInv(config, s, q);
    }
  }

  lemma FailKeepsInv(s: State, c: Connection, id: string)
    requires Inv(s.registry)
    ensures Inv(UploadFailed(s, c, id).0.registry)
  {
    ReleaseKeeps(s.registry, id);
  }

  lemma CleanKeepsInv(s: State, cutoff: int)
    requires Inv(s.registry)
    ensures Inv(Cleanup(s, cutoff).registry)
  {
    DropAllKeeps(s.registry, (OrphanIds(s.rows, cutoff) - {""}) * s.registry.reservations.Keys);
  }

  lemma ConnectionKeepsInv(config: Config, s: State, e: Event)
    requires Inv(s.registry) && CanHappen(config, s, e) && Ordinary(s, e) && OnlyConnections(e)
    ensures Inv(Next(config, s, e).registry)
  {
    match e
    case ManifestDelta(c, added, removed) =>
      if Reporter(s, c).Some? {
        DeltaKeeps(s.registry, Reporter(s, c).value, added, removed);
      }
    case Accept(c, connectionId, now) => ConnectKeeps(s.registry, c, connectionId, now);
    case Close(c) => DisconnectKeeps(s.registry, c);
    case Ping(c, freeBytes, now) => HeartbeatKeeps(s.registry, c, freeBytes, now);
  }

  lemma StepKeepsRegistry(config: Config, s: State, e: Event)
    requires Inv(s.registry) && CanHappen(config, s, e) && Ordinary(s, e)
    ensures Inv(Next(config, s, e).registry)
  {
    match e
    case Init(q) => InitKeepsInv(config, s, q);
    case Complete(c, fileId, sha, otherFields) => ReportKeepsInv(s, c, fileId, sha, otherFields);
    case Fail(c, fileId) => FailKeepsInv(s, c, fileId);
    case Clean(cutoff) => CleanKeepsInv(s, cutoff);
    case Delete(_, _) =>
    case Auth(a) => StorageAuthKeepsInv(s, a);
    case _ => ConnectionKeepsInv(config, s, e);
  }

  lemma FreshKeepsNames(config: Config, s: State, q: InitRequest)
    requires Inv(s.registry) && Offered(config, s.registry, q.now, q.first, q.second)
    ensures InitFresh(config, s, q).0.registry.byId == s.registry.byId
  {
    SelectSame(config, s.registry, q.now, q.fileId, q.ttl, q.first, q.second);
  }

  lemma InitKeepsNames(config: Config, s: State, q: InitRequest)
    requires Inv(s.registry) && Offered(config, s.registry, q.now, q.first, q.second)
    ensures InitUpload(config, s, q).0.registry.byId == s.registry.byId
  {
    if Rejection(s, q).None? && Existing(config, s, q).None? {
      FreshKeepsNames(config, s, q);
    }
  }

  lemma CompleteKeepsNames(s: State, c: Connection, id: string, sha: string, otherFields: bool)
    requires Valid(s.registry)
    ensures UploadComplete(s, c, id, sha, otherFields).0.registry.byId == s.registry.byId
  {
    CompleteRegistry(s, c, id, sha, otherFields);
  }

  lemma AuthNames(s: State, a: AuthRequest)
    requires Valid(s.registry)
    ensures StorageAuth(s, a).registry.byId.Keys == s.registry.byId.Keys + {a.nodeId}
  {
    var r := AuthRegistry(s.registry, a);
    assert r.byId.Keys == s.registry.byId.Keys + {a.nodeId};
  }

  lemma OthersKeepNames(config: Config, s: State, e: Event)
    requires Valid(s.registry) && CanHappen(config, s, e) && !e.Init? && !e.Complete? && !e.Auth?
    ensures Next(config, s, e).registry.byId.Keys <= s.registry.byId.Keys
  {
  }

  /** No event enters a node under an empty id. */
  lemma StepKeepsNames(config: Config, s: State, e: Event)
    requires Inv(s.registry) && "" !in s.registry.byId && CanHappen(config, s, e) && Ordinary(s, e)
    ensures "" !in Next(config, s, e).registry.byId
  {
    match e
    case Init(q) => InitKeepsNames(config, s, q);
    case Complete(c, fileId, sha, otherFields) => CompleteKeepsNames(s, c, fileId, sha, otherFields);
    case Auth(a) => AuthNames(s, a);
    case _ => OthersKeepNames(config, s, e);
  }

  // ---------------------------------------------------------------- upload slots

  lemma FreshSlots(config: Config, s: State, q: InitRequest, statuses: set<Status>)
    requires Inv(s.registry) && Offered(config, s.registry, q.now, q.first, q.second)
    requires SlotsBacked(s.rows, s.registry, statuses) && UPLOADING in statuses
    requires q.fileId != "" && Lookup(s.rows, q.fileId).None?
    ensures SlotsBacked(InitFresh(config, s, q).0.rows, InitFresh(config, s, q).0.registry, statuses)
  {
    var r, s' := s.registry, InitFresh(config, s, q).0;
    var pick := Picked(config, r, q.now, q.first, q.second);
    SelectReservations(config, r, q.now, q.fileId, q.ttl, q.first, q.second);
    if pick.None? || q.fault == InsertFails {
      SlotsKept(s.rows, s.rows, r, s'.registry, statuses);
    } else {
      ReservedSlots(s.rows, r, s'.registry, FreshRow(s, q, pick.value), Reservation(pick.value, Expiry(q.now, q.ttl)), statuses);
    }
  }

  lemma InitSlots(config: Config, s: State, q: InitRequest, statuses: set<Status>)
    requires Inv(s.registry) && Offered(config, s.registry, q.now, q.first, q.second)
    requires SlotsBacked(s.rows, s.registry, statuses) && UPLOADING in statuses
    requires q.fileId != "" && Lookup(s.rows, q.fileId).None?
    ensures SlotsBacked(InitUpload(config, s, q).0.rows, InitUpload(config, s, q).0.registry, statuses)
  {
    FreshSlots(config, s, q, statuses);
    var existing := Existing(config, s, q);
    if existing.Some? {
      AppendedSlots(s.rows, s.registry, s.registry, DedupRow(s, q, existing.value), statuses);
    }
  }

  lemma CompleteRowSlots(s: State, reporter: string, id: string, sha: string, statuses: set<Status>)
    requires Valid(s.registry) && SlotsBacked(s.rows, s.registry, statuses) && id != ""
    ensures var s' := CompleteRow(s, reporter, id, sha).0; SlotsBacked(s'.rows, s'.registry, statuses)
  {
    ReleasedSlots(s.rows, s.registry, id, statuses);
    ReportedSlots(s.rows, s.registry, id, {UPLOADING}, DELETED, statuses);
    ReportedSlots(s.rows, s.registry, id, ANY_STATUS, DELETED, statuses);
    ReportedSlots(s.rows, s.registry, id, ANY_STATUS, READY, statuses);
  }

  lemma SameReservations(rows: seq<Row>, r: Registry, r': Registry, statuses: set<Status>)
    requires SlotsBacked(rows, r, statuses) && r'.reservations == r.reservations
    ensures SlotsBacked(rows, r', statuses)
  {
  }

  lemma CompleteSlots(s: State, c: Connection, id: string, sha: string, otherFields: bool, statuses: set<Status>)
    requires Valid(s.registry) && SlotsBacked(s.rows, s.registry, statuses)
    ensures var s' := UploadComplete(s, c, id, sha, otherFields).0; SlotsBacked(s'.rows, s'.registry, statuses)
  {
    var s' := UploadComplete(s, c, id, sha, otherFields).0;
    if id != "" && Reporter(s, c).Some? {
      var after := CompleteRow(s, Reporter(s, c).value, id, sha).0;
      CompleteRowSlots(s, Reporter(s, c).value, id, sha, statuses);
      SameReservations(after.rows, after.registry, MarkFileAdded(after.registry, Reporter(s, c).value, sha), statuses);
    }
  }

  lemma FailSlots(s: State, c: Connection, id: string, statuses: set<Status>)
    requires Valid(s.registry) && SlotsBacked(s.rows, s.registry, statuses)
    ensures var s' := UploadFailed(s, c, id).0; SlotsBacked(s'.rows, s'.registry, statuses)
  {
    ReleasedSlots(s.rows, s.registry, id, statuses);
    if id != "" {
      ReportedSlots(s.rows, s.registry, id, ANY_STATUS, DELETED, statuses);
    }
  }

  lemma AuthSlots(s: State, a: AuthRequest, statuses: set<Status>)
    requires Valid(s.registry) && SlotsBacked(s.rows, s.registry, statuses) && READY !in statuses
    ensures var s' := StorageAuth(s, a); SlotsBacked(s'.rows, s'.registry, statuses)
  {
    AuthReservations(s.registry, a);
    if a.manifest.Some? {
      ReconciledSlots(s.rows, s.registry, LostIds(s.rows, a.nodeId, NormalizeAll(a.manifest.value)), statuses);
    }
  }

  lemma AuthReservations(r: Registry, a: AuthRequest)
    requires Valid(r)
    ensures AuthRegistry(r, a).reservations == r.reservations
  {
  }

  /** The events that touch neither rows nor reservations. */
  predicate OnlyConnections(e: Event) {
    e.Accept? || e.Close? || e.Ping? || e.ManifestDelta?
  }

  lemma ConnectionsKeepTables(config: Config, s: State, e: Event)
    requires Valid(s.registry) && CanHappen(config, s, e) && OnlyConnections(e)
    ensures var s' := Next(config, s, e);
            s'.rows == s.rows && s'.audit == s.audit && s'.registry.reservations == s.registry.reservations
  {
  }

  lemma StepKeepsBacking(config: Config, s: State, e: Event, statuses: set<Status>)
    requires Inv(s.registry) && CanHappen(config, s, e) && Ordinary(s, e) && !e.Delete?
    requires SlotsBacked(s.rows, s.registry, statuses) && UPLOADING in statuses && READY !in statuses
    ensures var s' := Next(config, s, e); SlotsBacked(s'.rows, s'.registry, statuses)
  {
    match e
    case Init(q) => InitSlots(config, s, q, statuses);
    case Complete(c, fileId, sha, otherFields) => CompleteSlots(s, c, fileId, sha, otherFields, statuses);
    case Fail(c, fileId) => FailSlots(s, c, fileId, statuses);
    case Clean(cutoff) => CleanedSlots(s.rows, s.registry, OrphanIds(s.rows, cutoff), statuses);
    case Auth(a) => AuthSlots(s, a, statuses);
    case _ => ConnectionsKeepTables(config, s, e);
  }

  lemma StepKeepsSlots(config: Config, s: State, e: Event, claims: Claims)
    requires Sound(s, claims) && Admits(config, s, e, claims)
    ensures SlotsSound(Next(config, s, e), claims.slots)
  {
    if e.Delete? {
      DeletedSlots(s.rows, s.registry, e.fileId);
      if claims.slots {
        DeletedSlotsInProgress(s.rows, s.registry, e.fileId);
      }
    } else {
      StepKeepsBacking(config, s, e, UNFINISHED);
      if claims.slots {
        StepKeepsBacking(config, s, e, IN_PROGRESS);
      }
    }
  }

  // ---------------------------------------------------------------- the manifest cache

  lemma SelectCache(config: Config, rows: seq<Row>, r: Registry, q: InitRequest, ks: iset<string>)
    requires Inv(r) && Offered(config, r, q.now, q.first, q.second) && CacheAgrees(rows, r, ks)
    ensures CacheAgrees(rows, Select(config, r, q.now, q.fileId, q.ttl, q.first, q.second), ks)
  {
    SelectSame(config, r, q.now, q.fileId, q.ttl, q.first, q.second);
    LoadsKeepFiles(r, Select(config, r, q.now, q.fileId, q.ttl, q.first, q.second));
    AgreesDeclined(rows, rows, r, Select(config, r, q.now, q.fileId, q.ttl, q.first, q.second), ks);
  }

  lemma RecordCache(s: State, q: InitRequest, pick: Option<string>, ks: iset<string>)
    requires Inv(s.registry) && CacheAgrees(s.rows, s.registry, ks)
    ensures var s' := Record(s, q, pick).0; CacheAgrees(s'.rows, s'.registry, ks)
  {
    ReleaseCache(s.rows, s.rows, s.registry, q.fileId, ks);
  }

  lemma FreshCache(config: Config, s: State, q: InitRequest, ks: iset<string>)
    requires Inv(s.registry) && Offered(config, s.registry, q.now, q.first, q.second)
    requires CacheAgrees(s.rows, s.registry, ks)
    ensures var s' := InitFresh(config, s, q).0; CacheAgrees(s'.rows, s'.registry, ks)
  {
    var r := Select(config, s.registry, q.now, q.fileId, q.ttl, q.first, q.second);
    SelectCache(config, s.rows, s.registry, q, ks);
    SelectKeeps(config, s.registry, q.now, q.fileId, q.ttl, q.first, q.second);
    RecordCache(s.(registry := r), q, Picked(config, s.registry, q.now, q.first, q.second), ks);
  }

  lemma DedupCache(s: State, q: InitRequest, existing: Row, address: string, ks: iset<string>)
    requires Valid(s.registry) && CacheAgrees(s.rows, s.registry, ks)
    requires existing in s.rows && existing.status == READY && existing.sha == q.sha
    ensures var s' := InitDedup(s, q, existing, address).0; CacheAgrees(s'.rows, s'.registry, ks)
  {
    if existing.node in ks {
      SharedIsCovered(s.registry, DedupRow(s, q, existing), existing);
    }
  }

  lemma InitCache(config: Config, s: State, q: InitRequest, ks: iset<string>)
    requires Inv(s.registry) && Offered(config, s.registry, q.now, q.first, q.second)
    requires CacheAgrees(s.rows, s.registry, ks)
    ensures var s' := InitUpload(config, s, q).0; CacheAgrees(s'.rows, s'.registry, ks)
  {
    var existing := Existing(config, s, q);
    if existing.Some? {
      DedupCache(s, q, existing.value, ShareAddress(config, s.registry, existing.value, q.legacy, q.now), ks);
    } else {
      FreshCache(config, s, q, ks);
    }
  }

  /** A reporter of the run's kind has an id that leads to it. */
  lemma ReporterIsEntered(s: State, c: Connection)
    requires Inv(s.registry) && Reporter(s, c).Some?
    ensures Reporter(s, c).value in s.registry.byId
  {
  }

  lemma ReleaseCache(rows: seq<Row>, rows': seq<Row>, r: Registry, id: string, ks: iset<string>)
    requires Inv(r) && CacheAgrees(rows, r, ks) && Declined(rows, rows')
    ensures CacheAgrees(rows', Release(r, id), ks)
  {
    DropKeeps(r, id);
    LoadsKeepFiles(r, Release(r, id));
    AgreesDeclined(rows, rows', r, Release(r, id), ks);
  }

  lemma AcceptedCache(s: State, c: Connection, id: string, sha: string, otherFields: bool, ks: iset<string>)
    requires Inv(s.registry) && "" !in s.registry.byId && DistinctIds(s.rows) && CacheAgrees(s.rows, s.registry, ks)
    requires UploadComplete(s, c, id, sha, otherFields).1.Accepted?
    ensures var s' := UploadComplete(s, c, id, sha, otherFields).0; CacheAgrees(s'.rows, s'.registry, ks)
  {
    var nodeId := Reporter(s, c).value;
    var released := Release(s.registry, id);
    ReporterIsEntered(s, c);
    ReleaseKeeps(s.registry, id);
    ReleaseCache(s.rows, s.rows, s.registry, id, ks);
    FileAddedKeepsFiles(released, nodeId, sha);
    CompletionKeepsAgreement(s.rows, released, MarkFileAdded(released, nodeId, sha), id, Lookup(s.rows, id).value, nodeId, ks);
  }

  /** A refused report frees the slot at most. */
  lemma RefusedRegistry(config: Config, s: State, e: Event)
    requires Valid(s.registry) && CanHappen(config, s, e) && (e.Complete? || e.Fail?)
    requires e.Complete? ==> !UploadComplete(s, e.c, e.fileId, e.sha, e.otherFields).1.Accepted?
    ensures var r := Next(config, s, e).registry; r == s.registry || r == Release(s.registry, e.fileId)
  {
  }

  lemma RefusedCache(config: Config, s: State, e: Event, ks: iset<string>)
    requires Inv(s.registry) && CacheAgrees(s.rows, s.registry, ks) && CanHappen(config, s, e) && (e.Complete? || e.Fail?)
    requires e.Complete? ==> !UploadComplete(s, e.c, e.fileId, e.sha, e.otherFields).1.Accepted?
    ensures var s' := Next(config, s, e); CacheAgrees(s'.rows, s'.registry, ks)
  {
    var rows' := Next(config, s, e).rows;
    OthersDecline(config, s, e);
    RefusedRegistry(config, s, e);
    ReleaseCache(s.rows, rows', s.registry, e.fileId, ks);
    AgreesDeclined(s.rows, rows', s.registry, s.registry, ks);
  }

  lemma AuthFiles(r: Registry, a: AuthRequest)
    requires Inv(r) && a.nodeId != ""
    ensures var r' := AuthRegistry(r, a); FilesKept(r, r') && a.nodeId in r'.byId && KnownFiles(r', a.nodeId) == None
  {
    var entered := Authenticate(r, a.c, a.nodeId, a.address, a.now);
    AuthenticateKeepsFiles(r, a.c, a.nodeId, a.address, a.now);
    if a.freeBytes.Some? {
      CapacityKeepsFiles(entered, a.c, a.freeBytes.value);
      FilesKeptTwice(r, entered, AuthRegistry(r, a));
    }
  }

  lemma AuthCache(s: State, a: AuthRequest, ks: iset<string>)
    requires Inv(s.registry) && CacheAgrees(s.rows, s.registry, ks) && a.nodeId != "" && KeepsId(s.registry, a.c, a.nodeId)
    ensures var s' := StorageAuth(s, a);
            CacheAgrees(s'.rows, s'.registry, if a.manifest.Some? then ks + iset{a.nodeId} else ks)
  {
    var r := AuthRegistry(s.registry, a);
    AuthKeepsInv(s.registry, a);
    AuthFiles(s.registry, a);
    AgreesDeclined(s.rows, s.rows, s.registry, r, ks);
    if a.manifest.Some? {
      ReconcileEstablishes(s.rows, r, a.nodeId, a.manifest.value, ks);
    }
  }

  lemma CleanupCache(s: State, cutoff: int, ks: iset<string>)
    requires Inv(s.registry) && CacheAgrees(s.rows, s.registry, ks)
    ensures var s' := Cleanup(s, cutoff); CacheAgrees(s'.rows, s'.registry, ks)
  {
    var s' := Cleanup(s, cutoff);
    DropAllKeeps(s.registry, (OrphanIds(s.rows, cutoff) - {""}) * s.registry.reservations.Keys);
    LoadsKeepFiles(s.registry, s'.registry);
    SetStatusDeclines(s.rows, OrphanIds(s.rows, cutoff), {UPLOADING}, DELETED);
    AgreesDeclined(s.rows, s'.rows, s.registry, s'.registry, ks);
  }

  lemma DeltaCache(s: State, c: Connection, added: seq<string>, removed: seq<string>, ks: iset<string>)
    requires Inv(s.registry) && "" !in s.registry.byId && CacheAgrees(s.rows, s.registry, ks)
    ensures var s' := Delta(s, c, added, removed).0;
            CacheAgrees(s'.rows, s'.registry, ks) <==> !Unlists(s, ManifestDelta(c, added, removed), ks)
  {
    if Reporter(s, c).Some? {
      ReporterIsEntered(s, c);
      DeltaKeepsAgreement(s.rows, s.registry, Reporter(s, c).value, added, removed, ks);
    }
  }

  lemma ConnectionFiles(config: Config, s: State, e: Event)
    requires Valid(s.registry) && CanHappen(config, s, e) && (e.Accept? || e.Close? || e.Ping? || e.Delete?)
    ensures FilesKept(s.registry, Next(config, s, e).registry)
  {
    match e
    case Accept(c, connectionId, now) => ConnectKeepsFiles(s.registry, c, connectionId, now);
    case Close(c) => DisconnectKeepsFiles(s.registry, c);
    case Ping(c, freeBytes, now) => HeartbeatKeepsFiles(s.registry, c, freeBytes, now);
    case Delete(_, _) =>
  }

  lemma ConnectionCache(config: Config, s: State, e: Event, ks: iset<string>)
    requires Valid(s.registry) && CacheAgrees(s.rows, s.registry, ks) && CanHappen(config, s, e)
    requires e.Accept? || e.Close? || e.Ping? || e.Delete?
    ensures var s' := Next(config, s, e); CacheAgrees(s'.rows, s'.registry, ks)
  {
    OthersDecline(config, s, e);
    ConnectionFiles(config, s, e);
    AgreesDeclined(s.rows, Next(config, s, e).rows, s.registry, Next(config, s, e).registry, ks);
  }

  lemma StepKeepsCache(config: Config, s: State, e: Event, claims: Claims)
    requires Sound(s, claims) && Admits(config, s, e, claims)
    ensures var s' := Next(config, s, e); CacheAgrees(s'.rows, s'.registry, claims.manifests)
  {
    var ks := claims.manifests;
    match e
    case Init(q) => InitCache(config, s, q, ks);
    case Complete(c, fileId, sha, otherFields) =>
      if UploadComplete(s, c, fileId, sha, otherFields).1.Accepted? {
        AcceptedCache(s, c, fileId, sha, otherFields, ks);
      } else {
        RefusedCache(config, s, e, ks);
      }
    case Fail(_, _) => RefusedCache(config, s, e, ks);
    case Clean(cutoff) => CleanupCache(s, cutoff, ks);
    case Auth(a) => AuthCache(s, a, ks);
    case ManifestDelta(c, added, removed) => DeltaCache(s, c, added, removed, ks);
    case _ => ConnectionCache(config, s, e, ks);
  }

  // ---------------------------------------------------------------- every run

  lemma StepKeepsSound(config: Config, s: State, e: Event, claims: Claims)
    requires Sound(s, claims) && Admits(config, s, e, claims)
    ensures Sound(Next(config, s, e), claims)
  {
    StepKeepsRegistry(config, s, e);
    StepKeepsTable(config, s, e, claims);
    StepKeepsSlots(config, s, e, claims);
    StepKeepsCache(config, s, e, claims);
    StepKeepsNames(config, s, e);
  }

  ghost predicate IsRun(config: Config, s: State, events: seq<Event>, claims: Claims)
    requires Valid(s.registry)
    decreases |events|
  {
    events == [] ||
    (Admits(config, s, events[0], claims) && IsRun(config, Next(config, s, events[0]), events[1..], claims))
  }

  function After(config: Config, s: State, events: seq<Event>, claims: Claims): (s': State)
    requires Valid(s.registry) && IsRun(config, s, events, claims)
    ensures Valid(s'.registry)
    decreases |events|
  {
    if events == [] then s else After(config, Next(config, s, events[0]), events[1..], claims)
  }

  lemma {:induction false} RunKeepsSound(config: Config, s: State, events: seq<Event>, claims: Claims)
    requires Sound(s, claims) && IsRun(config, s, events, claims)
    ensures Sound(After(config, s, events, claims), claims)
    decreases |events|
  {
    if events != [] {
      StepKeepsSound(config, s, events[0], claims);
      RunKeepsSound(config, Next(config, s, events[0]), events[1..], claims);
    }
  }

  /** Every state that a run from the empty coordinator reaches is sound, for the claims the run admits. */
  lemma EveryRunIsSound(config: Config, events: seq<Event>, claims: Claims)
    requires IsRun(config, START, events, claims)
    ensures Sound(After(config, START, events, claims), claims)
  {
    RunKeepsSound(config, START, events, claims);
  }

  /** A full manifest adds its node to those whose cache agrees, whatever its deltas dropped before. */
  lemma FullManifestRestores(config: Config, s: State, a: AuthRequest, claims: Claims)
    requires Sound(s, claims) && Admits(config, s, Auth(a), claims) && a.manifest.Some?
    ensures Sound(Next(config, s, Auth(a)), claims.(manifests := claims.manifests + iset{a.nodeId}))
  {
    StepKeepsSound(config, s, Auth(a), claims);
    AuthCache(s, a, claims.manifests);
  }
}
