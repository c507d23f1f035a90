/**
 The coordinator as a state machine: the files table, the storage-node registry and the audit trail of
 successful uploads, and the handlers that change them.  Each handler is one atomic step.

 Rows stand in the order of their insertion, which is the order of created_at.  A storage node id of ""
 stands for NULL.
 */
module Lifecycle {
  import opened RegistrySpec
  import opened Wrappers

  datatype Status = UPLOADING | READY | MISSING | DELETED

  datatype Row = Row(
    id: string,
    room: string,
    name: string,
    storedName: string,
    version: nat,
    sha: string,
    status: Status,
    node: string,
    createdAt: int)

  /**
   The history of uploads: an entry for each SUCCESS entry of action UPLOAD, in the same order.  The stored
   name and the hash are recorded here for the proofs; the audit log itself does not hold the hash.
   */
  datatype AuditEntry = Completed(id: string, sha: string) | Deduplicated(id: string, storedName: string, sha: string)

  datatype State = State(rows: seq<Row>, registry: Registry, audit: seq<AuditEntry>)

  const START := State([], EMPTY, [])

  const CANDIDATE_LIMIT: nat := 20
  const ANY_STATUS: set<Status> := {UPLOADING, READY, MISSING, DELETED}

  // ---------------------------------------------------------------- queries and updates

  /** SELECT ... WHERE id = id. */
  function Lookup(rows: seq<Row>, id: string): (r: Option<Row>)
    ensures r.Some? ==> r.value in rows && r.value.id == id
    ensures r.None? ==> forall row <- rows :: row.id != id
  {
    if rows == [] then None else if rows[0].id == id then Some(rows[0]) else Lookup(rows[1..], id)
  }

  /** UPDATE files SET status = to WHERE id IN ids AND status IN from. */
  function SetStatus(rows: seq<Row>, ids: set<string>, from: set<Status>, to: Status): (r: seq<Row>)
    ensures |r| == |rows|
  {
    seq(|rows|, i requires 0 <= i < |rows| =>
      if rows[i].id in ids && rows[i].status in from then rows[i].(status := to) else rows[i])
  }

  predicate Live(row: Row) {
    row.status == READY || row.status == UPLOADING
  }

  /** find_same_room_duplicate finds a row. */
  predicate HasRoomDuplicate(rows: seq<Row>, room: string, sha: string) {
    exists row <- rows :: row.room == room && row.sha == sha && Live(row)
  }

  /** READY rows with this content hash, oldest first. */
  function ReadyRows(rows: seq<Row>, sha: string): (r: seq<Row>)
    ensures forall row <- r :: row in rows && row.sha == sha && row.status == READY
  {
    if rows == [] then []
    else (if rows[0].sha == sha && rows[0].status == READY then [rows[0]] else []) + ReadyRows(rows[1..], sha)
  }

  /** find_deduplication_candidates. */
  function Candidates(rows: seq<Row>, sha: string): (r: seq<Row>)
    ensures |r| <= CANDIDATE_LIMIT
    ensures forall row <- r :: row in rows && row.sha == sha && row.status == READY
  {
    var all := ReadyRows(rows, sha);
    if |all| <= CANDIDATE_LIMIT then all else all[..CANDIDATE_LIMIT]
  }

  /**
   Where a candidate can be got from: for one without a node the legacy address, otherwise its node's, if the
   node is reachable and has it; "" when from nowhere.
   */
  function ShareAddress(config: Config, r: Registry, candidate: Row, legacy: string, now: int): string
    requires Valid(r)
  {
    if candidate.node == "" then legacy
    else if NodeHasFile(config, r, candidate.node, candidate.sha, now) then GetStorageAddress(config, r, candidate.node, now)
    else ""
  }

  predicate Reusable(config: Config, r: Registry, candidate: Row, legacy: string, now: int)
    requires Valid(r)
  {
    ShareAddress(config, r, candidate, legacy, now) != ""
  }

  /** _pick_reusable_dedup: the first candidate that can be served. */
  function PickReusable(config: Config, r: Registry, candidates: seq<Row>, legacy: string, now: int): (p: Option<Row>)
    requires Valid(r)
    ensures p.Some? ==> p.value in candidates && Reusable(config, r, p.value, legacy, now)
    ensures p.None? ==> forall row <- candidates :: !Reusable(config, r, row, legacy, now)
  {
    if candidates == [] then None
    else if Reusable(config, r, candidates[0], legacy, now) then Some(candidates[0])
    else PickReusable(config, r, candidates[1..], legacy, now)
  }

  /** SELECT MAX(version) WHERE room_id = room AND original_name = name; 0 when there is no row. */
  function MaxVersion(rows: seq<Row>, room: string, name: string): nat {
    if rows == [] then 0
    else
      var earlier := MaxVersion(rows[..|rows| - 1], room, name);
      var last := rows[|rows| - 1];
      if last.room == room && last.name == name && last.version > earlier then last.version else earlier
  }

  function NextVersion(rows: seq<Row>, room: string, name: string): nat {
    MaxVersion(rows, room, name) + 1
  }

  function Canonical(room: string, id: string): string {
    room + "/" + id
  }

  // ---------------------------------------------------------------- INIT_UPLOAD

  datatype Fault = NoFault | InsertFails | TicketFails

  /** A request with everything the handler draws or reads besides the state; legacy is storage_address or its default. */
  datatype InitRequest = InitRequest(
    permitted: bool, room: string, name: string, sha: string, otherFields: bool,
    legacy: string, fileId: string, now: int, ttl: int, first: string, second: string, fault: Fault)

  datatype InitResult =
    | PermissionDenied | InvalidInput | DuplicateInRoom | NodeUnavailable | InitDatabaseError
    | DedupPlan(dedupNode: string, dedupAddress: string) | UploadPlan(node: string, address: string)

  function DedupRow(s: State, q: InitRequest, existing: Row): Row {
    Row(q.fileId, q.room, q.name, existing.storedName, NextVersion(s.rows, q.room, q.name), q.sha, READY, existing.node, q.now)
  }

  function FreshRow(s: State, q: InitRequest, node: string): Row {
    Row(q.fileId, q.room, q.name, Canonical(q.room, q.fileId), NextVersion(s.rows, q.room, q.name), q.sha, UPLOADING, node, q.now)
  }

  /** The handler's early returns: permission, required fields, a live file of the same content in the room. */
  function Rejection(s: State, q: InitRequest): Option<InitResult> {
    if !q.permitted then Some(PermissionDenied)
    else if q.name == "" || q.sha == "" || !q.otherFields then Some(InvalidInput)
    else if HasRoomDuplicate(s.rows, q.room, q.sha) then Some(DuplicateInRoom)
    else None
  }

  function InitDedup(s: State, q: InitRequest, existing: Row, address: string): (State, InitResult) {
    if q.fault == InsertFails then (s, InitDatabaseError)
    else
      (s.(rows := s.rows + [DedupRow(s, q, existing)],
          audit := s.audit + [Deduplicated(q.fileId, existing.storedName, q.sha)]),
       DedupPlan(existing.node, address))
  }

  function AddressOf(r: Registry, k: string): string
    requires Valid(r)
  {
    if k in r.byId then r.nodes[r.byId[k]].address else ""
  }

  /** The row of a new upload, once a node was picked; its slot is freed again if the insert fails. */
  function Record(s: State, q: InitRequest, pick: Option<string>): (State, InitResult)
    requires Valid(s.registry)
  {
    if pick.None? then (s, NodeUnavailable)
    else if q.fault == InsertFails then (s.(registry := Release(s.registry, q.fileId)), InitDatabaseError)
    else (s.(rows := s.rows + [FreshRow(s, q, pick.value)]),
          if q.fault == TicketFails then InitDatabaseError
          else UploadPlan(pick.value, AddressOf(s.registry, pick.value)))
  }

  /** The slot is reserved under the file id before the row is inserted. */
  function InitFresh(config: Config, s: State, q: InitRequest): (State, InitResult)
    requires Valid(s.registry) && Offered(config, s.registry, q.now, q.first, q.second)
  {
    var selected := Select(config, s.registry, q.now, q.fileId, q.ttl, q.first, q.second);
    Record(s.(registry := selected), q, Picked(config, s.registry, q.now, q.first, q.second))
  }

  function InitWith(config: Config, s: State, q: InitRequest, existing: Option<Row>): (State, InitResult)
    requires Valid(s.registry) && Offered(config, s.registry, q.now, q.first, q.second)
  {
    if existing.Some?
    then InitDedup(s, q, existing.value, ShareAddress(config, s.registry, existing.value, q.legacy, q.now))
    else InitFresh(config, s, q)
  }

  /** A request that is not rejected shares an earlier upload when it can. */
  function InitAccepted(config: Config, s: State, q: InitRequest): (State, InitResult)
    requires Valid(s.registry) && Offered(config, s.registry, q.now, q.first, q.second)
  {
    InitWith(config, s, q, PickReusable(config, s.registry, Candidates(s.rows, q.sha), q.legacy, q.now))
  }

  function InitUpload(config: Config, s: State, q: InitRequest): (State, InitResult)
    requires Valid(s.registry) && Offered(config, s.registry, q.now, q.first, q.second)
  {
    var rejection := Rejection(s, q);
    if rejection.Some? then (s, rejection.value) else InitAccepted(config, s, q)
  }

  // ---------------------------------------------------------------- reports from storage nodes

  /** The node id of an authenticated connection. */
  function Reporter(s: State, c: Connection): (k: Option<string>)
    requires Valid(s.registry)
  {
    if c in s.registry.byConnection && s.registry.nodes[s.registry.byConnection[c]].authenticated
    then Some(s.registry.nodes[s.registry.byConnection[c]].nodeId)
    else None
  }

  datatype ReportResult = Accepted | NotAuthenticated | InvalidPayload | FileNotFound | NodeMismatch | WrongHash | NodeNotFound

  predicate Mismatched(row: Row, reporter: string) {
    row.node != "" && reporter != "" && row.node != reporter
  }

  /** What handle_upload_complete answers for the row it found. */
  function Verdict(found: Option<Row>, reporter: string, sha: string): ReportResult {
    if found.None? then FileNotFound
    else if Mismatched(found.value, reporter) then NodeMismatch
    else if sha != found.value.sha then WrongHash
    else Accepted
  }

  /** What each answer does to the row. */
  function Settled(rows: seq<Row>, fileId: string, verdict: ReportResult): seq<Row> {
    match verdict
    case NodeMismatch => SetStatus(rows, {fileId}, {UPLOADING}, DELETED)
    case WrongHash => SetStatus(rows, {fileId}, ANY_STATUS, DELETED)
    case Accepted => SetStatus(rows, {fileId}, ANY_STATUS, READY)
    case _ => rows
  }

  /** handle_upload_complete: the slot is released whatever is found. */
  function CompleteRow(s: State, reporter: string, fileId: string, sha: string): (State, ReportResult)
    requires Valid(s.registry)
  {
    var verdict := Verdict(Lookup(s.rows, fileId), reporter, sha);
    (State(Settled(s.rows, fileId, verdict), Release(s.registry, fileId),
           if verdict.Accepted? then s.audit + [Completed(fileId, sha)] else s.audit), verdict)
  }

  /** A completion by a known node; an accepted one adds the hash to the node's manifest. */
  function CompleteAt(s: State, reporter: string, fileId: string, sha: string): (State, ReportResult)
    requires Valid(s.registry)
  {
    var (after, result) := CompleteRow(s, reporter, fileId, sha);
    if result.Accepted? then (after.(registry := MarkFileAdded(after.registry, reporter, sha)), result) else (after, result)
  }

  /** UPLOAD_COMPLETE on a connection; otherFields says whether the stored name and the size are present. */
  function UploadComplete(s: State, c: Connection, fileId: string, sha: string, otherFields: bool): (State, ReportResult)
    requires Valid(s.registry)
  {
    var reporter := Reporter(s, c);
    if reporter.None? then (s, NotAuthenticated)
    else if fileId == "" || sha == "" || !otherFields then (s, InvalidPayload)
    else CompleteAt(s, reporter.value, fileId, sha)
  }

  /**
   What a caller can check before UPLOAD_COMPLETE: the connection is authenticated, the fields are there,
   and the row exists, is not assigned to another node, and has the reported hash.
   */
  predicate Acceptable(s: State, c: Connection, fileId: string, sha: string, otherFields: bool)
    requires Valid(s.registry)
  {
    && Reporter(s, c).Some?
    && fileId != "" && sha != "" && otherFields
    && Lookup(s.rows, fileId).Some?
    && !Mismatched(Lookup(s.rows, fileId).value, Reporter(s, c).value)
    && sha == Lookup(s.rows, fileId).value.sha
  }

  /** handle_upload_failed. */
  function FailRow(s: State, reporter: string, fileId: string): (State, ReportResult)
    requires Valid(s.registry)
  {
    var released := s.(registry := Release(s.registry, fileId));
    match Lookup(s.rows, fileId)
    case None => (released, FileNotFound)
    case Some(row) =>
      if Mismatched(row, reporter) then (released, NodeMismatch)
      else (released.(rows := SetStatus(s.rows, {fileId}, ANY_STATUS, DELETED)), Accepted)
  }

  function UploadFailed(s: State, c: Connection, fileId: string): (State, ReportResult)
    requires Valid(s.registry)
  {
    var reporter := Reporter(s, c);
    if reporter.None? then (s, NotAuthenticated)
    else if fileId == "" then (s, InvalidPayload)
    else FailRow(s, reporter.value, fileId)
  }

  /** A delta from a known node. */
  function DeltaAt(s: State, reporter: string, added: seq<string>, removed: seq<string>): (State, ReportResult)
    requires Valid(s.registry)
  {
    (s.(registry := ApplyDelta(s.registry, reporter, added, removed)),
     if reporter != "" && reporter in s.registry.byId then Accepted else NodeNotFound)
  }

  /** MANIFEST_DELTA with two lists. */
  function Delta(s: State, c: Connection, added: seq<string>, removed: seq<string>): (State, ReportResult)
    requires Valid(s.registry)
  {
    if Reporter(s, c).None? then (s, NotAuthenticated) else DeltaAt(s, Reporter(s, c).value, added, removed)
  }

  /** A list field of a message; a missing one and null are the empty list. */
  datatype ListField = Absent | Items(shas: seq<string>) | NotAList

  function Shas(field: ListField): seq<string> {
    if field.Items? then field.shas else []
  }

  /** MANIFEST_DELTA as it arrives. */
  function DeltaMessage(s: State, c: Connection, added: ListField, removed: ListField): (State, ReportResult)
    requires Valid(s.registry)
  {
    if Reporter(s, c).Some? && (added.NotAList? || removed.NotAList?) then (s, InvalidPayload)
    else Delta(s, c, Shas(added), Shas(removed))
  }

  /** Ids of READY rows of a node whose hash its manifest does not hold. */
  function LostIds(rows: seq<Row>, nodeId: string, manifest: set<string>): set<string> {
    set row | row in rows && row.node == nodeId && row.status == READY
      && Normalize(row.sha) != "" && Normalize(row.sha) !in Renormalized(manifest) :: row.id
  }

  /** reconcile_node normalizes the set it is given once more. */
  function Renormalized(manifest: set<string>): set<string> {
    set sha | sha in manifest && sha != "" :: Normalize(sha)
  }

  function Reconcile(rows: seq<Row>, nodeId: string, manifest: set<string>): seq<Row> {
    if nodeId == "" then rows else SetStatus(rows, LostIds(rows, nodeId, manifest), {READY}, MISSING)
  }

  datatype AuthResult = Authenticated | MissingSecret | InvalidSecret | InvalidDataPort

  datatype PortField = NoPort | Port(number: int) | NotANumber

  /** The checks before a node is authenticated, in the handler's order. */
  function CheckAuth(sharedSecret: string, secret: string, port: PortField): AuthResult {
    if secret == "" then MissingSecret
    else if secret != sharedSecret then InvalidSecret
    else if port.NotANumber? then InvalidDataPort
    else Authenticated
  }

  /** An authentication that passed the checks. */
  datatype AuthRequest = AuthRequest(c: Connection, nodeId: string, address: string, now: int, freeBytes: Option<int>,
                                     manifest: Option<seq<string>>)

  function ReportCapacity(r: Registry, c: Connection, freeBytes: Option<int>): (r': Registry)
    requires Valid(r)
    ensures Valid(r')
  {
    if freeBytes.Some? then UpdateCapacity(r, c, freeBytes.value) else r
  }

  function AuthRegistry(r: Registry, a: AuthRequest): (r': Registry)
    requires Valid(r)
    ensures Valid(r')
  {
    ReportCapacity(Authenticate(r, a.c, a.nodeId, a.address, a.now), a.c, a.freeBytes)
  }

  /** A manifest, when one is sent, replaces the cached one and is held against the READY rows of the node. */
  function TakeManifest(s: State, nodeId: string, shas: Option<seq<string>>): (s': State)
    requires Valid(s.registry)
    ensures Valid(s'.registry)
  {
    if shas.None? then s
    else
      var (listed, manifest) := SetManifest(s.registry, nodeId, shas.value);
      s.(registry := listed, rows := if manifest.Some? then Reconcile(s.rows, nodeId, manifest.value) else s.rows)
  }

  function StorageAuth(s: State, a: AuthRequest): State
    requires Valid(s.registry)
  {
    TakeManifest(s.(registry := AuthRegistry(s.registry, a)), a.nodeId, a.manifest)
  }

  // ---------------------------------------------------------------- cleanup and deletion

  function OrphanIds(rows: seq<Row>, cutoff: int): set<string> {
    set row | row in rows && row.status == UPLOADING && row.createdAt < cutoff :: row.id
  }

  /** Frees the slots of these ids, as far as they are reserved. */
  function ReleaseAll(r: Registry, ids: set<string>): (r': Registry)
    ensures Valid(r) ==> Valid(r')
  {
    DropAll(r, (ids - {""}) * r.reservations.Keys)
  }

  /** cleanup_orphaned_uploads: rows older than the cutoff, then their reservations. */
  function Cleanup(s: State, cutoff: int): State {
    var ids := OrphanIds(s.rows, cutoff);
    s.(rows := SetStatus(s.rows, ids, {UPLOADING}, DELETED),
       registry := ReleaseAll(s.registry, ids))
  }

  function DeleteFile(s: State, fileId: string, permitted: bool): State {
    if Lookup(s.rows, fileId).None? || !permitted then s
    else s.(rows := SetStatus(s.rows, {fileId}, ANY_STATUS, DELETED))
  }

  // ---------------------------------------------------------------- steps and runs

  datatype Event =
    | Init(request: InitRequest)
    | Complete(c: Connection, fileId: string, sha: string, otherFields: bool)
    | Fail(c: Connection, fileId: string)
    | Clean(cutoff: int)
    | Delete(fileId: string, permitted: bool)
    | Auth(auth: AuthRequest)
    | ManifestDelta(c: Connection, added: seq<string>, removed: seq<string>)
    | Accept(c: Connection, connectionId: string, now: int)
    | Close(c: Connection)
    | Ping(c: Connection, freeBytes: Option<int>, now: int)

  predicate CanHappen(config: Config, s: State, e: Event)
    requires Valid(s.registry)
  {
    e.Init? ==> Offered(config, s.registry, e.request.now, e.request.first, e.request.second)
  }

  function Next(config: Config, s: State, e: Event): (s': State)
    requires Valid(s.registry) && CanHappen(config, s, e)
    ensures Valid(s'.registry)
  {
    match e
    case Init(q) => InitUpload(config, s, q).0
    case Complete(c, fileId, sha, otherFields) => UploadComplete(s, c, fileId, sha, otherFields).0
    case Fail(c, fileId) => UploadFailed(s, c, fileId).0
    case Clean(cutoff) => Cleanup(s, cutoff)
    case Delete(fileId, permitted) => DeleteFile(s, fileId, permitted)
    case Auth(a) => StorageAuth(s, a)
    case ManifestDelta(c, added, removed) => Delta(s, c, added, removed).0
    case Accept(c, connectionId, now) => s.(registry := Connect(s.registry, c, connectionId, now))
    case Close(c) => s.(registry := Disconnect(s.registry, c))
    case Ping(c, freeBytes, now) =>
      if Reporter(s, c).None? then s else s.(registry := Heartbeat(s.registry, c, freeBytes, now))
  }
}
