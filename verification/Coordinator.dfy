/**
 The coordinator's services over one database and one registry.  Every handler is proved to take the
 step of Lifecycle, and to give its result.
 */
module Coordinator {
  import opened RegistrySpec
  import opened RegistryProofs
  import opened StorageNodeRegistry
  import opened Lifecycle
  import opened Wrappers

  /** The files table and the SUCCESS entries of uploads in the audit log. */
  class Database {
    var files: seq<Row>
    var audit: seq<AuditEntry>

    constructor ()
      ensures files == [] && audit == []
    {
      files, audit := [], [];
    }

    method Insert(row: Row)
      modifies this`files
      ensures files == old(files) + [row]
    {
      files := files + [row];
    }

    method UpdateStatus(id: string, from: set<Status>, to: Status)
      modifies this`files
      ensures files == SetStatus(old(files), {id}, from, to)
    {
      files := SetStatus(files, {id}, from, to);
    }

    method WriteAudit(entry: AuditEntry)
      modifies this`audit
      ensures audit == old(audit) + [entry]
    {
      audit := audit + [entry];
    }
  }

  function AsSet(ids: seq<string>): set<string> {
    set id | id in ids
  }

  ghost function Snapshot(db: Database, registry: NodeRegistry): (s: State)
    requires registry.Consistent()
    reads db, registry, registry.nodes
    ensures Valid(s.registry)
  {
    State(db.files, registry.View(), db.audit)
  }

  // ---------------------------------------------------------------- uploads

  class UploadService {
    const db: Database
    const registry: NodeRegistry

    constructor (db: Database, registry: NodeRegistry)
      ensures this.db == db && this.registry == registry
    {
      this.db, this.registry := db, registry;
    }

    /** Where a candidate can be got from; "" if from nowhere. */
    method DedupAddress(candidate: Row, legacy: string, now: int) returns (address: string)
      requires registry.Consistent()
      ensures address == ShareAddress(registry.config, registry.View(), candidate, legacy, now)
    {
      if candidate.node == "" {
        return legacy;
      }
      var has := registry.NodeHasFile(candidate.node, candidate.sha, now);
      if !has {
        return "";
      }
      address := registry.GetStorageAddress(candidate.node, now);
    }

    method PickReusableDedup(candidates: seq<Row>, legacy: string, now: int) returns (pick: Option<Row>, address: string)
      requires registry.Consistent()
      ensures pick == PickReusable(registry.config, registry.View(), candidates, legacy, now)
      ensures address == if pick.None? then "" else ShareAddress(registry.config, registry.View(), pick.value, legacy, now)
    {
      for i := 0 to |candidates|
        invariant PickReusable(registry.config, registry.View(), candidates, legacy, now)
               == PickReusable(registry.config, registry.View(), candidates[i..], legacy, now)
      {
        address := DedupAddress(candidates[i], legacy, now);
        if address != "" {
          return Some(candidates[i]), address;
        }
        assert candidates[i..][1..] == candidates[i + 1..];
      }
      return None, "";
    }

    method CalculateNextVersion(room: string, name: string) returns (version: nat)
      ensures version == NextVersion(db.files, room, name)
    {
      var highest := 0;
      for i := 0 to |db.files|
        invariant highest == MaxVersion(db.files[..i], room, name)
      {
        assert db.files[..i + 1][..i] == db.files[..i];
        var row := db.files[i];
        if row.room == room && row.name == name && row.version > highest {
          highest := row.version;
        }
      }
      assert db.files[..|db.files|] == db.files;
      return highest + 1;
    }

    method HandleInitUpload(q: InitRequest) returns (result: InitResult)
      requires registry.Consistent()
      requires Offered(registry.config, registry.View(), q.now, q.first, q.second)
      modifies db, registry`reservations, registry.nodes
      ensures registry.Consistent()
      ensures (Snapshot(db, registry), result) == InitUpload(registry.config, old(Snapshot(db, registry)), q)
    {
      if !q.permitted {
        registry.NoneChanged();
        return PermissionDenied;
      }
      if q.name == "" || q.sha == "" || !q.otherFields {
        registry.NoneChanged();
        return InvalidInput;
      }
      if HasRoomDuplicate(db.files, q.room, q.sha) {
        registry.NoneChanged();
        return DuplicateInRoom;
      }
      result := PlanUpload(q);
    }

    method PlanUpload(q: InitRequest) returns (result: InitResult)
      requires registry.Consistent()
      requires Offered(registry.config, registry.View(), q.now, q.first, q.second)
      modifies db, registry`reservations, registry.nodes
      ensures registry.Consistent()
      ensures (Snapshot(db, registry), result) == InitAccepted(registry.config, old(Snapshot(db, registry)), q)
    {
      var existing, address := PickReusableDedup(Candidates(db.files, q.sha), q.legacy, q.now);
      result := PlanWith(q, existing, address);
    }

    method PlanWith(q: InitRequest, existing: Option<Row>, address: string) returns (result: InitResult)
      requires registry.Consistent()
      requires existing.Some? ==>
        address == ShareAddress(registry.config, registry.View(), existing.value, q.legacy, q.now)
      requires Offered(registry.config, registry.View(), q.now, q.first, q.second)
      modifies db, registry`reservations, registry.nodes
      ensures registry.Consistent()
      ensures (Snapshot(db, registry), result) == InitWith(registry.config, old(Snapshot(db, registry)), q, existing)
    {
      var version := CalculateNextVersion(q.room, q.name);
      if existing.Some? {
        result := ShareExisting(q, existing.value, address, version);
      } else {
        result := StartUpload(q, version);
      }
    }

    method ShareExisting(q: InitRequest, existing: Row, address: string, version: nat) returns (result: InitResult)
      requires registry.Consistent() && version == NextVersion(db.files, q.room, q.name)
      modifies db
      ensures registry.Consistent()
      ensures (Snapshot(db, registry), result) == InitDedup(old(Snapshot(db, registry)), q, existing, address)
    {
      if q.fault == InsertFails {
        return InitDatabaseError;
      }
      db.Insert(Row(q.fileId, q.room, q.name, existing.storedName, version, q.sha, READY, existing.node, q.now));
      db.WriteAudit(Deduplicated(q.fileId, existing.storedName, q.sha));
      return DedupPlan(existing.node, address);
    }

    method StartUpload(q: InitRequest, version: nat) returns (result: InitResult)
      requires registry.Consistent() && version == NextVersion(db.files, q.room, q.name)
      requires Offered(registry.config, registry.View(), q.now, q.first, q.second)
      modifies db`files, registry`reservations, registry.nodes
      ensures registry.Consistent()
      ensures (Snapshot(db, registry), result) == InitFresh(registry.config, old(Snapshot(db, registry)), q)
    {
      var pick := registry.SelectForUpload(q.now, q.fileId, q.ttl, q.first, q.second);
      result := InsertFresh(q, version, pick);
    }

    method InsertFresh(q: InitRequest, version: nat, pick: Option<string>) returns (result: InitResult)
      requires registry.Consistent() && version == NextVersion(db.files, q.room, q.name)
      modifies db`files, registry`reservations, registry.nodes
      ensures registry.Consistent()
      ensures (Snapshot(db, registry), result) == Record(old(Snapshot(db, registry)), q, pick)
    {
      if pick.None? {
        registry.NoneChanged();
        return NodeUnavailable;
      }
      if q.fault == InsertFails {
        ReleaseSlot(q.fileId);
        return InitDatabaseError;
      }
      registry.NoneChanged();
      var address := StorageAddress(pick.value);
      db.Insert(Row(q.fileId, q.room, q.name, q.room + "/" + q.fileId, version, q.sha, UPLOADING, pick.value, q.now));
      return if q.fault == TicketFails then InitDatabaseError else UploadPlan(pick.value, address);
    }

    /** The address of the node selected. */
    method StorageAddress(k: string) returns (address: string)
      requires registry.Consistent()
      ensures address == AddressOf(registry.View(), k)
    {
      if k !in registry.nodesById {
        return "";
      }
      assert registry.View().nodes[registry.View().byId[k]] == registry.nodesById[k].Value();
      return registry.nodesById[k].address;
    }

    method ReleaseSlot(id: string)
      requires registry.Consistent()
      modifies registry`reservations, registry.nodes
      ensures registry.Consistent() && registry.View() == Release(old(registry.View()), id)
    {
      var _ := registry.ReleaseReservation(id);
    }

    method HandleUploadComplete(fileId: string, sha: string, reporter: string) returns (result: ReportResult)
      requires registry.Consistent()
      modifies db, registry`reservations, registry.nodes
      ensures registry.Consistent()
      ensures (Snapshot(db, registry), result) == CompleteRow(old(Snapshot(db, registry)), reporter, fileId, sha)
    {
      var found := Lookup(db.files, fileId);
      ReleaseSlot(fileId);
      result := Settle(found, fileId, sha, reporter);
    }

    /** Sets the status of the row by what was found and reported, and records a success. */
    method Settle(found: Option<Row>, fileId: string, sha: string, reporter: string) returns (result: ReportResult)
      modifies db
      ensures result == Verdict(found, reporter, sha)
      ensures db.files == Settled(old(db.files), fileId, result)
      ensures db.audit == if result.Accepted? then old(db.audit) + [Completed(fileId, sha)] else old(db.audit)
    {
      if found.None? {
        return FileNotFound;
      }
      var row := found.value;
      if row.node != "" && reporter != "" && row.node != reporter {
        db.UpdateStatus(fileId, {UPLOADING}, DELETED);
        return NodeMismatch;
      }
      if sha != row.sha {
        db.UpdateStatus(fileId, ANY_STATUS, DELETED);
        return WrongHash;
      }
      db.UpdateStatus(fileId, ANY_STATUS, READY);
      db.WriteAudit(Completed(fileId, sha));
      return Accepted;
    }

    method HandleUploadFailed(fileId: string, reporter: string) returns (result: ReportResult)
      requires registry.Consistent()
      modifies db`files, registry`reservations, registry.nodes
      ensures registry.Consistent()
      ensures (Snapshot(db, registry), result) == FailRow(old(Snapshot(db, registry)), reporter, fileId)
    {
      var found := Lookup(db.files, fileId);
      ReleaseSlot(fileId);
      if found.None? {
        return FileNotFound;
      }
      if found.value.node != "" && reporter != "" && found.value.node != reporter {
        return NodeMismatch;
      }
      db.UpdateStatus(fileId, ANY_STATUS, DELETED);
      return Accepted;
    }
  }

  // ---------------------------------------------------------------- reconciliation, cleanup, deletion

  class ReconciliationService {
    const db: Database

    constructor (db: Database)
      ensures this.db == db
    {
      this.db := db;
    }

    /** The ids of rows on the node that the manifest has lost, in the order of the table. */
    method FindMissing(nodeId: string, manifest: set<string>) returns (missing: seq<string>)
      ensures AsSet(missing) == LostIds(db.files, nodeId, manifest)
    {
      missing := [];
      var normalized := Renormalized(manifest);
      for i := 0 to |db.files|
        invariant AsSet(missing) == LostIds(db.files[..i], nodeId, manifest)
      {
        var row := db.files[i];
        LostAppend(db.files[..i], row, nodeId, manifest);
        assert db.files[..i + 1] == db.files[..i] + [row];
        if row.node == nodeId && row.status == READY && Normalize(row.sha) != "" && Normalize(row.sha) !in normalized {
          missing := missing + [row.id];
        }
      }
      assert db.files[..|db.files|] == db.files;
    }

    lemma LostAppend(rows: seq<Row>, row: Row, nodeId: string, manifest: set<string>)
      ensures LostIds(rows + [row], nodeId, manifest) == LostIds(rows, nodeId, manifest) + LostIds([row], nodeId, manifest)
    {
    }

    /** Marking rows one by one is marking them together. */
    lemma OneMoreMissing(rows: seq<Row>, ids: set<string>, id: string)
      ensures SetStatus(SetStatus(rows, ids, {READY}, MISSING), {id}, {READY}, MISSING)
           == SetStatus(rows, ids + {id}, {READY}, MISSING)
    {
    }

    method ReconcileNode(nodeId: string, manifest: set<string>) returns (missing: seq<string>)
      modifies db`files
      ensures db.files == Reconcile(old(db.files), nodeId, manifest)
      ensures AsSet(missing) == if nodeId == "" then {} else LostIds(old(db.files), nodeId, manifest)
    {
      if nodeId == "" {
        return [];
      }
      missing := FindMissing(nodeId, manifest);
      ghost var rows := db.files;
      for i := 0 to |missing|
        invariant db.files == SetStatus(rows, AsSet(missing[..i]), {READY}, MISSING)
      {
        OneMoreMissing(rows, AsSet(missing[..i]), missing[i]);
        assert AsSet(missing[..i + 1]) == AsSet(missing[..i]) + {missing[i]};
        db.UpdateStatus(missing[i], {READY}, MISSING);
      }
      assert missing[..|missing|] == missing;
    }
  }

  class CleanupService {
    const db: Database
    const registry: NodeRegistry

    constructor (db: Database, registry: NodeRegistry)
      ensures this.db == db && this.registry == registry
    {
      this.db, this.registry := db, registry;
    }

    /** The bulk update; RETURNING gives the id of every row it changed, in the order of the table. */
    method DeleteOrphans(cutoff: int) returns (ids: seq<string>)
      modifies db`files
      ensures db.files == SetStatus(old(db.files), OrphanIds(old(db.files), cutoff), {UPLOADING}, DELETED)
      ensures AsSet(ids) == OrphanIds(old(db.files), cutoff)
      ensures |ids| == OrphanCount(old(db.files), cutoff)
    {
      ids := [];
      for i := 0 to |db.files|
        invariant db.files == old(db.files)
        invariant AsSet(ids) == OrphanIds(db.files[..i], cutoff)
        invariant |ids| == OrphanCount(db.files[..i], cutoff)
      {
        var row := db.files[i];
        OrphanAppend(db.files[..i], row, cutoff);
        assert db.files[..i + 1] == db.files[..i] + [row];
        if row.status == UPLOADING && row.createdAt < cutoff {
          ids := ids + [row.id];
        }
      }
      assert db.files[..|db.files|] == db.files;
      db.files := SetStatus(db.files, OrphanIds(db.files, cutoff), {UPLOADING}, DELETED);
    }

    /** The positions of the rows that are orphaned. */
    function Orphans(rows: seq<Row>, cutoff: int): set<nat> {
      set i: nat | i < |rows| && rows[i].status == UPLOADING && rows[i].createdAt < cutoff
    }

    function OrphanCount(rows: seq<Row>, cutoff: int): nat {
      |Orphans(rows, cutoff)|
    }

    lemma OrphanAppend(rows: seq<Row>, row: Row, cutoff: int)
      ensures OrphanIds(rows + [row], cutoff) == OrphanIds(rows, cutoff) + OrphanIds([row], cutoff)
      ensures OrphanCount(rows + [row], cutoff)
              == OrphanCount(rows, cutoff) + if row.status == UPLOADING && row.createdAt < cutoff then 1 else 0
    {
      var more := if row.status == UPLOADING && row.createdAt < cutoff then {|rows|} else {};
      assert Orphans(rows + [row], cutoff) == Orphans(rows, cutoff) + more;
    }

    /** Releasing one by one is releasing together. */
    lemma OneMoreReleased(r: Registry, ids: set<string>, id: string)
      requires Valid(r)
      ensures Release(ReleaseAll(r, ids), id) == ReleaseAll(r, ids + {id})
    {
      var before, after := (ids - {""}) * r.reservations.Keys, (ids + {id} - {""}) * r.reservations.Keys;
      if id == "" || id !in r.reservations || id in ids {
        assert before == after;
      } else {
        assert after == before + {id};
        DropOneMore(r, before, id);
      }
    }

    lemma NoneReleased(r: Registry)
      requires Valid(r)
      ensures ReleaseAll(r, {}) == r
    {
      assert ({} - {""}) * r.reservations.Keys == {};
      DropNone(r);
    }

    method ReleaseSlots(ids: seq<string>)
      requires registry.Consistent()
      modifies registry`reservations, registry.nodes
      ensures registry.Consistent() && registry.View() == ReleaseAll(old(registry.View()), AsSet(ids))
    {
      ghost var start := registry.View();
      NoneReleased(start);
      registry.NoneChanged();
      for i := 0 to |ids|
        invariant registry.Consistent()
        invariant registry.View() == ReleaseAll(start, AsSet(ids[..i]))
      {
        OneMoreReleased(start, AsSet(ids[..i]), ids[i]);
        assert AsSet(ids[..i + 1]) == AsSet(ids[..i]) + {ids[i]};
        var _ := registry.ReleaseReservation(ids[i]);
      }
      assert ids[..|ids|] == ids;
    }

    method CleanupOrphanedUploads(cutoff: int) returns (count: nat)
      requires registry.Consistent()
      modifies db`files, registry`reservations, registry.nodes
      ensures registry.Consistent() && Snapshot(db, registry) == Cleanup(old(Snapshot(db, registry)), cutoff)
      ensures count == OrphanCount(old(db.files), cutoff)
    {
      var ids := DeleteOrphans(cutoff);
      ReleaseSlots(ids);
      return |ids|;
    }
  }

  class FileService {
    const db: Database

    constructor (db: Database)
      ensures this.db == db
    {
      this.db := db;
    }

    /** Whether the user may delete the file is given by the permission rules. */
    method DeleteFile(id: string, permitted: bool) returns (deleted: bool)
      modifies db`files
      ensures deleted <==> Lookup(old(db.files), id).Some? && permitted
      ensures db.files == if deleted then SetStatus(old(db.files), {id}, ANY_STATUS, DELETED) else old(db.files)
    {
      var found := Lookup(db.files, id);
      if found.None? || !permitted {
        return false;
      }
      db.UpdateStatus(id, ANY_STATUS, DELETED);
      return true;
    }
  }

  // ---------------------------------------------------------------- messages of storage nodes

  class StorageNodeServer {
    const db: Database
    const registry: NodeRegistry
    const uploads: UploadService
    const reconciliation: ReconciliationService
    const sharedSecret: string

    constructor (db: Database, registry: NodeRegistry, uploads: UploadService, reconciliation: ReconciliationService,
                 sharedSecret: string)
      requires uploads.db == db && uploads.registry == registry && reconciliation.db == db
      ensures Wired() && this.db == db && this.registry == registry && this.sharedSecret == sharedSecret
    {
      this.db, this.registry, this.uploads, this.reconciliation := db, registry, uploads, reconciliation;
      this.sharedSecret := sharedSecret;
    }

    predicate Wired() {
      uploads.db == db && uploads.registry == registry && reconciliation.db == db
    }

    method ReporterOf(c: Connection) returns (k: Option<string>)
      requires registry.Consistent()
      ensures k == Reporter(Snapshot(db, registry), c)
    {
      if c !in registry.nodesByConnection {
        return None;
      }
      var n := registry.nodesByConnection[c];
      assert registry.View().nodes[registry.View().byConnection[c]] == n.Value();
      return if n.authenticated then Some(n.nodeId) else None;
    }

    /** STORAGE_AUTH with a secret ("" when missing) and a data port that is absent, a number, or not one. */
    method HandleStorageAuth(secret: string, port: PortField, a: AuthRequest) returns (result: AuthResult)
      requires Wired() && registry.Consistent()
      modifies db`files, registry, registry.nodes
      ensures registry.Consistent()
      ensures result == CheckAuth(sharedSecret, secret, port)
      ensures Snapshot(db, registry) ==
              if result.Authenticated? then StorageAuth(old(Snapshot(db, registry)), a) else old(Snapshot(db, registry))
    {
      if secret == "" {
        registry.NoneChanged();
        return MissingSecret;
      }
      if secret != sharedSecret {
        registry.NoneChanged();
        return InvalidSecret;
      }
      if port.NotANumber? {
        registry.NoneChanged();
        return InvalidDataPort;
      }
      AcceptNode(a);
      return Authenticated;
    }

    method AcceptNode(a: AuthRequest)
      requires Wired() && registry.Consistent()
      modifies db`files, registry, registry.nodes
      ensures registry.Consistent()
      ensures Snapshot(db, registry) == StorageAuth(old(Snapshot(db, registry)), a)
    {
      Enter(a);
      StoreManifest(a.nodeId, a.manifest);
    }

    method StoreManifest(nodeId: string, shas: Option<seq<string>>)
      requires Wired() && registry.Consistent()
      modifies db`files, registry.nodes
      ensures registry.Consistent()
      ensures Snapshot(db, registry) == TakeManifest(old(Snapshot(db, registry)), nodeId, shas)
    {
      if shas.None? {
        registry.NoneChanged();
        return;
      }
      var normalized := registry.SetManifest(nodeId, shas.value);
      if normalized.Some? {
        var _ := reconciliation.ReconcileNode(nodeId, normalized.value);
      }
    }

    method Enter(a: AuthRequest)
      requires registry.Consistent()
      modifies registry, registry.nodes
      ensures registry.Consistent() && registry.Grown()
      ensures registry.View() == AuthRegistry(old(registry.View()), a)
    {
      var _ := registry.Authenticate(a.c, a.nodeId, a.address, a.now);
      SetCapacity(a.c, a.freeBytes);
    }

    method SetCapacity(c: Connection, freeBytes: Option<int>)
      requires registry.Consistent()
      modifies registry.nodes
      ensures registry.Consistent()
      ensures registry.View() == ReportCapacity(old(registry.View()), c, freeBytes)
    {
      if freeBytes.Some? {
        registry.UpdateCapacity(c, freeBytes.value);
      } else {
        registry.NoneChanged();
      }
    }

    method HandlePing(c: Connection, freeBytes: Option<int>, now: int)
      requires registry.Consistent()
      modifies registry.nodes
      ensures registry.Consistent()
      ensures registry.View() ==
              if Reporter(old(Snapshot(db, registry)), c).None? then old(registry.View())
              else Heartbeat(old(registry.View()), c, freeBytes, now)
    {
      var reporter := ReporterOf(c);
      if reporter.None? {
        registry.NoneChanged();
        return;
      }
      registry.Heartbeat(c, freeBytes, now);
    }

    method HandleUploadComplete(c: Connection, fileId: string, sha: string, otherFields: bool) returns (result: ReportResult)
      requires Wired() && registry.Consistent()
      modifies db, registry`reservations, registry.nodes
      ensures registry.Consistent()
      ensures (Snapshot(db, registry), result) == UploadComplete(old(Snapshot(db, registry)), c, fileId, sha, otherFields)
    {
      var reporter := ReporterOf(c);
      if reporter.None? {
        registry.NoneChanged();
        return NotAuthenticated;
      }
      if fileId == "" || sha == "" || !otherFields {
        registry.NoneChanged();
        return InvalidPayload;
      }
      result := Complete(reporter.value, fileId, sha);
    }

    method Complete(reporter: string, fileId: string, sha: string) returns (result: ReportResult)
      requires Wired() && registry.Consistent()
      modifies db, registry`reservations, registry.nodes
      ensures registry.Consistent()
      ensures (Snapshot(db, registry), result) == CompleteAt(old(Snapshot(db, registry)), reporter, fileId, sha)
    {
      result := uploads.HandleUploadComplete(fileId, sha, reporter);
      if result.Accepted? {
        registry.MarkFileAdded(reporter, sha);
      }
    }

    method HandleUploadFailed(c: Connection, fileId: string) returns (result: ReportResult)
      requires Wired() && registry.Consistent()
      modifies db`files, registry`reservations, registry.nodes
      ensures registry.Consistent()
      ensures (Snapshot(db, registry), result) == UploadFailed(old(Snapshot(db, registry)), c, fileId)
    {
      var reporter := ReporterOf(c);
      if reporter.None? {
        registry.NoneChanged();
        return NotAuthenticated;
      }
      if fileId == "" {
        registry.NoneChanged();
        return InvalidPayload;
      }
      result := uploads.HandleUploadFailed(fileId, reporter.value);
    }

    method HandleManifestDelta(c: Connection, added: ListField, removed: ListField) returns (result: ReportResult)
      requires registry.Consistent()
      modifies registry.nodes
      ensures registry.Consistent()
      ensures (Snapshot(db, registry), result) == DeltaMessage(old(Snapshot(db, registry)), c, added, removed)
    {
      var reporter := ReporterOf(c);
      if reporter.None? {
        registry.NoneChanged();
        return NotAuthenticated;
      }
      if added.NotAList? || removed.NotAList? {
        registry.NoneChanged();
        return InvalidPayload;
      }
      result := ApplyDeltaOf(reporter.value, Shas(added), Shas(removed));
    }

    method ApplyDeltaOf(reporter: string, added: seq<string>, removed: seq<string>) returns (result: ReportResult)
      requires registry.Consistent()
      modifies registry.nodes
      ensures registry.Consistent()
      ensures (Snapshot(db, registry), result) == DeltaAt(old(Snapshot(db, registry)), reporter, added, removed)
    {
      var applied := registry.ApplyManifestDelta(reporter, added, removed);
      return if applied then Accepted else NodeNotFound;
    }
  }
}
