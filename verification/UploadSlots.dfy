/**
 Upload slots and the files table: which rows stand behind the live reservations, and what that says
 about a node's load counter.
 */
module UploadSlots {
  import opened RegistrySpec
  import opened RegistryProofs
  import opened Lifecycle
  import opened LifecycleTable

  /** A reservation's id is the id of a row on the same node, in one of these statuses. */
  predicate Backed(rows: seq<Row>, rid: string, reservation: Reservation, statuses: set<Status>) {
    var found := Lookup(rows, rid);
    found.Some? && found.value.node == reservation.nodeId && found.value.status in statuses
  }

  predicate SlotsBacked(rows: seq<Row>, r: Registry, statuses: set<Status>) {
    && "" !in r.reservations
    && forall rid <- r.reservations :: Backed(rows, rid, r.reservations[rid], statuses)
  }

  /** What holds in every run: never READY, never MISSING. */
  const UNFINISHED: set<Status> := {UPLOADING, DELETED}

  /** What holds while users delete no row whose slot is still reserved. */
  const IN_PROGRESS: set<Status> := {UPLOADING}

  /** Reservations may go; none is added or changed. */
  predicate Fewer(r: Registry, r': Registry) {
    forall rid <- r'.reservations :: rid in r.reservations && r'.reservations[rid] == r.reservations[rid]
  }

  lemma SlotsKept(rows: seq<Row>, rows': seq<Row>, r: Registry, r': Registry, statuses: set<Status>)
    requires SlotsBacked(rows, r, statuses) && Fewer(r, r')
    requires forall rid <- r'.reservations :: Lookup(rows', rid) == Lookup(rows, rid)
    ensures SlotsBacked(rows', r', statuses)
  {
    forall rid | rid in r'.reservations
      ensures Backed(rows', rid, r'.reservations[rid], statuses)
    {
      assert Backed(rows, rid, r.reservations[rid], statuses);
    }
  }

  lemma ReleaseFewer(r: Registry, rid: string)
    requires Valid(r)
    ensures Fewer(r, Release(r, rid)) && (rid != "" ==> rid !in Release(r, rid).reservations)
  {
  }

  /** A step that frees the slot of a row may give the row any status. */
  lemma ReportedSlots(rows: seq<Row>, r: Registry, id: string, from: set<Status>, to: Status, statuses: set<Status>)
    requires Valid(r) && SlotsBacked(rows, r, statuses) && id != ""
    ensures SlotsBacked(SetStatus(rows, {id}, from, to), Release(r, id), statuses)
  {
    ReleaseFewer(r, id);
    var rows' := SetStatus(rows, {id}, from, to);
    forall rid | rid in Release(r, id).reservations
      ensures Lookup(rows', rid) == Lookup(rows, rid)
    {
      LookupSetStatus(rows, {id}, from, to, rid);
    }
    SlotsKept(rows, rows', r, Release(r, id), statuses);
  }

  lemma ReleasedSlots(rows: seq<Row>, r: Registry, id: string, statuses: set<Status>)
    requires Valid(r) && SlotsBacked(rows, r, statuses)
    ensures SlotsBacked(rows, Release(r, id), statuses)
  {
    ReleaseFewer(r, id);
    SlotsKept(rows, rows, r, Release(r, id), statuses);
  }

  /** Cleanup frees the slots of the rows it deletes. */
  lemma CleanedSlots(rows: seq<Row>, r: Registry, ids: set<string>, statuses: set<Status>)
    requires Valid(r) && SlotsBacked(rows, r, statuses)
    ensures SlotsBacked(SetStatus(rows, ids, {UPLOADING}, DELETED),
                        DropAll(r, (ids - {""}) * r.reservations.Keys), statuses)
  {
    var rows' := SetStatus(rows, ids, {UPLOADING}, DELETED);
    var r' := DropAll(r, (ids - {""}) * r.reservations.Keys);
    forall rid | rid in r'.reservations
      ensures Lookup(rows', rid) == Lookup(rows, rid)
    {
      LookupSetStatus(rows, ids, {UPLOADING}, DELETED, rid);
    }
    SlotsKept(rows, rows', r, r', statuses);
  }

  /** Reconciliation touches READY rows only, and those hold no slot. */
  lemma ReconciledSlots(rows: seq<Row>, r: Registry, ids: set<string>, statuses: set<Status>)
    requires SlotsBacked(rows, r, statuses) && READY !in statuses
    ensures SlotsBacked(SetStatus(rows, ids, {READY}, MISSING), r, statuses)
  {
    var rows' := SetStatus(rows, ids, {READY}, MISSING);
    forall rid | rid in r.reservations
      ensures Lookup(rows', rid) == Lookup(rows, rid)
    {
      assert Backed(rows, rid, r.reservations[rid], statuses);
      LookupSetStatus(rows, ids, {READY}, MISSING, rid);
    }
    SlotsKept(rows, rows', r, r, statuses);
  }

  /** Deletion by a user keeps every slot on an unfinished row. */
  lemma DeletedSlots(rows: seq<Row>, r: Registry, id: string)
    requires SlotsBacked(rows, r, UNFINISHED)
    ensures SlotsBacked(SetStatus(rows, {id}, ANY_STATUS, DELETED), r, UNFINISHED)
  {
    var rows' := SetStatus(rows, {id}, ANY_STATUS, DELETED);
    forall rid | rid in r.reservations
      ensures Backed(rows', rid, r.reservations[rid], UNFINISHED)
    {
      assert Backed(rows, rid, r.reservations[rid], UNFINISHED);
      LookupSetStatus(rows, {id}, ANY_STATUS, DELETED, rid);
    }
  }

  /** It keeps every slot on an UPLOADING row exactly when the deleted row's slot is not reserved. */
  lemma DeletedSlotsInProgress(rows: seq<Row>, r: Registry, id: string)
    requires SlotsBacked(rows, r, IN_PROGRESS)
    ensures SlotsBacked(SetStatus(rows, {id}, ANY_STATUS, DELETED), r, IN_PROGRESS) <==> id !in r.reservations
  {
    var rows' := SetStatus(rows, {id}, ANY_STATUS, DELETED);
    if id in r.reservations {
      assert Backed(rows, id, r.reservations[id], IN_PROGRESS);
      LookupSetStatus(rows, {id}, ANY_STATUS, DELETED, id);
      assert UPLOADING in ANY_STATUS;
      assert !Backed(rows', id, r.reservations[id], IN_PROGRESS);
    } else {
      forall rid | rid in r.reservations
        ensures Lookup(rows', rid) == Lookup(rows, rid)
      {
        LookupSetStatus(rows, {id}, ANY_STATUS, DELETED, rid);
      }
      SlotsKept(rows, rows', r, r, IN_PROGRESS);
    }
  }

  lemma AppendedSlots(rows: seq<Row>, r: Registry, r': Registry, row: Row, statuses: set<Status>)
    requires SlotsBacked(rows, r, statuses) && Fewer(r, r')
    ensures SlotsBacked(rows + [row], r', statuses)
  {
    forall rid | rid in r'.reservations
      ensures Lookup(rows + [row], rid) == Lookup(rows, rid)
    {
      assert Backed(rows, rid, r.reservations[rid], statuses);
      LookupAppend(rows, row, rid);
    }
    SlotsKept(rows, rows + [row], r, r', statuses);
  }

  /** A fresh upload reserves its slot under the new row's id, on the new row's node. */
  lemma ReservedSlots(rows: seq<Row>, r: Registry, r': Registry, row: Row, added: Reservation, statuses: set<Status>)
    requires SlotsBacked(rows, r, statuses) && row.id != "" && Lookup(rows, row.id).None?
    requires Fewer(r, r'.(reservations := r'.reservations - {row.id}))
    requires row.id in r'.reservations && r'.reservations[row.id] == added
    requires added.nodeId == row.node && row.status == UPLOADING && UPLOADING in statuses
    ensures SlotsBacked(rows + [row], r', statuses)
  {
    var others := r'.(reservations := r'.reservations - {row.id});
    AppendedSlots(rows, r, others, row, statuses);
    LookupAppend(rows, row, row.id);
    forall rid | rid in r'.reservations
      ensures Backed(rows + [row], rid, r'.reservations[rid], statuses)
    {
      if rid != row.id {
        assert rid in others.reservations && Backed(rows + [row], rid, others.reservations[rid], statuses);
      }
    }
  }

  // ---------------------------------------------------------------- load counters

  /** The UPLOADING rows assigned to a node. */
  function UploadingOn(rows: seq<Row>, k: string): set<string> {
    set row | row in rows && row.node == k && row.status == UPLOADING :: row.id
  }

  lemma SubsetSize<T>(a: set<T>, b: set<T>)
    requires a <= b
    ensures |a| <= |b|
  {
    assert b == a + (b - a);
  }

  /** A node's load counter is at most the number of its UPLOADING rows. */
  lemma LoadAtMostUploading(rows: seq<Row>, r: Registry, k: string)
    requires Inv(r) && SlotsBacked(rows, r, IN_PROGRESS) && k in r.byId
    ensures r.nodes[r.byId[k]].activeUploads <= |UploadingOn(rows, k)|
  {
    forall rid | rid in HeldIds(r, k)
      ensures rid in UploadingOn(rows, k)
    {
      assert Backed(rows, rid, r.reservations[rid], IN_PROGRESS);
    }
    SubsetSize(HeldIds(r, k), UploadingOn(rows, k));
    assert Load(r, k) <= Held(r, k);
  }
}
