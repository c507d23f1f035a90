/**
 What the files table keeps over every step: distinct ids, gapless versions, at most one live row of a
 room and hash, and the provenance of shared content.
 */
module LifecycleTable {
  import opened Lifecycle
  import opened Wrappers

  // ---------------------------------------------------------------- how rows change

  /** The same rows; only statuses differ. */
  predicate Restatused(rows: seq<Row>, rows': seq<Row>) {
    && |rows'| == |rows|
    && forall i :: 0 <= i < |rows| ==> rows'[i] == rows[i].(status := rows'[i].status)
  }

  /** Only statuses differ, and every changed row became DELETED or MISSING. */
  predicate Declined(rows: seq<Row>, rows': seq<Row>) {
    && Restatused(rows, rows')
    && forall i :: 0 <= i < |rows| ==> rows'[i].status in {rows[i].status, DELETED, MISSING}
  }

  predicate DistinctIds(rows: seq<Row>) {
    forall i, j :: 0 <= i < j < |rows| ==> rows[i].id != rows[j].id
  }

  lemma {:induction false} LookupAppend(rows: seq<Row>, row: Row, id: string)
    ensures Lookup(rows + [row], id) ==
            if Lookup(rows, id).Some? then Lookup(rows, id) else if row.id == id then Some(row) else None
  {
    if rows == [] {
      assert rows + [row] == [row] && [row][1..] == [];
    } else {
      assert (rows + [row])[1..] == rows[1..] + [row];
      LookupAppend(rows[1..], row, id);
    }
  }

  /** A looked-up row after an update: the row found before, updated if the update covers it. */
  lemma {:induction false} LookupSetStatus(rows: seq<Row>, ids: set<string>, from: set<Status>, to: Status, id: string)
    ensures var found := Lookup(rows, id);
            Lookup(SetStatus(rows, ids, from, to), id) ==
            if found.Some? && id in ids && found.value.status in from then Some(found.value.(status := to)) else found
  {
    if rows != [] {
      assert SetStatus(rows, ids, from, to)[1..] == SetStatus(rows[1..], ids, from, to);
      LookupSetStatus(rows[1..], ids, from, to, id);
    }
  }

  lemma {:induction false} LookupAt(rows: seq<Row>, i: nat)
    requires DistinctIds(rows) && i < |rows|
    ensures Lookup(rows, rows[i].id) == Some(rows[i])
  {
    if i > 0 {
      assert forall j, k :: 0 <= j < k < |rows[1..]| ==> rows[1..][j] == rows[j + 1] && rows[1..][k] == rows[k + 1];
      LookupAt(rows[1..], i - 1);
    }
  }

  // ---------------------------------------------------------------- versions

  /** The rows of this room and name. */
  function Count(rows: seq<Row>, room: string, name: string): nat {
    if rows == [] then 0
    else
      var last := rows[|rows| - 1];
      Count(rows[..|rows| - 1], room, name) + if last.room == room && last.name == name then 1 else 0
  }

  /** Every row's version is its place among the rows of its room and name. */
  predicate Numbered(rows: seq<Row>) {
    forall i :: 0 <= i < |rows| ==> rows[i].version == Count(rows[..i], rows[i].room, rows[i].name) + 1
  }

  lemma NumberedPrefix(rows: seq<Row>, n: nat)
    requires Numbered(rows) && n <= |rows|
    ensures Numbered(rows[..n])
  {
    forall i | 0 <= i < n
      ensures rows[..n][..i] == rows[..i]
    {
    }
  }

  lemma {:induction false} MaxIsCount(rows: seq<Row>, room: string, name: string)
    requires Numbered(rows)
    ensures MaxVersion(rows, room, name) == Count(rows, room, name)
  {
    if rows != [] {
      NumberedPrefix(rows, |rows| - 1);
      MaxIsCount(rows[..|rows| - 1], room, name);
    }
  }

  lemma {:induction false} CountRestatused(rows: seq<Row>, rows': seq<Row>, room: string, name: string)
    requires Restatused(rows, rows')
    ensures Count(rows', room, name) == Count(rows, room, name)
  {
    if rows != [] {
      CountRestatused(rows[..|rows| - 1], rows'[..|rows| - 1], room, name);
    }
  }

  lemma NumberedRestatused(rows: seq<Row>, rows': seq<Row>)
    requires Numbered(rows) && Restatused(rows, rows')
    ensures Numbered(rows')
  {
    forall i | 0 <= i < |rows|
      ensures rows'[i].version == Count(rows'[..i], rows'[i].room, rows'[i].name) + 1
    {
      CountRestatused(rows[..i], rows'[..i], rows[i].room, rows[i].name);
    }
  }

  lemma NumberedAppend(rows: seq<Row>, row: Row)
    requires Numbered(rows) && row.version == NextVersion(rows, row.room, row.name)
    ensures Numbered(rows + [row])
  {
    MaxIsCount(rows, row.room, row.name);
    forall i | 0 <= i <= |rows|
      ensures (rows + [row])[..i] == rows[..i]
    {
    }
  }

  /** Some row of the room and name has this version. */
  predicate Taken(rows: seq<Row>, room: string, name: string, version: nat) {
    exists i :: 0 <= i < |rows| && rows[i].room == room && rows[i].name == name && rows[i].version == version
  }

  lemma TakenSplit(rows: seq<Row>, room: string, name: string, version: nat)
    requires rows != []
    ensures var last := rows[|rows| - 1];
            Taken(rows, room, name, version) <==>
            Taken(rows[..|rows| - 1], room, name, version) || (last.room == room && last.name == name && last.version == version)
  {
    var earlier := rows[..|rows| - 1];
    if i :| 0 <= i < |earlier| && earlier[i].room == room && earlier[i].name == name && earlier[i].version == version {
      assert rows[i].room == room;
    }
    if i :| 0 <= i < |earlier| && rows[i].room == room && rows[i].name == name && rows[i].version == version {
      assert earlier[i].room == room;
    }
  }

  lemma {:induction false} VersionTaken(rows: seq<Row>, room: string, name: string, version: nat)
    requires Numbered(rows)
    ensures Taken(rows, room, name, version) <==> 1 <= version <= Count(rows, room, name)
  {
    if rows != [] {
      var n := |rows| - 1;
      NumberedPrefix(rows, n);
      VersionTaken(rows[..n], room, name, version);
      TakenSplit(rows, room, name, version);
    }
  }

  lemma {:induction false} CountGrows(rows: seq<Row>, i: nat, j: nat, room: string, name: string)
    requires i < j <= |rows|
    ensures Count(rows[..i], room, name) + (if rows[i].room == room && rows[i].name == name then 1 else 0)
            <= Count(rows[..j], room, name)
  {
    assert rows[..j][..j - 1] == rows[..j - 1];
    if i + 1 < j {
      CountGrows(rows, i, j - 1, room, name);
    }
  }

  /** The versions of a room and name are exactly 1 to the number of its rows, each used once. */
  lemma VersionsAreExact(rows: seq<Row>, room: string, name: string)
    requires Numbered(rows)
    ensures forall v: nat :: Taken(rows, room, name, v) <==> 1 <= v <= Count(rows, room, name)
    ensures forall i, j :: 0 <= i < j < |rows| && rows[i].room == rows[j].room && rows[i].name == rows[j].name
              ==> rows[i].version < rows[j].version
  {
    forall v: nat
      ensures Taken(rows, room, name, v) <==> 1 <= v <= Count(rows, room, name)
    {
      VersionTaken(rows, room, name, v);
    }
    forall i, j | 0 <= i < j < |rows| && rows[i].room == rows[j].room && rows[i].name == rows[j].name
      ensures rows[i].version < rows[j].version
    {
      CountGrows(rows, i, j, rows[j].room, rows[j].name);
    }
  }

  // ---------------------------------------------------------------- one live row of a room and hash

  predicate Collide(a: Row, b: Row) {
    Live(a) && Live(b) && a.room == b.room && a.sha == b.sha
  }

  predicate LiveUnique(rows: seq<Row>) {
    forall i, j :: 0 <= i < j < |rows| ==> !Collide(rows[i], rows[j])
  }

  lemma UniqueDeclined(rows: seq<Row>, rows': seq<Row>)
    requires LiveUnique(rows) && Declined(rows, rows')
    ensures LiveUnique(rows')
  {
    forall i, j | 0 <= i < j < |rows|
      ensures !Collide(rows'[i], rows'[j])
    {
      assert !Collide(rows[i], rows[j]);
    }
  }

  lemma UniqueAppend(rows: seq<Row>, row: Row)
    requires LiveUnique(rows) && !HasRoomDuplicate(rows, row.room, row.sha)
    ensures LiveUnique(rows + [row])
  {
    forall i, j | 0 <= i < j < |rows + [row]|
      ensures !Collide((rows + [row])[i], (rows + [row])[j])
    {
      if j < |rows| {
        assert !Collide(rows[i], rows[j]);
      } else {
        assert rows[i] in rows;
      }
    }
  }

  /** A live row besides the one of this id has the room and hash. */
  predicate LiveElsewhere(rows: seq<Row>, row: Row) {
    exists other <- rows :: other.id != row.id && other.room == row.room && other.sha == row.sha && Live(other)
  }

  /** Making a row READY, whatever its status was, keeps uniqueness exactly when no live row is in its way. */
  lemma ReadyKeepsUnique(rows: seq<Row>, i: nat)
    requires LiveUnique(rows) && DistinctIds(rows) && i < |rows|
    ensures LiveUnique(SetStatus(rows, {rows[i].id}, ANY_STATUS, READY)) <==> !LiveElsewhere(rows, rows[i])
  {
    var rows' := SetStatus(rows, {rows[i].id}, ANY_STATUS, READY);
    assert rows[i].status in ANY_STATUS by {
      match rows[i].status
      case UPLOADING => case READY => case MISSING => case DELETED =>
    }
    assert rows'[i] == rows[i].(status := READY);
    forall j | 0 <= j < |rows| && j != i
      ensures rows'[j] == rows[j]
    {
      assert if i < j then rows[i].id != rows[j].id else rows[j].id != rows[i].id;
    }
    if LiveElsewhere(rows, rows[i]) {
      var other :| other in rows && other.id != rows[i].id && other.room == rows[i].room && other.sha == rows[i].sha && Live(other);
      var j :| 0 <= j < |rows| && rows[j] == other;
      assert Collide(rows'[i], rows'[j]) && Collide(rows'[j], rows'[i]);
    } else {
      forall a, b | 0 <= a < b < |rows|
        ensures !Collide(rows'[a], rows'[b])
      {
        assert !Collide(rows[a], rows[b]) && rows[a] in rows && rows[b] in rows;
      }
    }
  }

  /** A row still UPLOADING has no live row in its way. */
  lemma UploadingIsAlone(rows: seq<Row>, i: nat)
    requires LiveUnique(rows) && i < |rows| && rows[i].status == UPLOADING
    ensures !LiveElsewhere(rows, rows[i])
  {
    forall j | 0 <= j < |rows| && j != i
      ensures !Collide(rows[i], rows[j])
    {
      assert if i < j then !Collide(rows[i], rows[j]) else !Collide(rows[j], rows[i]);
    }
  }

  // ---------------------------------------------------------------- provenance

  /**
   Row j is where row i's content comes from: row j's own stored name, hash and node.  When row i is
   another row, or is READY, the upload of row j was completed with exactly that hash.
   */
  predicate OriginAt(rows: seq<Row>, audit: seq<AuditEntry>, i: nat, j: nat)
    requires i < |rows| && j < |rows|
  {
    && j <= i
    && rows[i].storedName == Canonical(rows[j].room, rows[j].id)
    && rows[i].sha == rows[j].sha && rows[i].node == rows[j].node
    && (i != j || rows[i].status == READY ==> Completed(rows[j].id, rows[i].sha) in audit)
  }

  predicate HasOrigin(rows: seq<Row>, audit: seq<AuditEntry>, i: nat)
    requires i < |rows|
  {
    exists j: nat :: j < |rows| && OriginAt(rows, audit, i, j)
  }

  predicate Originated(rows: seq<Row>, audit: seq<AuditEntry>) {
    forall i :: 0 <= i < |rows| ==> HasOrigin(rows, audit, i)
  }

  lemma OriginKept(rows: seq<Row>, rows': seq<Row>, audit: seq<AuditEntry>, audit': seq<AuditEntry>, i: nat)
    requires Restatused(rows, rows') && i < |rows| && HasOrigin(rows, audit, i) && audit <= audit'
    requires rows'[i].status == READY ==> rows[i].status == READY || Completed(rows[i].id, rows[i].sha) in audit'
    ensures HasOrigin(rows', audit', i)
  {
    var j: nat :| j < |rows| && OriginAt(rows, audit, i, j);
    assert OriginAt(rows', audit', i, j);
  }

  /** Origins stay when rows decline, and when a row becomes READY with its completion on record. */
  lemma OriginatedKept(rows: seq<Row>, rows': seq<Row>, audit: seq<AuditEntry>, audit': seq<AuditEntry>)
    requires Originated(rows, audit) && Restatused(rows, rows') && audit <= audit'
    requires forall i :: 0 <= i < |rows| && rows'[i].status == READY ==>
      rows[i].status == READY || Completed(rows[i].id, rows[i].sha) in audit'
    ensures Originated(rows', audit')
  {
    forall i: nat | i < |rows|
      ensures HasOrigin(rows', audit', i)
    {
      OriginKept(rows, rows', audit, audit', i);
    }
  }

  lemma OriginBeforeAppend(rows: seq<Row>, audit: seq<AuditEntry>, audit': seq<AuditEntry>, row: Row, i: nat)
    requires i < |rows| && HasOrigin(rows, audit, i) && audit <= audit'
    ensures HasOrigin(rows + [row], audit', i)
  {
    var j: nat :| j < |rows| && OriginAt(rows, audit, i, j);
    assert OriginAt(rows + [row], audit', i, j);
  }

  /** A row that starts an upload is its own origin. */
  lemma OriginatedFresh(rows: seq<Row>, audit: seq<AuditEntry>, row: Row)
    requires Originated(rows, audit) && row.storedName == Canonical(row.room, row.id) && row.status == UPLOADING
    ensures Originated(rows + [row], audit)
  {
    var n := |rows|;
    forall i: nat | i < n
      ensures HasOrigin(rows + [row], audit, i)
    {
      OriginBeforeAppend(rows, audit, audit, row, i);
    }
    assert OriginAt(rows + [row], audit, n, n);
  }

  /** A row that shares the content of a READY row has that row's origin, whose upload completed before. */
  lemma OriginatedShared(rows: seq<Row>, audit: seq<AuditEntry>, row: Row, existing: Row, entry: AuditEntry)
    requires Originated(rows, audit) && existing in rows && existing.status == READY
    requires row.storedName == existing.storedName && row.sha == existing.sha && row.node == existing.node
    ensures Originated(rows + [row], audit + [entry])
    ensures exists j: nat :: j < |rows| && existing.storedName == Canonical(rows[j].room, rows[j].id)
              && rows[j].sha == row.sha && rows[j].node == row.node && Completed(rows[j].id, row.sha) in audit
  {
    var n := |rows|;
    forall i: nat | i < n
      ensures HasOrigin(rows + [row], audit + [entry], i)
    {
      OriginBeforeAppend(rows, audit, audit + [entry], row, i);
    }
    var e: nat :| e < n && rows[e] == existing;
    assert HasOrigin(rows, audit, e);
    var j: nat :| j < n && OriginAt(rows, audit, e, j);
    assert OriginAt(rows + [row], audit + [entry], n, j);
  }

  /** Entry p records a sharing whose origin row was completed, with the same hash, in an earlier entry. */
  predicate Justified(rows: seq<Row>, audit: seq<AuditEntry>, p: nat)
    requires p < |audit|
  {
    audit[p].Deduplicated? ==>
      exists j: nat :: j < |rows| && audit[p].storedName == Canonical(rows[j].room, rows[j].id)
        && Completed(rows[j].id, audit[p].sha) in audit[..p]
  }

  predicate AllJustified(rows: seq<Row>, audit: seq<AuditEntry>) {
    forall p :: 0 <= p < |audit| ==> Justified(rows, audit, p)
  }

  /** The two tables have the same rooms and ids, up to rows added at the end. */
  predicate SameKeys(rows: seq<Row>, rows': seq<Row>) {
    |rows| <= |rows'| && forall i :: 0 <= i < |rows| ==> rows'[i].id == rows[i].id && rows'[i].room == rows[i].room
  }

  lemma JustifiedKept(rows: seq<Row>, rows': seq<Row>, audit: seq<AuditEntry>, more: seq<AuditEntry>)
    requires AllJustified(rows, audit) && SameKeys(rows, rows')
    ensures forall p :: 0 <= p < |audit| ==> Justified(rows', audit + more, p)
  {
    forall p: nat | p < |audit|
      ensures Justified(rows', audit + more, p)
    {
      assert Justified(rows, audit, p);
      assert (audit + more)[..p] == audit[..p];
    }
  }

  lemma JustifiedNext(rows: seq<Row>, rows': seq<Row>, audit: seq<AuditEntry>, entry: AuditEntry)
    requires AllJustified(rows, audit) && SameKeys(rows, rows')
    requires entry.Deduplicated? ==>
      exists j: nat :: j < |rows'| && entry.storedName == Canonical(rows'[j].room, rows'[j].id)
        && Completed(rows'[j].id, entry.sha) in audit
    ensures AllJustified(rows', audit + [entry])
  {
    JustifiedKept(rows, rows', audit, [entry]);
    assert (audit + [entry])[..|audit|] == audit;
    assert Justified(rows', audit + [entry], |audit|);
  }

  lemma JustifiedSame(rows: seq<Row>, rows': seq<Row>, audit: seq<AuditEntry>)
    requires AllJustified(rows, audit) && SameKeys(rows, rows')
    ensures AllJustified(rows', audit)
  {
    JustifiedKept(rows, rows', audit, []);
    assert audit + [] == audit;
  }
}
