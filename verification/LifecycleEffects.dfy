/**
 What each handler of the coordinator does to every row and every reservation, and what it answers, as
 conditions on the state before the call.
 */
module LifecycleEffects {
  import opened RegistrySpec
  import opened RegistryProofs
  import opened RegistryEffects
  import opened Lifecycle
  import opened LifecycleTable
  import opened UploadSlots
  import opened ManifestCache
  import opened LifecycleRuns
  import opened LifecycleResults
  import opened Wrappers

  // ---------------------------------------------------------------- every status change

  /** The report comes from a known node that the row may not be denied to. */
  predicate MayReport(s: State, c: Connection, row: Row)
    requires Valid(s.registry)
  {
    Reporter(s, c).Some? && (row.node == "" || Reporter(s, c).value == "" || row.node == Reporter(s, c).value)
  }

  /** No hash of the list is, without space and case, the hash of the row. */
  predicate NotListed(row: Row, shas: seq<string>) {
    Normalize(row.sha) != "" && forall sha <- shas :: Normalize(sha) != Normalize(row.sha)
  }

  /** The status of a row after an event. */
  function StatusAfter(s: State, e: Event, row: Row): Status
    requires Valid(s.registry)
  {
    match e
    case Complete(c, id, sha, otherFields) =>
      if id != row.id || id == "" || sha == "" || !otherFields || Reporter(s, c).None? then row.status
      else if !MayReport(s, c, row) then if row.status == UPLOADING then DELETED else row.status
      else if sha == row.sha then READY else DELETED
    case Fail(c, id) => if id == row.id && id != "" && MayReport(s, c, row) then DELETED else row.status
    case Delete(id, permitted) => if id == row.id && permitted then DELETED else row.status
    case Clean(cutoff) => if row.status == UPLOADING && row.createdAt < cutoff then DELETED else row.status
    case Auth(a) =>
      if row.status == READY && row.node == a.nodeId && a.nodeId != "" && a.manifest.Some? && NotListed(row, a.manifest.value)
      then MISSING else row.status
    case _ => row.status
  }

  /** After the event row i is the same but for its status, which is the one of StatusAfter. */
  predicate ChangesAsStated(config: Config, s: State, e: Event, i: nat)
    requires Valid(s.registry) && CanHappen(config, s, e) && i < |s.rows|
  {
    i < |Next(config, s, e).rows| && Next(config, s, e).rows[i] == s.rows[i].(status := StatusAfter(s, e, s.rows[i]))
  }

  lemma UpdatedRow(rows: seq<Row>, id: string, from: set<Status>, to: Status, i: nat)
    requires i < |rows|
    ensures SetStatus(rows, {id}, from, to)[i]
            == if rows[i].id == id && rows[i].status in from then rows[i].(status := to) else rows[i]
  {
  }

  lemma CompletionStatus(s: State, c: Connection, id: string, sha: string, otherFields: bool, i: nat)
    requires Valid(s.registry) && DistinctIds(s.rows) && i < |s.rows|
    ensures var rows' := UploadComplete(s, c, id, sha, otherFields).0.rows;
            |rows'| == |s.rows| &&
            rows'[i] == s.rows[i].(status := StatusAfter(s, Complete(c, id, sha, otherFields), s.rows[i]))
  {
    LookupAt(s.rows, i);
    AnyStatus(s.rows[i].status);
    UpdatedRow(s.rows, id, {UPLOADING}, DELETED, i);
    UpdatedRow(s.rows, id, ANY_STATUS, DELETED, i);
    UpdatedRow(s.rows, id, ANY_STATUS, READY, i);
  }

  lemma FailureStatus(s: State, c: Connection, id: string, i: nat)
    requires Valid(s.registry) && DistinctIds(s.rows) && i < |s.rows|
    ensures var rows' := UploadFailed(s, c, id).0.rows;
            |rows'| == |s.rows| && rows'[i] == s.rows[i].(status := StatusAfter(s, Fail(c, id), s.rows[i]))
  {
    LookupAt(s.rows, i);
    AnyStatus(s.rows[i].status);
    UpdatedRow(s.rows, id, ANY_STATUS, DELETED, i);
  }

  lemma DeletionStatus(s: State, id: string, permitted: bool, i: nat)
    requires Valid(s.registry) && i < |s.rows|
    ensures var rows' := DeleteFile(s, id, permitted).rows;
            |rows'| == |s.rows| && rows'[i] == s.rows[i].(status := StatusAfter(s, Delete(id, permitted), s.rows[i]))
  {
    AnyStatus(s.rows[i].status);
    UpdatedRow(s.rows, id, ANY_STATUS, DELETED, i);
  }

  lemma CleanupStatus(s: State, cutoff: int, i: nat)
    requires Valid(s.registry) && DistinctIds(s.rows) && i < |s.rows|
    ensures var rows' := Cleanup(s, cutoff).rows;
            |rows'| == |s.rows| && rows'[i] == s.rows[i].(status := StatusAfter(s, Clean(cutoff), s.rows[i]))
  {
    if s.rows[i].id in OrphanIds(s.rows, cutoff) {
      var j :| 0 <= j < |s.rows| && s.rows[j].id == s.rows[i].id && s.rows[j].status == UPLOADING && s.rows[j].createdAt < cutoff;
      LookupAt(s.rows, i);
      LookupAt(s.rows, j);
    } else {
      assert s.rows[i] in s.rows;
    }
  }

  /** Reconciliation marks exactly the node's READY rows whose hash the manifest does not list. */
  lemma AuthStatus(s: State, a: AuthRequest, i: nat)
    requires Valid(s.registry) && DistinctIds(s.rows) && i < |s.rows|
    ensures var rows' := StorageAuth(s, a).rows;
            |rows'| == |s.rows| && rows'[i] == s.rows[i].(status := StatusAfter(s, Auth(a), s.rows[i]))
  {
    if a.manifest.Some? && a.nodeId != "" {
      var shas := a.manifest.value;
      RenormalizedSame(shas);
      if s.rows[i].status == READY {
        LostExactly(s.rows, a.nodeId, shas, i);
      }
    }
  }

  lemma LostExactly(rows: seq<Row>, nodeId: string, shas: seq<string>, i: nat)
    requires DistinctIds(rows) && i < |rows| && rows[i].status == READY
    ensures rows[i].id in LostIds(rows, nodeId, NormalizeAll(shas))
            <==> rows[i].node == nodeId && NotListed(rows[i], shas)
  {
    RenormalizedSame(shas);
    assert Normalize(rows[i].sha) != "" ==>
      (Normalize(rows[i].sha) in NormalizeAll(shas) <==> exists sha <- shas :: Normalize(sha) == Normalize(rows[i].sha));
    if rows[i].id in LostIds(rows, nodeId, NormalizeAll(shas)) {
      var j :| 0 <= j < |rows| && rows[j].id == rows[i].id && rows[j].node == nodeId && rows[j].status == READY
        && Normalize(rows[j].sha) != "" && Normalize(rows[j].sha) !in NormalizeAll(shas);
      LookupAt(rows, i);
      LookupAt(rows, j);
    } else {
      assert rows[i] in rows;
    }
  }

  lemma InitStatus(config: Config, s: State, q: InitRequest, i: nat)
    requires Valid(s.registry) && Offered(config, s.registry, q.now, q.first, q.second) && i < |s.rows|
    ensures var rows' := InitUpload(config, s, q).0.rows; i < |rows'| && rows'[i] == s.rows[i]
  {
  }

  /** For every event and every row: which status it has afterwards; nothing else of a row ever changes. */
  lemma EveryStatusChange(config: Config, s: State, e: Event, i: nat)
    requires Valid(s.registry) && CanHappen(config, s, e) && DistinctIds(s.rows) && i < |s.rows|
    ensures ChangesAsStated(config, s, e, i)
    ensures !e.Init? ==> |Next(config, s, e).rows| == |s.rows|
  {
    match e
    case Init(q) => InitStatus(config, s, q, i);
    case Complete(c, id, sha, otherFields) => CompletionStatus(s, c, id, sha, otherFields, i);
    case Fail(c, id) => FailureStatus(s, c, id, i);
    case Clean(cutoff) => CleanupStatus(s, cutoff, i);
    case Delete(id, permitted) => DeletionStatus(s, id, permitted, i);
    case Auth(a) => AuthStatus(s, a, i);
    case _ =>
  }

  // ---------------------------------------------------------------- every slot that is freed

  /** The event frees the slot reserved under this id. */
  predicate Frees(s: State, e: Event, rid: string)
    requires Valid(s.registry)
  {
    match e
    case Complete(c, id, sha, otherFields) => rid == id != "" && sha != "" && otherFields && Reporter(s, c).Some?
    case Fail(c, id) => rid == id != "" && Reporter(s, c).Some?
    case Clean(cutoff) =>
      rid != "" && exists row <- s.rows :: row.id == rid && row.status == UPLOADING && row.createdAt < cutoff
    case _ => false
  }

  /** Reports free the slot of their row whatever they find, cleanup those of the rows it deletes; no other slot changes. */
  lemma EveryFreedSlot(config: Config, s: State, e: Event, rid: string)
    requires Valid(s.registry) && CanHappen(config, s, e) && !e.Init?
    ensures var after := Next(config, s, e).registry.reservations;
            && (rid in after <==> rid in s.registry.reservations && !Frees(s, e, rid))
            && (rid in after ==> after[rid] == s.registry.reservations[rid])
  {
    match e
    case Complete(c, id, sha, otherFields) => CompletionFrees(s, c, id, sha, otherFields, rid);
    case Auth(a) => AuthReservations(s.registry, a);
    case Clean(cutoff) => CleanedReservations(s, cutoff, rid);
    case Fail(c, id) => FailureFrees(s, c, id, rid);
    case _ => NothingFreed(config, s, e);
  }

  lemma ReleasedReservations(r: Registry, id: string, rid: string)
    requires Valid(r)
    ensures var after := Release(r, id).reservations;
            && (rid in after <==> rid in r.reservations && !(rid == id != ""))
            && (rid in after ==> after[rid] == r.reservations[rid])
  {
  }

  lemma CompletionFrees(s: State, c: Connection, id: string, sha: string, otherFields: bool, rid: string)
    requires Valid(s.registry)
    ensures var after := UploadComplete(s, c, id, sha, otherFields).0.registry.reservations;
            && (rid in after <==> rid in s.registry.reservations && !Frees(s, Complete(c, id, sha, otherFields), rid))
            && (rid in after ==> after[rid] == s.registry.reservations[rid])
  {
    ReleasedReservations(s.registry, id, rid);
    if Reporter(s, c).Some? {
      CompleteRowReleases(s, Reporter(s, c).value, id, sha);
    }
  }

  lemma FailureFrees(s: State, c: Connection, id: string, rid: string)
    requires Valid(s.registry)
    ensures var after := UploadFailed(s, c, id).0.registry.reservations;
            && (rid in after <==> rid in s.registry.reservations && !Frees(s, Fail(c, id), rid))
            && (rid in after ==> after[rid] == s.registry.reservations[rid])
  {
    ReleasedReservations(s.registry, id, rid);
  }

  lemma CleanedReservations(s: State, cutoff: int, rid: string)
    requires Valid(s.registry)
    ensures var after := Cleanup(s, cutoff).registry.reservations;
            && (rid in after <==> rid in s.registry.reservations && !Frees(s, Clean(cutoff), rid))
            && (rid in after ==> after[rid] == s.registry.reservations[rid])
  {
    assert rid in OrphanIds(s.rows, cutoff) <==>
      exists row <- s.rows :: row.id == rid && row.status == UPLOADING && row.createdAt < cutoff;
  }

  lemma NothingFreed(config: Config, s: State, e: Event)
    requires Valid(s.registry) && CanHappen(config, s, e) && (OnlyConnections(e) || e.Delete?)
    ensures Next(config, s, e).registry.reservations == s.registry.reservations
  {
  }

  // ---------------------------------------------------------------- answers to reports

  /** Reports count only from a connection whose entry is authenticated, and then as its node's; others change nothing. */
  lemma ReportsNeedAuthentication(s: State, c: Connection, id: string, sha: string, otherFields: bool, added: ListField,
                                  removed: ListField)
    requires Valid(s.registry)
    ensures var known := c in s.registry.byConnection && s.registry.nodes[s.registry.byConnection[c]].authenticated;
            && (known ==> Reporter(s, c) == Some(s.registry.nodes[s.registry.byConnection[c]].nodeId))
            && (!known ==>
                  && UploadComplete(s, c, id, sha, otherFields) == (s, NotAuthenticated)
                  && UploadFailed(s, c, id) == (s, NotAuthenticated)
                  && DeltaMessage(s, c, added, removed) == (s, NotAuthenticated))
  {
  }

  /** The answer to a completion that lacks a field, or has no row. */
  lemma CompletionRefused(s: State, c: Connection, id: string, sha: string, otherFields: bool)
    requires Valid(s.registry) && Reporter(s, c).Some?
    ensures var answer := UploadComplete(s, c, id, sha, otherFields).1;
            var complete := id != "" && sha != "" && otherFields;
            && (answer == InvalidPayload <==> !complete)
            && (answer == FileNotFound <==> complete && forall row <- s.rows :: row.id != id)
  {
  }

  /** The answer to any other completion, by the first condition that holds of its row. */
  lemma CompletionAnswers(s: State, c: Connection, sha: string, i: nat)
    requires Valid(s.registry) && Reporter(s, c).Some? && DistinctIds(s.rows)
    requires i < |s.rows| && s.rows[i].id != "" && sha != ""
    ensures UploadComplete(s, c, s.rows[i].id, sha, true).1 ==
            if !MayReport(s, c, s.rows[i]) then NodeMismatch else if sha != s.rows[i].sha then WrongHash else Accepted
  {
    LookupAt(s.rows, i);
  }

  lemma FailureRefused(s: State, c: Connection, id: string)
    requires Valid(s.registry) && Reporter(s, c).Some?
    ensures var answer := UploadFailed(s, c, id).1;
            && (answer == InvalidPayload <==> id == "")
            && (answer == FileNotFound <==> id != "" && forall row <- s.rows :: row.id != id)
  {
  }

  /** The answer to a failure report of a row. */
  lemma FailureAnswers(s: State, c: Connection, i: nat)
    requires Valid(s.registry) && Reporter(s, c).Some? && DistinctIds(s.rows)
    requires i < |s.rows| && s.rows[i].id != ""
    ensures UploadFailed(s, c, s.rows[i].id).1 == if MayReport(s, c, s.rows[i]) then Accepted else NodeMismatch
  {
    LookupAt(s.rows, i);
  }

  /** A delta from a node in the run is accepted when both fields can be read as lists, and is applied to that node. */
  lemma DeltaAnswers(s: State, c: Connection, added: ListField, removed: ListField, k: string)
    requires Inv(s.registry) && "" !in s.registry.byId && Reporter(s, c).Some?
    ensures var (s', answer) := DeltaMessage(s, c, added, removed);
            var known := KnownFiles(s.registry, k);
            var plus := if added.Items? then added.shas else [];
            var minus := if removed.Items? then removed.shas else [];
            && s'.rows == s.rows && s'.audit == s.audit
            && (answer == InvalidPayload <==> added.NotAList? || removed.NotAList?)
            && (answer != InvalidPayload ==> answer == Accepted)
            && (answer == InvalidPayload ==> s' == s)
            && (answer == Accepted ==>
                  KnownFiles(s'.registry, k) ==
                  if k == Reporter(s, c).value && known.Some?
                  then Some(known.value + NormalizeAll(plus) - NormalizeAll(minus)) else known)
  {
    ReporterIsEntered(s, c);
    DeltaFiles(s.registry, Reporter(s, c).value, Shas(added), Shas(removed), k);
  }

  /** An accepted completion lists the hash on the reporter, and on no other node. */
  lemma CompletionLists(s: State, c: Connection, id: string, sha: string, otherFields: bool, k: string)
    requires Inv(s.registry) && "" !in s.registry.byId && Acceptable(s, c, id, sha, otherFields)
    ensures var r' := UploadComplete(s, c, id, sha, otherFields).0.registry;
            var known := KnownFiles(s.registry, k);
            KnownFiles(r', k) ==
            if k == Reporter(s, c).value && known.Some? && Normalize(sha) != "" then Some(known.value + {Normalize(sha)})
            else known
  {
    ReporterIsEntered(s, c);
    DropKeeps(s.registry, id);
    var released := Release(s.registry, id);
    AddedFile(released, Reporter(s, c).value, sha, k);
    assert UploadComplete(s, c, id, sha, otherFields).0.registry == MarkFileAdded(released, Reporter(s, c).value, sha);
    assert KnownFiles(released, k) == KnownFiles(s.registry, k);
  }

  /** Authentication needs the shared secret, which may not be empty, and a data port that is a number if it is given. */
  lemma AuthenticationNeedsTheSecret(sharedSecret: string, secret: string, port: PortField)
    ensures var answer := CheckAuth(sharedSecret, secret, port);
            && (answer == MissingSecret <==> |secret| == 0)
            && (answer == InvalidSecret <==> |secret| > 0 && secret != sharedSecret)
            && (answer == InvalidDataPort <==> |secret| > 0 && secret == sharedSecret && port == NotANumber)
            && (answer == Authenticated <==> |secret| > 0 && secret == sharedSecret && port != NotANumber)
  {
  }

  /** What the registry knows of a node after it authenticated. */
  lemma NodeAfterAuth(s: State, a: AuthRequest)
    requires Inv(s.registry) && KeepsId(s.registry, a.c, a.nodeId) && a.nodeId != ""
    ensures var r' := StorageAuth(s, a).registry;
            && a.nodeId in r'.byId
            && var n := r'.nodes[r'.byId[a.nodeId]];
               && n.connection == a.c && n.address == a.address && n.authenticated && n.lastPing == a.now
               && KnownFiles(r', a.nodeId) == (if a.manifest.Some? then Some(NormalizeAll(a.manifest.value)) else None)
               && (a.freeBytes.Some? && a.freeBytes.value >= 0 ==> n.freeBytes == a.freeBytes)
  {
    AuthenticatedNode(s.registry, a.c, a.nodeId, a.address, a.now);
  }

  /** A ping renews the health of the node that sent it until the timeout; one from an unknown connection does nothing. */
  lemma PingRenews(config: Config, s: State, c: Connection, freeBytes: Option<int>, now: int, k: string, later: int)
    requires Inv(s.registry)
    ensures var s' := Next(config, s, Ping(c, freeBytes, now));
            && s'.rows == s.rows && s'.audit == s.audit
            && (Reporter(s, c).None? ==> s' == s)
            && (k in s'.registry.byId <==> k in s.registry.byId)
            && (k in s.registry.byId ==>
                  var (n, n') := (s.registry.nodes[s.registry.byId[k]], s'.registry.nodes[s'.registry.byId[k]]);
                  if Reporter(s, c) == Some(k)
                  then n'.lastPing == now && (Healthy(config, n', later) <==> later < now + config.timeoutSeconds)
                       && n'.freeBytes == if freeBytes.Some? then freeBytes else n.freeBytes
                  else n' == n)
  {
    if Reporter(s, c).Some? {
      HeartbeatRenews(config, s.registry, c, freeBytes, now, later);
    }
  }

  // ---------------------------------------------------------------- INIT_UPLOAD

  /** Another live row of the room has the content. */
  predicate Duplicated(s: State, q: InitRequest) {
    exists row <- s.rows :: row.room == q.room && row.sha == q.sha && (row.status == READY || row.status == UPLOADING)
  }

  lemma RejectionIs(s: State, q: InitRequest)
    ensures var complete := q.name != "" && q.sha != "" && q.otherFields;
            Rejection(s, q) == if !q.permitted then Some(PermissionDenied)
                               else if !complete then Some(InvalidInput)
                               else if Duplicated(s, q) then Some(DuplicateInRoom)
                               else None
  {
    assert HasRoomDuplicate(s.rows, q.room, q.sha) <==> Duplicated(s, q);
  }

  predicate IsRejection(result: InitResult) {
    result == PermissionDenied || result == InvalidInput || result == DuplicateInRoom
  }

  lemma AcceptedIsNoRejection(config: Config, s: State, q: InitRequest)
    requires Valid(s.registry) && Offered(config, s.registry, q.now, q.first, q.second)
    ensures !IsRejection(InitAccepted(config, s, q).1)
  {
  }

  /** Rejections, in their order; none changes anything. */
  lemma InitRejects(config: Config, s: State, q: InitRequest)
    requires Valid(s.registry) && Offered(config, s.registry, q.now, q.first, q.second)
    ensures var (s', result) := InitUpload(config, s, q);
            var complete := q.name != "" && q.sha != "" && q.otherFields;
            && (result == PermissionDenied <==> !q.permitted)
            && (result == InvalidInput <==> q.permitted && !complete)
            && (result == DuplicateInRoom <==> q.permitted && complete && Duplicated(s, q))
            && (IsRejection(result) ==> s' == s)
  {
    RejectionIs(s, q);
    AcceptedIsNoRejection(config, s, q);
  }

  predicate ReadyWith(row: Row, sha: string) {
    row.status == READY && row.sha == sha
  }

  /** The READY rows of the hash before row i. */
  function Earlier(rows: seq<Row>, sha: string, i: nat): set<nat>
    requires i <= |rows|
  {
    set j: nat | j < i && ReadyWith(rows[j], sha)
  }

  /** Row i has the hash, is READY, one of the first twenty such rows, and a download of it would be served. */
  predicate CanShare(config: Config, s: State, q: InitRequest, i: nat)
    requires Valid(s.registry) && i < |s.rows|
  {
    && ReadyWith(s.rows[i], q.sha) && |Earlier(s.rows, q.sha, i)| < 20
    && var resolution := ResolveStorageNode(config, s.registry, s.rows[i], q.legacy, q.now);
       resolution.Served? && resolution.address != ""
  }

  lemma OneEarlier(rows: seq<Row>, sha: string, i: nat)
    requires i < |rows|
    ensures |Earlier(rows, sha, i + 1)| == |Earlier(rows, sha, i)| + if ReadyWith(rows[i], sha) then 1 else 0
  {
    var more := if ReadyWith(rows[i], sha) then {i} else {};
    assert Earlier(rows, sha, i + 1) == Earlier(rows, sha, i) + more;
  }

  lemma {:induction false} EarlierCount(rows: seq<Row>, sha: string, i: nat)
    requires i <= |rows|
    ensures |Earlier(rows, sha, i)| == |ReadyRows(rows[..i], sha)|
  {
    if i > 0 {
      EarlierCount(rows, sha, i - 1);
      OneEarlier(rows, sha, i - 1);
      assert rows[..i] == rows[..i - 1] + [rows[i - 1]];
      ReadySnoc(rows[..i - 1], rows[i - 1], sha);
    }
  }

  lemma {:induction false} ReadySnoc(rows: seq<Row>, row: Row, sha: string)
    ensures ReadyRows(rows + [row], sha) == ReadyRows(rows, sha) + if ReadyWith(row, sha) then [row] else []
  {
    if rows == [] {
      assert rows + [row] == [row] && [row][1..] == [];
    } else {
      var first := if ReadyWith(rows[0], sha) then [rows[0]] else [];
      var last := if ReadyWith(row, sha) then [row] else [];
      assert (rows + [row])[1..] == rows[1..] + [row];
      ReadySnoc(rows[1..], row, sha);
      assert first + ReadyRows(rows[1..], sha) + last == first + (ReadyRows(rows[1..], sha) + last);
    }
  }

  /** The READY rows of the hash, each at the place that its count of earlier ones gives. */
  lemma {:induction false} ReadyPlace(rows: seq<Row>, sha: string, n: nat, i: nat)
    requires i < n <= |rows| && ReadyWith(rows[i], sha)
    ensures var p := |ReadyRows(rows[..i], sha)|;
            p < |ReadyRows(rows[..n], sha)| && ReadyRows(rows[..n], sha)[p] == rows[i]
  {
    assert rows[..n] == rows[..n - 1] + [rows[n - 1]];
    ReadySnoc(rows[..n - 1], rows[n - 1], sha);
    if i < n - 1 {
      ReadyPlace(rows, sha, n - 1, i);
    }
  }

  lemma {:induction false} ReadySource(rows: seq<Row>, sha: string, n: nat, p: nat) returns (i: nat)
    requires n <= |rows| && p < |ReadyRows(rows[..n], sha)|
    ensures i < n && ReadyWith(rows[i], sha) && |ReadyRows(rows[..i], sha)| == p && ReadyRows(rows[..n], sha)[p] == rows[i]
  {
    assert n > 0;
    assert rows[..n] == rows[..n - 1] + [rows[n - 1]];
    ReadySnoc(rows[..n - 1], rows[n - 1], sha);
    if p < |ReadyRows(rows[..n - 1], sha)| {
      i := ReadySource(rows, sha, n - 1, p);
    } else {
      i := n - 1;
    }
  }

  /** Some row is shared exactly when one can be. */
  lemma SharedExactly(config: Config, s: State, q: InitRequest)
    requires Valid(s.registry)
    ensures Existing(config, s, q).Some? <==> exists i: nat :: i < |s.rows| && CanShare(config, s, q, i)
  {
    var rows, all := s.rows, ReadyRows(s.rows, q.sha);
    var candidates := Candidates(rows, q.sha);
    assert rows[..|rows|] == rows;
    if Existing(config, s, q).Some? {
      var p :| 0 <= p < |candidates| && candidates[p] == Existing(config, s, q).value;
      assert all[p] == candidates[p];
      var i := ReadySource(rows, q.sha, |rows|, p);
      EarlierCount(rows, q.sha, i);
      ShareableIsServed(config, s.registry, rows[i], q.legacy, q.now);
      assert CanShare(config, s, q, i);
    } else {
      forall i: nat | i < |rows|
        ensures !CanShare(config, s, q, i)
      {
        if ReadyWith(rows[i], q.sha) && |Earlier(rows, q.sha, i)| < 20 {
          EarlierCount(rows, q.sha, i);
          ReadyPlace(rows, q.sha, |rows|, i);
          assert candidates[|ReadyRows(rows[..i], q.sha)|] == rows[i];
          ShareableIsServed(config, s.registry, rows[i], q.legacy, q.now);
        }
      }
    }
  }

  /** The request is not rejected. */
  predicate Welcome(s: State, q: InitRequest) {
    q.permitted && q.name != "" && q.sha != "" && q.otherFields && !Duplicated(s, q)
  }

  /** The row of a request, made at its time, with the next version of its room and name. */
  function RowOf(s: State, q: InitRequest, storedName: string, status: Status, node: string): Row {
    Row(q.fileId, q.room, q.name, storedName, MaxVersion(s.rows, q.room, q.name) + 1, q.sha, status, node, q.now)
  }

  /** A request that can share becomes a READY row with the content and the node of the oldest row that can be served. */
  lemma InitShares(config: Config, s: State, q: InitRequest, i: nat)
    requires Valid(s.registry) && Offered(config, s.registry, q.now, q.first, q.second) && Welcome(s, q)
    requires i < |s.rows| && CanShare(config, s, q, i)
    requires forall j: nat :: j < i ==> !CanShare(config, s, q, j)
    ensures var (s', result) := InitUpload(config, s, q);
            if q.fault == InsertFails then s' == s && result == InitDatabaseError
            else
              && ResolveStorageNode(config, s.registry, s.rows[i], q.legacy, q.now).Served?
              && result == DedupPlan(s.rows[i].node, ResolveStorageNode(config, s.registry, s.rows[i], q.legacy, q.now).address)
              && s'.rows == s.rows + [RowOf(s, q, s.rows[i].storedName, READY, s.rows[i].node)]
              && s'.audit == s.audit + [Deduplicated(q.fileId, s.rows[i].storedName, q.sha)]
              && s'.registry == s.registry
  {
    OldestIsExisting(config, s, q, i);
    RejectionIs(s, q);
    ShareableIsServed(config, s.registry, s.rows[i], q.legacy, q.now);
    assert InitUpload(config, s, q)
        == InitDedup(s, q, s.rows[i], ShareAddress(config, s.registry, s.rows[i], q.legacy, q.now));
  }

  lemma OldestIsExisting(config: Config, s: State, q: InitRequest, i: nat)
    requires Valid(s.registry)
    requires i < |s.rows| && CanShare(config, s, q, i)
    requires forall j: nat :: j < i ==> !CanShare(config, s, q, j)
    ensures Existing(config, s, q) == Some(s.rows[i])
  {
    SharedExactly(config, s, q);
    OldestServableRowIsShared(config, s, q);
    var m :| 0 <= m < |s.rows| && s.rows[m] == Existing(config, s, q).value
      && Offers(config, s.registry, s.rows[m], q.sha, q.legacy, q.now)
      && forall j :: 0 <= j < m ==> !Offers(config, s.registry, s.rows[j], q.sha, q.legacy, q.now);
    ShareableIsServed(config, s.registry, s.rows[i], q.legacy, q.now);
    ShareableIsServed(config, s.registry, s.rows[m], q.legacy, q.now);
    assert Offers(config, s.registry, s.rows[i], q.sha, q.legacy, q.now);
    assert CanShare(config, s, q, m) by {
      SubsetSize(Earlier(s.rows, q.sha, m), Earlier(s.rows, q.sha, i));
    }
  }

  /** No row can be shared. */
  predicate NothingToShare(config: Config, s: State, q: InitRequest)
    requires Valid(s.registry)
  {
    forall i: nat :: i < |s.rows| ==> !CanShare(config, s, q, i)
  }

  lemma WelcomeIsFresh(config: Config, s: State, q: InitRequest)
    requires Valid(s.registry) && Offered(config, s.registry, q.now, q.first, q.second) && Welcome(s, q)
    requires NothingToShare(config, s, q)
    ensures InitUpload(config, s, q) == InitFresh(config, s, q)
  {
    SharedExactly(config, s, q);
    RejectionIs(s, q);
  }

  /**
   Otherwise an upload starts on the node picked: an UPLOADING row under the request's id, stored under its
   room and id, its slot reserved on that node for the lifetime, and the node's id and address in the answer.
   */
  lemma InitStarts(config: Config, s: State, q: InitRequest)
    requires Inv(s.registry) && Offered(config, s.registry, q.now, q.first, q.second) && Welcome(s, q)
    requires NothingToShare(config, s, q) && q.fileId != "" && q.fault != InsertFails
    requires Picked(config, s.registry, q.now, q.first, q.second).Some?
    ensures var (s', result) := InitUpload(config, s, q);
            var n := Picked(config, s.registry, q.now, q.first, q.second).value;
            && MayTake(config, s.registry, n, q.now)
            && result == (if q.fault == TicketFails then InitDatabaseError else UploadPlan(n, s.registry.nodes[s.registry.byId[n]].address))
            && s'.rows == s.rows + [RowOf(s, q, q.room + "/" + q.fileId, UPLOADING, n)]
            && s'.audit == s.audit
            && q.fileId in s'.registry.reservations
            && s'.registry.reservations[q.fileId] == Reservation(n, q.now + q.ttl)
  {
    WelcomeIsFresh(config, s, q);
    FreshRecords(config, s, q);
    PickedMayTake(config, s.registry, q.now, q.first, q.second);
    SlotOfUpload(config, s.registry, q);
  }

  lemma SlotOfUpload(config: Config, r: Registry, q: InitRequest)
    requires Inv(r) && Offered(config, r, q.now, q.first, q.second) && q.fileId != ""
    requires Picked(config, r, q.now, q.first, q.second).Some?
    ensures var after := Select(config, r, q.now, q.fileId, q.ttl, q.first, q.second).reservations;
            && q.fileId in after
            && after[q.fileId] == Reservation(Picked(config, r, q.now, q.first, q.second).value, q.now + q.ttl)
  {
    ReservationsAfterSelect(config, r, q.now, q.fileId, q.ttl, q.first, q.second, q.fileId);
  }

  lemma FreshRecords(config: Config, s: State, q: InitRequest)
    requires Inv(s.registry) && Offered(config, s.registry, q.now, q.first, q.second) && q.fault != InsertFails
    requires Picked(config, s.registry, q.now, q.first, q.second).Some?
    ensures var (s', result) := InitFresh(config, s, q);
            var n := Picked(config, s.registry, q.now, q.first, q.second).value;
            && result == (if q.fault == TicketFails then InitDatabaseError else UploadPlan(n, s.registry.nodes[s.registry.byId[n]].address))
            && s'.rows == s.rows + [RowOf(s, q, q.room + "/" + q.fileId, UPLOADING, n)]
            && s'.audit == s.audit
            && s'.registry == Select(config, s.registry, q.now, q.fileId, q.ttl, q.first, q.second)
  {
    var n := Picked(config, s.registry, q.now, q.first, q.second).value;
    var selected := s.(registry := Select(config, s.registry, q.now, q.fileId, q.ttl, q.first, q.second));
    SelectSame(config, s.registry, q.now, q.fileId, q.ttl, q.first, q.second);
    SameAddress(s.registry, selected.registry, n);
    RecordAdds(selected, q, Some(n));
    assert InitFresh(config, s, q) == Record(selected, q, Some(n));
  }

  lemma SameAddress(r: Registry, r': Registry, k: string)
    requires Valid(r) && Valid(r') && SameButLoad(r, r') && k in r.byId
    ensures k in r'.byId && r'.nodes[r'.byId[k]].address == r.nodes[r.byId[k]].address
  {
    var h := r.byId[k];
    assert r'.nodes[h] == r.nodes[h].(activeUploads := r'.nodes[h].activeUploads);
  }

  lemma RecordAdds(s: State, q: InitRequest, pick: Option<string>)
    requires Valid(s.registry) && pick.Some? && pick.value in s.registry.byId && q.fault != InsertFails
    ensures var (s', result) := Record(s, q, pick);
            && result == (if q.fault == TicketFails then InitDatabaseError else UploadPlan(pick.value, s.registry.nodes[s.registry.byId[pick.value]].address))
            && s' == s.(rows := s.rows + [RowOf(s, q, q.room + "/" + q.fileId, UPLOADING, pick.value)])
  {
  }

  /** When nothing can be shared and no node may take the upload, or the insert fails, no row and no slot of it remain. */
  lemma InitLeavesNothing(config: Config, s: State, q: InitRequest)
    requires Inv(s.registry) && Offered(config, s.registry, q.now, q.first, q.second) && Welcome(s, q)
    requires NothingToShare(config, s, q) && q.fileId != "" && q.fileId !in s.registry.reservations
    requires q.fault == InsertFails || forall k :: !MayTake(config, s.registry, k, q.now)
    ensures var (s', result) := InitUpload(config, s, q);
            && (result == NodeUnavailable <==> forall k :: !MayTake(config, s.registry, k, q.now))
            && (result == InitDatabaseError <==> !forall k :: !MayTake(config, s.registry, k, q.now))
            && s' == s.(registry := Reap(s.registry, q.now))
  {
    WelcomeIsFresh(config, s, q);
    PickedMayTake(config, s.registry, q.now, q.first, q.second);
    ReleaseUndoesSelect(config, s.registry, q.now, q.fileId, q.ttl, q.first, q.second);
  }
}
