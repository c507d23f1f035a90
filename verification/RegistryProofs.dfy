/** Invariants of the registry over every run: the two indexes agree, and load never exceeds reservations. */
module RegistryProofs {
  import opened RegistrySpec
  import opened Wrappers

  /** An id leads to an authenticated entry of that id, which is the entry of its own connection. */
  ghost predicate IndexesAgree(r: Registry)
    requires Valid(r)
  {
    && (forall c <- r.byConnection :: r.nodes[r.byConnection[c]].connection == c)
    && (forall k <- r.byId ::
          && r.nodes[r.byId[k]].nodeId == k
          && r.nodes[r.byId[k]].authenticated
          && r.nodes[r.byId[k]].connection in r.byConnection
          && r.byConnection[r.nodes[r.byId[k]].connection] == r.byId[k])
  }

  /** A connected entry is reached by its id as soon as it is authenticated, and carries no load before. */
  ghost predicate Connected(r: Registry)
    requires Valid(r)
  {
    forall c <- r.byConnection ::
      var n := r.nodes[r.byConnection[c]];
      if n.authenticated then n.nodeId in r.byId && r.byId[n.nodeId] == r.byConnection[c]
      else n.activeUploads == 0
  }

  function HeldIds(r: Registry, k: string): set<string> {
    set rid | rid in r.reservations && r.reservations[rid].nodeId == k
  }

  /** The live reservations on a node id. */
  function Held(r: Registry, k: string): nat {
    |HeldIds(r, k)|
  }

  function Load(r: Registry, k: string): nat
    requires Valid(r) && k in r.byId
  {
    r.nodes[r.byId[k]].activeUploads
  }

  /** Live reservations that the node's counter does not show. */
  function Deficit(r: Registry, k: string): int
    requires Valid(r) && k in r.byId
  {
    Held(r, k) - Load(r, k)
  }

  ghost predicate Inv(r: Registry) {
    && Valid(r) && IndexesAgree(r) && Connected(r)
    && forall k <- r.byId :: Load(r, k) <= Held(r, k)
  }

  /** The connection has no entry authenticated under another id. */
  predicate KeepsId(r: Registry, c: Connection, nodeId: string)
    requires Valid(r)
  {
    c in r.byConnection && r.nodes[r.byConnection[c]].authenticated ==> r.nodes[r.byConnection[c]].nodeId == nodeId
  }

  /** What a run assumes: an accepted connection is new, and a connection keeps the id it first used. */
  predicate Assumed(r: Registry, s: Step)
    requires Valid(r)
  {
    match s
    case ConnectStep(c, _, _) => c !in r.byConnection
    case AuthStep(c, nodeId, _, _) => KeepsId(r, c, nodeId)
    case _ => true
  }

  // ---------------------------------------------------------------- steps that leave the indexes alone

  /** The registries differ at most in load counters and reservations. */
  predicate SameButLoad(r: Registry, r': Registry) {
    && r'.byConnection == r.byConnection && r'.byId == r.byId && |r'.nodes| == |r.nodes|
    && forall h :: 0 <= h < |r.nodes| ==> r'.nodes[h] == r.nodes[h].(activeUploads := r'.nodes[h].activeUploads)
  }

  /** A change of loads alone keeps the invariant when no counter passes its reservations. */
  lemma LoadChangeKeeps(r: Registry, r': Registry)
    requires Inv(r) && SameButLoad(r, r')
    requires forall h :: 0 <= h < |r.nodes| && !r.nodes[h].authenticated ==> r'.nodes[h].activeUploads <= r.nodes[h].activeUploads
    requires forall k <- r.byId :: r'.nodes[r.byId[k]].activeUploads <= Held(r', k)
    ensures Inv(r')
  {
  }

  lemma DroppedHeld(r: Registry, ids: set<string>, k: string)
    requires Inv(r) && k in r.byId
    ensures var taken := |OnEntry(r, ids, r.byId[k])|;
            Held(DropAll(r, ids), k) == Held(r, k) - taken && Load(DropAll(r, ids), k) == Lessen(Load(r, k), taken)
  {
    var gone := HeldIds(r, k) * ids;
    assert OnEntry(r, ids, r.byId[k]) == gone;
    assert HeldIds(DropAll(r, ids), k) == HeldIds(r, k) - gone;
  }

  /** Dropping any set of reservations keeps the invariant, and no deficit grows. */
  lemma DropAllKeeps(r: Registry, ids: set<string>)
    requires Inv(r)
    ensures Inv(DropAll(r, ids)) && SameButLoad(r, DropAll(r, ids))
    ensures forall k <- r.byId :: Deficit(DropAll(r, ids), k) <= Deficit(r, k)
  {
    forall k | k in r.byId
      ensures Load(DropAll(r, ids), k) <= Held(DropAll(r, ids), k) && Deficit(DropAll(r, ids), k) <= Deficit(r, k)
    {
      DroppedHeld(r, ids, k);
    }
    LoadChangeKeeps(r, DropAll(r, ids));
  }

  lemma ReapKeeps(r: Registry, now: int)
    requires Inv(r)
    ensures Inv(Reap(r, now)) && SameButLoad(r, Reap(r, now))
    ensures forall k <- r.byId :: Deficit(Reap(r, now), k) <= Deficit(r, k)
  {
    DropAllKeeps(r, Expired(r, now));
  }

  lemma DropLoads(r: Registry, rid: string, k: string)
    requires Inv(r) && rid in r.reservations && k in r.byId
    ensures var taken := if r.reservations[rid].nodeId == k then 1 else 0;
            Held(Drop(r, rid), k) == Held(r, k) - taken && Load(Drop(r, rid), k) == Lessen(Load(r, k), taken)
  {
    assert HeldIds(Drop(r, rid), k) == HeldIds(r, k) - {rid};
  }

  lemma DropKeeps(r: Registry, rid: string)
    requires Inv(r)
    ensures Inv(Drop(r, rid)) && SameButLoad(r, Drop(r, rid))
    ensures Drop(r, rid).reservations == r.reservations - {rid}
    ensures forall k <- r.byId :: Deficit(Drop(r, rid), k) <= Deficit(r, k)
  {
    if rid in r.reservations {
      forall k | k in r.byId
        ensures Load(Drop(r, rid), k) <= Held(Drop(r, rid), k) && Deficit(Drop(r, rid), k) <= Deficit(r, k)
      {
        DropLoads(r, rid, k);
      }
      LoadChangeKeeps(r, Drop(r, rid));
    } else {
      assert r.reservations - {rid} == r.reservations;
    }
  }

  lemma HeldAdded(r: Registry, r': Registry, rid: string, added: Reservation, j: string)
    requires rid !in r.reservations && r'.reservations == r.reservations[rid := added]
    ensures Held(r', j) == Held(r, j) + if j == added.nodeId then 1 else 0
  {
    var extra := if j == added.nodeId then {rid} else {};
    forall x
      ensures x in HeldIds(r', j) <==> x in HeldIds(r, j) + extra
    {
      if x != rid {
        assert x in r'.reservations <==> x in r.reservations;
      }
    }
    assert HeldIds(r', j) == HeldIds(r, j) + extra;
  }

  lemma TakeLoads(d: Registry, rid: string, k: string, expiresAt: int, j: string)
    requires Inv(d) && k in d.byId && j in d.byId && rid !in d.reservations
    ensures var d' := Take(d, rid, d.byId[k], expiresAt);
            Held(d', j) == Held(d, j) + (if j == k then 1 else 0) && Load(d', j) == Load(d, j) + (if j == k then 1 else 0)
  {
    HeldAdded(d, Take(d, rid, d.byId[k], expiresAt), rid, Reservation(k, expiresAt), j);
  }

  lemma TakeKeeps(d: Registry, rid: string, k: string, expiresAt: int)
    requires Inv(d) && k in d.byId && rid !in d.reservations
    ensures var d' := Take(d, rid, d.byId[k], expiresAt);
            && Inv(d') && SameButLoad(d, d')
            && (forall j <- d.byId :: Deficit(d', j) == Deficit(d, j))
            && (forall j <- d.byId :: Load(d', j) == Load(d, j) + if j == k then 1 else 0)
  {
    var d' := Take(d, rid, d.byId[k], expiresAt);
    forall j | j in d.byId
      ensures Held(d', j) == Held(d, j) + (if j == k then 1 else 0) && Load(d', j) == Load(d, j) + (if j == k then 1 else 0)
    {
      TakeLoads(d, rid, k, expiresAt, j);
    }
    LoadChangeKeeps(d, d');
  }

  lemma ReserveKeeps(r: Registry, rid: string, k: string, expiresAt: int)
    requires Inv(r) && k in r.byId
    ensures var r' := Reserve(r, rid, r.byId[k], expiresAt);
            && Inv(r') && SameButLoad(r, r')
            && r'.reservations == r.reservations[rid := Reservation(k, expiresAt)]
            && (forall j <- r.byId :: Deficit(r', j) <= Deficit(r, j))
            && (rid !in r.reservations ==> forall j <- r.byId :: Load(r', j) == Load(r, j) + if j == k then 1 else 0)
  {
    DropKeeps(r, rid);
    var d := Drop(r, rid);
    TakeKeeps(d, rid, k, expiresAt);
    assert (r.reservations - {rid})[rid := Reservation(k, expiresAt)] == r.reservations[rid := Reservation(k, expiresAt)];
  }

  lemma ReserveOnKeeps(r: Registry, pick: Option<string>, rid: string, expiresAt: int)
    requires Inv(r) && (pick.Some? ==> pick.value in r.byId)
    ensures var r' := ReserveOn(r, pick, rid, expiresAt);
            && Inv(r') && SameButLoad(r, r')
            && (forall k <- r.byId :: Deficit(r', k) <= Deficit(r, k))
            && r'.reservations == if pick.None? || rid == "" then r.reservations
                                  else r.reservations[rid := Reservation(pick.value, expiresAt)]
  {
    if pick.Some? && rid != "" {
      ReserveKeeps(r, rid, pick.value, expiresAt);
    }
  }

  lemma ReapInv(r: Registry, now: int)
    requires Inv(r)
    ensures Inv(Reap(r, now)) && Reap(r, now).byId == r.byId
  {
    ReapKeeps(r, now);
  }

  lemma ReserveOnInv(r: Registry, pick: Option<string>, rid: string, expiresAt: int)
    requires Inv(r) && (pick.Some? ==> pick.value in r.byId)
    ensures Inv(ReserveOn(r, pick, rid, expiresAt))
  {
    ReserveOnKeeps(r, pick, rid, expiresAt);
  }

  lemma SelectKeeps(config: Config, r: Registry, now: int, rid: string, ttl: int, first: string, second: string)
    requires Inv(r) && Offered(config, r, now, first, second)
    ensures Inv(Select(config, r, now, rid, ttl, first, second))
  {
    ReapInv(r, now);
    ReserveOnInv(Reap(r, now), Picked(config, r, now, first, second), rid, Expiry(now, ttl));
  }

  lemma ReapSame(r: Registry, now: int)
    requires Inv(r)
    ensures SameButLoad(r, Reap(r, now))
  {
  }

  lemma ReserveOnSame(r: Registry, pick: Option<string>, rid: string, expiresAt: int)
    requires Valid(r) && (pick.Some? ==> pick.value in r.byId)
    ensures SameButLoad(r, ReserveOn(r, pick, rid, expiresAt))
  {
  }

  /** Selection changes loads and reservations only. */
  lemma SelectSame(config: Config, r: Registry, now: int, rid: string, ttl: int, first: string, second: string)
    requires Inv(r) && Offered(config, r, now, first, second)
    ensures SameButLoad(r, Select(config, r, now, rid, ttl, first, second))
  {
    ReapSame(r, now);
    ReserveOnSame(Reap(r, now), Picked(config, r, now, first, second), rid, Expiry(now, ttl));
  }

  lemma ReapDeficit(r: Registry, now: int, k: string)
    requires Inv(r) && k in r.byId
    ensures Deficit(Reap(r, now), k) <= Deficit(r, k)
  {
    ReapKeeps(r, now);
  }

  lemma ReserveOnDeficit(r: Registry, pick: Option<string>, rid: string, expiresAt: int, k: string)
    requires Inv(r) && (pick.Some? ==> pick.value in r.byId) && k in r.byId
    ensures k in ReserveOn(r, pick, rid, expiresAt).byId
    ensures Deficit(ReserveOn(r, pick, rid, expiresAt), k) <= Deficit(r, k)
  {
    ReserveOnKeeps(r, pick, rid, expiresAt);
  }

  lemma SelectDeficit(config: Config, r: Registry, now: int, rid: string, ttl: int, first: string, second: string, k: string)
    requires Inv(r) && Offered(config, r, now, first, second) && k in r.byId
    ensures k in Select(config, r, now, rid, ttl, first, second).byId
    ensures Deficit(Select(config, r, now, rid, ttl, first, second), k) <= Deficit(r, k)
  {
    ReapDeficit(r, now, k);
    ReapInv(r, now);
    ReserveOnDeficit(Reap(r, now), Picked(config, r, now, first, second), rid, Expiry(now, ttl), k);
  }

  lemma ReserveOnReservations(r: Registry, pick: Option<string>, rid: string, expiresAt: int)
    requires Inv(r) && (pick.Some? ==> pick.value in r.byId)
    ensures ReserveOn(r, pick, rid, expiresAt).reservations
            == if pick.None? || rid == "" then r.reservations else r.reservations[rid := Reservation(pick.value, expiresAt)]
  {
    ReserveOnKeeps(r, pick, rid, expiresAt);
  }

  /** After a selection the expired reservations are gone, and the new one is on the picked node. */
  lemma SelectReservations(config: Config, r: Registry, now: int, rid: string, ttl: int, first: string, second: string)
    requires Inv(r) && Offered(config, r, now, first, second)
    ensures var pick := Picked(config, r, now, first, second);
            Select(config, r, now, rid, ttl, first, second).reservations
            == if pick.None? || rid == "" then r.reservations - Expired(r, now)
               else (r.reservations - Expired(r, now))[rid := Reservation(pick.value, Expiry(now, ttl))]
  {
    ReapInv(r, now);
    ReserveOnReservations(Reap(r, now), Picked(config, r, now, first, second), rid, Expiry(now, ttl));
  }

  /** Replacing an entry by one with the same identity and load keeps the invariant. */
  lemma TouchKeeps(r: Registry, h: nat, n: NodeInfo)
    requires Inv(r) && h < |r.nodes|
    requires n.connection == r.nodes[h].connection && n.nodeId == r.nodes[h].nodeId
    requires n.authenticated == r.nodes[h].authenticated && n.activeUploads == r.nodes[h].activeUploads
    ensures Inv(r.(nodes := r.nodes[h := n]))
    ensures forall k <- r.byId :: Deficit(r.(nodes := r.nodes[h := n]), k) == Deficit(r, k)
  {
    var r' := r.(nodes := r.nodes[h := n]);
    forall k | k in r.byId
      ensures Held(r', k) == Held(r, k) && Load(r', k) == Load(r, k)
    {
      assert HeldIds(r', k) == HeldIds(r, k);
    }
  }

  // ---------------------------------------------------------------- reaping one by one

  /** Dropping reservations one at a time, in any order, is dropping them together. */
  lemma DropOneMore(r: Registry, ids: set<string>, rid: string)
    requires Valid(r) && rid in r.reservations && rid !in ids
    ensures Drop(DropAll(r, ids), rid) == DropAll(r, ids + {rid})
  {
    var some, more := DropAll(r, ids), DropAll(r, ids + {rid});
    assert some.reservations - {rid} == more.reservations;
    forall h | 0 <= h < |r.nodes|
      ensures Drop(some, rid).nodes[h] == more.nodes[h]
    {
      OneMoreOn(r, ids, rid, h);
    }
  }

  lemma OneMoreOn(r: Registry, ids: set<string>, rid: string, h: nat)
    requires rid in r.reservations && rid !in ids
    ensures |OnEntry(r, ids + {rid}, h)| == |OnEntry(r, ids, h)| +
              if r.reservations[rid].nodeId in r.byId && r.byId[r.reservations[rid].nodeId] == h then 1 else 0
  {
    if r.reservations[rid].nodeId in r.byId && r.byId[r.reservations[rid].nodeId] == h {
      assert OnEntry(r, ids + {rid}, h) == OnEntry(r, ids, h) + {rid};
    } else {
      assert OnEntry(r, ids + {rid}, h) == OnEntry(r, ids, h);
    }
  }

  lemma DropNone(r: Registry)
    requires Valid(r)
    ensures DropAll(r, {}) == r
  {
    forall h | 0 <= h < |r.nodes|
      ensures OnEntry(r, {}, h) == {}
    {
    }
    assert DropAll(r, {}).nodes == r.nodes;
    assert r.reservations - {} == r.reservations;
  }

  // ---------------------------------------------------------------- connections come and go

  lemma SameHeld(r: Registry, r': Registry)
    requires r'.reservations == r.reservations
    ensures forall k :: Held(r', k) == Held(r, k)
  {
    forall k
      ensures Held(r', k) == Held(r, k)
    {
      assert HeldIds(r', k) == HeldIds(r, k);
    }
  }

  lemma ConnectKeeps(r: Registry, c: Connection, connectionId: string, now: int)
    requires Inv(r) && c !in r.byConnection
    ensures Inv(Connect(r, c, connectionId, now))
    ensures forall k <- r.byId :: Deficit(Connect(r, c, connectionId, now), k) == Deficit(r, k)
  {
    SameHeld(r, Connect(r, c, connectionId, now));
  }

  lemma DisconnectKeeps(r: Registry, c: Connection)
    requires Inv(r)
    ensures Inv(Disconnect(r, c))
    ensures forall k <- Disconnect(r, c).byId :: k in r.byId && Deficit(Disconnect(r, c), k) == Deficit(r, k)
  {
    SameHeld(r, Disconnect(r, c));
  }

  lemma EnsureEntryKeeps(r: Registry, c: Connection, nodeId: string, now: int)
    requires Inv(r)
    ensures Inv(EnsureEntry(r, c, nodeId, now))
  {
    if c !in r.byConnection {
      ConnectKeeps(r, c, nodeId, now);
    }
  }

  lemma AuthenticateIndexes(r: Registry, c: Connection, nodeId: string, address: string, now: int)
    requires Inv(r) && KeepsId(r, c, nodeId) && c in r.byConnection
    ensures IndexesAgree(Authenticate(r, c, nodeId, address, now))
  {
    var h := r.byConnection[c];
    var r' := Authenticate(r, c, nodeId, address, now);
    forall k | k in r'.byId
      ensures r'.nodes[r'.byId[k]].nodeId == k && r'.nodes[r'.byId[k]].authenticated
      ensures r'.nodes[r'.byId[k]].connection in r'.byConnection
      ensures r'.byConnection[r'.nodes[r'.byId[k]].connection] == r'.byId[k]
    {
      if k != nodeId {
        assert r.byId[k] != h;
      }
    }
  }

  lemma AuthenticateConnected(r: Registry, c: Connection, nodeId: string, address: string, now: int)
    requires Inv(r) && KeepsId(r, c, nodeId) && c in r.byConnection
    ensures Connected(Authenticate(r, c, nodeId, address, now))
  {
    var h := r.byConnection[c];
    var r' := Authenticate(r, c, nodeId, address, now);
    forall d | d in r'.byConnection
      ensures var n := r'.nodes[r'.byConnection[d]];
              if n.authenticated then n.nodeId in r'.byId && r'.byId[n.nodeId] == r'.byConnection[d]
              else n.activeUploads == 0
    {
      assert d in r.byConnection && r'.byConnection[d] == r.byConnection[d];
      assert r.nodes[r.byConnection[d]].connection == d;
    }
  }

  lemma AuthenticateLoads(r: Registry, c: Connection, nodeId: string, address: string, now: int, k: string)
    requires Inv(r) && KeepsId(r, c, nodeId) && c in r.byConnection
    requires k in Authenticate(r, c, nodeId, address, now).byId
    ensures var r' := Authenticate(r, c, nodeId, address, now);
            && Held(r', k) == Held(r, k)
            && (k in r.byId && r'.byId[k] == r.byId[k] ==> Load(r', k) == Load(r, k))
            && (k !in r.byId || r'.byId[k] != r.byId[k] ==> k == nodeId && Load(r', k) == 0)
  {
    var r' := Authenticate(r, c, nodeId, address, now);
    SameHeld(r, r');
    if k == nodeId {
      assert r'.nodes[r'.byId[k]].activeUploads == r.nodes[r.byConnection[c]].activeUploads;
    }
  }

  /** The entry made for an unknown connection changes nothing that ids lead to. */
  lemma EnsureEntrySame(r: Registry, c: Connection, nodeId: string, address: string, now: int)
    requires Inv(r)
    ensures var known := EnsureEntry(r, c, nodeId, now);
            && Inv(known) && c in known.byConnection
            && known.byId == r.byId && known.reservations == r.reservations
            && (forall k <- r.byId :: Load(known, k) == Load(r, k))
            && (KeepsId(r, c, nodeId) ==> KeepsId(known, c, nodeId))
            && Authenticate(known, c, nodeId, address, now) == Authenticate(r, c, nodeId, address, now)
  {
    EnsureEntryKeeps(r, c, nodeId, now);
  }

  lemma AuthenticateKeeps(r: Registry, c: Connection, nodeId: string, address: string, now: int)
    requires Inv(r) && KeepsId(r, c, nodeId)
    ensures Inv(Authenticate(r, c, nodeId, address, now))
  {
    var known := EnsureEntry(r, c, nodeId, now);
    EnsureEntrySame(r, c, nodeId, address, now);
    AuthenticateIndexes(known, c, nodeId, address, now);
    AuthenticateConnected(known, c, nodeId, address, now);
    var r' := Authenticate(known, c, nodeId, address, now);
    forall k | k in r'.byId
      ensures Load(r', k) <= Held(r', k)
    {
      AuthenticateLoads(known, c, nodeId, address, now, k);
    }
  }

  /** Authentication keeps the indexes in agreement exactly when the connection keeps its id. */
  lemma RenameBreaksAgreement(r: Registry, c: Connection, nodeId: string, address: string, now: int)
    requires Inv(r)
    ensures IndexesAgree(Authenticate(r, c, nodeId, address, now)) <==> KeepsId(r, c, nodeId)
  {
    if KeepsId(r, c, nodeId) {
      AuthenticateKeeps(r, c, nodeId, address, now);
    } else {
      var oldId := r.nodes[r.byConnection[c]].nodeId;
      var r' := Authenticate(r, c, nodeId, address, now);
      assert r'.byId[oldId] == r.byConnection[c] && r'.nodes[r.byConnection[c]].nodeId == nodeId;
    }
  }

  /** A connection replaced by a newer one for the same id no longer evicts it when it closes. */
  lemma LateDisconnectIsHarmless(r: Registry, c: Connection, nodeId: string, address: string, now: int)
    requires Inv(r) && KeepsId(r, c, nodeId)
    requires nodeId in r.byId && r.nodes[r.byId[nodeId]].connection != c
    ensures var replaced := r.nodes[r.byId[nodeId]].connection;
            var r' := Authenticate(r, c, nodeId, address, now);
            && replaced !in r'.byConnection
            && Disconnect(r', replaced) == r'
            && nodeId in r'.byId && r'.nodes[r'.byId[nodeId]].connection == c
  {
    EnsureEntryKeeps(r, c, nodeId, now);
  }

  // ---------------------------------------------------------------- every step, every run

  lemma HeartbeatKeeps(r: Registry, c: Connection, freeBytes: Option<int>, now: int)
    requires Inv(r)
    ensures Inv(Heartbeat(r, c, freeBytes, now))
  {
    if c in r.byConnection {
      TouchKeeps(r, r.byConnection[c], Heartbeat(r, c, freeBytes, now).nodes[r.byConnection[c]]);
    }
  }

  lemma CapacityKeeps(r: Registry, c: Connection, free: int)
    requires Inv(r)
    ensures Inv(UpdateCapacity(r, c, free))
  {
    if free >= 0 && c in r.byConnection {
      TouchKeeps(r, r.byConnection[c], UpdateCapacity(r, c, free).nodes[r.byConnection[c]]);
    }
  }

  lemma ManifestKeeps(r: Registry, nodeId: string, shas: seq<string>)
    requires Inv(r)
    ensures Inv(SetManifest(r, nodeId, shas).0)
  {
    if nodeId in r.byId {
      TouchKeeps(r, r.byId[nodeId], SetManifest(r, nodeId, shas).0.nodes[r.byId[nodeId]]);
    }
  }

  lemma DeltaKeeps(r: Registry, nodeId: string, added: seq<string>, removed: seq<string>)
    requires Inv(r)
    ensures Inv(ApplyDelta(r, nodeId, added, removed))
  {
    if nodeId in r.byId {
      TouchKeeps(r, r.byId[nodeId], ApplyDelta(r, nodeId, added, removed).nodes[r.byId[nodeId]]);
    }
  }

  lemma FileAddedKeeps(r: Registry, nodeId: string, sha: string)
    requires Inv(r)
    ensures Inv(MarkFileAdded(r, nodeId, sha))
  {
    if nodeId in r.byId {
      TouchKeeps(r, r.byId[nodeId], MarkFileAdded(r, nodeId, sha).nodes[r.byId[nodeId]]);
    }
  }

  lemma ReleaseKeeps(r: Registry, rid: string)
    requires Inv(r)
    ensures Inv(Release(r, rid))
  {
    DropKeeps(r, rid);
  }

  lemma SelectStepKeeps(config: Config, r: Registry, s: Step)
    requires Inv(r) && s.SelectStep? && Enabled(config, r, s)
    ensures Inv(Apply(config, r, s))
  {
    SelectKeeps(config, r, s.now, s.rid, s.ttl, s.first, s.second);
  }

  lemma ReleaseStepKeeps(config: Config, r: Registry, s: Step)
    requires Inv(r) && s.ReleaseStep?
    ensures Inv(Apply(config, r, s))
  {
    ReleaseKeeps(r, s.rid);
  }

  lemma ConnectionStepKeeps(config: Config, r: Registry, s: Step)
    requires Inv(r) && Assumed(r, s) && (s.ConnectStep? || s.AuthStep? || s.DisconnectStep?)
    ensures Inv(Apply(config, r, s))
  {
    match s
    case ConnectStep(c, connectionId, now) => ConnectKeeps(r, c, connectionId, now);
    case AuthStep(c, nodeId, address, now) => AuthenticateKeeps(r, c, nodeId, address, now);
    case DisconnectStep(c) => DisconnectKeeps(r, c);
  }

  /** The steps that neither connect, nor authenticate, nor touch upload slots. */
  predicate Touches(s: Step) {
    s.HeartbeatStep? || s.CapacityStep? || s.ManifestStep? || s.DeltaStep? || s.FileAddedStep?
  }

  lemma TouchStepKeeps(config: Config, r: Registry, s: Step)
    requires Inv(r) && Touches(s)
    ensures Inv(Apply(config, r, s))
  {
    match s
    case HeartbeatStep(c, freeBytes, now) => HeartbeatKeeps(r, c, freeBytes, now);
    case CapacityStep(c, free) => CapacityKeeps(r, c, free);
    case ManifestStep(nodeId, shas) => ManifestKeeps(r, nodeId, shas);
    case DeltaStep(nodeId, added, removed) => DeltaKeeps(r, nodeId, added, removed);
    case FileAddedStep(nodeId, sha) => FileAddedKeeps(r, nodeId, sha);
  }

  lemma StepKeeps(config: Config, r: Registry, s: Step)
    requires Inv(r) && Enabled(config, r, s) && Assumed(r, s)
    ensures Inv(Apply(config, r, s))
  {
    if s.SelectStep? {
      SelectStepKeeps(config, r, s);
    } else if s.ReleaseStep? {
      ReleaseStepKeeps(config, r, s);
    } else if Touches(s) {
      TouchStepKeeps(config, r, s);
    } else {
      ConnectionStepKeeps(config, r, s);
    }
  }

  /** A counter is at most its live reservations, so it is zero once they drain. */
  lemma DeficitBounds(r: Registry, k: string)
    requires Inv(r) && k in r.byId
    ensures 0 <= Deficit(r, k)
    ensures Held(r, k) == 0 ==> Deficit(r, k) == 0 && Load(r, k) == 0
  {
    assert Load(r, k) <= Held(r, k);
  }

  /** What a step may do to the deficit of an id that is present afterwards. */
  ghost predicate DeficitRule(r: Registry, r': Registry, k: string, takeover: bool)
    requires Valid(r) && Valid(r') && k in r'.byId
  {
    && (k in r.byId && r'.byId[k] == r.byId[k] ==> Deficit(r', k) <= Deficit(r, k))
    && (k !in r.byId || r'.byId[k] != r.byId[k] ==> takeover && Deficit(r', k) == Held(r, k) && Load(r', k) == 0)
  }

  lemma ConnectionDeficit(r: Registry, s: Step, k: string)
    requires Inv(r) && Assumed(r, s) && (s.ConnectStep? || s.DisconnectStep? || s.AuthStep?)
    requires k in Apply(Config(0, 0), r, s).byId
    ensures DeficitRule(r, Apply(Config(0, 0), r, s), k, s.AuthStep? && s.nodeId == k)
  {
    match s
    case ConnectStep(c, connectionId, now) => ConnectKeeps(r, c, connectionId, now);
    case AuthStep(c, nodeId, address, now) => AuthenticateDeficit(r, c, nodeId, address, now, k);
    case DisconnectStep(c) => DisconnectKeeps(r, c);
  }

  /** A step that changes loads and reservations alone, without growing deficits, meets the rule. */
  lemma LoadsMeetRule(r: Registry, r': Registry, k: string)
    requires Valid(r) && Valid(r') && SameButLoad(r, r') && k in r'.byId
    requires Deficit(r', k) <= Deficit(r, k)
    ensures DeficitRule(r, r', k, false)
  {
  }

  lemma SelectStepDeficit(config: Config, r: Registry, s: Step, k: string)
    requires Inv(r) && s.SelectStep? && Enabled(config, r, s) && k in Apply(config, r, s).byId
    ensures DeficitRule(r, Apply(config, r, s), k, false)
  {
    SelectSame(config, r, s.now, s.rid, s.ttl, s.first, s.second);
    SelectDeficit(config, r, s.now, s.rid, s.ttl, s.first, s.second, k);
    LoadsMeetRule(r, Apply(config, r, s), k);
  }

  lemma ReleaseStepDeficit(config: Config, r: Registry, s: Step, k: string)
    requires Inv(r) && s.ReleaseStep? && k in Apply(config, r, s).byId
    ensures DeficitRule(r, Apply(config, r, s), k, false)
  {
    DropKeeps(r, s.rid);
  }

  lemma TouchDeficit(config: Config, r: Registry, s: Step, k: string)
    requires Inv(r) && Touches(s)
    requires k in Apply(config, r, s).byId
    ensures DeficitRule(r, Apply(config, r, s), k, false)
  {
    TouchStep(config, r, s);
    SameHeld(r, Apply(config, r, s));
  }

  /**
   The deficit of a node that stays on the same entry never grows; it is set, to all live reservations,
   only when an entry without load takes over the id; and it is zero once the reservations drain.
   */
  lemma DeficitNeverGrows(config: Config, r: Registry, s: Step, k: string)
    requires Inv(r) && Enabled(config, r, s) && Assumed(r, s)
    requires k in Apply(config, r, s).byId
    ensures var r' := Apply(config, r, s);
            && 0 <= Deficit(r', k)
            && (Held(r', k) == 0 ==> Deficit(r', k) == 0 && Load(r', k) == 0)
            && DeficitRule(r, r', k, s.AuthStep? && s.nodeId == k)
  {
    StepKeeps(config, r, s);
    DeficitBounds(Apply(config, r, s), k);
    if s.ConnectStep? || s.DisconnectStep? || s.AuthStep? {
      ConnectionDeficit(r, s, k);
    } else if s.SelectStep? {
      SelectStepDeficit(config, r, s, k);
    } else if s.ReleaseStep? {
      ReleaseStepDeficit(config, r, s, k);
    } else {
      TouchDeficit(config, r, s, k);
    }
  }

  lemma TouchStep(config: Config, r: Registry, s: Step)
    requires Valid(r) && Touches(s)
    ensures var r' := Apply(config, r, s);
            && r'.byId == r.byId && r'.reservations == r.reservations && |r'.nodes| == |r.nodes|
            && forall h :: 0 <= h < |r.nodes| ==> r'.nodes[h].activeUploads == r.nodes[h].activeUploads
  {
  }

  lemma AuthenticateDeficit(r: Registry, c: Connection, nodeId: string, address: string, now: int, k: string)
    requires Inv(r) && KeepsId(r, c, nodeId) && k in Authenticate(r, c, nodeId, address, now).byId
    ensures DeficitRule(r, Authenticate(r, c, nodeId, address, now), k, k == nodeId)
  {
    var known := EnsureEntry(r, c, nodeId, now);
    EnsureEntrySame(r, c, nodeId, address, now);
    KnownDeficit(known, c, nodeId, address, now, k);
    SameHeld(r, known);
  }

  lemma KnownDeficit(r: Registry, c: Connection, nodeId: string, address: string, now: int, k: string)
    requires Inv(r) && KeepsId(r, c, nodeId) && c in r.byConnection
    requires k in Authenticate(r, c, nodeId, address, now).byId
    ensures DeficitRule(r, Authenticate(r, c, nodeId, address, now), k, k == nodeId)
  {
    AuthenticateLoads(r, c, nodeId, address, now, k);
  }

  /** A run: each step enabled by the sampler and within the run assumption where it happens. */
  ghost predicate RunFrom(config: Config, r: Registry, steps: seq<Step>)
    requires Valid(r)
    decreases |steps|
  {
    steps == [] ||
    (&& Enabled(config, r, steps[0]) && Assumed(r, steps[0])
     && RunFrom(config, Apply(config, r, steps[0]), steps[1..]))
  }

  function ApplyAll(config: Config, r: Registry, steps: seq<Step>): Registry
    requires Valid(r) && RunFrom(config, r, steps)
    decreases |steps|
  {
    if steps == [] then r else ApplyAll(config, Apply(config, r, steps[0]), steps[1..])
  }

  /** In every state of every run from a state of the invariant, so from the empty registry, it holds. */
  lemma {:induction false} EveryRunKeepsInv(config: Config, r: Registry, steps: seq<Step>)
    requires Inv(r) && RunFrom(config, r, steps)
    ensures Inv(ApplyAll(config, r, steps))
    decreases |steps|
  {
    if steps != [] {
      StepKeeps(config, r, steps[0]);
      EveryRunKeepsInv(config, Apply(config, r, steps[0]), steps[1..]);
    }
  }

  /** Runs from the empty registry: the indexes agree and no counter exceeds its live reservations. */
  lemma RunsFromEmpty(config: Config, steps: seq<Step>)
    requires RunFrom(config, EMPTY, steps)
    ensures var r := ApplyAll(config, EMPTY, steps);
            && Valid(r) && IndexesAgree(r)
            && forall k <- r.byId :: r.nodes[r.byId[k]].activeUploads <= Held(r, k)
  {
    EveryRunKeepsInv(config, EMPTY, steps);
    var r := ApplyAll(config, EMPTY, steps);
    assert forall k <- r.byId :: r.nodes[r.byId[k]].activeUploads == Load(r, k);
  }
}
