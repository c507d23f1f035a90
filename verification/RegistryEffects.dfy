/**
 What the registry's operations do, said of entries, reservations and times: which node a selection may
 pick and why, how long it counts as healthy, and which reservations live.
 */
module RegistryEffects {
  import opened RegistrySpec
  import opened RegistryProofs
  import opened Wrappers

  // ---------------------------------------------------------------- which nodes may be picked

  /** An upload may go to this id now: it is entered, heard of recently, has an address and enough room. */
  predicate MayTake(config: Config, r: Registry, k: string, now: int)
    requires Valid(r)
  {
    k in r.byId &&
    var n := r.nodes[r.byId[k]];
    && n.authenticated && now < n.lastPing + config.timeoutSeconds
    && n.address != ""
    && (config.minFreeBytes > 0 && n.freeBytes.Some? ==> config.minFreeBytes <= n.freeBytes.value)
  }

  lemma ReapKeepsEligible(config: Config, r: Registry, now: int, k: string)
    requires Valid(r)
    ensures k in Eligible(config, Reap(r, now), now) <==> MayTake(config, r, k, now)
  {
    if k in r.byId {
      var h := r.byId[k];
      assert Reap(r, now).nodes[h] == r.nodes[h].(activeUploads := Reap(r, now).nodes[h].activeUploads);
    }
  }

  /** A selection picks a node exactly when one may take the upload, and then one that may. */
  lemma PickedMayTake(config: Config, r: Registry, now: int, first: string, second: string)
    requires Valid(r) && Offered(config, r, now, first, second)
    ensures var pick := Picked(config, r, now, first, second);
            && (pick.Some? ==> MayTake(config, r, pick.value, now))
            && (pick.None? ==> forall k :: !MayTake(config, r, k, now))
  {
    var pick := Picked(config, r, now, first, second);
    if pick.Some? {
      ReapKeepsEligible(config, r, now, pick.value);
    } else {
      forall k
        ensures !MayTake(config, r, k, now)
      {
        ReapKeepsEligible(config, r, now, k);
      }
    }
  }

  /** Free bytes at least as many; a node that has not reported any counts as unlimited. */
  predicate AtLeastAsFree(a: NodeInfo, b: NodeInfo) {
    a.freeBytes.None? || (b.freeBytes.Some? && a.freeBytes.value >= b.freeBytes.value)
  }

  /**
   Of the two nodes drawn the pick is the less loaded once expired slots are gone; at equal load the one
   with more free bytes; at equal free bytes too, the one whose id is not greater.
   */
  lemma PickIsTheBetter(config: Config, r: Registry, now: int, first: string, second: string, w: string, o: string)
    requires Inv(r) && Offered(config, r, now, first, second)
    requires MayTake(config, r, first, now) && MayTake(config, r, second, now) && first != second
    requires (w == first && o == second) || (w == second && o == first)
    requires Picked(config, r, now, first, second) == Some(w)
    ensures var (a, b) := (r.nodes[r.byId[w]], r.nodes[r.byId[o]]);
            && Load(Reap(r, now), w) <= Load(Reap(r, now), o)
            && (Load(Reap(r, now), w) == Load(Reap(r, now), o) ==> AtLeastAsFree(a, b))
            && (Load(Reap(r, now), w) == Load(Reap(r, now), o) && AtLeastAsFree(b, a) ==> !Before(o, w))
  {
    var reaped := Reap(r, now);
    var eligible := Eligible(config, reaped, now);
    ReapKeepsEligible(config, r, now, first);
    ReapKeepsEligible(config, r, now, second);
    assert |eligible| > 1 by {
      assert {first, second} <= eligible;
      assert |eligible| == |eligible - {first, second}| + |{first, second}|;
    }
    WinnerIsNotBeaten(reaped, eligible, first, second, w, o);
    NotBeaten(reaped.nodes[r.byId[w]], reaped.nodes[r.byId[o]]);
    assert reaped.nodes[r.byId[w]].nodeId == w && reaped.nodes[r.byId[o]].nodeId == o;
  }

  lemma WinnerIsNotBeaten(r: Registry, eligible: set<string>, first: string, second: string, w: string, o: string)
    requires Valid(r) && Sampled(eligible, first, second) && eligible <= r.byId.Keys && |eligible| > 1
    requires w == Winner(r, eligible, first, second) && o == if w == first then second else first
    ensures o in eligible && !ScoreLess(r.nodes[r.byId[o]], r.nodes[r.byId[w]])
  {
    Asymmetric(r.nodes[r.byId[w]], r.nodes[r.byId[o]]);
  }

  lemma Asymmetric(a: NodeInfo, b: NodeInfo)
    ensures !(ScoreLess(a, b) && ScoreLess(b, a))
  {
    NotBoth(a.nodeId, b.nodeId);
  }

  lemma NotBeaten(w: NodeInfo, o: NodeInfo)
    requires !ScoreLess(o, w)
    ensures w.activeUploads <= o.activeUploads
    ensures w.activeUploads == o.activeUploads ==> AtLeastAsFree(w, o)
    ensures w.activeUploads == o.activeUploads && AtLeastAsFree(o, w) ==> !Before(o.nodeId, w.nodeId)
  {
    BeforeIsLess(o.nodeId, w.nodeId);
  }

  /** a comes before b: it is a proper prefix, or is smaller at the first place where they differ. */
  predicate Before(a: string, b: string) {
    exists i: nat :: i <= |a| && i < |b| && a[..i] == b[..i] && (i == |a| || a[i] < b[i])
  }

  lemma NotBoth(a: string, b: string)
    ensures !(StringLess(a, b) && StringLess(b, a))
  {
    if a != "" && b != "" && a[0] == b[0] {
      NotBoth(a[1..], b[1..]);
    }
  }

  /** The comparison of node ids is the lexicographic order. */
  lemma {:induction false} BeforeIsLess(a: string, b: string)
    ensures StringLess(a, b) <==> Before(a, b)
  {
    if b == "" {
    } else if a == "" {
      assert a[..0] == b[..0];
    } else if a[0] != b[0] {
      if a[0] < b[0] {
        assert a[..0] == b[..0];
      }
      forall i: nat | 0 < i <= |a| && i < |b|
        ensures a[..i] != b[..i]
      {
        assert a[..i][0] == a[0] && b[..i][0] == b[0];
      }
    } else {
      BeforeIsLess(a[1..], b[1..]);
      TailBefore(a, b);
    }
  }

  lemma TailBefore(a: string, b: string)
    requires a != "" && b != "" && a[0] == b[0]
    ensures Before(a[1..], b[1..]) <==> Before(a, b)
  {
    var c, d := a[1..], b[1..];
    if i: nat :| i <= |c| && i < |d| && c[..i] == d[..i] && (i == |c| || c[i] < d[i]) {
      assert a[..i + 1] == [a[0]] + c[..i] && b[..i + 1] == [b[0]] + d[..i];
    }
    if i: nat :| i <= |a| && i < |b| && a[..i] == b[..i] && (i == |a| || a[i] < b[i]) {
      assert i > 0;
      assert c[..i - 1] == a[..i][1..] && d[..i - 1] == b[..i][1..];
      assert i < |a| ==> c[i - 1] == a[i] && d[i - 1] == b[i];
    }
  }

  // ---------------------------------------------------------------- reservations and time

  /**
   A selection at a time drops exactly the reservations whose time has come, and adds its own, if it picks
   a node and has an id, for its lifetime on the node picked.
   */
  lemma ReservationsAfterSelect(config: Config, r: Registry, now: int, rid: string, ttl: int, first: string, second: string,
                                other: string)
    requires Inv(r) && Offered(config, r, now, first, second)
    ensures var pick := Picked(config, r, now, first, second);
            var after := Select(config, r, now, rid, ttl, first, second).reservations;
            if pick.Some? && other == rid != "" then
              other in after && after[other] == Reservation(pick.value, now + ttl)
            else
              && (other in after <==> other in r.reservations && now < r.reservations[other].expiresAt)
              && (other in after ==> after[other] == r.reservations[other])
  {
    SelectReservations(config, r, now, rid, ttl, first, second);
    assert Expiry(now, ttl) == now + ttl;
    assert other in Expired(r, now) <==> other in r.reservations && r.reservations[other].expiresAt <= now;
  }

  /** Releasing a slot that was just reserved under a new id leaves the registry as the reap left it. */
  lemma ReleaseUndoesSelect(config: Config, r: Registry, now: int, rid: string, ttl: int, first: string, second: string)
    requires Inv(r) && Offered(config, r, now, first, second)
    requires rid != "" && rid !in r.reservations
    ensures Release(Select(config, r, now, rid, ttl, first, second), rid) == Reap(r, now)
  {
    var reaped := Reap(r, now);
    ReapKeeps(r, now);
    var pick := Picked(config, r, now, first, second);
    if pick.Some? {
      DropUndoesTake(reaped, rid, pick.value, Expiry(now, ttl));
    }
  }

  lemma DropUndoesTake(r: Registry, rid: string, k: string, expiresAt: int)
    requires Inv(r) && rid !in r.reservations && k in r.byId
    ensures Drop(Reserve(r, rid, r.byId[k], expiresAt), rid) == r
  {
    var h := r.byId[k];
    var taken := Take(r, rid, h, expiresAt);
    assert Reserve(r, rid, h, expiresAt) == taken;
    assert taken.reservations - {rid} == r.reservations;
    assert Drop(taken, rid).nodes[h] == r.nodes[h];
    assert Drop(taken, rid).nodes == r.nodes;
  }

  // ---------------------------------------------------------------- nodes over time

  /** After authentication the id leads to the connection's entry, with the given address, no manifest, and heard of now. */
  lemma AuthenticatedNode(r: Registry, c: Connection, nodeId: string, address: string, now: int)
    requires Inv(r) && KeepsId(r, c, nodeId)
    ensures var r' := Authenticate(r, c, nodeId, address, now);
            && nodeId in r'.byId && c in r'.byConnection && r'.byId[nodeId] == r'.byConnection[c]
            && var n := r'.nodes[r'.byId[nodeId]];
               && n.connection == c && n.nodeId == nodeId && n.address == address && n.authenticated
               && n.lastPing == now && n.files == {} && !n.manifestReceived
               && (c in r.byConnection ==> n.freeBytes == r.nodes[r.byConnection[c]].freeBytes)
  {
    EnsureEntrySame(r, c, nodeId, address, now);
  }

  /** Authentication touches no other id, except that the old entry of this id is no longer connected. */
  lemma AuthenticationTouchesOneNode(r: Registry, c: Connection, nodeId: string, address: string, now: int, k: string)
    requires Inv(r) && KeepsId(r, c, nodeId) && k != nodeId
    ensures var r' := Authenticate(r, c, nodeId, address, now);
            && (k in r'.byId <==> k in r.byId)
            && (k in r.byId ==> r'.byId[k] == r.byId[k] && r'.nodes[r'.byId[k]] == r.nodes[r.byId[k]])
  {
    var known := EnsureEntry(r, c, nodeId, now);
    EnsureEntrySame(r, c, nodeId, address, now);
    if k in r.byId {
      assert known.byId[k] != known.byConnection[c];
    }
  }

  /** A heartbeat makes its node healthy again until the timeout from now, keeps an unreported capacity, and touches no other node. */
  lemma HeartbeatRenews(config: Config, r: Registry, c: Connection, freeBytes: Option<int>, now: int, later: int)
    requires Valid(r) && c in r.byConnection
    ensures var r' := Heartbeat(r, c, freeBytes, now);
            var h := r.byConnection[c];
            && (Healthy(config, r'.nodes[h], later) <==> r.nodes[h].authenticated && later < now + config.timeoutSeconds)
            && r'.nodes[h].freeBytes == (if freeBytes.Some? then freeBytes else r.nodes[h].freeBytes)
            && r' == r.(nodes := r.nodes[h := r.nodes[h].(lastPing := now, freeBytes := r'.nodes[h].freeBytes)])
  {
  }

  /** A capacity report that is not negative sets the free bytes of its node, and nothing else. */
  lemma CapacityIsRecorded(r: Registry, c: Connection, free: int)
    requires Valid(r)
    ensures var r' := UpdateCapacity(r, c, free);
            if c in r.byConnection && free >= 0
            then r' == r.(nodes := r.nodes[r.byConnection[c] := r.nodes[r.byConnection[c]].(freeBytes := Some(free))])
            else r' == r
  {
  }

  /** A closed connection is forgotten, with the id it was authenticated under; every other id and connection stays. */
  lemma DisconnectForgets(r: Registry, c: Connection)
    requires Inv(r) && c in r.byConnection
    ensures var r' := Disconnect(r, c);
            var n := r.nodes[r.byConnection[c]];
            && c !in r'.byConnection
            && (forall d :: d != c ==> (d in r'.byConnection <==> d in r.byConnection))
            && (forall d <- r'.byConnection :: r'.byConnection[d] == r.byConnection[d])
            && (forall k :: k in r'.byId <==> k in r.byId && !(n.authenticated && k == n.nodeId))
            && (forall k <- r'.byId :: r'.byId[k] == r.byId[k])
            && r'.nodes == r.nodes && r'.reservations == r.reservations
  {
    var h := r.byConnection[c];
    var n := r.nodes[h];
    assert n.authenticated ==> n.nodeId in r.byId && r.byId[n.nodeId] == h;
    assert n.nodeId in r.byId && r.byId[n.nodeId] == h ==> n.authenticated;
  }

  /** A new connection has an entry that no id leads to, and no upload can be sent to it. */
  lemma ConnectionStartsUnknown(r: Registry, c: Connection, connectionId: string, now: int)
    requires Valid(r)
    ensures var r' := Connect(r, c, connectionId, now);
            && c in r'.byConnection && r'.byConnection[c] == |r.nodes| && r'.byId == r.byId
            && !r'.nodes[r'.byConnection[c]].authenticated && r'.nodes[r'.byConnection[c]].activeUploads == 0
            && r'.nodes[..|r.nodes|] == r.nodes && r'.reservations == r.reservations
            && forall d :: d != c ==> (d in r'.byConnection <==> d in r.byConnection)
  {
  }

  // ---------------------------------------------------------------- hashes

  /** A node has a file when it is heard of, and its manifest, if one was received, lists the hash; a blank hash is nowhere. */
  lemma HasFileExactly(config: Config, r: Registry, k: string, sha: string, now: int)
    requires Valid(r)
    ensures NodeHasFile(config, r, k, sha, now) <==>
            k != "" && k in r.byId && Normalize(sha) != "" &&
            var n := r.nodes[r.byId[k]];
            n.authenticated && now < n.lastPing + config.timeoutSeconds && (!n.manifestReceived || Normalize(sha) in n.files)
  {
  }

  predicate AllSpace(s: string) {
    forall i :: 0 <= i < |s| ==> s[i] == ' ' || '\t' <= s[i] <= '\r'
  }

  lemma {:induction false} StripLeftDrops(before: string, s: string)
    requires AllSpace(before) && (s != "" ==> !IsSpace(s[0]))
    ensures StripLeft(before + s) == s
  {
    if before == "" {
      assert before + s == s;
    } else {
      assert (before + s)[1..] == before[1..] + s;
      StripLeftDrops(before[1..], s);
    }
  }

  lemma {:induction false} StripRightDrops(s: string, after: string)
    requires AllSpace(after) && (s != "" ==> !IsSpace(s[|s| - 1]))
    ensures StripRight(s + after) == s
  {
    if after == "" {
      assert s + after == s;
    } else {
      var n := |s + after| - 1;
      assert (s + after)[..n] == s + after[..|after| - 1] && IsSpace((s + after)[n]);
      StripRightDrops(s, after[..|after| - 1]);
    }
  }

  /** Normalizing drops the white space around a hash and lowers its letters; white space alone is blank. */
  lemma NormalizeDropsSpaceAndCase(before: string, s: string, after: string)
    requires AllSpace(before) && AllSpace(after)
    requires s != "" ==> !IsSpace(s[0]) && !IsSpace(s[|s| - 1])
    ensures var n := Normalize(before + s + after);
            && |n| == |s|
            && forall i :: 0 <= i < |s| ==> n[i] == if 'A' <= s[i] <= 'Z' then ((s[i] as int) + 32) as char else s[i]
  {
    if s == "" {
      assert AllSpace(before + s + after);
      assert before + s + after == (before + after) + "";
      StripLeftDrops(before + after, "");
      assert StripRight("") == "";
    } else {
      assert before + s + after == before + (s + after);
      assert (s + after)[0] == s[0];
      StripLeftDrops(before, s + after);
      StripRightDrops(s, after);
    }
  }
}
