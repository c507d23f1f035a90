/**
 The registry as the coordinator runs it: two dictionaries over shared node objects, updated in place
 under one lock.  Every method is proved to take the step of RegistrySpec.
 */
module StorageNodeRegistry {
  import opened RegistrySpec
  import opened RegistryProofs
  import opened Wrappers

  class StorageNode {
    ghost const handle: nat
    const connection: Connection
    var nodeId: string
    var address: string
    var authenticated: bool
    var activeUploads: nat
    var files: set<string>
    var manifestReceived: bool
    var freeBytes: Option<int>
    var lastPing: int

    constructor (ghost handle: nat, connection: Connection, nodeId: string, now: int)
      ensures this.handle == handle && Value() == NewNode(connection, nodeId, now)
    {
      this.handle := handle;
      this.connection := connection;
      this.nodeId := nodeId;
      address, authenticated, activeUploads := "", false, 0;
      files, manifestReceived, freeBytes, lastPing := {}, false, None, now;
    }

    ghost function Value(): NodeInfo
      reads this
    {
      NodeInfo(connection, nodeId, address, authenticated, activeUploads, files, manifestReceived, freeBytes, lastPing)
    }

    predicate IsHealthy(config: Config, now: int)
      reads this
    {
      authenticated && now - lastPing < config.timeoutSeconds
    }
  }

  class NodeRegistry {
    const config: Config
    var nodesByConnection: map<Connection, StorageNode>
    var nodesById: map<string, StorageNode>
    var reservations: map<string, Reservation>

    /** Every node object ever made, in order. */
    ghost var nodes: seq<StorageNode>

    ghost predicate Consistent()
      reads this, nodes
    {
      && (forall i :: 0 <= i < |nodes| ==> nodes[i].handle == i)
      && (forall c <- nodesByConnection :: Known(nodesByConnection[c]))
      && (forall k <- nodesById :: Known(nodesById[k]))
    }

    ghost predicate Known(n: StorageNode)
      reads this
    {
      n.handle < |nodes| && nodes[n.handle] == n
    }

    /** The values of all node objects. */
    ghost function Values(): (values: seq<NodeInfo>)
      reads this, nodes
      ensures |values| == |nodes|
    {
      seq(|nodes|, i requires 0 <= i < |nodes| reads this, nodes => nodes[i].Value())
    }

    ghost function Handles<K>(index: map<K, StorageNode>): map<K, nat>
    {
      map k | k in index :: index[k].handle
    }

    ghost function View(): (r: Registry)
      requires Consistent()
      reads this, nodes
      ensures Valid(r)
    {
      Registry(Values(), Handles(nodesByConnection), Handles(nodesById), reservations)
    }

    constructor (config: Config)
      ensures this.config == config && nodes == [] && Consistent() && View() == EMPTY
    {
      this.config := config;
      nodesByConnection, nodesById, reservations, nodes := map[], map[], map[], [];
    }

    /** Changing the fields of one node changes its entry and nothing else. */
    twostate lemma OnlyOneChanged(n: StorageNode)
      requires old(allocated(this)) && old(Consistent()) && old(Known(n)) && nodes == old(nodes)
      requires forall m <- nodes :: m != n ==> unchanged(m)
      ensures Values() == old(Values())[n.handle := n.Value()]
    {
      forall i | 0 <= i < |nodes| && i != n.handle
        ensures Values()[i] == old(Values())[i]
      {
        assert nodes[i] in nodes && nodes[i] != n;
        assert nodes[i].Value() == old(nodes[i].Value());
      }
    }

    twostate lemma NoneChanged()
      requires old(allocated(this)) && nodes == old(nodes)
      requires forall m <- nodes :: unchanged(m)
      ensures Values() == old(Values())
    {
      forall i | 0 <= i < |nodes|
        ensures Values()[i] == old(Values())[i]
      {
        assert nodes[i] in nodes;
        assert nodes[i].Value() == old(nodes[i].Value());
      }
    }

    method AddConnection(c: Connection, connectionId: string, now: int) returns (n: StorageNode)
      requires Consistent()
      modifies this
      ensures Consistent() && View() == Connect(old(View()), c, connectionId, now)
      ensures fresh(n) && nodes == old(nodes) + [n] && n.connection == c
      ensures nodesByConnection == old(nodesByConnection)[c := n]
      ensures nodesById == old(nodesById) && reservations == old(reservations)
    {
      n := new StorageNode(|nodes|, c, connectionId, now);
      nodes := nodes + [n];
      nodesByConnection := nodesByConnection[c := n];
      assert Values() == old(Values()) + [n.Value()];
      assert Handles(nodesByConnection) == Handles(old(nodesByConnection))[c := n.handle];
    }

    method RemoveConnection(c: Connection)
      requires Consistent()
      modifies this
      ensures Consistent() && nodes == old(nodes) && View() == Disconnect(old(View()), c)
    {
      if c in nodesByConnection {
        var n := nodesByConnection[c];
        assert View().byConnection[c] == n.handle && View().nodes[n.handle].nodeId == n.nodeId;
        nodesByConnection := nodesByConnection - {c};
        assert Handles(nodesByConnection) == Handles(old(nodesByConnection)) - {c};
        if n.nodeId in nodesById && nodesById[n.nodeId] == n {
          nodesById := nodesById - {n.nodeId};
          assert Handles(nodesById) == Handles(old(nodesById)) - {n.nodeId};
        }
      }
      NoneChanged();
    }

    /** The entry of a connection, made first when the connection is not known. */
    method FindOrAdd(c: Connection, nodeId: string, now: int) returns (n: StorageNode)
      requires Consistent()
      modifies this
      ensures Consistent() && View() == EnsureEntry(old(View()), c, nodeId, now)
      ensures nodes == old(nodes) || (fresh(n) && nodes == old(nodes) + [n])
      ensures c in nodesByConnection && nodesByConnection[c] == n && Known(n)
    {
      if c in nodesByConnection {
        n := nodesByConnection[c];
        NoneChanged();
      } else {
        n := AddConnection(c, nodeId, now);
      }
    }

    method Evict(c: Connection, nodeId: string)
      requires Consistent()
      modifies this`nodesByConnection
      ensures Consistent() && View() == EvictOld(old(View()), c, nodeId)
    {
      if nodeId in nodesById {
        var oldNode := nodesById[nodeId];
        assert View().nodes[oldNode.handle].connection == oldNode.connection;
        if oldNode.connection != c {
          nodesByConnection := nodesByConnection - {oldNode.connection};
          assert Handles(nodesByConnection) == Handles(old(nodesByConnection)) - {oldNode.connection};
        }
      }
      NoneChanged();
    }

    /** At most one node object was added, and it is new. */
    twostate predicate Grown()
      reads this
    {
      || nodes == old(nodes)
      || (|nodes| > 0 && fresh(nodes[|nodes| - 1]) && nodes == old(nodes) + [nodes[|nodes| - 1]])
    }

    method Authenticate(c: Connection, nodeId: string, address: string, now: int) returns (n: StorageNode)
      requires Consistent()
      modifies this, nodes
      ensures Consistent() && View() == RegistrySpec.Authenticate(old(View()), c, nodeId, address, now)
      ensures Grown()
    {
      n := FindOrAdd(c, nodeId, now);
      TakeOver(n, c, nodeId, address, now);
    }

    method TakeOver(n: StorageNode, c: Connection, nodeId: string, address: string, now: int)
      requires Consistent() && c in nodesByConnection && nodesByConnection[c] == n
      modifies this`nodesByConnection, this`nodesById, n
      ensures Consistent() && View() == RegistrySpec.TakeOver(old(View()), c, nodeId, address, now)
    {
      Evict(c, nodeId);
      Enter(n, nodeId, address, now);
    }

    method Enter(n: StorageNode, nodeId: string, address: string, now: int)
      requires Consistent() && Known(n)
      modifies this`nodesById, n
      ensures Consistent() && View() == RegistrySpec.Enter(old(View()), n.handle, nodeId, address, now)
    {
      n.nodeId := nodeId;
      n.address := address;
      n.authenticated := true;
      n.lastPing := now;
      n.files := {};
      n.manifestReceived := false;
      nodesById := nodesById[nodeId := n];
      OnlyOneChanged(n);
      assert Handles(nodesById) == Handles(old(nodesById))[nodeId := n.handle];
    }

    method Heartbeat(c: Connection, freeBytes: Option<int>, now: int)
      requires Consistent()
      modifies nodes
      ensures Consistent() && View() == RegistrySpec.Heartbeat(old(View()), c, freeBytes, now)
    {
      if c in nodesByConnection {
        var n := nodesByConnection[c];
        n.lastPing := now;
        if freeBytes.Some? {
          n.freeBytes := freeBytes;
        }
        OnlyOneChanged(n);
      } else {
        NoneChanged();
      }
    }

    method UpdateCapacity(c: Connection, free: int)
      requires Consistent()
      modifies nodes
      ensures Consistent() && View() == RegistrySpec.UpdateCapacity(old(View()), c, free)
    {
      if free >= 0 && c in nodesByConnection {
        var n := nodesByConnection[c];
        n.freeBytes := Some(free);
        OnlyOneChanged(n);
      } else {
        NoneChanged();
      }
    }

    /** _release_reservation_locked: pops one reservation and takes one from its node's counter. */
    method ReleaseLocked(rid: string)
      requires Consistent() && rid in reservations
      modifies this`reservations, nodes
      ensures Consistent() && View() == Drop(old(View()), rid)
    {
      var nodeId := reservations[rid].nodeId;
      reservations := reservations - {rid};
      if nodeId in nodesById {
        var n := nodesById[nodeId];
        if n.activeUploads > 0 {
          n.activeUploads := n.activeUploads - 1;
        }
        OnlyOneChanged(n);
      } else {
        NoneChanged();
      }
    }

    method ReleaseReservation(rid: string) returns (released: bool)
      requires Consistent()
      modifies this`reservations, nodes
      ensures Consistent() && View() == Release(old(View()), rid)
      ensures released <==> rid != "" && rid in old(reservations)
    {
      if rid == "" || rid !in reservations {
        NoneChanged();
        return false;
      }
      ReleaseLocked(rid);
      return true;
    }

    /** Drops what has expired, in whatever order the reservations come. */
    method ReapExpired(now: int)
      requires Consistent()
      modifies this`reservations, nodes
      ensures Consistent() && View() == Reap(old(View()), now)
    {
      ghost var start := View();
      var expired := set rid | rid in reservations && reservations[rid].expiresAt <= now;
      var todo := expired;
      NoneChanged();
      DropNone(start);
      while todo != {}
        invariant Consistent() && todo <= expired
        invariant View() == DropAll(start, expired - todo)
        decreases todo
      {
        var rid :| rid in todo;
        DropOneMore(start, expired - todo, rid);
        assert (expired - todo) + {rid} == expired - (todo - {rid});
        ReleaseLocked(rid);
        todo := todo - {rid};
      }
      assert expired - {} == expired == Expired(start, now);
    }

    /** The ids whose nodes may take an upload now. */
    method HealthyNodes(now: int) returns (ids: set<string>)
      requires Consistent()
      ensures ids == Eligible(config, View(), now)
    {
      ids := set k | k in nodesById && nodesById[k].IsHealthy(config, now) && nodesById[k].address != ""
        && (config.minFreeBytes <= 0 || nodesById[k].freeBytes.None? || nodesById[k].freeBytes.value >= config.minFreeBytes);
      forall k | k in nodesById
        ensures View().nodes[View().byId[k]] == nodesById[k].Value()
      {
      }
    }

    /** _upload_score as an order on the node objects. */
    predicate Better(a: StorageNode, b: StorageNode)
      reads a, b
    {
      if a.activeUploads != b.activeUploads then a.activeUploads < b.activeUploads
      else if MoreFree(a.freeBytes, b.freeBytes) then true
      else if MoreFree(b.freeBytes, a.freeBytes) then false
      else StringLess(a.nodeId, b.nodeId)
    }

    /** The better one of the two nodes drawn; the only one when there is only one. */
    method ChooseOf(healthy: set<string>, first: string, second: string) returns (key: string)
      requires Consistent() && healthy <= nodesById.Keys && Sampled(healthy, first, second)
      ensures key == Winner(View(), healthy, first, second)
    {
      assert View().nodes[View().byId[first]] == nodesById[first].Value();
      if |healthy| == 1 {
        return first;
      }
      assert |healthy| != 0;
      assert View().nodes[View().byId[second]] == nodesById[second].Value();
      return if Better(nodesById[second], nodesById[first]) then second else first;
    }

    method Pick(now: int, first: string, second: string) returns (pick: Option<string>)
      requires Consistent()
      requires Eligible(config, View(), now) == {} || Sampled(Eligible(config, View(), now), first, second)
      ensures pick == var eligible := Eligible(config, View(), now);
                      if eligible == {} then None else Some(Winner(View(), eligible, first, second))
    {
      var healthy := HealthyNodes(now);
      if healthy == {} {
        return None;
      }
      var key := ChooseOf(healthy, first, second);
      return Some(key);
    }

    method ReapAndPick(now: int, first: string, second: string) returns (pick: Option<string>)
      requires Consistent() && Offered(config, View(), now, first, second)
      modifies this`reservations, nodes
      ensures Consistent() && View() == Reap(old(View()), now)
      ensures pick == Picked(config, old(View()), now, first, second)
    {
      ReapExpired(now);
      pick := Pick(now, first, second);
    }

    /** The sampler's two ids are inputs; they are drawn from the nodes eligible after the reap. */
    method SelectForUpload(now: int, rid: string, ttl: int, first: string, second: string) returns (pick: Option<string>)
      requires Consistent() && Offered(config, View(), now, first, second)
      modifies this`reservations, nodes
      ensures Consistent() && View() == Select(config, old(View()), now, rid, ttl, first, second)
      ensures pick == Picked(config, old(View()), now, first, second)
    {
      pick := ReapAndPick(now, first, second);
      ReserveFor(pick, rid, Expiry(now, ttl));
    }

    method ReserveFor(pick: Option<string>, rid: string, expiresAt: int)
      requires Consistent() && (pick.Some? ==> pick.value in nodesById)
      modifies this`reservations, nodes
      ensures Consistent() && View() == ReserveOn(old(View()), pick, rid, expiresAt)
    {
      if pick.None? || rid == "" {
        NoneChanged();
        return;
      }
      ReserveSlot(rid, pick.value, expiresAt);
    }

    method ReserveSlot(rid: string, key: string, expiresAt: int)
      requires Consistent() && key in nodesById
      modifies this`reservations, nodes
      ensures Consistent() && View() == Reserve(old(View()), rid, old(View()).byId[key], expiresAt)
    {
      if rid in reservations {
        ReleaseLocked(rid);
      } else {
        NoneChanged();
      }
      TakeSlot(rid, nodesById[key], expiresAt);
    }

    method TakeSlot(rid: string, n: StorageNode, expiresAt: int)
      requires Consistent() && Known(n)
      modifies this`reservations, n`activeUploads
      ensures Consistent() && View() == Take(old(View()), rid, n.handle, expiresAt)
    {
      assert View().nodes[n.handle] == n.Value();
      reservations := reservations[rid := Reservation(n.nodeId, expiresAt)];
      n.activeUploads := n.activeUploads + 1;
      OnlyOneChanged(n);
    }

    /** The normalized hashes of a list; blank ones are left out. */
    method NormalizeList(shas: seq<string>) returns (normalized: set<string>)
      ensures normalized == NormalizeAll(shas)
    {
      normalized := {};
      for i := 0 to |shas|
        invariant normalized == NormalizeAll(shas[..i])
      {
        assert shas[..i + 1] == shas[..i] + [shas[i]];
        var norm := Normalize(shas[i]);
        if norm != "" {
          normalized := normalized + {norm};
        }
      }
      assert shas[..|shas|] == shas;
    }

    method SetManifest(nodeId: string, shas: seq<string>) returns (normalized: Option<set<string>>)
      requires Consistent()
      modifies nodes
      ensures Consistent() && (View(), normalized) == RegistrySpec.SetManifest(old(View()), nodeId, shas)
    {
      if nodeId == "" {
        NoneChanged();
        return None;
      }
      var all := NormalizeList(shas);
      if nodeId !in nodesById {
        NoneChanged();
        return None;
      }
      var n := nodesById[nodeId];
      n.files := all;
      n.manifestReceived := true;
      OnlyOneChanged(n);
      return Some(all);
    }

    method ApplyManifestDelta(nodeId: string, added: seq<string>, removed: seq<string>) returns (applied: bool)
      requires Consistent()
      modifies nodes
      ensures Consistent() && View() == ApplyDelta(old(View()), nodeId, added, removed)
      ensures applied <==> nodeId != "" && nodeId in nodesById
    {
      if nodeId == "" || nodeId !in nodesById {
        NoneChanged();
        return false;
      }
      var plus := NormalizeList(added);
      var minus := NormalizeList(removed);
      var n := nodesById[nodeId];
      n.files := n.files + plus - minus;
      OnlyOneChanged(n);
      return true;
    }

    method MarkFileAdded(nodeId: string, sha: string)
      requires Consistent()
      modifies nodes
      ensures Consistent() && View() == RegistrySpec.MarkFileAdded(old(View()), nodeId, sha)
    {
      var norm := Normalize(sha);
      if nodeId != "" && norm != "" && nodeId in nodesById {
        var n := nodesById[nodeId];
        n.files := n.files + {norm};
        OnlyOneChanged(n);
      } else {
        NoneChanged();
      }
    }

    method NodeHasFile(nodeId: string, sha: string, now: int) returns (has: bool)
      requires Consistent()
      ensures has <==> RegistrySpec.NodeHasFile(config, View(), nodeId, sha, now)
    {
      var norm := Normalize(sha);
      if nodeId == "" || norm == "" || nodeId !in nodesById {
        return false;
      }
      var n := nodesById[nodeId];
      assert View().nodes[View().byId[nodeId]] == n.Value();
      if !n.IsHealthy(config, now) {
        return false;
      }
      return !n.manifestReceived || norm in n.files;
    }

    method GetStorageAddress(nodeId: string, now: int) returns (address: string)
      requires Consistent()
      ensures address == RegistrySpec.GetStorageAddress(config, View(), nodeId, now)
    {
      if nodeId == "" || nodeId !in nodesById {
        return "";
      }
      assert View().nodes[View().byId[nodeId]] == nodesById[nodeId].Value();
      return if nodesById[nodeId].IsHealthy(config, now) then nodesById[nodeId].address else "";
    }
  }
}
