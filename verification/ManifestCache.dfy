/**
 The manifest cache against the files table: once a node has sent its manifest, every READY row on it
 has its hash in the cached set.
 */
module ManifestCache {
  import opened RegistrySpec
  import opened RegistryProofs
  import opened Lifecycle
  import opened LifecycleTable
  import opened Wrappers

  // ---------------------------------------------------------------- normalized hashes

  lemma {:induction false} StripLeftStart(s: string)
    ensures StripLeft(s) != "" ==> !IsSpace(StripLeft(s)[0])
  {
    if s != "" && IsSpace(s[0]) {
      StripLeftStart(s[1..]);
    }
  }

  lemma {:induction false} StripRightEnds(s: string)
    ensures StripRight(s) != "" ==> !IsSpace(StripRight(s)[|StripRight(s)| - 1]) && s != "" && StripRight(s)[0] == s[0]
  {
    if s != "" && IsSpace(s[|s| - 1]) {
      StripRightEnds(s[..|s| - 1]);
    }
  }

  /** Normalizing twice is normalizing once. */
  lemma NormalizeTwice(sha: string)
    ensures Normalize(Normalize(sha)) == Normalize(sha)
  {
    StripLeftStart(sha);
    StripRightEnds(StripLeft(sha));
    var n := Normalize(sha);
    assert StripLeft(n) == n && StripRight(n) == n;
    assert Lower(n) == n;
  }

  /** The second normalization in reconcile_node changes nothing. */
  lemma RenormalizedSame(shas: seq<string>)
    ensures Renormalized(NormalizeAll(shas)) == NormalizeAll(shas)
  {
    var all := NormalizeAll(shas);
    forall sha | sha in all
      ensures Normalize(sha) == sha && sha != ""
    {
      var s :| s in shas && sha == Normalize(s);
      NormalizeTwice(s);
    }
    assert forall sha <- all :: sha == Normalize(sha);
  }

  // ---------------------------------------------------------------- agreement

  /** The cached hashes of a node whose manifest was received. */
  function KnownFiles(r: Registry, k: string): Option<set<string>>
    requires Valid(r)
  {
    if k in r.byId && r.nodes[r.byId[k]].manifestReceived then Some(r.nodes[r.byId[k]].files) else None
  }

  predicate Covered(r: Registry, row: Row)
    requires Valid(r)
  {
    row.status == READY && Normalize(row.sha) != "" && KnownFiles(r, row.node).Some?
    ==> Normalize(row.sha) in KnownFiles(r, row.node).value
  }

  /** Every READY row on one of these nodes is in its node's cached manifest, if there is one. */
  predicate CacheAgrees(rows: seq<Row>, r: Registry, ks: iset<string>)
    requires Valid(r)
  {
    forall row <- rows :: row.node in ks ==> Covered(r, row)
  }

  /** What is known of a node's files is forgotten or grows. */
  predicate Forgets(r: Registry, r': Registry, k: string)
    requires Valid(r) && Valid(r')
  {
    KnownFiles(r', k).Some? ==> KnownFiles(r, k).Some? && KnownFiles(r, k).value <= KnownFiles(r', k).value
  }

  ghost predicate FilesKept(r: Registry, r': Registry)
    requires Valid(r) && Valid(r')
  {
    forall k :: Forgets(r, r', k)
  }

  lemma FilesKeptTwice(a: Registry, b: Registry, c: Registry)
    requires Valid(a) && Valid(b) && Valid(c) && FilesKept(a, b) && FilesKept(b, c)
    ensures FilesKept(a, c)
  {
    forall k
      ensures Forgets(a, c, k)
    {
      assert Forgets(a, b, k) && Forgets(b, c, k);
    }
  }

  lemma AgreesDeclined(rows: seq<Row>, rows': seq<Row>, r: Registry, r': Registry, ks: iset<string>)
    requires Valid(r) && Valid(r') && CacheAgrees(rows, r, ks) && Declined(rows, rows') && FilesKept(r, r')
    ensures CacheAgrees(rows', r', ks)
  {
    forall row | row in rows' && row.node in ks
      ensures Covered(r', row)
    {
      var i :| 0 <= i < |rows'| && rows'[i] == row;
      assert rows[i] in rows && Covered(r, rows[i]) && Forgets(r, r', row.node);
    }
  }

  /** A row that shares the hash and node of a READY row is as covered as that row. */
  lemma SharedIsCovered(r: Registry, row: Row, existing: Row)
    requires Valid(r) && Covered(r, existing) && existing.status == READY
    requires row.sha == existing.sha && row.node == existing.node
    ensures Covered(r, row)
  {
  }

  // ---------------------------------------------------------------- registry steps

  lemma LoadsKeepFiles(r: Registry, r': Registry)
    requires Valid(r) && Valid(r') && SameButLoad(r, r')
    ensures FilesKept(r, r')
  {
  }

  lemma ConnectKeepsFiles(r: Registry, c: Connection, connectionId: string, now: int)
    requires Valid(r)
    ensures FilesKept(r, Connect(r, c, connectionId, now))
  {
  }

  lemma DisconnectKeepsFiles(r: Registry, c: Connection)
    requires Valid(r)
    ensures FilesKept(r, Disconnect(r, c))
  {
  }

  lemma HeartbeatKeepsFiles(r: Registry, c: Connection, freeBytes: Option<int>, now: int)
    requires Valid(r)
    ensures FilesKept(r, Heartbeat(r, c, freeBytes, now))
  {
  }

  lemma CapacityKeepsFiles(r: Registry, c: Connection, free: int)
    requires Valid(r)
    ensures FilesKept(r, UpdateCapacity(r, c, free))
  {
  }

  /** Authentication forgets the manifest of the id and of no other node. */
  lemma AuthenticateKeepsFiles(r: Registry, c: Connection, nodeId: string, address: string, now: int)
    requires Valid(r) && nodeId != ""
    ensures FilesKept(r, Authenticate(r, c, nodeId, address, now))
    ensures KnownFiles(Authenticate(r, c, nodeId, address, now), nodeId) == None
  {
    var r' := Authenticate(r, c, nodeId, address, now);
    forall k
      ensures Forgets(r, r', k)
    {
    }
  }

  lemma FileAddedKeepsFiles(r: Registry, nodeId: string, sha: string)
    requires Valid(r)
    ensures FilesKept(r, MarkFileAdded(r, nodeId, sha))
    ensures nodeId != "" && Normalize(sha) != "" && KnownFiles(MarkFileAdded(r, nodeId, sha), nodeId).Some?
            ==> Normalize(sha) in KnownFiles(MarkFileAdded(r, nodeId, sha), nodeId).value
  {
  }

  /** The implicit add of a completion adds one hash to what is known of one node. */
  lemma AddedFile(r: Registry, nodeId: string, sha: string, k: string)
    requires Valid(r) && IndexesAgree(r) && nodeId in r.byId && nodeId != ""
    ensures var known := KnownFiles(r, k);
            KnownFiles(MarkFileAdded(r, nodeId, sha), k) ==
            if k == nodeId && known.Some? && Normalize(sha) != "" then Some(known.value + {Normalize(sha)}) else known
  {
    if k in r.byId && k != nodeId {
      assert r.byId[k] != r.byId[nodeId];
    }
  }

  lemma ManifestFiles(r: Registry, nodeId: string, shas: seq<string>, k: string)
    requires Valid(r) && IndexesAgree(r) && nodeId in r.byId && nodeId != ""
    ensures KnownFiles(SetManifest(r, nodeId, shas).0, k) == if k == nodeId then Some(NormalizeAll(shas)) else KnownFiles(r, k)
  {
    if k in r.byId && k != nodeId {
      assert r.byId[k] != r.byId[nodeId];
    }
  }

  lemma DeltaFiles(r: Registry, nodeId: string, added: seq<string>, removed: seq<string>, k: string)
    requires Valid(r) && IndexesAgree(r) && nodeId in r.byId && nodeId != ""
    ensures var known := KnownFiles(r, k);
            KnownFiles(ApplyDelta(r, nodeId, added, removed), k) ==
            if k == nodeId && known.Some? then Some(known.value + NormalizeAll(added) - NormalizeAll(removed)) else known
  {
    if k in r.byId && k != nodeId {
      assert r.byId[k] != r.byId[nodeId];
    }
  }

  // ---------------------------------------------------------------- what establishes and breaks agreement

  /** A full manifest followed by reconciliation restores agreement on that node, whatever was cached. */
  lemma ReconcileEstablishes(rows: seq<Row>, r: Registry, nodeId: string, shas: seq<string>, ks: iset<string>)
    requires Valid(r) && IndexesAgree(r) && nodeId in r.byId && nodeId != ""
    requires CacheAgrees(rows, r, ks - iset{nodeId})
    ensures CacheAgrees(Reconcile(rows, nodeId, NormalizeAll(shas)), SetManifest(r, nodeId, shas).0, ks + iset{nodeId})
  {
    var manifest := NormalizeAll(shas);
    var rows' := Reconcile(rows, nodeId, manifest);
    RenormalizedSame(shas);
    forall row | row in rows' && row.node in ks + iset{nodeId}
      ensures Covered(SetManifest(r, nodeId, shas).0, row)
    {
      var i :| 0 <= i < |rows'| && rows'[i] == row;
      assert rows[i] in rows;
      ManifestFiles(r, nodeId, shas, row.node);
      if row.status == READY && row.node == nodeId {
        assert rows[i] == row && row.id !in LostIds(rows, nodeId, manifest);
      }
    }
  }

  /** A READY row of the node loses its hash to the delta. */
  predicate Drops(rows: seq<Row>, r: Registry, nodeId: string, removed: seq<string>)
    requires Valid(r)
  {
    KnownFiles(r, nodeId).Some? &&
    exists row <- rows :: row.node == nodeId && row.status == READY && Normalize(row.sha) in NormalizeAll(removed)
  }

  /** A manifest delta keeps agreement exactly when its node is not one of those, or it drops no READY row's hash. */
  lemma DeltaKeepsAgreement(rows: seq<Row>, r: Registry, nodeId: string, added: seq<string>, removed: seq<string>,
                            ks: iset<string>)
    requires Valid(r) && IndexesAgree(r) && CacheAgrees(rows, r, ks)
    requires nodeId in r.byId && nodeId != ""
    ensures CacheAgrees(rows, ApplyDelta(r, nodeId, added, removed), ks)
            <==> !(nodeId in ks && Drops(rows, r, nodeId, removed))
  {
    var r' := ApplyDelta(r, nodeId, added, removed);
    DeltaFiles(r, nodeId, added, removed, nodeId);
    if nodeId in ks && Drops(rows, r, nodeId, removed) {
      var row :| row in rows && row.node == nodeId && row.status == READY && Normalize(row.sha) in NormalizeAll(removed);
      assert !Covered(r', row);
    } else {
      forall row | row in rows && row.node in ks
        ensures Covered(r', row)
      {
        assert Covered(r, row);
        DeltaFiles(r, nodeId, added, removed, row.node);
      }
    }
  }

  /** A completion reported by the row's own node, or for a row without a node, keeps agreement. */
  lemma CompletionKeepsAgreement(rows: seq<Row>, r: Registry, r': Registry, id: string, row: Row, nodeId: string,
                                 ks: iset<string>)
    requires Valid(r) && Valid(r') && CacheAgrees(rows, r, ks) && FilesKept(r, r') && DistinctIds(rows)
    requires Lookup(rows, id) == Some(row) && nodeId != "" && "" !in r.byId && !Mismatched(row, nodeId)
    requires r' == MarkFileAdded(r, nodeId, row.sha)
    ensures CacheAgrees(SetStatus(rows, {id}, ANY_STATUS, READY), r', ks)
  {
    var rows' := SetStatus(rows, {id}, ANY_STATUS, READY);
    FileAddedKeepsFiles(r, nodeId, row.sha);
    forall after | after in rows' && after.node in ks
      ensures Covered(r', after)
    {
      var i :| 0 <= i < |rows'| && rows'[i] == after;
      LookupAt(rows, i);
      assert rows[i] in rows && Covered(r, rows[i]) && Forgets(r, r', after.node);
    }
  }

  // ---------------------------------------------------------------- downloads

  datatype Resolution = Served(address: string) | Unavailable | FileNotOnNode

  /** _resolve_storage_node; a row without a node is served from the legacy address. */
  function ResolveStorageNode(config: Config, r: Registry, row: Row, legacy: string, now: int): (resolution: Resolution)
    requires Valid(r)
  {
    if row.node == "" then Served(legacy)
    else
      var address := GetStorageAddress(config, r, row.node, now);
      if address == "" then Unavailable
      else if !NodeHasFile(config, r, row.node, row.sha, now) then FileNotOnNode
      else Served(address)
  }

  /**
   A row is served exactly when it has no node, from the legacy address, or its node is entered, was heard of
   recently, has an address, and has listed the row's hash or sent no manifest yet; and then from that address.
   */
  lemma ServedExactly(config: Config, r: Registry, row: Row, legacy: string, now: int, address: string)
    requires Valid(r)
    ensures ResolveStorageNode(config, r, row, legacy, now) == Served(address) <==>
            if row.node == "" then address == legacy
            else
              row.node in r.byId &&
              var n := r.nodes[r.byId[row.node]];
              && n.authenticated && now < n.lastPing + config.timeoutSeconds
              && n.address == address && address != ""
              && Normalize(row.sha) != "" && (n.manifestReceived ==> Normalize(row.sha) in n.files)
    ensures ResolveStorageNode(config, r, row, legacy, now) == Unavailable <==>
            row.node != "" &&
            !(row.node in r.byId &&
              var n := r.nodes[r.byId[row.node]];
              n.authenticated && now < n.lastPing + config.timeoutSeconds && n.address != "")
  {
  }

  /** A row can be shared by a new upload exactly when a download of it would be served from an address. */
  lemma ShareableIsServed(config: Config, r: Registry, row: Row, legacy: string, now: int)
    requires Valid(r)
    ensures Reusable(config, r, row, legacy, now) <==>
            match ResolveStorageNode(config, r, row, legacy, now)
            case Served(address) => address != ""
            case _ => false
    ensures ResolveStorageNode(config, r, row, legacy, now).Served? ==>
              ResolveStorageNode(config, r, row, legacy, now) == Served(ShareAddress(config, r, row, legacy, now))
  {
  }

  /** A READY row is refused as not on its node exactly when the node can be reached and has not listed its hash. */
  lemma NotOnNodeExactly(config: Config, r: Registry, row: Row, legacy: string, now: int)
    requires Valid(r) && row.status == READY
    ensures ResolveStorageNode(config, r, row, legacy, now) == FileNotOnNode
            <==> row.node != "" && GetStorageAddress(config, r, row.node, now) != ""
                 && (Normalize(row.sha) == "" || !Covered(r, row))
  {
  }

  /** Under agreement a download of a READY row with a hash is never refused as not on its node. */
  lemma ReadyRowsAreServed(config: Config, rows: seq<Row>, r: Registry, row: Row, legacy: string, now: int, ks: iset<string>)
    requires Valid(r) && CacheAgrees(rows, r, ks)
    requires row in rows && row.node in ks && row.status == READY && Normalize(row.sha) != ""
    ensures ResolveStorageNode(config, r, row, legacy, now) ==
            if row.node == "" then Served(legacy)
            else if GetStorageAddress(config, r, row.node, now) == "" then Unavailable
            else Served(GetStorageAddress(config, r, row.node, now))
  {
    assert Covered(r, row);
  }
}
