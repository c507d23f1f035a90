/**
 The storage-node registry as a value: node entries, the two indexes over them, upload-slot
 reservations and the manifest cache.  An entry's position in nodes is its identity, so that two
 indexes can hold the same entry, as they share one object in the program.
 */
module RegistrySpec {
  import opened Wrappers

  /** The identity of a socket connection. */
  type Connection = nat

  datatype Config = Config(timeoutSeconds: int, minFreeBytes: int)

  datatype NodeInfo = NodeInfo(
    connection: Connection,
    nodeId: string,
    address: string,
    authenticated: bool,
    activeUploads: nat,
    files: set<string>,
    manifestReceived: bool,
    freeBytes: Option<int>,
    lastPing: int)

  datatype Reservation = Reservation(nodeId: string, expiresAt: int)

  datatype Registry = Registry(
    nodes: seq<NodeInfo>,
    byConnection: map<Connection, nat>,
    byId: map<string, nat>,
    reservations: map<string, Reservation>)

  const EMPTY := Registry([], map[], map[], map[])

  /** Both indexes point at existing entries. */
  predicate Valid(r: Registry) {
    && (forall c <- r.byConnection :: r.byConnection[c] < |r.nodes|)
    && (forall k <- r.byId :: r.byId[k] < |r.nodes|)
  }

  // ---------------------------------------------------------------- hashes

  function LowerChar(c: char): char {
    if 'A' <= c <= 'Z' then ((c as int) + 32) as char else c
  }

  predicate IsSpace(c: char) {
    c == ' ' || '\t' <= c <= '\r'
  }

  function StripLeft(s: string): string {
    if s != "" && IsSpace(s[0]) then StripLeft(s[1..]) else s
  }

  function StripRight(s: string): string {
    if s != "" && IsSpace(s[|s| - 1]) then StripRight(s[..|s| - 1]) else s
  }

  function Lower(s: string): (r: string)
    ensures |r| == |s|
  {
    seq(|s|, i requires 0 <= i < |s| => LowerChar(s[i]))
  }

  /** sha.strip().lower(); a missing hash and a blank one are both "". */
  function Normalize(sha: string): string {
    Lower(StripRight(StripLeft(sha)))
  }

  function NormalizeAll(shas: seq<string>): (r: set<string>)
    ensures "" !in r
  {
    set s | s in shas && Normalize(s) != "" :: Normalize(s)
  }

  // ---------------------------------------------------------------- connections

  function NewNode(c: Connection, nodeId: string, now: int): NodeInfo {
    NodeInfo(c, nodeId, "", false, 0, {}, false, None, now)
  }

  function Connect(r: Registry, c: Connection, connectionId: string, now: int): (r': Registry)
    requires Valid(r)
    ensures Valid(r')
  {
    r.(nodes := r.nodes + [NewNode(c, connectionId, now)], byConnection := r.byConnection[c := |r.nodes|])
  }

  /** A connection that is not known gets an entry first. */
  function EnsureEntry(r: Registry, c: Connection, nodeId: string, now: int): (r': Registry)
    requires Valid(r)
    ensures Valid(r')
  {
    if c in r.byConnection then r else Connect(r, c, nodeId, now)
  }

  /** The entry that held this node id on another connection loses its connection. */
  function EvictOld(r: Registry, c: Connection, nodeId: string): (r': Registry)
    requires Valid(r)
    ensures Valid(r')
  {
    if nodeId in r.byId && r.nodes[r.byId[nodeId]].connection != c
    then r.(byConnection := r.byConnection - {r.nodes[r.byId[nodeId]].connection})
    else r
  }

  /** The fields a successful authentication sets, and the id index. */
  function Enter(r: Registry, h: nat, nodeId: string, address: string, now: int): (r': Registry)
    requires Valid(r) && h < |r.nodes|
    ensures Valid(r')
  {
    r.(nodes := r.nodes[h := r.nodes[h].(nodeId := nodeId, address := address, authenticated := true,
                                         lastPing := now, files := {}, manifestReceived := false)],
       byId := r.byId[nodeId := h])
  }

  /** The entry of a known connection takes the node id over. */
  function TakeOver(r: Registry, c: Connection, nodeId: string, address: string, now: int): (r': Registry)
    requires Valid(r) && c in r.byConnection
    ensures Valid(r')
  {
    Enter(EvictOld(r, c, nodeId), r.byConnection[c], nodeId, address, now)
  }

  function Authenticate(r: Registry, c: Connection, nodeId: string, address: string, now: int): (r': Registry)
    requires Valid(r)
    ensures Valid(r')
  {
    TakeOver(EnsureEntry(r, c, nodeId, now), c, nodeId, address, now)
  }

  function Disconnect(r: Registry, c: Connection): (r': Registry)
    requires Valid(r)
    ensures Valid(r')
  {
    if c !in r.byConnection then r
    else
      var h := r.byConnection[c];
      var id := r.nodes[h].nodeId;
      r.(byConnection := r.byConnection - {c},
         byId := if id in r.byId && r.byId[id] == h then r.byId - {id} else r.byId)
  }

  function Heartbeat(r: Registry, c: Connection, freeBytes: Option<int>, now: int): (r': Registry)
    requires Valid(r)
    ensures Valid(r')
  {
    if c !in r.byConnection then r
    else
      var h := r.byConnection[c];
      var n := r.nodes[h];
      r.(nodes := r.nodes[h := n.(lastPing := now, freeBytes := if freeBytes.Some? then freeBytes else n.freeBytes)])
  }

  function UpdateCapacity(r: Registry, c: Connection, freeBytes: int): (r': Registry)
    requires Valid(r)
    ensures Valid(r')
  {
    if freeBytes < 0 || c !in r.byConnection then r
    else
      var h := r.byConnection[c];
      r.(nodes := r.nodes[h := r.nodes[h].(freeBytes := Some(freeBytes))])
  }

  // ---------------------------------------------------------------- upload slots

  predicate Healthy(config: Config, n: NodeInfo, now: int) {
    n.authenticated && now - n.lastPing < config.timeoutSeconds
  }

  predicate HasEnoughCapacity(config: Config, n: NodeInfo) {
    config.minFreeBytes <= 0 || n.freeBytes.None? || n.freeBytes.value >= config.minFreeBytes
  }

  /** The node ids whose entries may take an upload. */
  function Eligible(config: Config, r: Registry, now: int): set<string>
    requires Valid(r)
  {
    set k | k in r.byId
      && Healthy(config, r.nodes[r.byId[k]], now)
      && r.nodes[r.byId[k]].address != ""
      && HasEnoughCapacity(config, r.nodes[r.byId[k]])
  }

  predicate StringLess(a: string, b: string) {
    if b == "" then false
    else if a == "" then true
    else if a[0] != b[0] then a[0] < b[0]
    else StringLess(a[1..], b[1..])
  }

  /** More free bytes is smaller; an unreported capacity counts as infinite. */
  predicate MoreFree(a: Option<int>, b: Option<int>) {
    b.Some? && (a.None? || a.value > b.value)
  }

  /** The order of _upload_score: load, then free bytes, then node id. */
  predicate ScoreLess(a: NodeInfo, b: NodeInfo) {
    if a.activeUploads != b.activeUploads then a.activeUploads < b.activeUploads
    else if MoreFree(a.freeBytes, b.freeBytes) then true
    else if MoreFree(b.freeBytes, a.freeBytes) then false
    else StringLess(a.nodeId, b.nodeId)
  }

  /** The ids drawn by random.sample, one when there is only one eligible node. */
  predicate Sampled(eligible: set<string>, first: string, second: string) {
    && first in eligible
    && (|eligible| > 1 ==> second in eligible && second != first)
  }

  /** min of the two by score, the first one on a tie. */
  function Winner(r: Registry, eligible: set<string>, first: string, second: string): (w: string)
    requires Valid(r) && Sampled(eligible, first, second) && eligible <= r.byId.Keys
    ensures w in eligible
  {
    if |eligible| == 1 then first
    else if ScoreLess(r.nodes[r.byId[second]], r.nodes[r.byId[first]]) then second else first
  }

  function Expired(r: Registry, now: int): set<string> {
    set rid | rid in r.reservations && r.reservations[rid].expiresAt <= now
  }

  /** Those of the given reservations whose node id currently leads to entry h. */
  function OnEntry(r: Registry, ids: set<string>, h: nat): set<string> {
    set rid | rid in ids && rid in r.reservations
      && r.reservations[rid].nodeId in r.byId && r.byId[r.reservations[rid].nodeId] == h
  }

  function Lessen(active: nat, amount: nat): nat {
    if active < amount then 0 else active - amount
  }

  /** Drops these reservations; each takes one from its node's counter, which stops at zero. */
  function DropAll(r: Registry, ids: set<string>): (r': Registry)
    ensures Valid(r) ==> Valid(r')
  {
    r.(nodes := seq(|r.nodes|, h requires 0 <= h < |r.nodes| =>
                  r.nodes[h].(activeUploads := Lessen(r.nodes[h].activeUploads, |OnEntry(r, ids, h)|))),
       reservations := r.reservations - ids)
  }

  /** Drops every expired reservation. */
  function Reap(r: Registry, now: int): (r': Registry)
    ensures Valid(r) ==> Valid(r')
  {
    DropAll(r, Expired(r, now))
  }

  /** _release_reservation_locked on the entry a node id leads to now. */
  function Decrement(r: Registry, nodeId: string): (r': Registry)
    requires Valid(r)
    ensures Valid(r')
  {
    if nodeId !in r.byId then r
    else
      var h := r.byId[nodeId];
      r.(nodes := r.nodes[h := r.nodes[h].(activeUploads := Lessen(r.nodes[h].activeUploads, 1))])
  }

  function Drop(r: Registry, rid: string): (r': Registry)
    requires Valid(r)
    ensures Valid(r')
  {
    if rid !in r.reservations then r
    else Decrement(r.(reservations := r.reservations - {rid}), r.reservations[rid].nodeId)
  }

  /** release_reservation; an empty id is no reservation. */
  function Release(r: Registry, rid: string): (r': Registry)
    requires Valid(r)
    ensures Valid(r')
  {
    if rid == "" then r else Drop(r, rid)
  }

  /** Records a reservation on entry h and counts it there. */
  function Take(r: Registry, rid: string, h: nat, expiresAt: int): (r': Registry)
    requires Valid(r) && h < |r.nodes|
    ensures Valid(r')
  {
    r.(reservations := r.reservations[rid := Reservation(r.nodes[h].nodeId, expiresAt)],
       nodes := r.nodes[h := r.nodes[h].(activeUploads := r.nodes[h].activeUploads + 1)])
  }

  /** Replaces any reservation under this id by one on entry h. */
  function Reserve(r: Registry, rid: string, h: nat, expiresAt: int): (r': Registry)
    requires Valid(r) && h < |r.nodes|
    ensures Valid(r')
  {
    Take(Drop(r, rid), rid, h, expiresAt)
  }

  /** What random.sample offers select_for_upload; anything when no node is eligible. */
  predicate Offered(config: Config, r: Registry, now: int, first: string, second: string)
    requires Valid(r)
  {
    var eligible := Eligible(config, Reap(r, now), now);
    eligible == {} || Sampled(eligible, first, second)
  }

  /** The node id select_for_upload settles on; None when no node is eligible. */
  function Picked(config: Config, r: Registry, now: int, first: string, second: string): (k: Option<string>)
    requires Valid(r) && Offered(config, r, now, first, second)
    ensures k.Some? ==> k.value in Eligible(config, Reap(r, now), now) && k.value in r.byId
    ensures k.None? <==> Eligible(config, Reap(r, now), now) == {}
  {
    var reaped := Reap(r, now);
    var eligible := Eligible(config, reaped, now);
    if eligible == {} then None else Some(Winner(reaped, eligible, first, second))
  }

  function Expiry(now: int, ttl: int): int {
    now + ttl
  }

  /** Reserves a slot on the picked node when there is one and an id was given. */
  function ReserveOn(r: Registry, pick: Option<string>, rid: string, expiresAt: int): (r': Registry)
    requires Valid(r) && (pick.Some? ==> pick.value in r.byId)
    ensures Valid(r')
  {
    if pick.None? || rid == "" then r else Reserve(r, rid, r.byId[pick.value], expiresAt)
  }

  /** select_for_upload with an optional reservation id: the registry afterwards. */
  function Select(config: Config, r: Registry, now: int, rid: string, ttl: int, first: string, second: string)
    : (r': Registry)
    requires Valid(r) && Offered(config, r, now, first, second)
    ensures Valid(r')
  {
    ReserveOn(Reap(r, now), Picked(config, r, now, first, second), rid, Expiry(now, ttl))
  }

  // ---------------------------------------------------------------- manifests

  function SetManifest(r: Registry, nodeId: string, shas: seq<string>): (result: (Registry, Option<set<string>>))
    requires Valid(r)
    ensures Valid(result.0)
  {
    if nodeId == "" || nodeId !in r.byId then (r, None)
    else
      var h := r.byId[nodeId];
      (r.(nodes := r.nodes[h := r.nodes[h].(files := NormalizeAll(shas), manifestReceived := true)]),
       Some(NormalizeAll(shas)))
  }

  function ApplyDelta(r: Registry, nodeId: string, added: seq<string>, removed: seq<string>): (r': Registry)
    requires Valid(r)
    ensures Valid(r')
  {
    if nodeId == "" || nodeId !in r.byId then r
    else
      var h := r.byId[nodeId];
      r.(nodes := r.nodes[h := r.nodes[h].(files := r.nodes[h].files + NormalizeAll(added) - NormalizeAll(removed))])
  }

  function MarkFileAdded(r: Registry, nodeId: string, sha: string): (r': Registry)
    requires Valid(r)
    ensures Valid(r')
  {
    if nodeId == "" || Normalize(sha) == "" || nodeId !in r.byId then r
    else
      var h := r.byId[nodeId];
      r.(nodes := r.nodes[h := r.nodes[h].(files := r.nodes[h].files + {Normalize(sha)})])
  }

  predicate NodeHasFile(config: Config, r: Registry, nodeId: string, sha: string, now: int)
    requires Valid(r)
  {
    && nodeId != "" && Normalize(sha) != "" && nodeId in r.byId
    && Healthy(config, r.nodes[r.byId[nodeId]], now)
    && (r.nodes[r.byId[nodeId]].manifestReceived ==> Normalize(sha) in r.nodes[r.byId[nodeId]].files)
  }

  /** The address of a healthy node; "" stands for None. */
  function GetStorageAddress(config: Config, r: Registry, nodeId: string, now: int): string
    requires Valid(r)
  {
    if nodeId != "" && nodeId in r.byId && Healthy(config, r.nodes[r.byId[nodeId]], now)
    then r.nodes[r.byId[nodeId]].address
    else ""
  }

  // ---------------------------------------------------------------- steps and runs

  datatype Step =
    | ConnectStep(c: Connection, connectionId: string, now: int)
    | AuthStep(c: Connection, nodeId: string, address: string, now: int)
    | DisconnectStep(c: Connection)
    | HeartbeatStep(c: Connection, freeBytes: Option<int>, now: int)
    | CapacityStep(c: Connection, free: int)
    | SelectStep(now: int, rid: string, ttl: int, first: string, second: string)
    | ReleaseStep(rid: string)
    | ManifestStep(nodeId: string, shas: seq<string>)
    | DeltaStep(nodeId: string, added: seq<string>, removed: seq<string>)
    | FileAddedStep(nodeId: string, sha: string)

  /** What the sampler of select_for_upload guarantees. */
  predicate Enabled(config: Config, r: Registry, s: Step)
    requires Valid(r)
  {
    s.SelectStep? ==> Offered(config, r, s.now, s.first, s.second)
  }

  function Apply(config: Config, r: Registry, s: Step): (r': Registry)
    requires Valid(r) && Enabled(config, r, s)
    ensures Valid(r')
  {
    match s
    case ConnectStep(c, connectionId, now) => Connect(r, c, connectionId, now)
    case AuthStep(c, nodeId, address, now) => Authenticate(r, c, nodeId, address, now)
    case DisconnectStep(c) => Disconnect(r, c)
    case HeartbeatStep(c, freeBytes, now) => Heartbeat(r, c, freeBytes, now)
    case CapacityStep(c, free) => UpdateCapacity(r, c, free)
    case SelectStep(now, rid, ttl, first, second) => Select(config, r, now, rid, ttl, first, second)
    case ReleaseStep(rid) => Release(r, rid)
    case ManifestStep(nodeId, shas) => SetManifest(r, nodeId, shas).0
    case DeltaStep(nodeId, added, removed) => ApplyDelta(r, nodeId, added, removed)
    case FileAddedStep(nodeId, sha) => MarkFileAdded(r, nodeId, sha)
  }
}
