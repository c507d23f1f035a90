/** The share-download handler over the token table, the files table and the registry. */
module ShareDownloads {
  import opened RegistrySpec
  import opened StorageNodeRegistry
  import opened Lifecycle
  import opened LifecycleTable
  import opened ManifestCache
  import opened Coordinator
  import Shares = ShareTokens

  datatype DownloadResult =
    | Plan(address: string)
    | ShareRefused(code: Shares.ErrorCode)
    | NoSuchFile | FileNotReady | NodeUnreachable | NotOnNode | PlanFailed

  /** What a request that holds a slot ends with. */
  function Outcome(config: Config, rows: seq<Row>, r: Registry, fileId: string, legacy: string, now: int, planFails: bool)
    : (result: DownloadResult)
    requires Valid(r)
  {
    match Lookup(rows, fileId)
    case None => NoSuchFile
    case Some(row) =>
      if row.status != READY then FileNotReady
      else
        match ResolveStorageNode(config, r, row, legacy, now)
        case Unavailable => NodeUnreachable
        case FileNotOnNode => NotOnNode
        case Served(address) => if planFails then PlanFailed else Plan(address)
  }

  /** The faults of one request: the update, the query or writing of the plan, and the refund. */
  datatype Faults = Faults(update: bool, classify: bool, plan: bool, refund: bool)

  /** The rest of a request, from the outcome of its conditional update on. */
  function Finish(begun: Shares.Ledger, id: nat, now: int, faults: Faults, outcome: DownloadResult)
    : (Shares.Ledger, DownloadResult)
    requires id in begun.requests
  {
    if begun.requests[id].phase == Shares.Pending then
      (Shares.Apply(begun, if outcome.Plan? then Shares.Deliver(id) else Shares.Refund(id, faults.refund)), outcome)
    else if begun.requests[id].phase == Shares.Classifying then
      var refused := Shares.Apply(begun, Shares.Classify(id, now, faults.classify));
      (refused, ShareRefused(refused.requests[id].phase.code))
    else (begun, ShareRefused(Shares.ShareDatabaseError))
  }

  /** The books and the answer after a whole request that nothing interleaves with; the update uses the database's clock. */
  function Serve(l: Shares.Ledger, id: nat, token: Shares.Token, fileId: string, databaseNow: int, now: int, faults: Faults,
                 outcome: DownloadResult)
    : (Shares.Ledger, DownloadResult)
    requires id !in l.requests
  {
    Finish(Shares.BeginStep(l, id, token, fileId, databaseNow, faults.update), id, now, faults, outcome)
  }

  /** The steps of a whole request keep the books, and a plan is answered exactly when it is delivered. */
  lemma ServeKeepsAccounts(l: Shares.Ledger, id: nat, token: Shares.Token, fileId: string, databaseNow: int, now: int,
                           faults: Faults, outcome: DownloadResult)
    requires Shares.Accounted(l) && id !in l.requests && !outcome.ShareRefused?
    ensures var (served, result) := Serve(l, id, token, fileId, databaseNow, now, faults, outcome);
            && Shares.Accounted(served)
            && id in served.requests && Shares.Settled(served.requests[id].phase)
            && (result.Plan? <==> served.requests[id].phase == Shares.Delivered)
  {
    var begun := Shares.BeginStep(l, id, token, fileId, databaseNow, faults.update);
    Shares.BeginKeeps(l, id, token, fileId, databaseNow, faults.update);
    if begun.requests[id].phase == Shares.Pending {
      Shares.StepKeeps(begun, if outcome.Plan? then Shares.Deliver(id) else Shares.Refund(id, faults.refund));
    } else if begun.requests[id].phase == Shares.Classifying {
      Shares.StepKeeps(begun, Shares.Classify(id, now, faults.classify));
    }
  }

  /** Unless the refund itself fails, a request leaves every token as it found it exactly when it gets no plan. */
  lemma FailedRequestsAreFree(l: Shares.Ledger, id: nat, token: Shares.Token, fileId: string, databaseNow: int, now: int,
                              faults: Faults, outcome: DownloadResult)
    requires Shares.Accounted(l) && id !in l.requests && !faults.refund
    ensures var (served, result) := Serve(l, id, token, fileId, databaseNow, now, faults, outcome);
            served.tokens == l.tokens <==> !result.Plan?
  {
    var begun := Shares.BeginStep(l, id, token, fileId, databaseNow, faults.update);
    if begun.requests[id].phase == Shares.Pending {
      assert Shares.Balanced(l, token);
      assert begun.tokens[token] != l.tokens[token];
      assert Shares.GiveBack(begun.tokens, token) == l.tokens;
    }
  }

  /**
   The answer to a whole request: a plan only for a token that exists, is of this file, unexpired by the
   database's clock and not used up; then whatever the file's state allows.  Otherwise the reason.
   */
  lemma AnswersExactly(l: Shares.Ledger, id: nat, token: Shares.Token, fileId: string, databaseNow: int, now: int,
                       faults: Faults, outcome: DownloadResult)
    requires id !in l.requests && !outcome.ShareRefused?
    ensures var result := Serve(l, id, token, fileId, databaseNow, now, faults, outcome).1;
            var ours := token in l.tokens && l.tokens[token].fileId == fileId;
            var allowed := ours && l.tokens[token].count < l.tokens[token].maxDownloads
              && databaseNow < l.tokens[token].expiresAt;
            && (!result.ShareRefused? <==> !faults.update && allowed)
            && (!result.ShareRefused? ==> result == outcome)
            && (result == ShareRefused(Shares.ShareDatabaseError) <==> faults.update || (!allowed && faults.classify))
            && (!faults.update && !faults.classify && !allowed ==>
                  && (result == ShareRefused(Shares.TokenExpired) <==> ours && l.tokens[token].expiresAt <= now)
                  && (result == ShareRefused(Shares.TokenExhausted) <==>
                        ours && now < l.tokens[token].expiresAt && l.tokens[token].count >= l.tokens[token].maxDownloads))
  {
    Shares.ConsumesExactly(l, id, token, fileId, databaseNow, faults.update);
    Shares.ExplanationIsExact(l.tokens, token, fileId, now);
  }

  /** A request that holds a slot gets a plan exactly for a READY file that its node, or the legacy address, serves. */
  lemma PlansExactly(config: Config, rows: seq<Row>, r: Registry, i: nat, legacy: string, now: int, planFails: bool,
                     address: string)
    requires Valid(r) && DistinctIds(rows) && i < |rows|
    ensures Outcome(config, rows, r, rows[i].id, legacy, now, planFails) == Plan(address) <==>
            !planFails && rows[i].status == READY && ResolveStorageNode(config, r, rows[i], legacy, now) == Served(address)
  {
    LookupAt(rows, i);
  }

  /** Without a plan the reason: no such file, a file that is not READY, its node away, its content not there, or a fault. */
  lemma RefusalsExactly(config: Config, rows: seq<Row>, r: Registry, fileId: string, legacy: string, now: int, planFails: bool)
    requires Valid(r)
    ensures var outcome := Outcome(config, rows, r, fileId, legacy, now, planFails);
            && (outcome == NoSuchFile <==> forall row <- rows :: row.id != fileId)
            && (Lookup(rows, fileId).Some? ==>
                  var row := Lookup(rows, fileId).value;
                  var resolution := ResolveStorageNode(config, r, row, legacy, now);
                  && (outcome == FileNotReady <==> row.status != READY)
                  && (outcome == NodeUnreachable <==> row.status == READY && resolution == Unavailable)
                  && (outcome == NotOnNode <==> row.status == READY && resolution == FileNotOnNode)
                  && (outcome == PlanFailed <==> row.status == READY && resolution.Served? && planFails))
  {
  }

  /** With an agreeing manifest cache, no slot is spent on a READY file only to find it missing on its node. */
  lemma ReadySharesAreOnTheirNode(config: Config, rows: seq<Row>, r: Registry, fileId: string, legacy: string, now: int,
                                  planFails: bool, ks: iset<string>)
    requires Valid(r) && CacheAgrees(rows, r, ks)
    requires Lookup(rows, fileId).Some? && Lookup(rows, fileId).value.node in ks && Normalize(Lookup(rows, fileId).value.sha) != ""
    ensures Outcome(config, rows, r, fileId, legacy, now, planFails) != NotOnNode
  {
    var row := Lookup(rows, fileId).value;
    if row.status == READY {
      ReadyRowsAreServed(config, rows, r, row, legacy, now, ks);
    }
  }

  class DownloadService {
    const db: Database
    const registry: NodeRegistry
    const storageAddress: string
    var tokens: map<Shares.Token, Shares.ShareToken>

    /** Every request so far and where it stands. */
    ghost var requests: map<nat, Shares.Request>

    constructor (db: Database, registry: NodeRegistry, storageAddress: string)
      ensures this.db == db && this.registry == registry && this.storageAddress == storageAddress
      ensures Books() == Shares.NOTHING
    {
      this.db, this.registry, this.storageAddress := db, registry, storageAddress;
      tokens, requests := map[], map[];
    }

    ghost function Books(): Shares.Ledger
      reads this
    {
      Shares.Ledger(tokens, requests)
    }

    method CreateShareToken(token: Shares.Token, fileId: string, maxDownloads: int, expiresAt: int, permitted: bool)
      returns (created: bool)
      modifies this`tokens
      ensures created <==> Lookup(db.files, fileId).Some? && permitted && token !in old(tokens)
      ensures Books() == if created then Shares.Apply(old(Books()), Shares.Create(token, fileId, maxDownloads, expiresAt))
                         else old(Books())
    {
      var found := Lookup(db.files, fileId);
      if found.None? || !permitted || token in tokens {
        return false;
      }
      tokens := tokens[token := Shares.ShareToken(fileId, maxDownloads, 0, expiresAt)];
      return true;
    }

    method Resolve(row: Row, now: int) returns (resolution: Resolution)
      requires registry.Consistent()
      ensures resolution == ResolveStorageNode(registry.config, registry.View(), row, storageAddress, now)
    {
      if row.node == "" {
        return Served(storageAddress);
      }
      var address := registry.GetStorageAddress(row.node, now);
      if address == "" {
        return Unavailable;
      }
      var has := registry.NodeHasFile(row.node, row.sha, now);
      return if has then Served(address) else FileNotOnNode;
    }

    /** The conditional update: consumes a slot and says so, or changes nothing. */
    method ConsumeSlot(ghost id: nat, token: Shares.Token, fileId: string, now: int, fails: bool) returns (consumed: bool)
      requires id !in requests
      modifies this
      ensures Books() == Shares.BeginStep(old(Books()), id, token, fileId, now, fails)
      ensures consumed <==> requests[id].phase == Shares.Pending
    {
      if fails {
        requests := requests[id := Shares.Request(token, fileId, Shares.Refused(Shares.ShareDatabaseError))];
        return false;
      }
      consumed := token in tokens && tokens[token].fileId == fileId
        && tokens[token].count < tokens[token].maxDownloads && tokens[token].expiresAt > now;
      if consumed {
        tokens := tokens[token := tokens[token].(count := tokens[token].count + 1)];
      }
      requests := requests[id := Shares.Request(token, fileId, if consumed then Shares.Pending else Shares.Classifying)];
    }

    method RefundShareDownload(ghost id: nat, token: Shares.Token, fails: bool)
      requires Shares.InPhase(Books(), id, Shares.Pending) && requests[id].token == token
      modifies this
      ensures Books() == Shares.Apply(old(Books()), Shares.Refund(id, fails))
    {
      if !fails && token in tokens && tokens[token].count > 0 {
        tokens := tokens[token := tokens[token].(count := tokens[token].count - 1)];
      }
      requests := requests[id := requests[id].(phase := if fails then Shares.RefundFailed else Shares.Refunded)];
    }

    /** The part of the handler after a slot was consumed, up to the plan or the reason for a refund. */
    method PreparePlan(fileId: string, now: int, fails: bool) returns (result: DownloadResult)
      requires registry.Consistent()
      ensures result == Outcome(registry.config, db.files, registry.View(), fileId, storageAddress, now, fails)
    {
      var found := Lookup(db.files, fileId);
      if found.None? {
        return NoSuchFile;
      }
      if found.value.status != READY {
        return FileNotReady;
      }
      var resolution := Resolve(found.value, now);
      match resolution {
        case Unavailable => result := NodeUnreachable;
        case FileNotOnNode => result := NotOnNode;
        case Served(address) => result := if fails then PlanFailed else Plan(address);
      }
    }

    /** Why nothing was consumed. */
    method ExplainRefusal(ghost id: nat, token: Shares.Token, fileId: string, now: int, faults: Faults)
      returns (code: Shares.ErrorCode)
      requires id in requests && requests[id].token == token && requests[id].fileId == fileId
      requires requests[id].phase == if faults.update then Shares.Refused(Shares.ShareDatabaseError) else Shares.Classifying
      modifies this`requests
      ensures forall outcome :: (Books(), ShareRefused(code)) == Finish(old(Books()), id, now, faults, outcome)
    {
      if faults.update {
        return Shares.ShareDatabaseError;
      }
      code := if faults.classify then Shares.ShareDatabaseError else Shares.Explain(tokens, token, fileId, now);
      requests := requests[id := requests[id].(phase := Shares.Refused(code))];
    }

    /** Delivers a plan or gives the slot back. */
    method DeliverOrRefund(ghost id: nat, token: Shares.Token, fileId: string, now: int, faults: Faults)
      returns (result: DownloadResult)
      requires registry.Consistent() && Shares.InPhase(Books(), id, Shares.Pending) && requests[id].token == token
      modifies this
      ensures var outcome := Outcome(registry.config, db.files, registry.View(), fileId, storageAddress, now, faults.plan);
              (Books(), result) == Finish(old(Books()), id, now, faults, outcome)
    {
      result := PreparePlan(fileId, now, faults.plan);
      if result.Plan? {
        requests := requests[id := requests[id].(phase := Shares.Delivered)];
      } else {
        RefundShareDownload(id, token, faults.refund);
      }
    }

    method HandleInitDownloadShare(ghost id: nat, token: Shares.Token, fileId: string, databaseNow: int, now: int, faults: Faults)
      returns (result: DownloadResult)
      requires registry.Consistent() && id !in requests
      modifies this
      ensures var outcome := Outcome(registry.config, db.files, registry.View(), fileId, storageAddress, now, faults.plan);
              (Books(), result) == Serve(old(Books()), id, token, fileId, databaseNow, now, faults, outcome)
    {
      var consumed := ConsumeSlot(id, token, fileId, databaseNow, faults.update);
      if consumed {
        result := DeliverOrRefund(id, token, fileId, now, faults);
      } else {
        var code := ExplainRefusal(id, token, fileId, now, faults);
        result := ShareRefused(code);
      }
    }
  }
}
