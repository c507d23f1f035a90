/**
 Share-token accounting.  A download consumes a slot by one conditional update and later delivers a plan
 or gives the slot back; any number of requests run at once, and each of their statements is a step.
 */
module ShareTokens {
  type Token = string

  datatype ShareToken = ShareToken(fileId: string, maxDownloads: int, count: int, expiresAt: int)

  datatype ErrorCode = InvalidToken | TokenExpired | TokenExhausted | ShareDatabaseError

  datatype Phase =
    | Classifying
    | Pending
    | Delivered
    | Refunded
    | RefundFailed
    | Refused(code: ErrorCode)

  datatype Request = Request(token: Token, fileId: string, phase: Phase)

  datatype Ledger = Ledger(tokens: map<Token, ShareToken>, requests: map<nat, Request>)

  const NOTHING := Ledger(map[], map[])

  // ---------------------------------------------------------------- statements

  /** The WHERE clause of the conditional update. */
  predicate Consumable(t: ShareToken, fileId: string, now: int) {
    t.fileId == fileId && t.count < t.maxDownloads && t.expiresAt > now
  }

  /** The SELECT that explains a failed update; the last case is the handler's unknown reason. */
  function Explain(tokens: map<Token, ShareToken>, token: Token, fileId: string, now: int): ErrorCode {
    if token !in tokens then InvalidToken
    else if tokens[token].fileId != fileId then InvalidToken
    else if tokens[token].expiresAt <= now then TokenExpired
    else if tokens[token].count >= tokens[token].maxDownloads then TokenExhausted
    else InvalidToken
  }

  function Consume(tokens: map<Token, ShareToken>, token: Token): map<Token, ShareToken>
    requires token in tokens
  {
    tokens[token := tokens[token].(count := tokens[token].count + 1)]
  }

  /** The refund's update, with its guard. */
  function GiveBack(tokens: map<Token, ShareToken>, token: Token): map<Token, ShareToken> {
    if token in tokens && tokens[token].count > 0 then tokens[token := tokens[token].(count := tokens[token].count - 1)]
    else tokens
  }

  // ---------------------------------------------------------------- steps

  datatype Step =
    | Create(token: Token, fileId: string, maxDownloads: int, expiresAt: int)
    | Begin(id: nat, token: Token, fileId: string, now: int, fails: bool)
    | Classify(id: nat, now: int, fails: bool)
    | Deliver(id: nat)
    | Refund(id: nat, fails: bool)

  predicate InPhase(l: Ledger, id: nat, phase: Phase) {
    id in l.requests && l.requests[id].phase == phase
  }

  /** A token string is created once, as its unique index demands; a request begins once. */
  predicate Enabled(l: Ledger, s: Step) {
    match s
    case Create(token, _, _, _) => token !in l.tokens
    case Begin(id, _, _, _, _) => id !in l.requests
    case Classify(id, _, _) => InPhase(l, id, Classifying)
    case Deliver(id) => InPhase(l, id, Pending)
    case Refund(id, _) => InPhase(l, id, Pending)
  }

  function Move(l: Ledger, id: nat, phase: Phase): Ledger
    requires id in l.requests
  {
    l.(requests := l.requests[id := l.requests[id].(phase := phase)])
  }

  function BeginStep(l: Ledger, id: nat, token: Token, fileId: string, now: int, fails: bool): Ledger {
    if fails then l.(requests := l.requests[id := Request(token, fileId, Refused(ShareDatabaseError))])
    else if token in l.tokens && Consumable(l.tokens[token], fileId, now) then
      Ledger(Consume(l.tokens, token), l.requests[id := Request(token, fileId, Pending)])
    else l.(requests := l.requests[id := Request(token, fileId, Classifying)])
  }

  function Apply(l: Ledger, s: Step): Ledger
    requires Enabled(l, s)
  {
    match s
    case Create(token, fileId, maxDownloads, expiresAt) =>
      l.(tokens := l.tokens[token := ShareToken(fileId, maxDownloads, 0, expiresAt)])
    case Begin(id, token, fileId, now, fails) => BeginStep(l, id, token, fileId, now, fails)
    case Classify(id, now, fails) =>
      var q := l.requests[id];
      Move(l, id, Refused(if fails then ShareDatabaseError else Explain(l.tokens, q.token, q.fileId, now)))
    case Deliver(id) => Move(l, id, Delivered)
    case Refund(id, fails) =>
      if fails then Move(l, id, RefundFailed)
      else Move(l, id, Refunded).(tokens := GiveBack(l.tokens, l.requests[id].token))
  }

  // ---------------------------------------------------------------- what a request may consume

  /**
   The conditional update takes a slot exactly from an existing, unexpired token of this file with slots
   left, and then one; otherwise it changes no token.
   */
  lemma ConsumesExactly(l: Ledger, id: nat, token: Token, fileId: string, now: int, fails: bool)
    ensures var l' := BeginStep(l, id, token, fileId, now, fails);
            var allowed := token in l.tokens && l.tokens[token].fileId == fileId
              && l.tokens[token].count < l.tokens[token].maxDownloads && now < l.tokens[token].expiresAt;
            && id in l'.requests && l'.requests - {id} == l.requests - {id}
            && l'.requests[id].token == token && l'.requests[id].fileId == fileId
            && (l'.requests[id].phase == Pending <==> !fails && allowed)
            && (l'.requests[id].phase == Refused(ShareDatabaseError) <==> fails)
            && (l'.requests[id].phase == Classifying <==> !fails && !allowed)
            && (l'.requests[id].phase != Pending ==> l'.tokens == l.tokens)
            && (l'.requests[id].phase == Pending ==>
                  l'.tokens == l.tokens[token := l.tokens[token].(count := l.tokens[token].count + 1)])
  {
  }

  // ---------------------------------------------------------------- the invariant

  function InPhaseOn(l: Ledger, token: Token, phase: Phase): set<nat> {
    set id | id in l.requests && l.requests[id].token == token && l.requests[id].phase == phase
  }

  predicate Holds(q: Request) {
    q.phase == Pending || q.phase == Delivered || q.phase == RefundFailed
  }

  /** The requests that hold a slot of the token. */
  function Holding(l: Ledger, token: Token): set<nat> {
    set id | id in l.requests && l.requests[id].token == token && Holds(l.requests[id])
  }

  /** The token's count is the number of slots held, within the limit, and slots are of existing tokens. */
  predicate Balanced(l: Ledger, token: Token)
    requires token in l.tokens
  {
    var t := l.tokens[token];
    t.count == |Holding(l, token)| && (t.count <= t.maxDownloads || t.count == 0)
  }

  predicate Accounted(l: Ledger) {
    && (forall token <- l.tokens :: Balanced(l, token))
    && (forall id <- l.requests | Holds(l.requests[id]) ::
          l.requests[id].token in l.tokens && l.tokens[l.requests[id].token].fileId == l.requests[id].fileId)
  }

  lemma HoldingMoved(l: Ledger, l': Ledger, id: nat, token: Token)
    requires id in l'.requests && l'.requests - {id} == l.requests - {id}
    requires id in l.requests ==> l.requests[id].token == l'.requests[id].token
    ensures Holding(l', token) == Holding(l, token) - {id} +
              if l'.requests[id].token == token && Holds(l'.requests[id]) then {id} else {}
  {
    forall other | other != id && other in l.requests
      ensures other in l'.requests && l'.requests[other] == l.requests[other]
    {
      assert other in l.requests - {id} && (l'.requests - {id})[other] == (l.requests - {id})[other];
    }
    forall other | other != id && other in l'.requests
      ensures other in l.requests && l'.requests[other] == l.requests[other]
    {
      assert other in l'.requests - {id} && (l'.requests - {id})[other] == (l.requests - {id})[other];
    }
  }

  lemma SameHolding(l: Ledger, l': Ledger)
    requires l'.requests == l.requests
    ensures forall token :: Holding(l', token) == Holding(l, token)
  {
  }

  /** A pending request has its slot in the count, so the guard of its refund passes. */
  lemma RefundIsNeverBlocked(l: Ledger, id: nat)
    requires Accounted(l) && InPhase(l, id, Pending)
    ensures l.requests[id].token in l.tokens && l.tokens[l.requests[id].token].count > 0
  {
    var token := l.requests[id].token;
    assert id in Holding(l, token);
    assert Balanced(l, token);
  }

  lemma CreateKeeps(l: Ledger, token: Token, fileId: string, maxDownloads: int, expiresAt: int)
    requires Accounted(l) && token !in l.tokens
    ensures Accounted(Apply(l, Create(token, fileId, maxDownloads, expiresAt)))
  {
    var l' := Apply(l, Create(token, fileId, maxDownloads, expiresAt));
    SameHolding(l, l');
    assert Holding(l, token) == {};
    forall other | other in l'.tokens
      ensures Balanced(l', other)
    {
      assert other != token ==> Balanced(l, other);
    }
  }

  /** A request that holds no slot changes no balance. */
  lemma IdleKeeps(l: Ledger, id: nat, q: Request)
    requires Accounted(l) && id !in l.requests && !Holds(q)
    ensures Accounted(l.(requests := l.requests[id := q]))
  {
    var l' := l.(requests := l.requests[id := q]);
    forall token | token in l.tokens
      ensures Balanced(l', token)
    {
      assert Holding(l', token) == Holding(l, token);
      assert Balanced(l, token);
    }
  }

  lemma HoldingConsumed(l: Ledger, id: nat, token: Token, fileId: string, other: Token)
    requires id !in l.requests && token in l.tokens
    ensures var l' := Ledger(Consume(l.tokens, token), l.requests[id := Request(token, fileId, Pending)]);
            |Holding(l', other)| == |Holding(l, other)| + if other == token then 1 else 0
  {
    var l' := Ledger(Consume(l.tokens, token), l.requests[id := Request(token, fileId, Pending)]);
    if other == token {
      assert Holding(l', other) == Holding(l, other) + {id};
    } else {
      assert Holding(l', other) == Holding(l, other);
    }
  }

  lemma ConsumeKeeps(l: Ledger, id: nat, token: Token, fileId: string, now: int)
    requires Accounted(l) && id !in l.requests
    requires token in l.tokens && Consumable(l.tokens[token], fileId, now)
    ensures Accounted(Ledger(Consume(l.tokens, token), l.requests[id := Request(token, fileId, Pending)]))
  {
    var l' := Ledger(Consume(l.tokens, token), l.requests[id := Request(token, fileId, Pending)]);
    forall other | other in l'.tokens
      ensures Balanced(l', other)
    {
      assert Balanced(l, other);
      HoldingConsumed(l, id, token, fileId, other);
    }
  }

  lemma BeginKeeps(l: Ledger, id: nat, token: Token, fileId: string, now: int, fails: bool)
    requires Accounted(l) && id !in l.requests
    ensures Accounted(BeginStep(l, id, token, fileId, now, fails))
  {
    if !fails && token in l.tokens && Consumable(l.tokens[token], fileId, now) {
      ConsumeKeeps(l, id, token, fileId, now);
    } else {
      IdleKeeps(l, id, Request(token, fileId, if fails then Refused(ShareDatabaseError) else Classifying));
    }
  }

  /** A request that moves between phases that both hold, or both do not hold, a slot. */
  lemma MoveKeeps(l: Ledger, id: nat, phase: Phase)
    requires Accounted(l) && id in l.requests
    requires Holds(l.requests[id].(phase := phase)) == Holds(l.requests[id])
    ensures Accounted(Move(l, id, phase))
  {
    var l' := Move(l, id, phase);
    assert l'.requests - {id} == l.requests - {id};
    forall token | token in l'.tokens
      ensures Balanced(l', token)
    {
      HoldingMoved(l, l', id, token);
      assert Balanced(l, token);
      assert Holding(l', token) == Holding(l, token);
    }
  }

  lemma RefundKeeps(l: Ledger, id: nat)
    requires Accounted(l) && InPhase(l, id, Pending)
    ensures Accounted(Apply(l, Refund(id, false)))
  {
    var l' := Apply(l, Refund(id, false));
    RefundIsNeverBlocked(l, id);
    assert l'.requests - {id} == l.requests - {id};
    forall token | token in l'.tokens
      ensures Balanced(l', token)
    {
      HoldingMoved(l, l', id, token);
      assert Balanced(l, token);
      assert id in Holding(l, token) <==> token == l.requests[id].token;
    }
  }

  lemma StepKeeps(l: Ledger, s: Step)
    requires Accounted(l) && Enabled(l, s)
    ensures Accounted(Apply(l, s))
  {
    match s
    case Create(token, fileId, maxDownloads, expiresAt) => CreateKeeps(l, token, fileId, maxDownloads, expiresAt);
    case Begin(id, token, fileId, now, fails) => BeginKeeps(l, id, token, fileId, now, fails);
    case Classify(id, now, fails) =>
      var q := l.requests[id];
      MoveKeeps(l, id, Refused(if fails then ShareDatabaseError else Explain(l.tokens, q.token, q.fileId, now)));
    case Deliver(id) => MoveKeeps(l, id, Delivered);
    case Refund(id, fails) =>
      if fails {
        MoveKeeps(l, id, RefundFailed);
      } else {
        RefundKeeps(l, id);
      }
  }

  // ---------------------------------------------------------------- runs

  ghost predicate RunFrom(l: Ledger, steps: seq<Step>)
    decreases |steps|
  {
    steps == [] || (Enabled(l, steps[0]) && RunFrom(Apply(l, steps[0]), steps[1..]))
  }

  function After(l: Ledger, steps: seq<Step>): Ledger
    requires RunFrom(l, steps)
    decreases |steps|
  {
    if steps == [] then l else After(Apply(l, steps[0]), steps[1..])
  }

  lemma {:induction false} RunKeeps(l: Ledger, steps: seq<Step>)
    requires Accounted(l) && RunFrom(l, steps)
    ensures Accounted(After(l, steps))
    decreases |steps|
  {
    if steps != [] {
      StepKeeps(l, steps[0]);
      RunKeeps(Apply(l, steps[0]), steps[1..]);
    }
  }

  lemma HoldingSplits(l: Ledger, token: Token)
    ensures |Holding(l, token)| ==
            |InPhaseOn(l, token, Delivered)| + |InPhaseOn(l, token, Pending)| + |InPhaseOn(l, token, RefundFailed)|
  {
    var delivered, pending := InPhaseOn(l, token, Delivered), InPhaseOn(l, token, Pending);
    assert Holding(l, token) == delivered + pending + InPhaseOn(l, token, RefundFailed);
    assert |delivered + pending| == |delivered| + |pending|;
  }

  /**
   In any interleaving of any number of requests, a token's count is the plans delivered, the requests
   under way and the refunds that failed; and the plans delivered are at most its limit.
   */
  lemma EverySlotIsAccountedFor(steps: seq<Step>, token: Token)
    requires RunFrom(NOTHING, steps) && token in After(NOTHING, steps).tokens
    ensures var l := After(NOTHING, steps);
            var delivered := |InPhaseOn(l, token, Delivered)|;
            && l.tokens[token].count == delivered + |InPhaseOn(l, token, Pending)| + |InPhaseOn(l, token, RefundFailed)|
            && (delivered <= l.tokens[token].maxDownloads || delivered == 0)
  {
    RunKeeps(NOTHING, steps);
    assert Balanced(After(NOTHING, steps), token);
    HoldingSplits(After(NOTHING, steps), token);
  }

  /** A token keeps the file, the limit and the expiry it was created with, whatever requests do. */
  lemma {:induction false} TokenKeepsItsTerms(l: Ledger, steps: seq<Step>, token: Token)
    requires RunFrom(l, steps) && token in l.tokens
    ensures token in After(l, steps).tokens
    ensures var after := After(l, steps).tokens[token]; after == l.tokens[token].(count := after.count)
    decreases |steps|
  {
    if steps != [] {
      CountFallsByRefunds(l, steps[0], token);
      TokenKeepsItsTerms(Apply(l, steps[0]), steps[1..], token);
    }
  }

  /** From its creation on a token delivers at most the number of plans it was created for. */
  lemma CreatedLimitHolds(l: Ledger, steps: seq<Step>, token: Token, fileId: string, maxDownloads: int, expiresAt: int)
    requires Accounted(l) && token !in l.tokens
    requires RunFrom(Apply(l, Create(token, fileId, maxDownloads, expiresAt)), steps)
    ensures var l' := After(Apply(l, Create(token, fileId, maxDownloads, expiresAt)), steps);
            && token in l'.tokens
            && l'.tokens[token] == ShareToken(fileId, maxDownloads, l'.tokens[token].count, expiresAt)
            && (|InPhaseOn(l', token, Delivered)| <= maxDownloads || InPhaseOn(l', token, Delivered) == {})
  {
    var created := Apply(l, Create(token, fileId, maxDownloads, expiresAt));
    CreateKeeps(l, token, fileId, maxDownloads, expiresAt);
    TokenKeepsItsTerms(created, steps, token);
    RunKeeps(created, steps);
    assert Balanced(After(created, steps), token);
    HoldingSplits(After(created, steps), token);
  }

  predicate Settled(phase: Phase) {
    phase != Classifying && phase != Pending
  }

  /** A settled request never moves again; so a slot is refunded at most once, and never after delivery. */
  lemma {:induction false} SettledStays(l: Ledger, steps: seq<Step>, id: nat)
    requires RunFrom(l, steps) && id in l.requests && Settled(l.requests[id].phase)
    ensures id in After(l, steps).requests && After(l, steps).requests[id] == l.requests[id]
    decreases |steps|
  {
    if steps != [] {
      SettledStays(Apply(l, steps[0]), steps[1..], id);
    }
  }

  /** Only a refund lowers a count, by one, and it ends a pending request of that token. */
  lemma CountFallsByRefunds(l: Ledger, s: Step, token: Token)
    requires Enabled(l, s) && token in l.tokens
    ensures token in Apply(l, s).tokens
    ensures var (before, after) := (l.tokens[token], Apply(l, s).tokens[token]);
            && after == before.(count := after.count)
            && (after.count < before.count ==>
                  s.Refund? && l.requests[s.id].token == token && after.count == before.count - 1
                  && InPhase(Apply(l, s), s.id, Refunded))
            && (after.count > before.count ==>
                  s.Begin? && s.token == token && after.count == before.count + 1 && InPhase(Apply(l, s), s.id, Pending))
  {
  }

  // ---------------------------------------------------------------- error codes

  /**
   What each answer means at the time of the query: expired and exhausted exactly when they hold, in that
   order; invalid for a missing token or another file, and for the handler's unknown reason, which is
   exactly a token that could be consumed by then.
   */
  lemma ExplanationIsExact(tokens: map<Token, ShareToken>, token: Token, fileId: string, now: int)
    ensures var code := Explain(tokens, token, fileId, now);
            var ours := token in tokens && tokens[token].fileId == fileId;
            && (code == TokenExpired <==> ours && tokens[token].expiresAt <= now)
            && (code == TokenExhausted <==>
                  ours && tokens[token].expiresAt > now && tokens[token].count >= tokens[token].maxDownloads)
            && (code == InvalidToken <==> !ours || Unknown(tokens, token, fileId, now))
            && code != ShareDatabaseError
  {
  }

  /** The query finds nothing wrong with the token. */
  predicate Unknown(tokens: map<Token, ShareToken>, token: Token, fileId: string, now: int) {
    token in tokens && Consumable(tokens[token], fileId, now)
  }

  /** A refund of the token takes effect in these steps. */
  ghost predicate Refunds(l: Ledger, steps: seq<Step>, token: Token)
    requires RunFrom(l, steps)
    decreases |steps|
  {
    steps != [] &&
    ((steps[0].Refund? && !steps[0].fails && l.requests[steps[0].id].token == token)
     || Refunds(Apply(l, steps[0]), steps[1..], token))
  }

  /** The token is created in these steps. */
  predicate Creates(steps: seq<Step>, token: Token) {
    exists s <- steps :: s.Create? && s.token == token
  }

  lemma {:induction false} CountRisesWithoutRefunds(l: Ledger, steps: seq<Step>, token: Token)
    requires RunFrom(l, steps) && token in l.tokens && !Refunds(l, steps, token)
    ensures token in After(l, steps).tokens
    ensures var after := After(l, steps).tokens[token];
            after == l.tokens[token].(count := after.count) && after.count >= l.tokens[token].count
    decreases |steps|
  {
    if steps != [] {
      CountFallsByRefunds(l, steps[0], token);
      CountRisesWithoutRefunds(Apply(l, steps[0]), steps[1..], token);
    }
  }

  lemma {:induction false} OnlyCreationAdds(l: Ledger, steps: seq<Step>, token: Token)
    requires RunFrom(l, steps) && token !in l.tokens && !Creates(steps, token)
    ensures token !in After(l, steps).tokens
    decreases |steps|
  {
    if steps != [] {
      assert steps[0] in steps && forall s <- steps[1..] :: s in steps;
      OnlyCreationAdds(Apply(l, steps[0]), steps[1..], token);
    }
  }

  /** The token's expiry lies between the coordinator's clock and the database's. */
  predicate ExpiresBetween(l: Ledger, token: Token, clock: int, databaseNow: int) {
    token in l.tokens && clock < l.tokens[token].expiresAt <= databaseNow
  }

  /**
   A request whose conditional update failed at databaseNow, and whose query comes, after other
   requests' steps, at the coordinator's time clock.  It meets the unknown reason only if in between the
   token was refunded or created, or if the coordinator's clock is behind the database's and the token
   expires between them; so with one clock only after a refund or a creation.
   */
  lemma UnknownReasonNeedsAChange(l: Ledger, id: nat, token: Token, fileId: string, databaseNow: int, steps: seq<Step>, clock: int)
    requires id !in l.requests
    requires var begun := BeginStep(l, id, token, fileId, databaseNow, false);
             && begun.requests[id].phase == Classifying
             && RunFrom(begun, steps) && Unknown(After(begun, steps).tokens, token, fileId, clock)
    ensures var begun := BeginStep(l, id, token, fileId, databaseNow, false);
            Refunds(begun, steps, token) || Creates(steps, token) || ExpiresBetween(l, token, clock, databaseNow)
    ensures databaseNow <= clock ==> !ExpiresBetween(l, token, clock, databaseNow)
  {
    var begun := BeginStep(l, id, token, fileId, databaseNow, false);
    assert begun.tokens == l.tokens;
    if token !in l.tokens {
      if !Creates(steps, token) {
        OnlyCreationAdds(begun, steps, token);
      }
    } else if !Refunds(begun, steps, token) {
      CountRisesWithoutRefunds(begun, steps, token);
    }
  }

  /** With nothing in between, the unknown reason is met if and only if the clocks differ around the expiry. */
  lemma UnknownAtOnceExactly(l: Ledger, id: nat, token: Token, fileId: string, databaseNow: int, clock: int)
    requires id !in l.requests
    requires BeginStep(l, id, token, fileId, databaseNow, false).requests[id].phase == Classifying
    ensures Unknown(BeginStep(l, id, token, fileId, databaseNow, false).tokens, token, fileId, clock)
            <==> ExpiresBetween(l, token, clock, databaseNow)
                 && l.tokens[token].fileId == fileId && l.tokens[token].count < l.tokens[token].maxDownloads
  {
  }

  /** Created in between: a request for a token not there yet is told its unknown reason. */
  lemma CreationReachesUnknown(l: Ledger, id: nat, token: Token, fileId: string, now: int, maxDownloads: int, expiresAt: int)
    requires id !in l.requests && token !in l.tokens && maxDownloads > 0 && expiresAt > now
    ensures var begun := BeginStep(l, id, token, fileId, now, false);
            var create := Create(token, fileId, maxDownloads, expiresAt);
            && begun.requests[id].phase == Classifying && Enabled(begun, create)
            && Unknown(Apply(begun, create).tokens, token, fileId, now)
  {
  }
}
