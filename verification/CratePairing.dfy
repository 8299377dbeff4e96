/** Single-use CRATE-PAIR tokens on the Hub (nakli-hub/internal/storage/crate_pairing.go,
    nakli-hub/internal/server/handlers_crate_pairing.go). Each SQL statement is one atomic step; any
    number of redeemers and cancellers interleave between statements. */
module CratePairing {
  import opened Wrappers

  type Time = int

  // redeemed_at, redeemed_by_daemon_pubkey, daemon_fingerprint, issued_capability_id: one UPDATE sets all four.
  datatype Redemption = Redemption(at: Time, daemonPubkey: Bytes, fingerprint: Bytes, capabilityId: Bytes)

  datatype Token = Token(bucketId: Bytes, expiresAt: Time, redemption: Option<Redemption>, cancelledAt: Option<Time>)

  type Table = map<Bytes, Token>

  // --- the SQL statements ----------------------------------------------------------------------

  // INSERT: refused by the primary key when the secret is taken.
  function InsertToken(table: Table, secret: Bytes, bucketId: Bytes, expiresAt: Time): Table {
    if secret in table then table else table[secret := Token(bucketId, expiresAt, None, None)]
  }

  // WHERE secret = ? AND redeemed_at IS NULL AND cancelled_at IS NULL
  predicate Open(table: Table, secret: Bytes) {
    secret in table && table[secret].redemption.None? && table[secret].cancelledAt.None?
  }

  function MarkRedeemed(table: Table, secret: Bytes, r: Redemption): Table {
    if Open(table, secret) then table[secret := table[secret].(redemption := Some(r))] else table
  }

  function MarkCancelled(table: Table, secret: Bytes, at: Time): Table {
    if Open(table, secret) then table[secret := table[secret].(cancelledAt := Some(at))] else table
  }

  // --- the store, one caller at a time ---------------------------------------------------------

  datatype PairingError = NotFound | Cancelled | AlreadyRedeemed | Expired

  // Why a token cannot be redeemed now; the order of the checks decides which reason is given.
  function Obstacle(table: Table, secret: Bytes, now: Time): Option<PairingError> {
    if secret !in table then Some(NotFound)
    else if table[secret].cancelledAt.Some? then Some(Cancelled)
    else if table[secret].redemption.Some? then Some(AlreadyRedeemed)
    else if now > table[secret].expiresAt then Some(Expired)
    else None
  }

  class PairingStore {
    var tokens: Table

    constructor ()
      ensures tokens == map[]
    {
      tokens := map[];
    }

    method CreateCratePairingToken(secret: Bytes, bucketId: Bytes, expiresAt: Time) returns (ok: bool)
      modifies this
      ensures ok <==> secret != "" && secret !in old(tokens)
      ensures tokens == if ok then old(tokens)[secret := Token(bucketId, expiresAt, None, None)] else old(tokens)
    {
      if secret == "" || secret in tokens {
        return false;
      }
      tokens := InsertToken(tokens, secret, bucketId, expiresAt);
      return true;
    }

    method RedeemCratePairingToken(secret: Bytes, now: Time, daemonPubkey: Bytes, fingerprint: Bytes, capabilityId: Bytes)
      returns (r: Result<Token, PairingError>)
      modifies this
      ensures r.Ok? <==> old(secret in tokens && tokens[secret].cancelledAt.None? && tokens[secret].redemption.None? && now <= tokens[secret].expiresAt)
      ensures r.Ok? ==> r.value.redemption == Some(Redemption(now, daemonPubkey, fingerprint, capabilityId))
                        && r.value.bucketId == old(tokens)[secret].bucketId
                        && tokens == old(tokens)[secret := r.value]
      ensures r.Err? ==> tokens == old(tokens)
      ensures r == Err(NotFound) <==> secret !in old(tokens)
      ensures r == Err(Cancelled) <==> old(secret in tokens && tokens[secret].cancelledAt.Some?)
      ensures r == Err(AlreadyRedeemed) <==> old(secret in tokens && tokens[secret].cancelledAt.None? && tokens[secret].redemption.Some?)
    {
      if secret !in tokens {
        return Err(NotFound);
      }
      var existing := tokens[secret];
      if existing.cancelledAt.Some? {
        return Err(Cancelled);
      }
      if existing.redemption.Some? {
        return Err(AlreadyRedeemed);
      }
      if now > existing.expiresAt {
        return Err(Expired);
      }
      tokens := MarkRedeemed(tokens, secret, Redemption(now, daemonPubkey, fingerprint, capabilityId));
      return Ok(tokens[secret]);
    }

    method CancelCratePairingToken(secret: Bytes, now: Time) returns (r: Option<PairingError>)
      modifies this
      ensures r == if secret !in old(tokens) then Some(NotFound)
                   else if old(tokens[secret].redemption.Some?) then Some(AlreadyRedeemed) else None
      ensures r.None? ==> secret in tokens && tokens[secret].cancelledAt.Some? && tokens[secret].redemption.None?
      ensures tokens == if old(Open(tokens, secret)) then old(tokens)[secret := old(tokens[secret]).(cancelledAt := Some(now))] else old(tokens)
    {
      if secret !in tokens {
        return Some(NotFound);
      }
      if tokens[secret].redemption.Some? {
        return Some(AlreadyRedeemed);
      }
      if tokens[secret].cancelledAt.Some? {
        return None;
      }
      tokens := MarkCancelled(tokens, secret, now);
      return None;
    }
  }

  // --- concurrent callers ----------------------------------------------------------------------

  datatype Request = Request(secret: Bytes, daemonPubkey: Bytes, fingerprint: Bytes, capabilityId: Bytes)

  // The answers a redeemer can get; Unavailable is the 500 of an unmapped store error.
  datatype Answer = TokenNotFound | TokenCancelled | TokenAlreadyRedeemed | TokenExpired | Unavailable

  // Where a handler stands between two statements.
  datatype Caller =
    | Redeeming(req: Request)                 // about to run the handler's lookup
    | Minted(req: Request)                    // checks passed, capability minted; about to run the store's lookup
    | Updating(req: Request, now: Time)       // about to run the guarded UPDATE
    | Marked(req: Request)                    // UPDATE changed one row; about to re-read it
    | Won(req: Request)                       // answered with the capability
    | Refused(req: Request, answer: Answer)
    | Cancelling(secret: Bytes)               // about to run the lookup
    | CancelUpdating(secret: Bytes, now: Time)
    | CancelDone(secret: Bytes, error: Option<PairingError>)

  datatype System = System(tokens: Table, callers: seq<Caller>)

  datatype Action =
    | Issue(secret: Bytes, bucketId: Bytes, expiresAt: Time)
    | Redeem(req: Request)
    | Cancel(secret: Bytes)
    | Advance(pid: nat, now: Time)

  function HandlerAnswer(o: PairingError): Answer {
    match o
    case NotFound => TokenNotFound
    case Cancelled => TokenCancelled
    case AlreadyRedeemed => TokenAlreadyRedeemed
    case Expired => TokenExpired
  }

  // handleCratePairingRedeem maps only two of the store's errors; the others become a 500.
  function StoreAnswer(o: PairingError): Answer {
    match o
    case AlreadyRedeemed => TokenAlreadyRedeemed
    case Expired => TokenExpired
    case _ => Unavailable
  }

  // One statement of one caller.
  function Statement(tokens: Table, caller: Caller, now: Time): (Table, Caller) {
    match caller
    case Redeeming(req) =>
      (tokens, match Obstacle(tokens, req.secret, now)
               case Some(o) => Refused(req, HandlerAnswer(o))
               case None => Minted(req))
    case Minted(req) =>
      (tokens, match Obstacle(tokens, req.secret, now)
               case Some(o) => Refused(req, StoreAnswer(o))
               case None => Updating(req, now))
    case Updating(req, at) =>
      (MarkRedeemed(tokens, req.secret, Redemption(at, req.daemonPubkey, req.fingerprint, req.capabilityId)),
       if Open(tokens, req.secret) then Marked(req) else Refused(req, TokenAlreadyRedeemed))
    case Marked(req) =>
      (tokens, if req.secret in tokens then Won(req) else Refused(req, Unavailable))
    case Cancelling(secret) =>
      (tokens, if secret !in tokens then CancelDone(secret, Some(NotFound))
               else if tokens[secret].redemption.Some? then CancelDone(secret, Some(AlreadyRedeemed))
               else if tokens[secret].cancelledAt.Some? then CancelDone(secret, None)
               else CancelUpdating(secret, now))
    case CancelUpdating(secret, at) =>
      // the number of affected rows is not looked at
      (MarkCancelled(tokens, secret, at), CancelDone(secret, None))
    case Won(_) => (tokens, caller)
    case Refused(_, _) => (tokens, caller)
    case CancelDone(_, _) => (tokens, caller)
  }

  function Act(s: System, a: Action): System {
    match a
    case Issue(secret, bucketId, expiresAt) => s.(tokens := InsertToken(s.tokens, secret, bucketId, expiresAt))
    case Redeem(req) => s.(callers := s.callers + [Redeeming(req)])
    case Cancel(secret) => s.(callers := s.callers + [Cancelling(secret)])
    case Advance(pid, now) =>
      if pid < |s.callers| then
        var (tokens, caller) := Statement(s.tokens, s.callers[pid], now);
        System(tokens, s.callers[pid := caller])
      else s
  }

  function Run(s: System, actions: seq<Action>): System {
    if actions == [] then s else Act(Run(s, DropLast(actions)), Last(actions))
  }

  const START := System(map[], [])

  // --- what every interleaving keeps -----------------------------------------------------------

  // This caller's UPDATE took the token.
  predicate Holds(caller: Caller, secret: Bytes) {
    (caller.Marked? || caller.Won?) && caller.req.secret == secret
  }

  predicate NamedBy(tokens: Table, req: Request) {
    && req.secret in tokens && tokens[req.secret].redemption.Some?
    && var r := tokens[req.secret].redemption.value;
       r.daemonPubkey == req.daemonPubkey && r.fingerprint == req.fingerprint && r.capabilityId == req.capabilityId
  }

  predicate Settled(tokens: Table, secret: Bytes) {
    secret in tokens && !Open(tokens, secret)
  }

  // What the row tells about each caller's position.
  predicate CallerAgrees(tokens: Table, caller: Caller) {
    match caller
    case Redeeming(_) => true
    case Minted(req) => req.secret in tokens
    case Updating(req, at) => req.secret in tokens && at <= tokens[req.secret].expiresAt
    case Marked(req) => NamedBy(tokens, req)
    case Won(req) => NamedBy(tokens, req)
    case Refused(req, answer) =>
      match answer {
        case TokenAlreadyRedeemed => Settled(tokens, req.secret)
        case TokenCancelled => Settled(tokens, req.secret) && tokens[req.secret].cancelledAt.Some?
        case Unavailable => Settled(tokens, req.secret) && tokens[req.secret].cancelledAt.Some?
        case _ => true
      }
    case Cancelling(_) => true
    case CancelUpdating(secret, _) => secret in tokens
    case CancelDone(secret, error) =>
      match error {
        case None => Settled(tokens, secret)
        case Some(AlreadyRedeemed) => Settled(tokens, secret) && tokens[secret].redemption.Some?
        case _ => true
      }
  }

  predicate TokenSound(t: Token) {
    && !(t.redemption.Some? && t.cancelledAt.Some?)
    && (t.redemption.Some? ==> t.redemption.value.at <= t.expiresAt)
  }

  ghost predicate Invariant(s: System) {
    && (forall secret :: secret in s.tokens ==> TokenSound(s.tokens[secret]))
    && (forall i :: 0 <= i < |s.callers| ==> CallerAgrees(s.tokens, s.callers[i]))
    && (forall i, j, secret :: 0 <= i < |s.callers| && 0 <= j < |s.callers| && Holds(s.callers[i], secret) && Holds(s.callers[j], secret) ==> i == j)
    && (forall secret :: secret in s.tokens && s.tokens[secret].redemption.Some? ==> exists i :: 0 <= i < |s.callers| && Holds(s.callers[i], secret))
  }

  // A later table keeps every token, its bucket and expiry, and its redemption or cancellation.
  predicate Extends(before: Table, after: Table) {
    forall secret :: secret in before ==>
      && secret in after
      && after[secret].bucketId == before[secret].bucketId && after[secret].expiresAt == before[secret].expiresAt
      && (before[secret].redemption.Some? || before[secret].cancelledAt.Some? ==> after[secret] == before[secret])
  }

  lemma AgreementIsStable(before: Table, after: Table, caller: Caller)
    requires Extends(before, after) && CallerAgrees(before, caller)
    ensures CallerAgrees(after, caller)
  {
  }

  lemma StatementExtends(tokens: Table, caller: Caller, now: Time)
    ensures Extends(tokens, Statement(tokens, caller, now).0)
  {
  }

  lemma StatementAgrees(tokens: Table, caller: Caller, now: Time)
    requires CallerAgrees(tokens, caller) && forall secret :: secret in tokens ==> TokenSound(tokens[secret])
    ensures var (after, next) := Statement(tokens, caller, now);
            CallerAgrees(after, next) && forall secret :: secret in after ==> TokenSound(after[secret])
  {
  }

  // A statement makes its caller a holder only by taking an open token, and is the only thing that redeems one.
  lemma StatementHolds(tokens: Table, caller: Caller, now: Time, secret: Bytes)
    requires CallerAgrees(tokens, caller)
    ensures var (after, next) := Statement(tokens, caller, now);
            && (Holds(caller, secret) ==> Holds(next, secret))
            && (Holds(next, secret) && !Holds(caller, secret) ==> secret in tokens && tokens[secret].redemption.None?)
            && (secret in after && after[secret].redemption.Some? ==> Holds(next, secret) || (secret in tokens && tokens[secret].redemption.Some?))
  {
  }

  lemma AdvanceKeepsInvariant(s: System, pid: nat, now: Time)
    requires Invariant(s) && pid < |s.callers|
    ensures Invariant(Act(s, Advance(pid, now)))
  {
    var (after, next) := Statement(s.tokens, s.callers[pid], now);
    var s' := Act(s, Advance(pid, now));
    StatementExtends(s.tokens, s.callers[pid], now);
    StatementAgrees(s.tokens, s.callers[pid], now);
    forall i | 0 <= i < |s'.callers| ensures CallerAgrees(s'.tokens, s'.callers[i]) {
      if i != pid {
        AgreementIsStable(s.tokens, after, s.callers[i]);
      }
    }
    forall i, j, secret | 0 <= i < |s'.callers| && 0 <= j < |s'.callers| && Holds(s'.callers[i], secret) && Holds(s'.callers[j], secret)
      ensures i == j
    {
      StatementHolds(s.tokens, s.callers[pid], now, secret);
      assert i != pid ==> CallerAgrees(s.tokens, s.callers[i]);
      assert j != pid ==> CallerAgrees(s.tokens, s.callers[j]);
    }
    forall secret | secret in after && after[secret].redemption.Some? ensures exists i :: 0 <= i < |s'.callers| && Holds(s'.callers[i], secret) {
      StatementHolds(s.tokens, s.callers[pid], now, secret);
      if Holds(next, secret) {
        assert Holds(s'.callers[pid], secret);
      } else {
        var i :| 0 <= i < |s.callers| && Holds(s.callers[i], secret);
        assert Holds(s'.callers[i], secret);
      }
    }
  }

  lemma ArrivalKeepsInvariant(s: System, caller: Caller)
    requires Invariant(s) && (caller.Redeeming? || caller.Cancelling?)
    ensures Invariant(s.(callers := s.callers + [caller]))
  {
    var s' := s.(callers := s.callers + [caller]);
    forall secret | secret in s.tokens && s.tokens[secret].redemption.Some? ensures exists i :: 0 <= i < |s'.callers| && Holds(s'.callers[i], secret) {
      var i :| 0 <= i < |s.callers| && Holds(s.callers[i], secret);
      assert Holds(s'.callers[i], secret);
    }
  }

  lemma ActKeepsInvariant(s: System, a: Action)
    requires Invariant(s)
    ensures Invariant(Act(s, a)) && Extends(s.tokens, Act(s, a).tokens)
  {
    match a
    case Issue(secret, bucketId, expiresAt) =>
      var s' := Act(s, a);
      forall i | 0 <= i < |s.callers| ensures CallerAgrees(s'.tokens, s.callers[i]) {
        AgreementIsStable(s.tokens, s'.tokens, s.callers[i]);
      }
    case Redeem(req) => ArrivalKeepsInvariant(s, Redeeming(req));
    case Cancel(secret) => ArrivalKeepsInvariant(s, Cancelling(secret));
    case Advance(pid, now) =>
      if pid < |s.callers| {
        StatementExtends(s.tokens, s.callers[pid], now);
        AdvanceKeepsInvariant(s, pid, now);
      }
  }

  lemma {:induction false} RunKeepsInvariant(s: System, actions: seq<Action>)
    requires Invariant(s)
    ensures Invariant(Run(s, actions)) && Extends(s.tokens, Run(s, actions).tokens)
  {
    if actions != [] {
      RunKeepsInvariant(s, DropLast(actions));
      ActKeepsInvariant(Run(s, DropLast(actions)), Last(actions));
    }
  }

  lemma {:induction false} RunConcat(s: System, a: seq<Action>, b: seq<Action>)
    ensures Run(s, a + b) == Run(Run(s, a), b)
  {
    if b == [] {
      assert a + b == a;
    } else {
      assert DropLast(a + b) == a + DropLast(b);
      RunConcat(s, a, DropLast(b));
    }
  }

  /** Under every interleaving at most one redeemer of a secret gets a capability, its row names that caller
      and capability now and after any further run, no row is both redeemed and cancelled, and the recorded time,
      read before the UPDATE, is not after the token's expiry. */
  lemma SingleUse(actions: seq<Action>, later: seq<Action>, i: nat, j: nat)
    requires i < |Run(START, actions).callers| && Run(START, actions).callers[i].Won?
    requires j < |Run(START, actions + later).callers| && Run(START, actions + later).callers[j].Won?
    requires Run(START, actions).callers[i].req.secret == Run(START, actions + later).callers[j].req.secret
    ensures i == j && Run(START, actions).callers[i] == Run(START, actions + later).callers[j]
    ensures var req, t := Run(START, actions).callers[i].req, Run(START, actions + later).tokens;
            && NamedBy(t, req)
            && req.secret in Run(START, actions).tokens && t[req.secret] == Run(START, actions).tokens[req.secret]
            && t[req.secret].cancelledAt.None?
            && t[req.secret].redemption.value.at <= t[req.secret].expiresAt
  {
    var s, s' := Run(START, actions), Run(START, actions + later);
    RunKeepsInvariant(START, actions);
    RunConcat(START, actions, later);
    RunKeepsInvariant(s, later);
    assert CallerAgrees(s.tokens, s.callers[i]);
    WonIsFinal(s, later, i);
    assert Holds(s'.callers[i], s.callers[i].req.secret) && Holds(s'.callers[j], s.callers[i].req.secret);
  }

  lemma {:induction false} WonIsFinal(s: System, later: seq<Action>, i: nat)
    requires i < |s.callers| && s.callers[i].Won?
    ensures i < |Run(s, later).callers| && Run(s, later).callers[i] == s.callers[i]
  {
    if later != [] {
      WonIsFinal(s, DropLast(later), i);
    }
  }

  /** A redeemed row always has its one caller, who has the capability or is about to re-read the row. */
  lemma RedeemedHasItsCaller(actions: seq<Action>, secret: Bytes)
    requires secret in Run(START, actions).tokens && Run(START, actions).tokens[secret].redemption.Some?
    ensures exists i :: 0 <= i < |Run(START, actions).callers| && Holds(Run(START, actions).callers[i], secret)
                        && NamedBy(Run(START, actions).tokens, Run(START, actions).callers[i].req)
  {
    RunKeepsInvariant(START, actions);
    var s := Run(START, actions);
    var i :| 0 <= i < |s.callers| && Holds(s.callers[i], secret);
    assert CallerAgrees(s.tokens, s.callers[i]);
  }

  /** What the other answers mean: "already redeemed" says the token is settled, and a 500 or "cancelled" that
      it is cancelled; a cancel reported as done only says the token is settled. */
  lemma AnswersAreTruthful(actions: seq<Action>, i: nat)
    requires i < |Run(START, actions).callers|
    ensures var s := Run(START, actions);
            match s.callers[i] {
              case Refused(req, TokenAlreadyRedeemed) => Settled(s.tokens, req.secret)
              case Refused(req, TokenCancelled) => req.secret in s.tokens && s.tokens[req.secret].cancelledAt.Some?
              case Refused(req, Unavailable) => req.secret in s.tokens && s.tokens[req.secret].cancelledAt.Some?
              case CancelDone(secret, None) => Settled(s.tokens, secret)
              case CancelDone(secret, Some(AlreadyRedeemed)) => secret in s.tokens && s.tokens[secret].redemption.Some?
              case _ => true
            }
  {
    RunKeepsInvariant(START, actions);
    var s := Run(START, actions);
    assert CallerAgrees(s.tokens, s.callers[i]);
  }

  // The answer a caller ends with.
  predicate Answered(caller: Caller) {
    caller.Refused? || caller.CancelDone?
  }

  predicate GivenAt(actions: seq<Action>, i: nat, k: nat)
    requires k < |actions|
  {
    var s := Run(START, actions[..k]);
    actions[k].Advance? && actions[k].pid == i && i < |s.callers| && !Answered(s.callers[i])
  }

  // Every answer was given by one statement of that caller, and stays.
  lemma {:induction false} AnswerWasGiven(actions: seq<Action>, i: nat) returns (k: nat)
    requires i < |Run(START, actions).callers| && Answered(Run(START, actions).callers[i])
    ensures k < |actions| && GivenAt(actions, i, k)
    ensures Run(START, actions).callers[i] == Statement(Run(START, actions[..k]).tokens, Run(START, actions[..k]).callers[i], actions[k].now).1
  {
    var n, front := |actions| - 1, DropLast(actions);
    assert front == actions[..n];
    var before := Run(START, front);
    if i < |before.callers| && Answered(before.callers[i]) {
      k := AnswerWasGiven(front, i);
      assert front[..k] == actions[..k] && front[k] == actions[k];
    } else {
      k := n;
    }
  }

  // What a statement that answers says about the table it ran on.
  predicate TruthOf(tokens: Table, answered: Caller, now: Time) {
    match answered
    case Refused(req, TokenNotFound) => req.secret !in tokens
    case Refused(req, TokenExpired) => Open(tokens, req.secret) && now > tokens[req.secret].expiresAt
    case Refused(req, TokenAlreadyRedeemed) => Settled(tokens, req.secret)
    case Refused(req, TokenCancelled) => req.secret in tokens && tokens[req.secret].cancelledAt.Some?
    case Refused(req, Unavailable) => req.secret in tokens && tokens[req.secret].cancelledAt.Some?
    case CancelDone(secret, Some(NotFound)) => secret !in tokens
    case CancelDone(secret, Some(AlreadyRedeemed)) => secret in tokens && tokens[secret].redemption.Some?
    case CancelDone(secret, Some(_)) => false
    case CancelDone(secret, None) => secret in tokens
    case _ => true
  }

  /** Every answer was true of the table at the statement that gave it: an unknown token was unknown, an expired one was open
      and past its expiry by that caller's clock, and so on. */
  lemma AnswersWereTrueWhenGiven(actions: seq<Action>, i: nat) returns (k: nat)
    requires i < |Run(START, actions).callers| && Answered(Run(START, actions).callers[i])
    ensures k < |actions| && GivenAt(actions, i, k)
    ensures TruthOf(Run(START, actions[..k]).tokens, Run(START, actions).callers[i], actions[k].now)
  {
    k := AnswerWasGiven(actions, i);
    RunKeepsInvariant(START, actions[..k]);
    var s := Run(START, actions[..k]);
    assert CallerAgrees(s.tokens, s.callers[i]);
    AnsweringStatement(s.tokens, s.callers[i], actions[k].now);
  }

  lemma AnsweringStatement(tokens: Table, caller: Caller, now: Time)
    requires CallerAgrees(tokens, caller) && (forall secret :: secret in tokens ==> TokenSound(tokens[secret])) && !Answered(caller)
    ensures var next := Statement(tokens, caller, now).1; Answered(next) ==> TruthOf(tokens, next, now)
  {
  }

  // No one has redeemed or cancelled the token.
  predicate Free(tokens: Table, secret: Bytes) {
    secret in tokens && tokens[secret].redemption == None && tokens[secret].cancelledAt == None
  }

  /** Issuing a new secret adds a free token for its bucket and expiry; a taken one changes nothing, and neither a new redeemer
      nor a new canceller touches the table. */
  lemma ArrivalsAreExact(s: System, secret: Bytes, bucketId: Bytes, expiresAt: Time, req: Request)
    ensures Act(s, Issue(secret, bucketId, expiresAt)) ==
            if secret in s.tokens then s else System(s.tokens[secret := Token(bucketId, expiresAt, None, None)], s.callers)
    ensures Act(s, Redeem(req)) == System(s.tokens, s.callers + [Redeeming(req)])
    ensures Act(s, Cancel(secret)) == System(s.tokens, s.callers + [Cancelling(secret)])
  {
  }

  /** What each statement of a redeemer does, in terms of the row alone. Before the UPDATE nothing is written; a cancelled or
      vanished row is a 404 at the handler's own lookup and a 500 at the store's. */
  lemma RedeemerStatements(tokens: Table, req: Request, at: Time, now: Time)
    ensures var first, second := Statement(tokens, Redeeming(req), now), Statement(tokens, Minted(req), now);
            && first.0 == tokens && second.0 == tokens
            && (first.1 == Refused(req, TokenNotFound) <==> req.secret !in tokens)
            && (first.1 == Refused(req, TokenCancelled) <==> req.secret in tokens && tokens[req.secret].cancelledAt.Some?)
            && (first.1 == Refused(req, TokenAlreadyRedeemed) <==>
                req.secret in tokens && tokens[req.secret].cancelledAt.None? && tokens[req.secret].redemption.Some?)
            && (first.1 == Refused(req, TokenExpired) <==> Free(tokens, req.secret) && now > tokens[req.secret].expiresAt)
            && (first.1 == Minted(req) <==> Free(tokens, req.secret) && now <= tokens[req.secret].expiresAt)
            && (second.1 == Refused(req, Unavailable) <==> req.secret !in tokens || tokens[req.secret].cancelledAt.Some?)
            && (second.1 == Refused(req, TokenAlreadyRedeemed) <==>
                req.secret in tokens && tokens[req.secret].cancelledAt.None? && tokens[req.secret].redemption.Some?)
            && (second.1 == Refused(req, TokenExpired) <==> Free(tokens, req.secret) && now > tokens[req.secret].expiresAt)
            && (second.1 == Updating(req, now) <==> Free(tokens, req.secret) && now <= tokens[req.secret].expiresAt)
    ensures Statement(tokens, Updating(req, at), now) ==
            if Free(tokens, req.secret)
            then (tokens[req.secret := tokens[req.secret].(redemption := Some(Redemption(at, req.daemonPubkey, req.fingerprint, req.capabilityId)))], Marked(req))
            else (tokens, Refused(req, TokenAlreadyRedeemed))
    ensures req.secret in tokens ==> Statement(tokens, Marked(req), now) == (tokens, Won(req))
  {
  }

  /** And of a canceller. */
  lemma CancellerStatements(tokens: Table, secret: Bytes, at: Time, now: Time)
    ensures var (after, next) := Statement(tokens, Cancelling(secret), now);
            && after == tokens
            && (next == CancelDone(secret, Some(NotFound)) <==> secret !in tokens)
            && (next == CancelDone(secret, Some(AlreadyRedeemed)) <==> secret in tokens && tokens[secret].redemption.Some?)
            && (next == CancelDone(secret, None) <==> secret in tokens && tokens[secret].redemption.None? && tokens[secret].cancelledAt.Some?)
            && (next == CancelUpdating(secret, now) <==> Free(tokens, secret))
    ensures Statement(tokens, CancelUpdating(secret, at), now) ==
            (if Free(tokens, secret) then tokens[secret := tokens[secret].(cancelledAt := Some(at))] else tokens, CancelDone(secret, None))
  {
  }

  /** An undisturbed redeemer of a free token that has not expired gets its capability, and the row names it. */
  lemma UndisturbedRedeemerWins(actions: seq<Action>, i: nat, t1: Time, t2: Time, t3: Time, t4: Time)
    requires i < |Run(START, actions).callers| && Run(START, actions).callers[i].Redeeming?
    requires var s := Run(START, actions); var secret := s.callers[i].req.secret;
             Free(s.tokens, secret) && t1 <= s.tokens[secret].expiresAt && t2 <= s.tokens[secret].expiresAt
    ensures var s, s' := Run(START, actions), Run(START, actions + [Advance(i, t1)] + [Advance(i, t2)] + [Advance(i, t3)] + [Advance(i, t4)]);
            var req := s.callers[i].req;
            && i < |s'.callers| && s'.callers[i] == Won(req)
            && s'.tokens == s.tokens[req.secret := s.tokens[req.secret].(redemption := Some(Redemption(t2, req.daemonPubkey, req.fingerprint, req.capabilityId)))]
  {
    var a1 := actions + [Advance(i, t1)];
    var a2 := a1 + [Advance(i, t2)];
    var a3 := a2 + [Advance(i, t3)];
    RunNext(START, actions, Advance(i, t1));
    RunNext(START, a1, Advance(i, t2));
    RunNext(START, a2, Advance(i, t3));
    RunNext(START, a3, Advance(i, t4));
  }

  /** At its UPDATE a canceller always reports success; the token is then cancelled exactly when no redeemer
      took it between the canceller's two statements. */
  lemma CancelSucceedsUnlessOvertaken(tokens: Table, secret: Bytes, at: Time, now: Time)
    requires secret in tokens && TokenSound(tokens[secret])
    ensures var (after, next) := Statement(tokens, CancelUpdating(secret, at), now);
            && next == CancelDone(secret, None)
            && (after[secret].cancelledAt.Some? <==> tokens[secret].redemption.None?)
  {
  }

  lemma RunNext(s: System, front: seq<Action>, a: Action)
    ensures Run(s, front + [a]) == Act(Run(s, front), a)
  {
    assert DropLast(front + [a]) == front;
  }

  // The race itself: a cancel answered with success although the redeemer got its capability.
  lemma OvertakenCancelExists(req: Request)
    ensures exists actions :: var s := Run(START, actions);
              s.callers == [Won(req), CancelDone(req.secret, None)] && NamedBy(s.tokens, req) && s.tokens[req.secret].cancelledAt.None?
  {
    var open := map[req.secret := Token("b", 10, None, None)];
    var taken := map[req.secret := Token("b", 10, Some(Redemption(1, req.daemonPubkey, req.fingerprint, req.capabilityId)), None)];
    var waiting := CancelUpdating(req.secret, 1);
    var front := BothLookedUp(req, open, waiting);
    RunNext(START, front, Advance(0, 1));
    var f1 := front + [Advance(0, 1)];
    assert Run(START, f1) == System(taken, [Marked(req), waiting]);
    RunNext(START, f1, Advance(0, 1));
    var f2 := f1 + [Advance(0, 1)];
    assert Run(START, f2) == System(taken, [Won(req), waiting]);
    RunNext(START, f2, Advance(1, 1));
    assert Run(START, f2 + [Advance(1, 1)]) == System(taken, [Won(req), CancelDone(req.secret, None)]);
  }

  lemma BothLookedUp(req: Request, open: Table, waiting: Caller) returns (front: seq<Action>)
    requires open == map[req.secret := Token("b", 10, None, None)] && waiting == CancelUpdating(req.secret, 1)
    ensures Run(START, front) == System(open, [Updating(req, 1), waiting])
  {
    var issue := Issue(req.secret, "b", 10);
    RunNext(START, [], issue);
    var f1 := [] + [issue];
    assert Run(START, f1) == System(open, []);
    RunNext(START, f1, Redeem(req));
    var f2 := f1 + [Redeem(req)];
    RunNext(START, f2, Cancel(req.secret));
    var f3 := f2 + [Cancel(req.secret)];
    assert Run(START, f3) == System(open, [Redeeming(req), Cancelling(req.secret)]);
    RunNext(START, f3, Advance(1, 1));
    var f4 := f3 + [Advance(1, 1)];
    assert Run(START, f4) == System(open, [Redeeming(req), waiting]);
    RunNext(START, f4, Advance(0, 1));
    var f5 := f4 + [Advance(0, 1)];
    assert Run(START, f5) == System(open, [Minted(req), waiting]);
    RunNext(START, f5, Advance(0, 1));
    front := f5 + [Advance(0, 1)];
  }
}
