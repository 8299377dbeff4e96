/** Single-use CRATE-PAIR tokens on the Worker: a Durable Object per secret decides, KV is a cache that may
    return anything (nakli-cf-worker/src/pair-redemption-do.ts, nakli-cf-worker/src/worker.ts). */
module WorkerPairing {
  import opened Wrappers

  type Time = int

  datatype RedemptionState = RedemptionState(redeemedBy: Bytes, redeemedAt: Time)

  // What the Durable Object answers: the claim time, or the claim that came first.
  datatype ClaimResult = Claimed(at: Time) | TakenBy(state: RedemptionState)

  function ClaimOn(existing: Option<RedemptionState>, daemonPubkey: Bytes, now: Time): (RedemptionState, ClaimResult) {
    match existing
    case Some(state) => (state, TakenBy(state))
    case None => (RedemptionState(daemonPubkey, now), Claimed(now))
  }

  class PairRedemption {
    var redemption: Option<RedemptionState>

    constructor ()
      ensures redemption == None
    {
      redemption := None;
    }

    // The body of blockConcurrencyWhile; an empty pubkey is refused before it.
    method Fetch(daemonPubkey: Bytes, now: Time) returns (r: Option<ClaimResult>)
      modifies this
      ensures daemonPubkey == "" ==> r == None && redemption == old(redemption)
      ensures daemonPubkey != "" && old(redemption) == None ==> redemption == Some(RedemptionState(daemonPubkey, now)) && r == Some(Claimed(now))
      ensures daemonPubkey != "" && old(redemption.Some?) ==> redemption == old(redemption) && r == Some(TakenBy(old(redemption.value)))
      ensures daemonPubkey != "" ==> (redemption.value, r.value) == ClaimOn(old(redemption), daemonPubkey, now)
    {
      if daemonPubkey == "" {
        return None;
      }
      var existing := redemption;
      if existing.Some? {
        return Some(TakenBy(existing.value));
      }
      redemption := Some(RedemptionState(daemonPubkey, now));
      return Some(Claimed(now));
    }
  }

  // --- concurrent redeemers --------------------------------------------------------------------

  // The KV record as far as the redeem handler reads it.
  datatype KvRecord = KvRecord(bucketId: Bytes, expiresAt: Time, redeemed: bool, cancelled: bool)

  datatype Request = Request(secret: Bytes, daemonPubkey: Bytes)

  datatype Answer = TokenNotFound | TokenCancelled | TokenAlreadyRedeemed | TokenExpired

  datatype Caller =
    | Reading(req: Request)                      // about to read KV
    | Claiming(req: Request, record: KvRecord)   // about to call the Durable Object
    | Mirroring(req: Request, record: KvRecord, at: Time)  // claimed and minted; about to put the record in KV
    | Won(req: Request, bucketId: Bytes, at: Time)
    | Refused(req: Request, answer: Answer)

  // claims: the stored state of each Durable Object, addressed by secret.
  datatype System = System(claims: map<Bytes, RedemptionState>, callers: seq<Caller>)

  // A step of one caller. `kv` is what a KV read would return at this moment: any record, or none,
  // however stale. A KV put therefore needs no state.
  datatype Action = Arrive(req: Request) | Advance(pid: nat, kv: Option<KvRecord>, now: Time)

  function CheckRecord(req: Request, kv: Option<KvRecord>, now: Time): Caller {
    match kv
    case None => Refused(req, TokenNotFound)
    case Some(record) =>
      if record.cancelled then Refused(req, TokenCancelled)
      else if record.redeemed then Refused(req, TokenAlreadyRedeemed)
      else if record.expiresAt < now then Refused(req, TokenExpired)
      else Claiming(req, record)
  }

  function Existing(claims: map<Bytes, RedemptionState>, secret: Bytes): Option<RedemptionState> {
    if secret in claims then Some(claims[secret]) else None
  }

  function Step(claims: map<Bytes, RedemptionState>, caller: Caller, kv: Option<KvRecord>, now: Time): (map<Bytes, RedemptionState>, Caller) {
    match caller
    case Reading(req) => (claims, CheckRecord(req, kv, now))
    case Claiming(req, record) =>
      var (state, answer) := ClaimOn(Existing(claims, req.secret), req.daemonPubkey, now);
      (claims[req.secret := state],
       match answer
       case Claimed(at) => Mirroring(req, record, at)
       case TakenBy(_) => Refused(req, TokenAlreadyRedeemed))
    case Mirroring(req, record, at) => (claims, Won(req, record.bucketId, at))
    case Won(_, _, _) => (claims, caller)
    case Refused(_, _) => (claims, caller)
  }

  function Act(s: System, a: Action): System {
    match a
    case Arrive(req) => s.(callers := s.callers + [Reading(req)])
    case Advance(pid, kv, now) =>
      if pid < |s.callers| then
        var (claims, caller) := Step(s.claims, s.callers[pid], kv, now);
        System(claims, s.callers[pid := caller])
      else s
  }

  function Run(s: System, actions: seq<Action>): System {
    if actions == [] then s else Act(Run(s, DropLast(actions)), Last(actions))
  }

  const START := System(map[], [])

  predicate Holds(caller: Caller, secret: Bytes) {
    (caller.Mirroring? || caller.Won?) && caller.req.secret == secret
  }

  // A holder's claim is the one stored.
  predicate CallerAgrees(claims: map<Bytes, RedemptionState>, caller: Caller) {
    && (caller.Mirroring? || caller.Won? ==>
          caller.req.secret in claims && claims[caller.req.secret] == RedemptionState(caller.req.daemonPubkey, caller.at))
  }

  ghost predicate Invariant(s: System) {
    && (forall i :: 0 <= i < |s.callers| ==> CallerAgrees(s.claims, s.callers[i]))
    && (forall i, j, secret :: 0 <= i < |s.callers| && 0 <= j < |s.callers| && Holds(s.callers[i], secret) && Holds(s.callers[j], secret) ==> i == j)
    && (forall secret :: secret in s.claims ==> exists i :: 0 <= i < |s.callers| && Holds(s.callers[i], secret))
  }

  predicate ClaimsKept(before: map<Bytes, RedemptionState>, after: map<Bytes, RedemptionState>) {
    forall secret :: secret in before ==> secret in after && after[secret] == before[secret]
  }

  lemma StepHolds(claims: map<Bytes, RedemptionState>, caller: Caller, kv: Option<KvRecord>, now: Time, secret: Bytes)
    requires CallerAgrees(claims, caller)
    ensures var (after, next) := Step(claims, caller, kv, now);
            && ClaimsKept(claims, after) && CallerAgrees(after, next)
            && (Holds(caller, secret) ==> Holds(next, secret))
            && (Holds(next, secret) && !Holds(caller, secret) ==> secret !in claims)
            && (secret in after && secret !in claims ==> Holds(next, secret))
  {
  }

  lemma AdvanceKeepsInvariant(s: System, pid: nat, kv: Option<KvRecord>, now: Time)
    requires Invariant(s) && pid < |s.callers|
    ensures Invariant(Act(s, Advance(pid, kv, now))) && ClaimsKept(s.claims, Act(s, Advance(pid, kv, now)).claims)
  {
    var s' := Act(s, Advance(pid, kv, now));
    StepHolds(s.claims, s.callers[pid], kv, now, "");
    forall i, j, secret | 0 <= i < |s'.callers| && 0 <= j < |s'.callers| && Holds(s'.callers[i], secret) && Holds(s'.callers[j], secret)
      ensures i == j
    {
      StepHolds(s.claims, s.callers[pid], kv, now, secret);
      assert CallerAgrees(s.claims, s.callers[i]) && CallerAgrees(s.claims, s.callers[j]);
    }
    forall secret | secret in s'.claims ensures exists i :: 0 <= i < |s'.callers| && Holds(s'.callers[i], secret) {
      StepHolds(s.claims, s.callers[pid], kv, now, secret);
      if secret in s.claims {
        var i :| 0 <= i < |s.callers| && Holds(s.callers[i], secret);
        assert Holds(s'.callers[i], secret);
      } else {
        assert Holds(s'.callers[pid], secret);
      }
    }
  }

  lemma ArrivalKeepsInvariant(s: System, req: Request)
    requires Invariant(s)
    ensures Invariant(Act(s, Arrive(req)))
  {
    var s' := Act(s, Arrive(req));
    forall secret | secret in s.claims ensures exists i :: 0 <= i < |s'.callers| && Holds(s'.callers[i], secret) {
      var i :| 0 <= i < |s.callers| && Holds(s.callers[i], secret);
      assert Holds(s'.callers[i], secret);
    }
  }

  lemma ActKeepsInvariant(s: System, a: Action)
    requires Invariant(s)
    ensures Invariant(Act(s, a)) && ClaimsKept(s.claims, Act(s, a).claims)
  {
    match a
    case Arrive(req) => ArrivalKeepsInvariant(s, req);
    case Advance(pid, kv, now) =>
      if pid < |s.callers| {
        AdvanceKeepsInvariant(s, pid, kv, now);
      }
  }

  lemma {:induction false} RunKeepsInvariant(s: System, actions: seq<Action>)
    requires Invariant(s)
    ensures Invariant(Run(s, actions)) && ClaimsKept(s.claims, Run(s, actions).claims)
  {
    if actions != [] {
      RunKeepsInvariant(s, DropLast(actions));
      ActKeepsInvariant(Run(s, DropLast(actions)), Last(actions));
    }
  }

  lemma {:induction false} RunConcat(s: System, a: seq<Action>, b: seq<Action>)
    ensures Run(s, a + b) == Run(Run(s, a), b)
  {
    if b == [] {
      assert a + b == a;
    } else {
      assert DropLast(a + b) == a + DropLast(b);
      RunConcat(s, a, DropLast(b));
    }
  }

  lemma {:induction false} WonIsFinal(s: System, later: seq<Action>, i: nat)
    requires i < |s.callers| && s.callers[i].Won?
    ensures i < |Run(s, later).callers| && Run(s, later).callers[i] == s.callers[i]
  {
    if later != [] {
      WonIsFinal(s, DropLast(later), i);
    }
  }

  /** Whatever the KV reads return, at most one caller per secret ever gets a capability, and the Durable Object
      names that caller and the capability's issue time from then on. */
  lemma SingleUse(actions: seq<Action>, later: seq<Action>, i: nat, j: nat)
    requires i < |Run(START, actions).callers| && Run(START, actions).callers[i].Won?
    requires j < |Run(START, actions + later).callers| && Run(START, actions + later).callers[j].Won?
    requires Run(START, actions).callers[i].req.secret == Run(START, actions + later).callers[j].req.secret
    ensures i == j
    ensures var winner, claims := Run(START, actions).callers[i], Run(START, actions + later).claims;
            winner.req.secret in claims && claims[winner.req.secret] == RedemptionState(winner.req.daemonPubkey, winner.at)
  {
    RunKeepsInvariant(START, actions);
    RunConcat(START, actions, later);
    RunKeepsInvariant(Run(START, actions), later);
    WonIsFinal(Run(START, actions), later, i);
    var s, s' := Run(START, actions), Run(START, actions + later);
    assert CallerAgrees(s.claims, s.callers[i]);
    assert Holds(s'.callers[i], s.callers[i].req.secret) && Holds(s'.callers[j], s.callers[i].req.secret);
  }

  /** The claim is never lost: a secret the Durable Object knows has its holder, and a secret it does not know goes
      to the next caller that reaches it. */
  lemma ClaimIsDecisive(actions: seq<Action>, pid: nat, kv: Option<KvRecord>, now: Time)
    requires pid < |Run(START, actions).callers| && Run(START, actions).callers[pid].Claiming?
    ensures var s, s' := Run(START, actions), Run(START, actions + [Advance(pid, kv, now)]);
            var secret := s.callers[pid].req.secret;
            && (Holds(s'.callers[pid], secret) <==> secret !in s.claims)
            && (exists i :: 0 <= i < |s'.callers| && Holds(s'.callers[i], secret))
            && |s'.callers| == |s.callers|
  {
    RunKeepsInvariant(START, actions);
    var s := Run(START, actions);
    var secret := s.callers[pid].req.secret;
    assert DropLast(actions + [Advance(pid, kv, now)]) == actions;
    ActKeepsInvariant(s, Advance(pid, kv, now));
    StepHolds(s.claims, s.callers[pid], kv, now, secret);
    assert secret in Act(s, Advance(pid, kv, now)).claims;
  }

  // --- what the KV read decides ----------------------------------------------------------------

  // Action k was caller i's KV read, and returned this record or none.
  predicate ReadBy(actions: seq<Action>, i: nat, k: nat, kv: Option<KvRecord>) {
    && k < |actions| && actions[k].Advance? && actions[k].pid == i && actions[k].kv == kv
    && i < |Run(START, actions[..k]).callers| && Run(START, actions[..k]).callers[i].Reading?
  }

  // The record is neither cancelled nor redeemed, and not expired at the moment it was read.
  predicate Redeemable(record: KvRecord, now: Time) {
    !record.cancelled && !record.redeemed && now <= record.expiresAt
  }

  lemma {:induction false} PastTheRead(actions: seq<Action>, i: nat) returns (k: nat, record: KvRecord)
    requires i < |Run(START, actions).callers| && !Run(START, actions).callers[i].Reading? && !Run(START, actions).callers[i].Refused?
    ensures ReadBy(actions, i, k, Some(record)) && Redeemable(record, actions[k].now)
    ensures var caller := Run(START, actions).callers[i];
            match caller {
              case Claiming(_, r) => r == record
              case Mirroring(_, r, _) => r == record
              case Won(_, bucketId, _) => bucketId == record.bucketId
              case _ => true
            }
  {
    var n, front := |actions| - 1, DropLast(actions);
    assert front == actions[..n];
    var before := Run(START, front);
    if i < |before.callers| && before.callers[i].Reading? {
      k, record := n, actions[n].kv.value;
    } else {
      k, record := PastTheRead(front, i);
      assert front[..k] == actions[..k] && front[k] == actions[k];
    }
  }

  /** A capability is only handed out for a record that was read uncancelled, unredeemed and unexpired, and for the bucket
      that record names. */
  lemma WonOnAGoodRead(actions: seq<Action>, i: nat) returns (k: nat, record: KvRecord)
    requires i < |Run(START, actions).callers| && Run(START, actions).callers[i].Won?
    ensures ReadBy(actions, i, k, Some(record)) && !record.cancelled && !record.redeemed && actions[k].now <= record.expiresAt
    ensures Run(START, actions).callers[i].bucketId == record.bucketId
  {
    k, record := PastTheRead(actions, i);
  }

  lemma RunNext(front: seq<Action>, a: Action)
    ensures Run(START, front + [a]) == Act(Run(START, front), a)
  {
    assert DropLast(front + [a]) == front;
  }

  /** Conversely such a read always leads to the claim, and, when the secret is unclaimed and nobody steps in between, to the
      capability for that bucket, issued at the time of the claim. */
  lemma GoodReadsWin(actions: seq<Action>, i: nat, record: KvRecord, t1: Time, kv2: Option<KvRecord>, t2: Time, kv3: Option<KvRecord>, t3: Time)
    requires i < |Run(START, actions).callers| && Run(START, actions).callers[i].Reading?
    requires !record.cancelled && !record.redeemed && t1 <= record.expiresAt
    ensures var req, claiming := Run(START, actions).callers[i].req, actions + [Advance(i, Some(record), t1)];
            && Run(START, claiming).callers[i] == Claiming(req, record)
            && (req.secret !in Run(START, actions).claims ==>
                  var done := Run(START, claiming + [Advance(i, kv2, t2)] + [Advance(i, kv3, t3)]);
                  i < |done.callers| && done.callers[i] == Won(req, record.bucketId, t2))
  {
    var claiming := actions + [Advance(i, Some(record), t1)];
    RunNext(actions, Advance(i, Some(record), t1));
    RunNext(claiming, Advance(i, kv2, t2));
    RunNext(claiming + [Advance(i, kv2, t2)], Advance(i, kv3, t3));
  }

  // What each refusal says about the read, or about the claim that came first.
  predicate Meant(answer: Answer, before: Caller, kv: Option<KvRecord>, now: Time, claims: map<Bytes, RedemptionState>) {
    match answer
    case TokenNotFound => before.Reading? && kv.None?
    case TokenCancelled => before.Reading? && kv.Some? && kv.value.cancelled
    case TokenAlreadyRedeemed =>
      || (before.Reading? && kv.Some? && !kv.value.cancelled && kv.value.redeemed)
      || (before.Claiming? && before.req.secret in claims)
    case TokenExpired => before.Reading? && kv.Some? && !kv.value.cancelled && !kv.value.redeemed && kv.value.expiresAt < now
  }

  /** Every refusal means what was read, or that another claim came first. */
  lemma {:induction false} RefusalsMeanTheRead(actions: seq<Action>, i: nat) returns (k: nat)
    requires i < |Run(START, actions).callers| && Run(START, actions).callers[i].Refused?
    ensures k < |actions| && actions[k].Advance? && actions[k].pid == i && i < |Run(START, actions[..k]).callers|
    ensures var s := Run(START, actions[..k]);
            Meant(Run(START, actions).callers[i].answer, s.callers[i], actions[k].kv, actions[k].now, s.claims)
  {
    var n, front := |actions| - 1, DropLast(actions);
    assert front == actions[..n];
    var before := Run(START, front);
    if i < |before.callers| && before.callers[i].Refused? {
      k := RefusalsMeanTheRead(front, i);
      assert front[..k] == actions[..k] && front[k] == actions[k];
    } else {
      k := n;
    }
  }

  // The read is made once: whatever it returns, it refuses or goes on to the claim.
  lemma ReadsOnce(actions: seq<Action>, i: nat, kv: Option<KvRecord>, now: Time)
    requires i < |Run(START, actions).callers| && Run(START, actions).callers[i].Reading?
    ensures var next := Run(START, actions + [Advance(i, kv, now)]).callers[i];
            if kv.Some? && Redeemable(kv.value, now) then next.Claiming? else next.Refused?
  {
    RunNext(actions, Advance(i, kv, now));
  }
}
