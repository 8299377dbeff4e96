/** First-party caveats: the SDK's printer (fabric-sdk-js/src/grants.js) and the two evaluators that read what it prints
    (nakli-hub/internal/server/caveats.go, nakli-cf-worker/src/caveats.ts). */
module Caveats {
  import opened Wrappers
  import opened Text

  datatype Unit = Second | Minute | Hour | Day

  // Times in milliseconds since 1970.
  datatype Caveat =
    | TimeBefore(t: int)
    | TimeAfter(t: int)
    | PrincipalType(types: seq<string>)
    | AgentId(id: string)
    | DeviceId(id: string)
    | Operation(operations: seq<string>)
    | Namespace(namespace: string)
    | NonDelegatable
    | IdempotencyRequired
    | Rate(count: nat, per: Unit)
    | MaxAmount(amount: nat, currency: string)
    | OnlyDomain(domains: seq<string>)
    | RequiresHumanApproval
    | DischargeFrom(url: string)

  // Library code the evaluators call: Date.toISOString, time.Parse (nanoseconds), new Date (milliseconds), and case folding.
  datatype Library = Library(
    isoString: int -> string,
    parseGoTime: string -> Option<int>,
    parseJsTime: string -> Option<int>,
    equalFold: (string, string) -> bool,
    goLower: string -> string,
    jsLower: string -> string)
  {
    ghost predicate Lawful() {
      && (forall t :: FourDigitYear(t) ==> TimesRoundTrip(t))
      && (forall a, b :: Ascii(a) && Ascii(b) ==> (equalFold(a, b) <==> AsciiLower(a) == AsciiLower(b)))
      && (forall a :: Ascii(a) ==> goLower(a) == AsciiLower(a))
      && (forall a :: Ascii(a) ==> jsLower(a) == AsciiLower(a))
    }

    ghost predicate TimesRoundTrip(t: int) {
      var text := isoString(t);
      && text != "" && Trimmed(GoSpace, text) && Trimmed(JsSpace, text)
      && parseGoTime(text) == Some(t * 1_000_000) && parseJsTime(text) == Some(t)
    }
  }

  // 0000-01-01T00:00:00.000Z to 9999-12-31T23:59:59.999Z
  predicate FourDigitYear(t: int) {
    -62167219200000 <= t <= 253402300799999
  }

  // --- printing --------------------------------------------------------------------------------

  function UnitName(u: Unit): string {
    match u
    case Second => "second"
    case Minute => "minute"
    case Hour => "hour"
    case Day => "day"
  }

  function PrintList(items: seq<string>): string {
    "[" + Join(items, ", ") + "]"
  }

  function Print(c: Caveat, lib: Library): string {
    match c
    case TimeBefore(t) => "time < " + lib.isoString(t)
    case TimeAfter(t) => "time > " + lib.isoString(t)
    case PrincipalType(types) => "principal-type in " + PrintList(types)
    case AgentId(id) => "agent-id == " + id
    case DeviceId(id) => "device-id == " + id
    case Operation(ops) => "operation in " + PrintList(ops)
    case Namespace(ns) => "namespace == " + ns
    case NonDelegatable => "nondelegatable"
    case IdempotencyRequired => "idempotency-required"
    case Rate(n, u) => "rate <= " + (Decimal(n) + " per " + UnitName(u))
    case MaxAmount(n, currency) => "max-amount <= " + (Decimal(n) + " " + currency)
    case OnlyDomain(domains) => "only-domain in " + PrintList(domains)
    case RequiresHumanApproval => "requires-human-approval"
    case DischargeFrom(url) => "discharge-from " + url
  }

  function PrintAll(cs: seq<Caveat>, lib: Library): seq<string> {
    seq(|cs|, i requires 0 <= i < |cs| => Print(cs[i], lib))
  }

  // --- reading ---------------------------------------------------------------------------------

  // The branch a caveat takes, with the text after its keyword. Both evaluators try the keywords in this order.
  datatype Head =
    | BeforeHead(body: string) | AfterHead(body: string) | PrincipalHead(body: string) | AgentHead(body: string)
    | DeviceHead(body: string) | OperationHead(body: string) | NamespaceHead(body: string) | NonDelegatableHead
    | IdempotencyHead | RateHead(body: string) | AmountHead(body: string) | DomainHead(body: string) | ApprovalHead
    | DischargeHead(body: string) | UnknownHead

  function Classify(c: string): Head {
    if "time < " <= c then BeforeHead(c[7..])
    else if "time > " <= c then AfterHead(c[7..])
    else if "principal-type in " <= c then PrincipalHead(c[18..])
    else if "agent-id == " <= c then AgentHead(c[12..])
    else if "device-id == " <= c then DeviceHead(c[13..])
    else if "operation in " <= c then OperationHead(c[13..])
    else if "namespace == " <= c then NamespaceHead(c[13..])
    else if c == "nondelegatable" then NonDelegatableHead
    else if c == "idempotency-required" then IdempotencyHead
    else if "rate <= " <= c then RateHead(c[8..])
    else if "max-amount <= " <= c then AmountHead(c[14..])
    else if "only-domain in " <= c then DomainHead(c[15..])
    else if c == "requires-human-approval" then ApprovalHead
    else if "discharge-from " <= c then DischargeHead(c[15..])
    else UnknownHead
  }

  // Items between optional brackets, trimmed, empty ones dropped.
  function ParseList(sp: Spaces, s: string): seq<string> {
    TrimmedItems(sp, Split(Unbracketed(Trim(sp, s)), ','))
  }

  function Unbracketed(s: string): string {
    var t := if "[" <= s then s[1..] else s;
    if t != "" && Last(t) == ']' then DropLast(t) else t
  }

  function TrimmedItems(sp: Spaces, items: seq<string>): seq<string> {
    if items == [] then []
    else TrimmedItem(sp, items[0]) + TrimmedItems(sp, items[1..])
  }

  function TrimmedItem(sp: Spaces, item: string): seq<string> {
    if Trim(sp, item) == "" then [] else [Trim(sp, item)]
  }

  // Two's complement, 64 bits.
  function Wrap64(n: int): int {
    (n + 0x8000_0000_0000_0000) % 0x1_0000_0000_0000_0000 - 0x8000_0000_0000_0000
  }

  function GoPositiveInt(s: string): Option<int> {
    var t := Trim(GoSpace, s);
    if t == "" || !AllDigits(t) || Wrap64(ValueOf(t)) <= 0 then None else Some(Wrap64(ValueOf(t)))
  }

  // parseInt(s, 10), exact also above 2^53; None for NaN.
  function JsParseInt(s: string): Option<int> {
    var t := TrimLeft(JsSpace, s);
    var negative := "-" <= t;
    var u := if negative || "+" <= t then t[1..] else t;
    var d := u[..DigitRun(u)];
    var n: int := ValueOf(d);
    if d == "" then None else Some(if negative then -n else n)
  }

  function DigitRun(s: string): (n: nat)
    ensures n <= |s| && AllDigits(s[..n])
    ensures n < |s| ==> !IsDigit(s[n])
  {
    if s != "" && IsDigit(s[0]) then 1 + DigitRun(s[1..]) else 0
  }

  function WindowMs(unit: string): Option<nat> {
    if unit == "second" then Some(1_000)
    else if unit == "minute" then Some(60_000)
    else if unit == "hour" then Some(3_600_000)
    else if unit == "day" then Some(86_400_000)
    else None
  }

  // --- evaluation ------------------------------------------------------------------------------

  datatype Kind = Unmet | RateLimited | HumanApproval

  datatype RateCall = RateCall(grantId: string, capacity: int, windowMs: nat)

  // The request and the state its caveats are checked against. An absent header is the empty string; allow answers a
  // rate call after the calls before it.
  datatype Context = Context(
    nowNanos: int,
    operation: string,
    namespace: string,
    hasIdempotencyKey: bool,
    isDelegation: bool,
    grantId: string,
    principalType: string,
    agentId: string,
    deviceId: string,
    isBridge: bool,
    domain: string,
    amount: int,
    currency: string,
    hasServer: bool,
    dischargeIds: set<string>,
    cachedDischarges: set<string>,
    strictBinding: bool,
    allow: (seq<RateCall>, RateCall) -> bool)
  {
    function NowMs(): int { nowNanos / 1_000_000 }
  }

  // What one caveat answers, and the rate calls made so far.
  datatype Check = Check(failure: Option<Kind>, calls: seq<RateCall>)

  function Holds(ok: bool, calls: seq<RateCall>): Check {
    Check(if ok then None else Some(Unmet), calls)
  }

  function Consume(call: RateCall, ctx: Context, calls: seq<RateCall>): Check {
    Check(if ctx.allow(calls, call) then None else Some(RateLimited), calls + [call])
  }

  function HubRate(body: string, ctx: Context, calls: seq<RateCall>): Check {
    var b := Trim(GoSpace, body);
    var at := Find(b, " per ");
    if at == None then Holds(false, calls)
    else
      var n, window := GoPositiveInt(b[..at.value]), WindowMs(Trim(GoSpace, b[at.value + 5..]));
      if n == None || window == None then Holds(false, calls)
      else if !ctx.hasServer || ctx.grantId == "" then Holds(true, calls)
      else Consume(RateCall(ctx.grantId, n.value, window.value), ctx, calls)
  }

  function HubAmount(body: string, ctx: Context, lib: Library): bool {
    var parts := Fields(GoSpace, Trim(GoSpace, body));
    |parts| == 2 &&
    var n := GoPositiveInt(parts[0]);
    n.Some? && lib.equalFold(ctx.currency, parts[1]) && ctx.amount <= n.value
  }

  function HubDomain(body: string, ctx: Context, lib: Library): bool {
    ctx.domain != "" &&
    var d := lib.goLower(Trim(GoSpace, ctx.domain));
    exists a :: a in ParseList(GoSpace, body) && lib.equalFold(Trim(GoSpace, a), d)
  }

  function HubCheck(h: Head, ctx: Context, lib: Library, calls: seq<RateCall>): Check {
    match h
    case BeforeHead(b) => Holds(var t := lib.parseGoTime(Trim(GoSpace, b)); t.Some? && ctx.nowNanos < t.value, calls)
    case AfterHead(b) => Holds(var t := lib.parseGoTime(Trim(GoSpace, b)); t.Some? && ctx.nowNanos > t.value, calls)
    case PrincipalHead(b) =>
      Holds(if ctx.principalType == "" then !ctx.strictBinding else ctx.principalType in ParseList(GoSpace, b), calls)
    case AgentHead(b) => Holds(if ctx.agentId == "" then !ctx.strictBinding else Trim(GoSpace, b) == ctx.agentId, calls)
    case DeviceHead(b) => Holds(if ctx.deviceId == "" then !ctx.strictBinding else Trim(GoSpace, b) == ctx.deviceId, calls)
    case OperationHead(b) => Holds(ctx.operation in ParseList(GoSpace, b), calls)
    case NamespaceHead(b) => Holds(ctx.namespace == Trim(GoSpace, b), calls)
    case NonDelegatableHead => Holds(!ctx.isDelegation, calls)
    case IdempotencyHead => Holds(ctx.hasIdempotencyKey, calls)
    case RateHead(b) => HubRate(b, ctx, calls)
    case AmountHead(b) => Holds(ctx.isBridge ==> HubAmount(b, ctx, lib), calls)
    case DomainHead(b) => Holds(ctx.isBridge ==> HubDomain(b, ctx, lib), calls)
    case ApprovalHead => Check(if ctx.isBridge then Some(HumanApproval) else None, calls)
    case DischargeHead(b) =>
      var want := Trim(GoSpace, b);
      Holds(want != "" && (ctx.hasServer ==> want in ctx.dischargeIds || want in ctx.cachedDischarges), calls)
    case UnknownHead => Holds(false, calls)
  }

  function WorkerRate(body: string, ctx: Context, calls: seq<RateCall>): Check {
    var b := Trim(JsSpace, body);
    var at := Find(b, " per ");
    if at == None || Find(b[at.value + 5..], " per ").Some? then Holds(false, calls)
    else
      var n, window := JsParseInt(b[..at.value]), WindowMs(Trim(JsSpace, b[at.value + 5..]));
      if n == None || n.value <= 0 || window == None then Holds(false, calls)
      else Consume(RateCall(ctx.grantId, n.value, window.value), ctx, calls)
  }

  function WorkerAmount(body: string, ctx: Context, lib: Library): bool {
    var parts := Fields(JsSpace, Trim(JsSpace, body));
    |parts| == 2 &&
    var n := JsParseInt(parts[0]);
    n.Some? && n.value > 0 && lib.jsLower(ctx.currency) == lib.jsLower(parts[1]) && ctx.amount <= n.value
  }

  function WorkerDomain(body: string, ctx: Context, lib: Library): bool {
    ctx.domain != "" && exists a :: a in ParseList(JsSpace, body) && lib.jsLower(a) == lib.jsLower(ctx.domain)
  }

  function WorkerCheck(h: Head, ctx: Context, lib: Library, calls: seq<RateCall>): Check {
    match h
    case BeforeHead(b) => Holds(var t := lib.parseJsTime(Trim(JsSpace, b)); t.Some? && ctx.NowMs() < t.value, calls)
    case AfterHead(b) => Holds(var t := lib.parseJsTime(Trim(JsSpace, b)); t.Some? && ctx.NowMs() > t.value, calls)
    case PrincipalHead(b) =>
      Holds(if ctx.principalType == "" then !ctx.strictBinding else ctx.principalType in ParseList(JsSpace, b), calls)
    case AgentHead(b) => Holds(if ctx.agentId == "" then !ctx.strictBinding else Trim(JsSpace, b) == ctx.agentId, calls)
    case DeviceHead(b) => Holds(if ctx.deviceId == "" then !ctx.strictBinding else Trim(JsSpace, b) == ctx.deviceId, calls)
    case OperationHead(b) => Holds(ctx.operation in ParseList(JsSpace, b), calls)
    case NamespaceHead(b) => Holds(ctx.namespace == Trim(JsSpace, b), calls)
    case NonDelegatableHead => Holds(!ctx.isDelegation, calls)
    case IdempotencyHead => Holds(ctx.hasIdempotencyKey, calls)
    case RateHead(b) => WorkerRate(b, ctx, calls)
    case AmountHead(b) => Holds(ctx.isBridge ==> WorkerAmount(b, ctx, lib), calls)
    case DomainHead(b) => Holds(ctx.isBridge ==> WorkerDomain(b, ctx, lib), calls)
    case ApprovalHead => Check(if ctx.isBridge then Some(HumanApproval) else None, calls)
    case DischargeHead(b) =>
      var want := Trim(JsSpace, b);
      Holds(want != "" && (want in ctx.dischargeIds || want in ctx.cachedDischarges), calls)
    case UnknownHead => Holds(false, calls)
  }

  function HubOne(c: string, ctx: Context, lib: Library, calls: seq<RateCall>): Check {
    HubCheck(Classify(c), ctx, lib, calls)
  }

  function WorkerOne(c: string, ctx: Context, lib: Library, calls: seq<RateCall>): Check {
    WorkerCheck(Classify(c), ctx, lib, calls)
  }

  // Either every caveat passed, or the first that did not, with its kind.
  datatype Verdict = Passed(calls: seq<RateCall>) | Failed(caveat: string, kind: Kind, calls: seq<RateCall>)

  function HubEvaluate(cs: seq<string>, ctx: Context, lib: Library, calls: seq<RateCall>): Verdict {
    if cs == [] then Passed(calls)
    else
      var c := Trim(GoSpace, cs[0]);
      var r := HubOne(c, ctx, lib, calls);
      if r.failure.Some? then Failed(c, r.failure.value, r.calls) else HubEvaluate(cs[1..], ctx, lib, r.calls)
  }

  function WorkerEvaluate(cs: seq<string>, ctx: Context, lib: Library, calls: seq<RateCall>): Verdict {
    if cs == [] then Passed(calls)
    else
      var c := Trim(JsSpace, cs[0]);
      var r := WorkerOne(c, ctx, lib, calls);
      if r.failure.Some? then Failed(c, r.failure.value, r.calls) else WorkerEvaluate(cs[1..], ctx, lib, r.calls)
  }

  // --- the loops -------------------------------------------------------------------------------

  lemma SameRemainder(y: int, k: int)
    ensures (y - k * 0x1_0000_0000_0000_0000) % 0x1_0000_0000_0000_0000 == y % 0x1_0000_0000_0000_0000
  {
  }

  lemma WrapStep(x: int, d: int)
    ensures Wrap64(Wrap64(x) * 10 + d) == Wrap64(x * 10 + d)
  {
    var q := (x + 0x8000_0000_0000_0000) / 0x1_0000_0000_0000_0000;
    assert Wrap64(x) == x - q * 0x1_0000_0000_0000_0000;
    SameRemainder(x * 10 + d + 0x8000_0000_0000_0000, 10 * q);
  }

  method ParsePositiveInt(s: string) returns (r: Option<int>)
    ensures r == GoPositiveInt(s)
  {
    var t := Trim(GoSpace, s);
    if t == "" {
      return None;
    }
    var n, i := 0, 0;
    while i < |t|
      invariant i <= |t| && AllDigits(t[..i]) && n == Wrap64(ValueOf(t[..i]))
    {
      if !IsDigit(t[i]) {
        return None;
      }
      assert t[..i + 1] == t[..i] + [t[i]];
      WrapStep(ValueOf(t[..i]), DigitOf(t[i]));
      n := Wrap64(n * 10 + DigitOf(t[i]));
      i := i + 1;
    }
    assert t[..i] == t;
    return if n <= 0 then None else Some(n);
  }

  method ParseListBracket(s: string) returns (out: seq<string>)
    ensures out == ParseList(GoSpace, s)
  {
    var t := Trim(GoSpace, s);
    if "[" <= t {
      t := t[1..];
    }
    if t != "" && Last(t) == ']' {
      t := DropLast(t);
    }
    assert t == Unbracketed(Trim(GoSpace, s));
    out := Collect(Split(t, ','));
  }

  predicate CollectedSoFar(out: seq<string>, rest: seq<string>, items: seq<string>) {
    out + TrimmedItems(GoSpace, rest) == TrimmedItems(GoSpace, items)
  }

  lemma NextItem(out: seq<string>, rest: seq<string>, items: seq<string>)
    requires rest != [] && CollectedSoFar(out, rest, items)
    ensures var v := Trim(GoSpace, rest[0]); CollectedSoFar(if v == "" then out else out + [v], rest[1..], items)
  {
    var v, more := Trim(GoSpace, rest[0]), TrimmedItems(GoSpace, rest[1..]);
    if v == "" {
      assert TrimmedItems(GoSpace, rest) == more;
    } else {
      assert out + ([v] + more) == (out + [v]) + more;
    }
  }

  method Collect(items: seq<string>) returns (out: seq<string>)
    ensures out == TrimmedItems(GoSpace, items)
  {
    out := [];
    var i := 0;
    assert items[0..] == items;
    while i < |items|
      invariant i <= |items| && CollectedSoFar(out, items[i..], items)
    {
      var v := Trim(GoSpace, items[i]);
      NextItem(out, items[i..], items);
      assert items[i..][1..] == items[i + 1..];
      if v != "" {
        out := out + [v];
      }
      i := i + 1;
    }
  }

  method EvaluateCaveats(cs: seq<string>, ctx: Context, lib: Library, before: seq<RateCall>) returns (v: Verdict)
    ensures v == HubEvaluate(cs, ctx, lib, before)
  {
    var calls, i := before, 0;
    while i < |cs|
      invariant i <= |cs| && HubEvaluate(cs, ctx, lib, before) == HubEvaluate(cs[i..], ctx, lib, calls)
    {
      var c := Trim(GoSpace, cs[i]);
      var r := HubOne(c, ctx, lib, calls);
      if r.failure.Some? {
        return Failed(c, r.failure.value, r.calls);
      }
      calls, i := r.calls, i + 1;
    }
    return Passed(calls);
  }
}
