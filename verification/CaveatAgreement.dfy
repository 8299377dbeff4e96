/** What a structured caveat means, and that both evaluators read exactly that from its printed form. */
module CaveatAgreement {
  import opened Wrappers
  import opened Text
  import opened Caveats

  // --- well-formed values ----------------------------------------------------------------------

  predicate Value(s: string) {
    s != "" && Trimmed(GoSpace, s) && Trimmed(JsSpace, s)
  }

  predicate Item(s: string) {
    Value(s) && ',' !in s
  }

  predicate Items(items: seq<string>) {
    forall i :: 0 <= i < |items| ==> Item(items[i])
  }

  predicate Currency(s: string) {
    Word(GoSpace, s) && Word(JsSpace, s) && Ascii(s)
  }

  predicate WellFormed(c: Caveat) {
    match c
    case TimeBefore(t) => FourDigitYear(t)
    case TimeAfter(t) => FourDigitYear(t)
    case PrincipalType(types) => Items(types)
    case AgentId(id) => Value(id)
    case DeviceId(id) => Value(id)
    case Operation(ops) => Items(ops)
    case Namespace(ns) => Value(ns)
    case Rate(n, _) => 0 < n < 0x20_0000_0000_0000
    case MaxAmount(n, currency) => 0 < n < 0x20_0000_0000_0000 && Currency(currency)
    case OnlyDomain(domains) => Items(domains) && forall i :: 0 <= i < |domains| ==> Ascii(domains[i])
    case DischargeFrom(url) => Value(url)
    case NonDelegatable => true
    case IdempotencyRequired => true
    case RequiresHumanApproval => true
  }

  // The request reaches both evaluators in the same form: an ASCII trimmed domain and currency, a live server and a
  // grant id. The clock may stand anywhere between two milliseconds.
  predicate Comparable(ctx: Context) {
    && Trimmed(GoSpace, ctx.domain) && Ascii(ctx.domain) && Ascii(ctx.currency)
    && ctx.hasServer && ctx.grantId != ""
  }

  // The Hub's nanosecond clock is past this moment and the Worker's millisecond clock is not yet.
  predicate Skewed(c: Caveat, ctx: Context) {
    c.TimeAfter? && ctx.NowMs() == c.t && ctx.nowNanos % 1_000_000 != 0
  }

  // --- meaning ---------------------------------------------------------------------------------

  function UnitMs(u: Unit): nat {
    match u
    case Second => 1_000
    case Minute => 60_000
    case Hour => 3_600_000
    case Day => 86_400_000
  }

  function Meaning(c: Caveat, ctx: Context, calls: seq<RateCall>): Check {
    match c
    case TimeBefore(t) => Holds(ctx.nowNanos < t * 1_000_000, calls)
    case TimeAfter(t) => Holds(ctx.nowNanos > t * 1_000_000, calls)
    case PrincipalType(types) => Holds(if ctx.principalType == "" then !ctx.strictBinding else ctx.principalType in types, calls)
    case AgentId(id) => Holds(if ctx.agentId == "" then !ctx.strictBinding else ctx.agentId == id, calls)
    case DeviceId(id) => Holds(if ctx.deviceId == "" then !ctx.strictBinding else ctx.deviceId == id, calls)
    case Operation(ops) => Holds(ctx.operation in ops, calls)
    case Namespace(ns) => Holds(ctx.namespace == ns, calls)
    case NonDelegatable => Holds(!ctx.isDelegation, calls)
    case IdempotencyRequired => Holds(ctx.hasIdempotencyKey, calls)
    case Rate(n, u) => Consume(RateCall(ctx.grantId, n, UnitMs(u)), ctx, calls)
    case MaxAmount(n, currency) => Holds(ctx.isBridge ==> AsciiLower(ctx.currency) == AsciiLower(currency) && ctx.amount <= n, calls)
    case OnlyDomain(domains) =>
      Holds(ctx.isBridge ==> ctx.domain != "" && exists d :: d in domains && AsciiLower(d) == AsciiLower(ctx.domain), calls)
    case RequiresHumanApproval => Check(if ctx.isBridge then Some(HumanApproval) else None, calls)
    case DischargeFrom(url) => Holds(url in ctx.dischargeIds || url in ctx.cachedDischarges, calls)
  }

  function MeaningOf(cs: seq<Caveat>, ctx: Context, lib: Library, calls: seq<RateCall>): Verdict {
    if cs == [] then Passed(calls)
    else
      var r := Meaning(cs[0], ctx, calls);
      if r.failure.Some? then Failed(Print(cs[0], lib), r.failure.value, r.calls) else MeaningOf(cs[1..], ctx, lib, r.calls)
  }

  // --- lists -----------------------------------------------------------------------------------

  lemma KeptItem(sp: Spaces, y: string, rest: seq<string>)
    requires Trim(sp, y) != ""
    ensures TrimmedItems(sp, [y] + rest) == [Trim(sp, y)] + TrimmedItems(sp, rest)
  {
    assert ([y] + rest)[1..] == rest;
  }

  predicate PlainItem(sp: Spaces, x: string) {
    x != "" && Trimmed(sp, x) && ',' !in x
  }

  lemma LeadingSpace(sp: Spaces, lead: string, x: string)
    requires sp(' ') && PlainItem(sp, x) && (lead == "" || lead == " ")
    ensures Trim(sp, lead + x) == x && ',' !in lead + x
  {
    TrimOfTrimmed(sp, x);
    TrimAfterSpace(sp, x);
    assert "" + x == x;
  }

  lemma JoinStep(x: string, rest: seq<string>, lead: string)
    requires rest != []
    ensures lead + Join([x] + rest, ", ") == (lead + x) + [','] + (" " + Join(rest, ", "))
  {
    assert ([x] + rest)[1..] == rest;
  }

  lemma {:induction false} SpacedItems(sp: Spaces, items: seq<string>, lead: string)
    requires sp(' ') && forall i :: 0 <= i < |items| ==> PlainItem(sp, items[i])
    requires items != [] && (lead == "" || lead == " ")
    ensures TrimmedItems(sp, Split(lead + Join(items, ", "), ',')) == items
    decreases |items|
  {
    var x, rest := items[0], items[1..];
    var y := lead + x;
    LeadingSpace(sp, lead, x);
    assert items == [x] + rest;
    if rest == [] {
      SplitWithout(y, ',');
      KeptItem(sp, y, []);
      assert [y] + [] == [y];
    } else {
      SpacedItems(sp, rest, " ");
      var more := " " + Join(rest, ", ");
      JoinStep(x, rest, lead);
      SplitAtFirst(y, ',', more);
      KeptItem(sp, y, Split(more, ','));
    }
  }

  /** A list prints between brackets, a comma and a space between its items. */
  lemma PrintedLists(a: string, rest: seq<string>)
    ensures PrintList([]) == "[]" && PrintList([a]) == "[" + a + "]"
    ensures rest != [] ==> PrintList([a] + rest) == "[" + a + ", " + PrintList(rest)[1..]
  {
    if rest != [] {
      assert ([a] + rest)[1..] == rest;
      assert PrintList(rest)[1..] == Join(rest, ", ") + "]";
      assert PrintList([a] + rest) == "[" + (a + ", " + Join(rest, ", ")) + "]";
    }
  }

  lemma Brackets(sp: Spaces, inner: string)
    requires !sp('[') && !sp(']')
    ensures Unbracketed(Trim(sp, "[" + inner + "]")) == inner
  {
    var s := "[" + inner + "]";
    assert s[0] == '[' && Last(s) == ']';
    TrimOfTrimmed(sp, s);
    assert s[1..] == inner + "]" && DropLast(inner + "]") == inner;
  }

  /** Reading a printed list gives the list back. */
  lemma ListRoundTrip(sp: Spaces, items: seq<string>)
    requires sp(' ') && !sp('[') && !sp(']')
    requires forall i :: 0 <= i < |items| ==> PlainItem(sp, items[i])
    ensures ParseList(sp, PrintList(items)) == items
  {
    var inner := Join(items, ", ");
    Brackets(sp, inner);
    if items == [] {
      assert Split("", ',') == [""] && Trim(sp, "") == "";
      assert TrimmedItems(sp, [""]) == TrimmedItems(sp, [""][1..]);
    } else {
      SpacedItems(sp, items, "");
      assert "" + inner == inner;
    }
  }

  lemma ListsRoundTrip(items: seq<string>)
    requires Items(items)
    ensures ParseList(GoSpace, PrintList(items)) == items && ParseList(JsSpace, PrintList(items)) == items
  {
    ListRoundTrip(GoSpace, items);
    ListRoundTrip(JsSpace, items);
  }

  // --- numbers ---------------------------------------------------------------------------------

  lemma DigitsAreWords(s: string)
    requires AllDigits(s) && s != ""
    ensures Word(GoSpace, s) && Word(JsSpace, s) && Value(s)
  {
  }

  lemma {:induction false} DigitRunOfDigits(s: string)
    requires AllDigits(s)
    ensures DigitRun(s) == |s|
  {
    if s != "" {
      DigitRunOfDigits(s[1..]);
    }
  }

  lemma SmallIsUnwrapped(n: nat)
    requires n < 0x8000_0000_0000_0000
    ensures Wrap64(n) == n
  {
  }

  /** Reading a printed positive number gives it back, in both evaluators. */
  lemma NumberRoundTrip(n: nat)
    requires 0 < n < 0x8000_0000_0000_0000
    ensures GoPositiveInt(Decimal(n)) == Some(n) && JsParseInt(Decimal(n)) == Some(n)
  {
    var s := Decimal(n);
    ValueOfDecimal(n);
    DigitsAreWords(s);
    SmallIsUnwrapped(n);
    TrimOfTrimmed(GoSpace, s);
    PlainDigitsParse(s);
  }

  lemma PlainDigitsParse(s: string)
    requires AllDigits(s) && s != ""
    ensures JsParseInt(s) == Some(ValueOf(s))
  {
    DigitRunOfDigits(s);
    assert IsDigit(s[0]) && s[..|s|] == s;
  }

  lemma UnitNameIsWord(u: Unit)
    ensures Word(GoSpace, UnitName(u)) && Word(JsSpace, UnitName(u)) && Value(UnitName(u)) && ' ' !in UnitName(u)
    ensures WindowMs(UnitName(u)) == Some(UnitMs(u))
  {
  }

  function RateBody(n: nat, u: Unit): string {
    Decimal(n) + " per " + UnitName(u)
  }

  lemma RateBodyParts(n: nat, u: Unit)
    ensures var b, at := RateBody(n, u), |Decimal(n)|;
            && Value(b) && Find(b, " per ") == Some(at) && b[..at] == Decimal(n) && b[at + 5..] == UnitName(u)
            && Find(UnitName(u), " per ") == None
  {
    DigitsAreWords(Decimal(n));
    UnitNameIsWord(u);
    FindAfter(Decimal(n), " per ", UnitName(u));
    FindWithout(UnitName(u), " per ");
  }

  lemma RateIsRead(n: nat, u: Unit, ctx: Context, calls: seq<RateCall>)
    requires 0 < n < 0x20_0000_0000_0000 && ctx.hasServer && ctx.grantId != ""
    ensures HubRate(RateBody(n, u), ctx, calls) == Consume(RateCall(ctx.grantId, n, UnitMs(u)), ctx, calls)
    ensures WorkerRate(RateBody(n, u), ctx, calls) == Consume(RateCall(ctx.grantId, n, UnitMs(u)), ctx, calls)
  {
    RateBodyParts(n, u);
    NumberRoundTrip(n);
    UnitNameIsWord(u);
    TrimOfTrimmed(GoSpace, UnitName(u));
    TrimOfTrimmed(JsSpace, UnitName(u));
    TrimOfTrimmed(GoSpace, RateBody(n, u));
    TrimOfTrimmed(JsSpace, RateBody(n, u));
  }

  function AmountBody(n: nat, currency: string): string {
    Decimal(n) + " " + currency
  }

  lemma AmountIsRead(n: nat, currency: string, ctx: Context, lib: Library)
    requires 0 < n < 0x20_0000_0000_0000 && Currency(currency) && Ascii(ctx.currency) && lib.Lawful()
    ensures HubAmount(AmountBody(n, currency), ctx, lib) == (AsciiLower(ctx.currency) == AsciiLower(currency) && ctx.amount <= n)
    ensures WorkerAmount(AmountBody(n, currency), ctx, lib) == (AsciiLower(ctx.currency) == AsciiLower(currency) && ctx.amount <= n)
    ensures Value(AmountBody(n, currency))
  {
    DigitsAreWords(Decimal(n));
    NumberRoundTrip(n);
    FieldsOfTwoWords(GoSpace, Decimal(n), currency);
    FieldsOfTwoWords(JsSpace, Decimal(n), currency);
    TrimOfTrimmed(GoSpace, AmountBody(n, currency));
    TrimOfTrimmed(JsSpace, AmountBody(n, currency));
  }

  lemma DomainIsRead(domains: seq<string>, ctx: Context, lib: Library)
    requires Items(domains) && (forall i :: 0 <= i < |domains| ==> Ascii(domains[i]))
    requires Trimmed(GoSpace, ctx.domain) && Ascii(ctx.domain) && lib.Lawful()
    ensures var allowed := ctx.domain != "" && exists d :: d in domains && AsciiLower(d) == AsciiLower(ctx.domain);
            HubDomain(PrintList(domains), ctx, lib) == allowed && WorkerDomain(PrintList(domains), ctx, lib) == allowed
  {
    ListsRoundTrip(domains);
    TrimOfTrimmed(GoSpace, ctx.domain);
    assert Ascii(AsciiLower(ctx.domain)) && AsciiLower(AsciiLower(ctx.domain)) == AsciiLower(ctx.domain);
    forall d | d in domains
      ensures lib.equalFold(Trim(GoSpace, d), lib.goLower(ctx.domain)) <==> AsciiLower(d) == AsciiLower(ctx.domain)
      ensures lib.jsLower(d) == lib.jsLower(ctx.domain) <==> AsciiLower(d) == AsciiLower(ctx.domain)
    {
      var i :| 0 <= i < |domains| && domains[i] == d;
      TrimOfTrimmed(GoSpace, d);
    }
  }

  // --- one caveat ------------------------------------------------------------------------------

  function HeadOf(c: Caveat, lib: Library): Head {
    match c
    case TimeBefore(t) => BeforeHead(lib.isoString(t))
    case TimeAfter(t) => AfterHead(lib.isoString(t))
    case PrincipalType(types) => PrincipalHead(PrintList(types))
    case AgentId(id) => AgentHead(id)
    case DeviceId(id) => DeviceHead(id)
    case Operation(ops) => OperationHead(PrintList(ops))
    case Namespace(ns) => NamespaceHead(ns)
    case NonDelegatable => NonDelegatableHead
    case IdempotencyRequired => IdempotencyHead
    case Rate(n, u) => RateHead(RateBody(n, u))
    case MaxAmount(n, currency) => AmountHead(AmountBody(n, currency))
    case OnlyDomain(domains) => DomainHead(PrintList(domains))
    case RequiresHumanApproval => ApprovalHead
    case DischargeFrom(url) => DischargeHead(url)
  }

  // Each keyword takes its own branch.
  lemma BeforeBranch(rest: string)
    ensures Classify("time < " + rest) == BeforeHead(rest)
  {
    var c := "time < " + rest;
    assert c[0] == 't' && c[1] == 'i' && c[5] == '<' && c[7..] == rest;
  }

  lemma AfterBranch(rest: string)
    ensures Classify("time > " + rest) == AfterHead(rest)
  {
    var c := "time > " + rest;
    assert c[0] == 't' && c[1] == 'i' && c[5] == '>' && c[7..] == rest;
  }

  lemma PrincipalBranch(rest: string)
    ensures Classify("principal-type in " + rest) == PrincipalHead(rest)
  {
    var c := "principal-type in " + rest;
    assert c[0] == 'p' && c[1] == 'r' && c[5] == 'i' && c[18..] == rest;
  }

  lemma AgentBranch(rest: string)
    ensures Classify("agent-id == " + rest) == AgentHead(rest)
  {
    var c := "agent-id == " + rest;
    assert c[0] == 'a' && c[1] == 'g' && c[5] == '-' && c[12..] == rest;
  }

  lemma DeviceBranch(rest: string)
    ensures Classify("device-id == " + rest) == DeviceHead(rest)
  {
    var c := "device-id == " + rest;
    assert c[0] == 'd' && c[1] == 'e' && c[5] == 'e' && c[13..] == rest;
  }

  lemma OperationBranch(rest: string)
    ensures Classify("operation in " + rest) == OperationHead(rest)
  {
    var c := "operation in " + rest;
    assert c[0] == 'o' && c[1] == 'p' && c[5] == 't' && c[13..] == rest;
  }

  lemma NamespaceBranch(rest: string)
    ensures Classify("namespace == " + rest) == NamespaceHead(rest)
  {
    var c := "namespace == " + rest;
    assert c[0] == 'n' && c[1] == 'a' && c[5] == 'p' && c[13..] == rest;
  }

  lemma RateBranch(rest: string)
    ensures Classify("rate <= " + rest) == RateHead(rest)
  {
    var c := "rate <= " + rest;
    assert c[0] == 'r' && c[1] == 'a' && c[5] == '<' && c[8..] == rest;
  }

  lemma AmountBranch(rest: string)
    ensures Classify("max-amount <= " + rest) == AmountHead(rest)
  {
    var c := "max-amount <= " + rest;
    assert c[0] == 'm' && c[1] == 'a' && c[5] == 'm' && c[14..] == rest;
  }

  lemma DomainBranch(rest: string)
    ensures Classify("only-domain in " + rest) == DomainHead(rest)
  {
    var c := "only-domain in " + rest;
    assert c[0] == 'o' && c[1] == 'n' && c[5] == 'd' && c[15..] == rest;
  }

  lemma DischargeBranch(rest: string)
    ensures Classify("discharge-from " + rest) == DischargeHead(rest)
  {
    var c := "discharge-from " + rest;
    assert c[0] == 'd' && c[1] == 'i' && c[5] == 'a' && c[15..] == rest;
  }

  lemma DelegationBranch(c: string)
    requires c == "nondelegatable"
    ensures Classify(c) == NonDelegatableHead
  {
    assert c[0] == 'n' && c[1] == 'o';
  }

  lemma IdempotencyBranch(c: string)
    requires c == "idempotency-required"
    ensures Classify(c) == IdempotencyHead
  {
    assert c[0] == 'i' && |c| == 20;
  }

  lemma ApprovalBranch(c: string)
    requires |c| == 23 && c[0] == 'r' && c[1] == 'e' && c == "requires-human-approval"
    ensures Classify(c) == ApprovalHead
  {
    OtherKeywords(c);
  }

  // A caveat beginning with "re" takes only the approval branch.
  lemma OtherKeywords(c: string)
    requires |c| > 1 && c[0] == 'r' && c[1] == 'e'
    ensures Classify(c) == if c == "requires-human-approval" then ApprovalHead else UnknownHead
  {
  }

  lemma BareHead(c: Caveat, lib: Library)
    requires c.NonDelegatable? || c.IdempotencyRequired? || c.RequiresHumanApproval?
    ensures Classify(Print(c, lib)) == HeadOf(c, lib)
  {
    match c
    case NonDelegatable => DelegationBranch(Print(c, lib));
    case IdempotencyRequired => IdempotencyBranch(Print(c, lib));
    case RequiresHumanApproval => ApprovalBranch(Print(c, lib));
  }

  lemma ListHead(c: Caveat, lib: Library)
    requires c.PrincipalType? || c.Operation? || c.OnlyDomain?
    ensures Classify(Print(c, lib)) == HeadOf(c, lib)
  {
    match c
    case PrincipalType(types) => PrincipalBranch(PrintList(types));
    case Operation(ops) => OperationBranch(PrintList(ops));
    case OnlyDomain(domains) => DomainBranch(PrintList(domains));
  }

  lemma TimeHead(c: Caveat, lib: Library)
    requires c.TimeBefore? || c.TimeAfter?
    ensures Classify(Print(c, lib)) == HeadOf(c, lib)
  {
    match c
    case TimeBefore(t) => BeforeBranch(lib.isoString(t));
    case TimeAfter(t) => AfterBranch(lib.isoString(t));
  }

  lemma RateHeads(c: Caveat, lib: Library)
    requires c.Rate?
    ensures Classify(Print(c, lib)) == HeadOf(c, lib)
  {
    RateBranch(RateBody(c.count, c.per));
  }

  lemma AmountHeads(c: Caveat, lib: Library)
    requires c.MaxAmount?
    ensures Classify(Print(c, lib)) == HeadOf(c, lib)
  {
    AmountBranch(AmountBody(c.amount, c.currency));
  }

  lemma ValueHead(c: Caveat, lib: Library)
    requires c.AgentId? || c.DeviceId? || c.Namespace? || c.DischargeFrom?
    ensures Classify(Print(c, lib)) == HeadOf(c, lib)
  {
    match c
    case AgentId(id) => AgentBranch(id);
    case DeviceId(id) => DeviceBranch(id);
    case Namespace(ns) => NamespaceBranch(ns);
    case DischargeFrom(url) => DischargeBranch(url);
  }

  lemma PrintedHead(c: Caveat, lib: Library)
    ensures Classify(Print(c, lib)) == HeadOf(c, lib)
  {
    if c.PrincipalType? || c.Operation? || c.OnlyDomain? {
      ListHead(c, lib);
    } else if c.TimeBefore? || c.TimeAfter? {
      TimeHead(c, lib);
    } else if c.Rate? {
      RateHeads(c, lib);
    } else if c.MaxAmount? {
      AmountHeads(c, lib);
    } else if c.AgentId? || c.DeviceId? || c.Namespace? || c.DischargeFrom? {
      ValueHead(c, lib);
    } else {
      BareHead(c, lib);
    }
  }

  predicate Solid(c: char) {
    !GoSpace(c) && !JsSpace(c)
  }

  lemma KeywordEnds(keyword: string, body: string)
    requires keyword != "" && Solid(keyword[0]) && body != "" && Solid(Last(body))
    ensures Trim(GoSpace, keyword + body) == keyword + body == Trim(JsSpace, keyword + body)
  {
    var s := keyword + body;
    assert s[0] == keyword[0] && Last(s) == Last(body);
    TrimOfTrimmed(GoSpace, s);
    TrimOfTrimmed(JsSpace, s);
  }

  lemma PrintedIsTrimmed(c: Caveat, lib: Library)
    requires WellFormed(c) && lib.Lawful()
    ensures Trim(GoSpace, Print(c, lib)) == Print(c, lib) == Trim(JsSpace, Print(c, lib))
  {
    if c.PrincipalType? || c.Operation? || c.OnlyDomain? {
      ListEnds(c, lib);
    } else if c.TimeBefore? || c.TimeAfter? || c.Rate? || c.MaxAmount? {
      NumberEnds(c, lib);
    } else if c.AgentId? || c.DeviceId? || c.Namespace? || c.DischargeFrom? {
      ValueEnds(c, lib);
    } else {
      BareEnds(c, lib);
    }
  }

  lemma ListEnds(c: Caveat, lib: Library)
    requires c.PrincipalType? || c.Operation? || c.OnlyDomain?
    ensures Trim(GoSpace, Print(c, lib)) == Print(c, lib) == Trim(JsSpace, Print(c, lib))
  {
    match c
    case PrincipalType(types) => KeywordEnds("principal-type in ", PrintList(types));
    case Operation(ops) => KeywordEnds("operation in ", PrintList(ops));
    case OnlyDomain(domains) => KeywordEnds("only-domain in ", PrintList(domains));
  }

  lemma NumberEnds(c: Caveat, lib: Library)
    requires (c.TimeBefore? || c.TimeAfter? || c.Rate? || c.MaxAmount?) && WellFormed(c) && lib.Lawful()
    ensures Trim(GoSpace, Print(c, lib)) == Print(c, lib) == Trim(JsSpace, Print(c, lib))
  {
    match c
    case TimeBefore(t) => assert lib.TimesRoundTrip(t); KeywordEnds("time < ", lib.isoString(t));
    case TimeAfter(t) => assert lib.TimesRoundTrip(t); KeywordEnds("time > ", lib.isoString(t));
    case Rate(n, u) => RateBodyParts(n, u); KeywordEnds("rate <= ", RateBody(n, u));
    case MaxAmount(n, currency) => KeywordEnds("max-amount <= ", AmountBody(n, currency));
  }

  lemma ValueEnds(c: Caveat, lib: Library)
    requires (c.AgentId? || c.DeviceId? || c.Namespace? || c.DischargeFrom?) && WellFormed(c)
    ensures Trim(GoSpace, Print(c, lib)) == Print(c, lib) == Trim(JsSpace, Print(c, lib))
  {
    match c
    case AgentId(id) => KeywordEnds("agent-id == ", id);
    case DeviceId(id) => KeywordEnds("device-id == ", id);
    case Namespace(ns) => KeywordEnds("namespace == ", ns);
    case DischargeFrom(url) => KeywordEnds("discharge-from ", url);
  }

  lemma BareEnds(c: Caveat, lib: Library)
    requires c.NonDelegatable? || c.IdempotencyRequired? || c.RequiresHumanApproval?
    ensures Trim(GoSpace, Print(c, lib)) == Print(c, lib) == Trim(JsSpace, Print(c, lib))
  {
    TrimOfTrimmed(GoSpace, Print(c, lib));
    TrimOfTrimmed(JsSpace, Print(c, lib));
  }

  /** The Hub reads every printed caveat as its meaning; so does the Worker, except a `time >` caveat of the millisecond
      just begun. */
  lemma PrintedMeaning(c: Caveat, ctx: Context, lib: Library, calls: seq<RateCall>)
    requires WellFormed(c) && Comparable(ctx) && lib.Lawful()
    ensures HubOne(Print(c, lib), ctx, lib, calls) == Meaning(c, ctx, calls)
    ensures WorkerOne(Print(c, lib), ctx, lib, calls) == if Skewed(c, ctx) then Holds(false, calls) else Meaning(c, ctx, calls)
  {
    PrintedHead(c, lib);
    CheckIsMeaning(c, ctx, lib, calls);
  }

  lemma CheckIsMeaning(c: Caveat, ctx: Context, lib: Library, calls: seq<RateCall>)
    requires WellFormed(c) && Comparable(ctx) && lib.Lawful()
    ensures HubCheck(HeadOf(c, lib), ctx, lib, calls) == Meaning(c, ctx, calls)
    ensures WorkerCheck(HeadOf(c, lib), ctx, lib, calls) == if Skewed(c, ctx) then Holds(false, calls) else Meaning(c, ctx, calls)
  {
    if c.PrincipalType? || c.Operation? {
      ListMeaning(c, ctx, lib, calls);
    } else if c.TimeBefore? || c.TimeAfter? {
      TimeMeaning(c, ctx, lib, calls);
    } else if c.OnlyDomain? {
      DomainMeaning(c.domains, ctx, lib, calls);
    } else if c.Rate? {
      RateMeaning(c.count, c.per, ctx, lib, calls);
    } else if c.MaxAmount? {
      AmountMeaning(c.amount, c.currency, ctx, lib, calls);
    } else if c.AgentId? || c.DeviceId? || c.Namespace? || c.DischargeFrom? {
      ValueMeaning(c, ctx, lib, calls);
    } else {
      BareMeaning(c, ctx, lib, calls);
    }
  }

  lemma ListChecks(b: string, items: seq<string>, ctx: Context, lib: Library, calls: seq<RateCall>)
    requires ParseList(GoSpace, b) == items == ParseList(JsSpace, b)
    ensures HubCheck(PrincipalHead(b), ctx, lib, calls) == Meaning(PrincipalType(items), ctx, calls)
    ensures WorkerCheck(PrincipalHead(b), ctx, lib, calls) == Meaning(PrincipalType(items), ctx, calls)
    ensures HubCheck(OperationHead(b), ctx, lib, calls) == Meaning(Operation(items), ctx, calls)
    ensures WorkerCheck(OperationHead(b), ctx, lib, calls) == Meaning(Operation(items), ctx, calls)
  {
  }

  lemma ListMeaning(c: Caveat, ctx: Context, lib: Library, calls: seq<RateCall>)
    requires WellFormed(c) && Comparable(ctx) && lib.Lawful()
    requires c.PrincipalType? || c.Operation?
    ensures HubCheck(HeadOf(c, lib), ctx, lib, calls) == Meaning(c, ctx, calls)
    ensures WorkerCheck(HeadOf(c, lib), ctx, lib, calls) == Meaning(c, ctx, calls)
  {
    var items := if c.PrincipalType? then c.types else c.operations;
    ListsRoundTrip(items);
    ListChecks(PrintList(items), items, ctx, lib, calls);
  }

  lemma DomainChecks(b: string, ok: bool, ctx: Context, lib: Library, calls: seq<RateCall>)
    requires HubDomain(b, ctx, lib) == ok == WorkerDomain(b, ctx, lib)
    ensures HubCheck(DomainHead(b), ctx, lib, calls) == Holds(ctx.isBridge ==> ok, calls)
    ensures WorkerCheck(DomainHead(b), ctx, lib, calls) == Holds(ctx.isBridge ==> ok, calls)
  {
  }

  lemma DomainMeaning(domains: seq<string>, ctx: Context, lib: Library, calls: seq<RateCall>)
    requires WellFormed(OnlyDomain(domains)) && Comparable(ctx) && lib.Lawful()
    ensures HubCheck(DomainHead(PrintList(domains)), ctx, lib, calls) == Meaning(OnlyDomain(domains), ctx, calls)
    ensures WorkerCheck(DomainHead(PrintList(domains)), ctx, lib, calls) == Meaning(OnlyDomain(domains), ctx, calls)
  {
    var ok := ctx.domain != "" && exists d :: d in domains && AsciiLower(d) == AsciiLower(ctx.domain);
    DomainIsRead(domains, ctx, lib);
    DomainChecks(PrintList(domains), ok, ctx, lib, calls);
  }

  lemma AmountChecks(b: string, ok: bool, ctx: Context, lib: Library, calls: seq<RateCall>)
    requires HubAmount(b, ctx, lib) == ok == WorkerAmount(b, ctx, lib)
    ensures HubCheck(AmountHead(b), ctx, lib, calls) == Holds(ctx.isBridge ==> ok, calls)
    ensures WorkerCheck(AmountHead(b), ctx, lib, calls) == Holds(ctx.isBridge ==> ok, calls)
  {
  }

  lemma AmountMeaning(n: nat, currency: string, ctx: Context, lib: Library, calls: seq<RateCall>)
    requires WellFormed(MaxAmount(n, currency)) && Comparable(ctx) && lib.Lawful()
    ensures HubCheck(AmountHead(AmountBody(n, currency)), ctx, lib, calls) == Meaning(MaxAmount(n, currency), ctx, calls)
    ensures WorkerCheck(AmountHead(AmountBody(n, currency)), ctx, lib, calls) == Meaning(MaxAmount(n, currency), ctx, calls)
  {
    AmountIsRead(n, currency, ctx, lib);
    var ok := AsciiLower(ctx.currency) == AsciiLower(currency) && ctx.amount <= n;
    AmountChecks(AmountBody(n, currency), ok, ctx, lib, calls);
  }

  lemma RateMeaning(n: nat, u: Unit, ctx: Context, lib: Library, calls: seq<RateCall>)
    requires WellFormed(Rate(n, u)) && Comparable(ctx)
    ensures HubCheck(RateHead(RateBody(n, u)), ctx, lib, calls) == Meaning(Rate(n, u), ctx, calls)
    ensures WorkerCheck(RateHead(RateBody(n, u)), ctx, lib, calls) == Meaning(Rate(n, u), ctx, calls)
  {
    RateIsRead(n, u, ctx, calls);
    HubRateCheck(RateBody(n, u), ctx, lib, calls);
    WorkerRateCheck(RateBody(n, u), ctx, lib, calls);
  }

  lemma HubRateCheck(b: string, ctx: Context, lib: Library, calls: seq<RateCall>)
    ensures HubCheck(RateHead(b), ctx, lib, calls) == HubRate(b, ctx, calls)
  {
  }

  lemma WorkerRateCheck(b: string, ctx: Context, lib: Library, calls: seq<RateCall>)
    ensures WorkerCheck(RateHead(b), ctx, lib, calls) == WorkerRate(b, ctx, calls)
  {
  }

  lemma TimeMeaning(c: Caveat, ctx: Context, lib: Library, calls: seq<RateCall>)
    requires WellFormed(c) && lib.Lawful() && (c.TimeBefore? || c.TimeAfter?)
    ensures HubCheck(HeadOf(c, lib), ctx, lib, calls) == Meaning(c, ctx, calls)
    ensures WorkerCheck(HeadOf(c, lib), ctx, lib, calls) == if Skewed(c, ctx) then Holds(false, calls) else Meaning(c, ctx, calls)
  {
    TimeIsRead(c.t, lib);
    MillisecondClock(ctx, c.t);
  }

  lemma MillisecondClock(ctx: Context, t: int)
    ensures ctx.NowMs() < t <==> ctx.nowNanos < t * 1_000_000
    ensures ctx.NowMs() > t <==> ctx.nowNanos > t * 1_000_000 && !Skewed(TimeAfter(t), ctx)
  {
  }

  lemma BareMeaning(c: Caveat, ctx: Context, lib: Library, calls: seq<RateCall>)
    requires c.NonDelegatable? || c.IdempotencyRequired? || c.RequiresHumanApproval?
    ensures HubCheck(HeadOf(c, lib), ctx, lib, calls) == Meaning(c, ctx, calls)
    ensures WorkerCheck(HeadOf(c, lib), ctx, lib, calls) == Meaning(c, ctx, calls)
  {
  }

  lemma ValueMeaning(c: Caveat, ctx: Context, lib: Library, calls: seq<RateCall>)
    requires WellFormed(c) && Comparable(ctx) && lib.Lawful()
    requires c.AgentId? || c.DeviceId? || c.Namespace? || c.DischargeFrom?
    ensures HubCheck(HeadOf(c, lib), ctx, lib, calls) == Meaning(c, ctx, calls)
    ensures WorkerCheck(HeadOf(c, lib), ctx, lib, calls) == Meaning(c, ctx, calls)
  {
    match c
    case AgentId(id) => ValuesAreRead(id);
    case DeviceId(id) => ValuesAreRead(id);
    case Namespace(ns) => ValuesAreRead(ns);
    case DischargeFrom(url) => ValuesAreRead(url);
  }

  lemma TimeIsRead(t: int, lib: Library)
    requires FourDigitYear(t) && lib.Lawful()
    ensures lib.parseGoTime(Trim(GoSpace, lib.isoString(t))) == Some(t * 1_000_000)
    ensures lib.parseJsTime(Trim(JsSpace, lib.isoString(t))) == Some(t)
  {
    assert lib.TimesRoundTrip(t);
    TrimOfTrimmed(GoSpace, lib.isoString(t));
    TrimOfTrimmed(JsSpace, lib.isoString(t));
  }

  lemma ValuesAreRead(s: string)
    requires Value(s)
    ensures Trim(GoSpace, s) == s == Trim(JsSpace, s)
  {
  }

  // Evaluation gets as far as a caveat on which the clocks disagree: those before it pass.
  predicate MeetsSkew(cs: seq<Caveat>, ctx: Context, lib: Library, calls: seq<RateCall>) {
    exists i :: 0 <= i < |cs| && Skewed(cs[i], ctx) && MeaningOf(cs[..i], ctx, lib, calls).Passed?
  }

  lemma MeetsSkewStep(cs: seq<Caveat>, ctx: Context, lib: Library, calls: seq<RateCall>)
    requires cs != []
    ensures var r := Meaning(cs[0], ctx, calls);
            MeetsSkew(cs, ctx, lib, calls) <==> Skewed(cs[0], ctx) || (r.failure.None? && MeetsSkew(cs[1..], ctx, lib, r.calls))
  {
    var r := Meaning(cs[0], ctx, calls);
    assert forall i :: 0 < i <= |cs| ==> cs[..i][0] == cs[0] && cs[..i][1..] == cs[1..][..i - 1];
    if r.failure.None? && MeetsSkew(cs[1..], ctx, lib, r.calls) {
      var i :| 0 <= i < |cs[1..]| && Skewed(cs[1..][i], ctx) && MeaningOf(cs[1..][..i], ctx, lib, r.calls).Passed?;
      assert cs[i + 1] == cs[1..][i] && cs[..i + 1][1..] == cs[1..][..i];
    }
    if Skewed(cs[0], ctx) {
      assert MeaningOf(cs[..0], ctx, lib, calls).Passed?;
    }
    if MeetsSkew(cs, ctx, lib, calls) && !Skewed(cs[0], ctx) {
      var i :| 0 <= i < |cs| && Skewed(cs[i], ctx) && MeaningOf(cs[..i], ctx, lib, calls).Passed?;
      assert cs[1..][i - 1] == cs[i] && cs[..i][1..] == cs[1..][..i - 1];
    }
  }

  // Both evaluators on the first printed caveat and the rest.
  lemma FirstCaveat(cs: seq<Caveat>, ctx: Context, lib: Library, calls: seq<RateCall>)
    requires cs != [] && WellFormed(cs[0]) && Comparable(ctx) && lib.Lawful()
    ensures var text, rest, r := Print(cs[0], lib), PrintAll(cs[1..], lib), Meaning(cs[0], ctx, calls);
            && HubEvaluate(PrintAll(cs, lib), ctx, lib, calls) ==
               (if r.failure.Some? then Failed(text, r.failure.value, r.calls) else HubEvaluate(rest, ctx, lib, r.calls))
            && WorkerEvaluate(PrintAll(cs, lib), ctx, lib, calls) ==
               (if Skewed(cs[0], ctx) then Failed(text, Unmet, calls)
                else if r.failure.Some? then Failed(text, r.failure.value, r.calls)
                else WorkerEvaluate(rest, ctx, lib, r.calls))
  {
    PrintedIsTrimmed(cs[0], lib);
    PrintedMeaning(cs[0], ctx, lib, calls);
    assert PrintAll(cs, lib)[1..] == PrintAll(cs[1..], lib);
  }

  lemma {:induction false} HubReadsMeaning(cs: seq<Caveat>, ctx: Context, lib: Library, calls: seq<RateCall>)
    requires (forall i :: 0 <= i < |cs| ==> WellFormed(cs[i])) && Comparable(ctx) && lib.Lawful()
    ensures HubEvaluate(PrintAll(cs, lib), ctx, lib, calls) == MeaningOf(cs, ctx, lib, calls)
  {
    if cs != [] {
      FirstCaveat(cs, ctx, lib, calls);
      HubReadsMeaning(cs[1..], ctx, lib, Meaning(cs[0], ctx, calls).calls);
    }
  }

  // A caveat that holds whatever the calls is not the one named by a failure.
  lemma {:induction false} FailureIsAnother(c: Caveat, cs: seq<Caveat>, ctx: Context, lib: Library, calls: seq<RateCall>)
    requires WellFormed(c) && (forall i :: 0 <= i < |cs| ==> WellFormed(cs[i])) && Comparable(ctx) && lib.Lawful()
    requires Skewed(c, ctx)
    ensures var v := MeaningOf(cs, ctx, lib, calls); v.Failed? ==> v.caveat != Print(c, lib)
  {
    if cs != [] {
      var r := Meaning(cs[0], ctx, calls);
      if r.failure.Some? {
        PrintedMeaning(cs[0], ctx, lib, calls);
        PrintedMeaning(c, ctx, lib, calls);
      } else {
        FailureIsAnother(c, cs[1..], ctx, lib, r.calls);
      }
    }
  }

  lemma {:induction false} WorkerReadsMeaning(cs: seq<Caveat>, ctx: Context, lib: Library, calls: seq<RateCall>)
    requires (forall i :: 0 <= i < |cs| ==> WellFormed(cs[i])) && Comparable(ctx) && lib.Lawful()
    ensures WorkerEvaluate(PrintAll(cs, lib), ctx, lib, calls) == MeaningOf(cs, ctx, lib, calls) <==> !MeetsSkew(cs, ctx, lib, calls)
  {
    if cs != [] {
      FirstCaveat(cs, ctx, lib, calls);
      MeetsSkewStep(cs, ctx, lib, calls);
      if Skewed(cs[0], ctx) {
        FailureIsAnother(cs[0], cs[1..], ctx, lib, calls);
      } else {
        WorkerReadsMeaning(cs[1..], ctx, lib, Meaning(cs[0], ctx, calls).calls);
      }
    }
  }

  /** On every list of well-formed caveats the SDK prints, the Hub's verdict is that of the caveats' meaning, and the
      Worker gives the same verdict, first failing caveat, kind and rate calls, except exactly when evaluation reaches
      a `time >` caveat of the millisecond just begun. */
  lemma EvaluatorsAgree(cs: seq<Caveat>, ctx: Context, lib: Library, calls: seq<RateCall>)
    requires (forall i :: 0 <= i < |cs| ==> WellFormed(cs[i])) && Comparable(ctx) && lib.Lawful()
    ensures HubEvaluate(PrintAll(cs, lib), ctx, lib, calls) == MeaningOf(cs, ctx, lib, calls)
    ensures WorkerEvaluate(PrintAll(cs, lib), ctx, lib, calls) == HubEvaluate(PrintAll(cs, lib), ctx, lib, calls) <==>
            !MeetsSkew(cs, ctx, lib, calls)
  {
    HubReadsMeaning(cs, ctx, lib, calls);
    WorkerReadsMeaning(cs, ctx, lib, calls);
  }

  /** With a clock between two milliseconds the evaluators part exactly on a `time >` caveat of the millisecond just
      begun: the Hub's nanosecond clock is past it, the Worker's is not. */
  lemma SubMillisecondClocks(c: Caveat, ctx: Context, lib: Library, calls: seq<RateCall>)
    requires (c.TimeBefore? || c.TimeAfter?) && WellFormed(c) && lib.Lawful()
    ensures HubOne(Print(c, lib), ctx, lib, calls) == Meaning(c, ctx, calls)
    ensures WorkerOne(Print(c, lib), ctx, lib, calls) != Meaning(c, ctx, calls) <==>
            c.TimeAfter? && ctx.NowMs() == c.t && ctx.nowNanos % 1_000_000 != 0
  {
    PrintedHead(c, lib);
    TimeIsRead(c.t, lib);
  }

  // --- the laws can be met ---------------------------------------------------------------------

  const EPOCH: int := 62167219200000

  function ToyTime(t: int): string {
    Decimal(if t < -EPOCH then 0 else t + EPOCH)
  }

  function ToyParse(s: string): Option<int> {
    if s == "" || !AllDigits(s) then None else Some(ValueOf(s) - EPOCH)
  }

  function Toy(): Library {
    Library(ToyTime, s => match ToyParse(s) case None => None case Some(t) => Some(t * 1_000_000), ToyParse,
            (a, b) => AsciiLower(a) == AsciiLower(b), AsciiLower, AsciiLower)
  }

  lemma ToyTimesRoundTrip(t: int)
    requires FourDigitYear(t)
    ensures Toy().TimesRoundTrip(t)
  {
    ValueOfDecimal(t + EPOCH);
    DigitsAreWords(Decimal(t + EPOCH));
  }

  /** Some library meets every law the theorems ask for. */
  lemma LawfulLibraryExists()
    ensures exists lib: Library :: lib.Lawful()
  {
    forall t | FourDigitYear(t) ensures Toy().TimesRoundTrip(t) {
      ToyTimesRoundTrip(t);
    }
    assert Toy().Lawful();
  }
}
