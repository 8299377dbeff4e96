/** What the two evaluators make of caveats outside the printed grammar: unknown words, malformed limits, missing server, stray
    white space. */
module CaveatEdges {
  import opened Wrappers
  import opened Text
  import opened Caveats

  // --- words -----------------------------------------------------------------------------------

  predicate Known(c: string) {
    || "time < " <= c || "time > " <= c || "principal-type in " <= c || "agent-id == " <= c || "device-id == " <= c
    || "operation in " <= c || "namespace == " <= c || c == "nondelegatable" || c == "idempotency-required"
    || "rate <= " <= c || "max-amount <= " <= c || "only-domain in " <= c || c == "requires-human-approval" || "discharge-from " <= c
  }

  /** A caveat that begins with no known keyword and is no known word fails in both evaluators, the empty one included. */
  lemma UnknownCaveatsFail(c: string, ctx: Context, lib: Library, calls: seq<RateCall>)
    requires !Known(c)
    ensures HubOne(c, ctx, lib, calls) == Check(Some(Unmet), calls)
    ensures WorkerOne(c, ctx, lib, calls) == Check(Some(Unmet), calls)
  {
    assert Classify(c) == UnknownHead;
  }

  /** Both evaluators look at the trimmed caveats. */
  lemma {:induction false} EvaluationTrims(cs: seq<string>, ctx: Context, lib: Library, calls: seq<RateCall>)
    ensures HubEvaluate(cs, ctx, lib, calls) == HubEvaluate(TrimAll(GoSpace, cs), ctx, lib, calls)
    ensures WorkerEvaluate(cs, ctx, lib, calls) == WorkerEvaluate(TrimAll(JsSpace, cs), ctx, lib, calls)
  {
    if cs != [] {
      TrimTwice(GoSpace, cs);
      TrimTwice(JsSpace, cs);
      EvaluationTrims(cs[1..], ctx, lib, HubOne(Trim(GoSpace, cs[0]), ctx, lib, calls).calls);
      EvaluationTrims(cs[1..], ctx, lib, WorkerOne(Trim(JsSpace, cs[0]), ctx, lib, calls).calls);
    }
  }

  function TrimAll(sp: Spaces, cs: seq<string>): seq<string> {
    seq(|cs|, i requires 0 <= i < |cs| => Trim(sp, cs[i]))
  }

  lemma TrimTwice(sp: Spaces, cs: seq<string>)
    requires cs != []
    ensures TrimAll(sp, cs) != [] && Trim(sp, TrimAll(sp, cs)[0]) == Trim(sp, cs[0])
    ensures TrimAll(sp, cs)[1..] == TrimAll(sp, cs[1..])
  {
    TrimOfTrimmed(sp, Trim(sp, cs[0]));
  }

  // --- times -----------------------------------------------------------------------------------

  /** A time that does not parse fails; one that does is compared with the clock, the Worker's in milliseconds. */
  lemma TimesAreCompared(b: string, ctx: Context, lib: Library, calls: seq<RateCall>)
    ensures var go, js := lib.parseGoTime(Trim(GoSpace, b)), lib.parseJsTime(Trim(JsSpace, b));
            && (HubCheck(BeforeHead(b), ctx, lib, calls) == Check(if go.Some? && ctx.nowNanos < go.value then None else Some(Unmet), calls))
            && (HubCheck(AfterHead(b), ctx, lib, calls) == Check(if go.Some? && go.value < ctx.nowNanos then None else Some(Unmet), calls))
            && (WorkerCheck(BeforeHead(b), ctx, lib, calls) == Check(if js.Some? && ctx.nowNanos / 1_000_000 < js.value then None else Some(Unmet), calls))
            && (WorkerCheck(AfterHead(b), ctx, lib, calls) == Check(if js.Some? && js.value < ctx.nowNanos / 1_000_000 then None else Some(Unmet), calls))
  {
  }

  // --- numbers ---------------------------------------------------------------------------------

  /** The Hub reads a decimal numeral modulo 2^64, as a signed 64-bit integer that must be positive. */
  lemma GoNumbersWrap(d: string)
    requires AllDigits(d) && d != ""
    ensures var w := ValueOf(d) % 0x1_0000_0000_0000_0000;
            GoPositiveInt(d) == if 0 < w < 0x8000_0000_0000_0000 then Some(w) else None
  {
    assert IsDigit(d[0]) && IsDigit(Last(d));
    TrimOfTrimmed(GoSpace, d);
    WrappedValue(ValueOf(d));
  }

  lemma WrappedValue(n: nat)
    ensures var w := n % 0x1_0000_0000_0000_0000; Wrap64(n) == if w < 0x8000_0000_0000_0000 then w else w - 0x1_0000_0000_0000_0000
  {
    var q, w := n / 0x1_0000_0000_0000_0000, n % 0x1_0000_0000_0000_0000;
    assert n == q * 0x1_0000_0000_0000_0000 + w;
    SameRemainder(n + 0x8000_0000_0000_0000, q);
  }

  /** It reads nothing else: white space around a numeral is dropped, and any other character or an empty text is refused. */
  lemma GoNumbersAreDigits(s: string)
    requires Trim(GoSpace, s) == "" || exists i :: 0 <= i < |Trim(GoSpace, s)| && !('0' <= Trim(GoSpace, s)[i] <= '9')
    ensures GoPositiveInt(s) == None
  {
  }

  lemma {:induction false} DigitsThen(d: string, rest: string)
    requires AllDigits(d) && (rest != "" ==> !IsDigit(rest[0]))
    ensures DigitRun(d + rest) == |d|
  {
    if d != "" {
      assert (d + rest)[1..] == d[1..] + rest;
      DigitsThen(d[1..], rest);
    } else {
      assert d + rest == rest;
    }
  }

  lemma DigitPrefix(d: string, rest: string)
    requires AllDigits(d) && (rest != "" ==> !IsDigit(rest[0]))
    ensures DigitRun(d + rest) == |d| && (d + rest)[..|d|] == d
  {
    DigitsThen(d, rest);
  }

  lemma NoSign(s: string)
    requires s != "" && IsDigit(s[0])
    ensures TrimLeft(JsSpace, s) == s && !("-" <= s) && !("+" <= s)
  {
  }

  /** The Worker reads a numeral up to the first character that is no digit, with a sign if there is one. */
  lemma JsNumbersAreLenient(d: string, rest: string)
    requires AllDigits(d) && d != "" && (rest != "" ==> !IsDigit(rest[0]))
    ensures JsParseInt(d + rest) == Some(ValueOf(d))
  {
    DigitPrefix(d, rest);
    assert (d + rest)[0] == d[0];
    NoSign(d + rest);
  }

  lemma JsNumbersMayBePositive(d: string, rest: string)
    requires AllDigits(d) && d != "" && (rest != "" ==> !IsDigit(rest[0]))
    ensures JsParseInt("+" + (d + rest)) == Some(ValueOf(d))
  {
    DigitPrefix(d, rest);
    assert ("+" + (d + rest))[1..] == d + rest;
  }

  lemma JsNumbersMayBeNegative(d: string, rest: string)
    requires AllDigits(d) && d != "" && (rest != "" ==> !IsDigit(rest[0]))
    ensures JsParseInt("-" + (d + rest)) == Some(0 - ValueOf(d))
  {
    DigitPrefix(d, rest);
    var s := "-" + (d + rest);
    assert s[0] == '-' && s[1..] == d + rest && TrimLeft(JsSpace, s) == s;
  }

  // After white space.
  lemma {:induction false} JsNumbersSkipSpace(lead: string, s: string)
    requires forall i :: 0 <= i < |lead| ==> JsSpace(lead[i])
    ensures JsParseInt(lead + s) == JsParseInt(s)
  {
    if lead == "" {
      assert lead + s == s;
    } else {
      assert (lead + s)[1..] == lead[1..] + s;
      JsNumbersSkipSpace(lead[1..], s);
    }
  }

  lemma JsNumbersNeedADigit(s: string)
    requires s == "" || !(JsSpace(s[0]) || IsDigit(s[0]) || s[0] == '-' || s[0] == '+')
    ensures JsParseInt(s) == None
  {
  }

  // --- limits ----------------------------------------------------------------------------------

  function Milliseconds(unit: string): nat {
    if unit == "second" then 1000 else if unit == "minute" then 60 * 1000 else if unit == "hour" then 3600 * 1000 else 24 * 3600 * 1000
  }

  predicate IsUnit(unit: string) {
    unit == "second" || unit == "minute" || unit == "hour" || unit == "day"
  }

  // A trimmed body `count per unit`.
  predicate RateParses(b: string, count: string, unit: string) {
    b == count + " per " + unit && ' ' !in count && Trimmed(GoSpace, b) && Trimmed(JsSpace, b) && Trimmed(GoSpace, unit) && Trimmed(JsSpace, unit)
  }

  /** A rate caveat `N per unit`: malformed, the Hub fails it without a call; without a server or a grant it passes without one;
      otherwise one call for the grant decides. */
  lemma HubRateCases(b: string, ctx: Context, calls: seq<RateCall>, unit: string, count: string)
    requires RateParses(b, count, unit)
    ensures var n := GoPositiveInt(count);
            HubRate(b, ctx, calls) ==
            if n == None || !IsUnit(unit) then Check(Some(Unmet), calls)
            else if !ctx.hasServer || ctx.grantId == "" then Check(None, calls)
            else var call := RateCall(ctx.grantId, n.value, Milliseconds(unit));
                 Check(if ctx.allow(calls, call) then None else Some(RateLimited), calls + [call])
  {
    RateParts(b, unit, count);
    TrimOfTrimmed(GoSpace, b);
    TrimOfTrimmed(GoSpace, unit);
  }

  /** The Worker reads N more leniently and always calls. */
  lemma WorkerRateCases(b: string, ctx: Context, calls: seq<RateCall>, unit: string, count: string)
    requires RateParses(b, count, unit)
    ensures var n := JsParseInt(count);
            WorkerRate(b, ctx, calls) ==
            if n == None || n.value <= 0 || !IsUnit(unit) then Check(Some(Unmet), calls)
            else var call := RateCall(ctx.grantId, n.value, Milliseconds(unit));
                 Check(if ctx.allow(calls, call) then None else Some(RateLimited), calls + [call])
  {
    RateParts(b, unit, count);
    TrimOfTrimmed(JsSpace, b);
    TrimOfTrimmed(JsSpace, unit);
    if Find(unit, " per ").Some? {
      NoUnitHasPer(unit);
    }
  }

  lemma RateParts(b: string, unit: string, count: string)
    requires b == count + " per " + unit && ' ' !in count
    ensures Find(b, " per ") == Some(|count|) && b[..|count|] == count && b[|count| + 5..] == unit
  {
    FindAfter(count, " per ", unit);
  }

  lemma NoUnitHasPer(unit: string)
    requires Find(unit, " per ").Some?
    ensures !IsUnit(unit)
  {
    if ' ' !in unit {
      FindWithout(unit, " per ");
    }
  }

  lemma RateNeedsPer(b: string, ctx: Context, calls: seq<RateCall>)
    requires Trimmed(GoSpace, b) && Trimmed(JsSpace, b) && Find(b, " per ") == None
    ensures HubRate(b, ctx, calls) == Check(Some(Unmet), calls) == WorkerRate(b, ctx, calls)
  {
    TrimOfTrimmed(GoSpace, b);
    TrimOfTrimmed(JsSpace, b);
  }

  /** An amount caveat binds bridge calls only, and fails on one unless it is two words, the first a positive number not below
      the amount, the second the currency. */
  lemma AmountCases(b: string, ctx: Context, lib: Library, calls: seq<RateCall>)
    ensures var words := Fields(GoSpace, Trim(GoSpace, b));
            HubCheck(AmountHead(b), ctx, lib, calls) ==
            Check(if ctx.isBridge && !(|words| == 2 && GoPositiveInt(words[0]).Some? && lib.equalFold(ctx.currency, words[1])
                                       && ctx.amount <= GoPositiveInt(words[0]).value) then Some(Unmet) else None, calls)
    ensures var words := Fields(JsSpace, Trim(JsSpace, b));
            WorkerCheck(AmountHead(b), ctx, lib, calls) ==
            Check(if ctx.isBridge && !(|words| == 2 && JsParseInt(words[0]).Some? && JsParseInt(words[0]).value > 0
                                       && lib.jsLower(ctx.currency) == lib.jsLower(words[1])
                                       && ctx.amount <= JsParseInt(words[0]).value) then Some(Unmet) else None, calls)
  {
  }

  /** A domain caveat binds bridge calls only, and fails on one without a domain or with none of its list; only the Hub trims
      the domain of the request. */
  lemma DomainCases(b: string, ctx: Context, lib: Library, calls: seq<RateCall>)
    ensures HubCheck(DomainHead(b), ctx, lib, calls) ==
            Check(if ctx.isBridge && (ctx.domain == "" || forall a :: a in ParseList(GoSpace, b) ==>
                                        !lib.equalFold(Trim(GoSpace, a), lib.goLower(Trim(GoSpace, ctx.domain))))
                  then Some(Unmet) else None, calls)
    ensures WorkerCheck(DomainHead(b), ctx, lib, calls) ==
            Check(if ctx.isBridge && (ctx.domain == "" || forall a :: a in ParseList(JsSpace, b) ==> lib.jsLower(a) != lib.jsLower(ctx.domain))
                  then Some(Unmet) else None, calls)
  {
  }

  /** A discharge caveat needs its discharge attached or cached; without a server the Hub lets any named verifier pass. */
  lemma DischargeCases(url: string, ctx: Context, lib: Library, calls: seq<RateCall>)
    requires url != "" && Trimmed(GoSpace, url) && Trimmed(JsSpace, url)
    ensures HubCheck(DischargeHead(url), ctx, lib, calls) ==
            Check(if ctx.hasServer && url !in ctx.dischargeIds && url !in ctx.cachedDischarges then Some(Unmet) else None, calls)
    ensures WorkerCheck(DischargeHead(url), ctx, lib, calls) ==
            Check(if url !in ctx.dischargeIds && url !in ctx.cachedDischarges then Some(Unmet) else None, calls)
  {
    TrimOfTrimmed(GoSpace, url);
    TrimOfTrimmed(JsSpace, url);
  }

  // --- lists -----------------------------------------------------------------------------------

  lemma OpenBracket(inner: string)
    ensures Unbracketed("[" + inner) == (if inner != "" && Last(inner) == ']' then DropLast(inner) else inner)
  {
    assert ("[" + inner)[1..] == inner;
  }

  lemma NoOpenBracket(inner: string)
    requires inner != "" && inner[0] != '['
    ensures Unbracketed(inner) == (if Last(inner) == ']' then DropLast(inner) else inner)
  {
  }

  lemma BracketEnds(sp: Spaces, s: string)
    requires s != "" && !sp(s[0]) && !sp(Last(s))
    ensures ParseList(sp, s) == TrimmedItems(sp, Split(Unbracketed(s), ','))
  {
    TrimOfTrimmed(sp, s);
  }

  /** The brackets of a list are optional, one by one. */
  lemma BracketsAreOptional(sp: Spaces, inner: string)
    requires Trimmed(sp, inner) && !sp('[') && !sp(']')
    requires inner != "" && inner[0] != '[' && Last(inner) != ']'
    ensures ParseList(sp, inner) == TrimmedItems(sp, Split(inner, ','))
    ensures ParseList(sp, "[" + inner) == TrimmedItems(sp, Split(inner, ','))
    ensures ParseList(sp, inner + "]") == TrimmedItems(sp, Split(inner, ','))
    ensures ParseList(sp, "[" + (inner + "]")) == TrimmedItems(sp, Split(inner, ','))
  {
    var closed := inner + "]";
    assert closed[0] == inner[0] && Last(closed) == ']' && DropLast(closed) == inner;
    assert Last("[" + inner) == Last(inner) && Last("[" + closed) == ']';
    BracketEnds(sp, inner);
    BracketEnds(sp, closed);
    BracketEnds(sp, "[" + inner);
    BracketEnds(sp, "[" + closed);
    NoOpenBracket(inner);
    NoOpenBracket(closed);
    OpenBracket(inner);
    OpenBracket(closed);
  }
}
