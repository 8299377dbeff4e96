/** RFC 3339 text of UTC instants and its order as a string. The Hub stores and compares expiry times as
    this text (nakli-hub/internal/storage/storage.go, nakli-hub/internal/storage/idempotency.go). */
module TimeText {
  import opened Wrappers
  import opened Lexicographic

  // --- the calendar ----------------------------------------------------------------------------

  predicate IsLeap(year: nat) {
    year % 4 == 0 && (year % 100 != 0 || year % 400 == 0)
  }

  function DaysInMonth(year: nat, month: nat): (d: nat)
    ensures d >= 28
  {
    if month == 2 then (if IsLeap(year) then 29 else 28)
    else if month == 4 || month == 6 || month == 9 || month == 11 then 30
    else 31
  }

  function DaysBeforeMonth(year: nat, month: nat): nat
  {
    if month <= 1 then 0 else DaysBeforeMonth(year, month - 1) + DaysInMonth(year, month - 1)
  }

  function DaysBeforeYear(year: nat): nat {
    if year == 0 then 0 else DaysBeforeYear(year - 1) + if IsLeap(year - 1) then 366 else 365
  }

  datatype Civil = Civil(year: nat, month: nat, day: nat, hour: nat, minute: nat, second: nat)
  {
    predicate Valid() {
      && year <= 9999 && 1 <= month <= 12 && 1 <= day <= DaysInMonth(year, month)
      && hour < 24 && minute < 60 && second < 60
    }

    // Days since 0000-01-01.
    function Days(): nat
      requires day >= 1
    {
      DaysBeforeYear(year) + DaysBeforeMonth(year, month) + day - 1
    }

    // Seconds since 0000-01-01T00:00:00Z.
    function Seconds(): nat
      requires day >= 1
    {
      ((Days() * 24 + hour) * 60 + minute) * 60 + second
    }
  }

  lemma YearLength(year: nat)
    ensures DaysBeforeMonth(year, 12) + DaysInMonth(year, 12) == if IsLeap(year) then 366 else 365
  {
    assert DaysBeforeMonth(year, 2) == 31;
    assert DaysBeforeMonth(year, 3) == 31 + DaysInMonth(year, 2);
    assert DaysBeforeMonth(year, 4) == DaysBeforeMonth(year, 3) + 31;
    assert DaysBeforeMonth(year, 6) == DaysBeforeMonth(year, 4) + 61;
    assert DaysBeforeMonth(year, 8) == DaysBeforeMonth(year, 6) + 61;
    assert DaysBeforeMonth(year, 10) == DaysBeforeMonth(year, 8) + 61;
    assert DaysBeforeMonth(year, 12) == DaysBeforeMonth(year, 10) + 61;
  }

  lemma {:induction false} MonthsGrow(year: nat, m: nat, m': nat)
    requires 1 <= m < m'
    ensures DaysBeforeMonth(year, m) + DaysInMonth(year, m) <= DaysBeforeMonth(year, m')
  {
    if m + 1 < m' {
      MonthsGrow(year, m, m' - 1);
    }
  }

  lemma {:induction false} YearsGrow(y: nat, y': nat)
    requires y < y'
    ensures DaysBeforeYear(y + 1) <= DaysBeforeYear(y')
  {
    if y + 1 < y' {
      YearsGrow(y, y' - 1);
    }
  }

  lemma DaysWithinYear(c: Civil)
    requires c.Valid()
    ensures DaysBeforeYear(c.year) <= c.Days() < DaysBeforeYear(c.year + 1)
  {
    YearLength(c.year);
    if c.month < 12 {
      MonthsGrow(c.year, c.month, 12);
    }
  }

  // Fields compared left to right.
  predicate DateBefore(a: Civil, b: Civil) {
    a.year < b.year || (a.year == b.year && (a.month < b.month || (a.month == b.month && a.day < b.day)))
  }

  predicate SameDate(a: Civil, b: Civil) {
    a.year == b.year && a.month == b.month && a.day == b.day
  }

  predicate ClockBefore(a: Civil, b: Civil) {
    a.hour < b.hour || (a.hour == b.hour && (a.minute < b.minute || (a.minute == b.minute && a.second < b.second)))
  }

  lemma DateOrder(a: Civil, b: Civil)
    requires a.Valid() && b.Valid() && DateBefore(a, b)
    ensures a.Days() < b.Days()
  {
    DaysWithinYear(a);
    DaysWithinYear(b);
    if a.year < b.year {
      YearsGrow(a.year, b.year);
    } else if a.month < b.month {
      MonthsGrow(a.year, a.month, b.month);
    }
  }

  lemma CivilOrder(a: Civil, b: Civil)
    requires a.Valid() && b.Valid()
    ensures DateBefore(a, b) || (SameDate(a, b) && ClockBefore(a, b)) <==> a.Seconds() < b.Seconds()
    ensures a == b <==> a.Seconds() == b.Seconds()
  {
    if DateBefore(a, b) {
      DateOrder(a, b);
    } else if DateBefore(b, a) {
      DateOrder(b, a);
    }
  }

  // The civil time of a second count.
  function YearFrom(days: nat, year: nat): (y: nat)
    requires DaysBeforeYear(year) <= days
    ensures DaysBeforeYear(y) <= days < DaysBeforeYear(y + 1)
    decreases days - DaysBeforeYear(year)
  {
    if days < DaysBeforeYear(year + 1) then year else YearFrom(days, year + 1)
  }

  function MonthFrom(year: nat, days: nat, month: nat): (m: nat)
    requires 1 <= month <= 12 && DaysBeforeMonth(year, month) <= days < DaysBeforeMonth(year, 12) + DaysInMonth(year, 12)
    ensures 1 <= m <= 12 && DaysBeforeMonth(year, m) <= days < DaysBeforeMonth(year, m) + DaysInMonth(year, m)
    decreases 12 - month
  {
    if month == 12 || days < DaysBeforeMonth(year, month + 1) then month else MonthFrom(year, days, month + 1)
  }

  // The years 0000 to 9999 have 3652425 days.
  predicate InRange(seconds: nat) {
    seconds / 86400 < 3652425
  }

  lemma FourthYears(y: nat)
    ensures (y + 4) / 4 - (y + 3) / 4 == if y % 4 == 0 then 1 else 0
  {
  }

  lemma HundredthYears(y: nat)
    ensures (y + 100) / 100 - (y + 99) / 100 == if y % 100 == 0 then 1 else 0
  {
  }

  lemma FourHundredthYears(y: nat)
    ensures (y + 400) / 400 - (y + 399) / 400 == if y % 400 == 0 then 1 else 0
  {
  }

  lemma LeapDigits(y: nat)
    ensures y % 400 == 0 ==> y % 100 == 0
    ensures y % 100 == 0 ==> y % 4 == 0
  {
    var q, c := y / 400, y / 100;
    if y % 400 == 0 {
      assert y == 100 * (4 * q);
    }
    if y % 100 == 0 {
      assert y == 4 * (25 * c);
    }
  }

  lemma {:induction false} DaysInClosedForm(year: nat)
    ensures DaysBeforeYear(year) == 365 * year + (year + 3) / 4 - (year + 99) / 100 + (year + 399) / 400
  {
    if year > 0 {
      DaysInClosedForm(year - 1);
      FourthYears(year - 1);
      HundredthYears(year - 1);
      FourHundredthYears(year - 1);
      LeapDigits(year - 1);
    }
  }

  function CivilOf(seconds: nat): (c: Civil)
    ensures c.day >= 1 && c.Seconds() == seconds
    ensures InRange(seconds) ==> c.Valid()
  {
    var days := seconds / 86400;
    var year := YearFrom(days, 0);
    YearLength(year);
    var month := MonthFrom(year, days - DaysBeforeYear(year), 1);
    var c := Civil(year, month, days - DaysBeforeYear(year) - DaysBeforeMonth(year, month) + 1,
          seconds / 3600 % 24, seconds / 60 % 60, seconds % 60);
    assert c.Days() == days;
    SplitSeconds(seconds);
    YearFits(days, year);
    c
  }

  lemma YearFits(days: nat, year: nat)
    requires DaysBeforeYear(year) <= days
    ensures days < 3652425 ==> year <= 9999
  {
    DaysInClosedForm(year);
  }

  lemma NestedQuotients(seconds: nat)
    ensures seconds / 3600 == seconds / 60 / 60 && seconds / 86400 == seconds / 3600 / 24
  {
  }

  lemma SplitSeconds(seconds: nat)
    ensures ((seconds / 86400 * 24 + seconds / 3600 % 24) * 60 + seconds / 60 % 60) * 60 + seconds % 60 == seconds
  {
    NestedQuotients(seconds);
    var minutes, hours := seconds / 60, seconds / 3600;
    assert hours / 24 * 24 + hours % 24 == hours;
    assert hours * 60 + minutes % 60 == minutes;
  }

  // --- whole seconds as text -------------------------------------------------------------------

  // 15:04:05
  function ClockText(c: Civil): Bytes {
    Pad(c.hour, 2) + (":" + (Pad(c.minute, 2) + (":" + Pad(c.second, 2))))
  }

  // 2006-01-02T, then the rest
  function DateThen(c: Civil, rest: Bytes): Bytes {
    Pad(c.year, 4) + ("-" + (Pad(c.month, 2) + ("-" + (Pad(c.day, 2) + ("T" + rest)))))
  }

  function CivilText(c: Civil): Bytes {
    DateThen(c, ClockText(c))
  }

  lemma FieldFirst(n: nat, m: nat, w: nat, sep: Bytes, x: Bytes, y: Bytes)
    requires n < Pow10(w) && m < Pow10(w)
    ensures Less(Pad(n, w) + (sep + x), Pad(m, w) + (sep + y)) <==> n < m || (n == m && Less(x, y))
  {
    PadOrder(n, m, w);
    LessByHeads(Pad(n, w), Pad(m, w), sep + x, sep + y);
    LessAfterPrefix(sep, x, y);
  }

  lemma Widths()
    ensures Pow10(2) == 100 && Pow10(4) == 10000
  {
    assert Pow10(1) == 10;
  }

  lemma ClockTextOrder(a: Civil, b: Civil)
    requires a.Valid() && b.Valid()
    ensures Less(ClockText(a), ClockText(b)) <==> ClockBefore(a, b)
  {
    Widths();
    var a2, b2 := Pad(a.second, 2), Pad(b.second, 2);
    var a1, b1 := Pad(a.minute, 2) + (":" + a2), Pad(b.minute, 2) + (":" + b2);
    PadOrder(a.second, b.second, 2);
    FieldFirst(a.minute, b.minute, 2, ":", a2, b2);
    FieldFirst(a.hour, b.hour, 2, ":", a1, b1);
  }

  lemma DateTextOrder(a: Civil, b: Civil, x: Bytes, y: Bytes)
    requires a.Valid() && b.Valid()
    ensures Less(DateThen(a, x), DateThen(b, y)) <==> DateBefore(a, b) || (SameDate(a, b) && Less(x, y))
  {
    Widths();
    var a2, b2 := Pad(a.day, 2) + ("T" + x), Pad(b.day, 2) + ("T" + y);
    var a1, b1 := Pad(a.month, 2) + ("-" + a2), Pad(b.month, 2) + ("-" + b2);
    FieldFirst(a.day, b.day, 2, "T", x, y);
    FieldFirst(a.month, b.month, 2, "-", a2, b2);
    FieldFirst(a.year, b.year, 4, "-", a1, b1);
  }

  lemma CivilTextOrder(a: Civil, b: Civil)
    requires a.Valid() && b.Valid()
    ensures Less(CivilText(a), CivilText(b)) <==> a.Seconds() < b.Seconds()
    ensures |CivilText(a)| == 19
  {
    ClockTextOrder(a, b);
    DateTextOrder(a, b, ClockText(a), ClockText(b));
    CivilOrder(a, b);
  }

  // --- fractions -------------------------------------------------------------------------------

  function TrimZeros(s: Bytes): (t: Bytes)
    ensures t <= s && (t != "" ==> Last(t) != '0')
  {
    if s != "" && Last(s) == '0' then TrimZeros(DropLast(s)) else s
  }

  function Zeros(n: nat): (z: Bytes)
    ensures |z| == n
  {
    seq(n, i => '0')
  }

  lemma {:induction false} TrimmedTail(s: Bytes)
    ensures s == TrimZeros(s) + Zeros(|s| - |TrimZeros(s)|)
  {
    if s != "" && Last(s) == '0' {
      TrimmedTail(DropLast(s));
      assert s == DropLast(s) + ['0'];
    }
  }

  lemma {:induction false} ZerosAreLeast(s: Bytes)
    requires forall i :: 0 <= i < |s| ==> '0' <= s[i] <= '9'
    ensures Less(Zeros(|s|), s) <==> exists i :: 0 <= i < |s| && s[i] != '0'
  {
    if s != "" {
      ZerosAreLeast(s[1..]);
      assert Zeros(|s|)[1..] == Zeros(|s| - 1);
      if exists i :: 0 <= i < |s| && s[i] != '0' {
        var i :| 0 <= i < |s| && s[i] != '0';
        assert i > 0 ==> s[1..][i - 1] != '0';
      }
    }
  }

  // The nine digits of the fraction without trailing zeros.
  function FractionDigits(nanos: nat): (f: Bytes)
    ensures forall i :: 0 <= i < |f| ==> '0' <= f[i] <= '9'
  {
    TrimZeros(Pad(nanos, 9))
  }

  // If one trimmed fraction continues another it is the later one.
  lemma LongerFractionIsLater(n: nat, m: nat)
    requires n < Pow10(9) && m < Pow10(9) && ProperPrefix(FractionDigits(n), FractionDigits(m))
    ensures n < m
  {
    var f, g := FractionDigits(n), FractionDigits(m);
    var p, q := Pad(n, 9), Pad(m, 9);
    TrimmedTail(p);
    TrimmedTail(q);
    var rest := q[|f|..];
    assert q == f + rest && p == f + Zeros(|rest|);
    assert rest[|g| - 1 - |f|] == Last(g);
    ZerosAreLeast(rest);
    LessAfterPrefix(f, Zeros(|rest|), rest);
    PadOrder(n, m, 9);
  }

  lemma TrimmedEqual(p: Bytes, q: Bytes)
    requires |p| == |q|
    ensures TrimZeros(p) == TrimZeros(q) <==> p == q
  {
    TrimmedTail(p);
    TrimmedTail(q);
  }

  lemma TrimmedOrder(p: Bytes, q: Bytes)
    requires |p| == |q| && !ProperPrefix(TrimZeros(p), TrimZeros(q)) && !ProperPrefix(TrimZeros(q), TrimZeros(p))
    ensures Less(TrimZeros(p), TrimZeros(q)) <==> Less(p, q)
  {
    var f, g := TrimZeros(p), TrimZeros(q);
    TrimmedEqual(p, q);
    if f == g {
      LessIsStrict(f, f);
      LessIsStrict(p, p);
    } else {
      TrimmedTail(p);
      TrimmedTail(q);
      LessByDifference(f, g, Zeros(|p| - |f|), Zeros(|q| - |g|));
    }
  }

  lemma FractionOrder(n: nat, m: nat)
    requires n < Pow10(9) && m < Pow10(9)
    requires !ProperPrefix(FractionDigits(n), FractionDigits(m)) && !ProperPrefix(FractionDigits(m), FractionDigits(n))
    ensures Less(FractionDigits(n), FractionDigits(m)) <==> n < m
    ensures FractionDigits(n) == FractionDigits(m) <==> n == m
  {
    TrimmedOrder(Pad(n, 9), Pad(m, 9));
    TrimmedEqual(Pad(n, 9), Pad(m, 9));
    PadOrder(n, m, 9);
  }

  // --- instants --------------------------------------------------------------------------------

  const NANOS: nat := 1_000_000_000

  datatype Instant = Instant(seconds: nat, nanos: nat)
  {
    predicate Valid() { InRange(seconds) && nanos < NANOS }

    function Plus(s: nat): Instant { Instant(seconds + s, nanos) }
  }

  predicate Before(a: Instant, b: Instant) {
    a.seconds < b.seconds || (a.seconds == b.seconds && a.nanos < b.nanos)
  }

  function Tail(f: Bytes): Bytes {
    (if f == "" then "" else "." + f) + "Z"
  }

  // Format(time.RFC3339Nano) in UTC.
  function Print(t: Instant): Bytes {
    CivilText(CivilOf(t.seconds)) + Tail(FractionDigits(t.nanos))
  }

  // Within a second the shorter of two prefix-related fractions prints as the larger text.
  predicate PrefixRelated(a: Instant, b: Instant) {
    a.seconds == b.seconds &&
    (ProperPrefix(FractionDigits(a.nanos), FractionDigits(b.nanos)) || ProperPrefix(FractionDigits(b.nanos), FractionDigits(a.nanos)))
  }

  predicate Digits(f: Bytes) {
    forall i :: 0 <= i < |f| ==> '0' <= f[i] <= '9'
  }

  lemma LongerTailIsLess(f: Bytes, g: Bytes)
    requires ProperPrefix(f, g) && Digits(g)
    ensures Less(Tail(g), Tail(f)) && !Less(Tail(f), Tail(g))
  {
    var rest := g[|f|..];
    assert g == f + rest && rest[0] == g[|f|];
    if f == "" {
      assert Tail(f) == "Z" && Tail(g)[0] == '.';
    } else {
      assert Tail(f) == ("." + f) + "Z" && Tail(g) == ("." + f) + (rest + "Z");
      LessAfterPrefix("." + f, rest + "Z", "Z");
      LessAfterPrefix("." + f, "Z", rest + "Z");
      assert (rest + "Z")[0] == rest[0];
    }
  }

  lemma UnrelatedTails(f: Bytes, g: Bytes)
    requires !ProperPrefix(f, g) && !ProperPrefix(g, f)
    ensures Less(Tail(f), Tail(g)) <==> Less(f, g)
  {
    if f == g {
      LessIsStrict(f, g);
      LessIsStrict(Tail(f), Tail(g));
    } else {
      assert Tail(f) == "." + (f + "Z") && Tail(g) == "." + (g + "Z");
      LessAfterPrefix(".", f + "Z", g + "Z");
      LessByDifference(f, g, "Z", "Z");
    }
  }

  lemma PrintByParts(a: Instant, b: Instant)
    requires a.Valid() && b.Valid()
    ensures Less(Print(a), Print(b)) <==>
              a.seconds < b.seconds || (a.seconds == b.seconds && Less(Tail(FractionDigits(a.nanos)), Tail(FractionDigits(b.nanos))))
  {
    var x, y := CivilOf(a.seconds), CivilOf(b.seconds);
    CivilTextOrder(x, y);
    CivilTextOrder(y, x);
    LessByHeads(CivilText(x), CivilText(y), Tail(FractionDigits(a.nanos)), Tail(FractionDigits(b.nanos)));
    LessIsStrict(CivilText(x), CivilText(y));
  }

  lemma NanosFit()
    ensures Pow10(9) == NANOS
  {
    assert Pow10(4) == 10000 by { Widths(); }
    assert Pow10(7) == 10_000_000;
  }

  lemma FractionTextOrder(n: nat, m: nat)
    requires n < NANOS && m < NANOS
    ensures var f, g := FractionDigits(n), FractionDigits(m);
            Less(Tail(f), Tail(g)) <==> if ProperPrefix(f, g) || ProperPrefix(g, f) then m < n else n < m
    ensures ProperPrefix(FractionDigits(n), FractionDigits(m)) ==> n < m
    ensures ProperPrefix(FractionDigits(m), FractionDigits(n)) ==> m < n
  {
    NanosFit();
    var f, g := FractionDigits(n), FractionDigits(m);
    if ProperPrefix(f, g) {
      LongerFractionIsLater(n, m);
      LongerTailIsLess(f, g);
    } else if ProperPrefix(g, f) {
      LongerFractionIsLater(m, n);
      LongerTailIsLess(g, f);
    } else {
      FractionOrder(n, m);
      UnrelatedTails(f, g);
    }
  }

  /** The text order of two UTC instants in years 0000 to 9999 is their time order, except within one second when one
      trimmed fraction is a proper prefix of the other; there it is reversed. */
  lemma TextOrderIsTimeOrder(a: Instant, b: Instant)
    requires a.Valid() && b.Valid()
    ensures (Less(Print(a), Print(b)) <==> Before(a, b)) <==> !PrefixRelated(a, b)
    ensures PrefixRelated(a, b) ==> (Less(Print(a), Print(b)) <==> Before(b, a))
    ensures a.seconds != b.seconds ==> (Less(Print(a), Print(b)) <==> a.seconds < b.seconds)
    ensures Print(a) == Print(b) <==> a == b
  {
    PrintByParts(a, b);
    PrintByParts(b, a);
    LessIsStrict(Print(a), Print(b));
    FractionTextOrder(a.nanos, b.nanos);
    FractionTextOrder(b.nanos, a.nanos);
  }

  // --- the calendar and the layout -------------------------------------------------------------

  /** The days before each month of a common year; one more from March on in a leap year. */
  lemma MonthTable(year: nat, month: nat)
    requires 1 <= month <= 12
    ensures DaysBeforeMonth(year, month) ==
            [0, 31, 59, 90, 120, 151, 181, 212, 243, 273, 304, 334][month - 1] + if month > 2 && IsLeap(year) then 1 else 0
  {
    assert DaysBeforeMonth(year, 2) == 31;
    assert DaysBeforeMonth(year, 3) == 31 + DaysInMonth(year, 2);
    assert DaysBeforeMonth(year, 5) == DaysBeforeMonth(year, 3) + 61;
    assert DaysBeforeMonth(year, 7) == DaysBeforeMonth(year, 5) + 61;
    assert DaysBeforeMonth(year, 9) == DaysBeforeMonth(year, 7) + 62;
    assert DaysBeforeMonth(year, 11) == DaysBeforeMonth(year, 9) + 61;
  }

  /** 1970-01-01 is day 719528 from the year 0, as in the proleptic Gregorian calendar. */
  lemma UnixEpoch()
    ensures Civil(1970, 1, 1, 0, 0, 0).Days() == 719528
  {
    DaysInClosedForm(1970);
  }

  lemma TwoDigits(n: nat)
    requires n < 100
    ensures Pad(n, 2) == [DigitChar(n / 10), DigitChar(n % 10)]
  {
    assert Pad(n / 10, 1) == Pad(n / 10 / 10, 0) + [DigitChar(n / 10 % 10)];
  }

  lemma FourDigits(n: nat)
    requires n < 10000
    ensures Pad(n, 4) == [DigitChar(n / 1000), DigitChar(n / 100 % 10), DigitChar(n / 10 % 10), DigitChar(n % 10)]
  {
    assert n / 10 / 10 == n / 100;
    assert Pad(n, 4) == Pad(n / 100, 2) + [DigitChar(n / 10 % 10)] + [DigitChar(n % 10)];
    TwoDigits(n / 100);
    assert n / 100 / 10 == n / 1000;
  }

  // YYYY-MM-DDT
  function DateLayout(c: Civil): Bytes
    requires c.Valid()
  {
    FieldsFit(c);
    [DigitChar(c.year / 1000), DigitChar(c.year / 100 % 10), DigitChar(c.year / 10 % 10), DigitChar(c.year % 10), '-',
     DigitChar(c.month / 10), DigitChar(c.month % 10), '-', DigitChar(c.day / 10), DigitChar(c.day % 10), 'T']
  }

  // HH:MM:SS
  function ClockLayout(c: Civil): Bytes
    requires c.Valid()
  {
    FieldsFit(c);
    [DigitChar(c.hour / 10), DigitChar(c.hour % 10), ':', DigitChar(c.minute / 10), DigitChar(c.minute % 10), ':',
     DigitChar(c.second / 10), DigitChar(c.second % 10)]
  }

  lemma ClockIsLaidOut(c: Civil)
    requires c.Valid()
    ensures ClockText(c) == ClockLayout(c)
  {
    TwoDigits(c.hour);
    TwoDigits(c.minute);
    TwoDigits(c.second);
  }

  lemma DateIsLaidOut(c: Civil, rest: Bytes)
    requires c.Valid()
    ensures DateThen(c, rest) == DateLayout(c) + rest
  {
    FieldsFit(c);
    FourDigits(c.year);
    TwoDigits(c.month);
    TwoDigits(c.day);
  }

  /** The text is YYYY-MM-DDTHH:MM:SS of the civil time, then the fraction after a point if there is one, then Z. */
  lemma PrintLayout(t: Instant)
    requires t.Valid()
    ensures var (c, f) := (CivilOf(t.seconds), FractionDigits(t.nanos));
            && c.Valid() && c.Seconds() == t.seconds
            && Print(t) == DateLayout(c) + ClockLayout(c) + (if f == "" then "Z" else "." + f + "Z")
  {
    var (c, f) := (CivilOf(t.seconds), FractionDigits(t.nanos));
    ClockIsLaidOut(c);
    DateIsLaidOut(c, ClockText(c));
    assert Tail(f) == if f == "" then "Z" else "." + f + "Z";
  }

  lemma FieldsFit(c: Civil)
    requires c.Valid()
    ensures c.year < 10000 && c.month < 100 && c.day < 100 && c.hour < 100 && c.minute < 100 && c.second < 100
  {
  }

  // The number a string of digits names.
  function Numeral(s: Bytes): nat
    requires Digits(s)
  {
    if s == "" then 0 else 10 * Numeral(DropLast(s)) + (Last(s) - '0') as nat
  }

  lemma AppendDigit(s: Bytes, d: nat)
    requires Digits(s) && d < 10
    ensures Digits(s + [DigitChar(d)]) && Numeral(s + [DigitChar(d)]) == 10 * Numeral(s) + d
  {
    assert DropLast(s + [DigitChar(d)]) == s;
  }

  lemma {:induction false} PadNames(n: nat, w: nat)
    requires n < Pow10(w)
    ensures Numeral(Pad(n, w)) == n
  {
    if w > 0 {
      var front, d := Pad(n / 10, w - 1), n % 10;
      PadNames(n / 10, w - 1);
      AppendDigit(front, d);
      assert 10 * (n / 10) + d == n;
    }
  }

  /** The fraction is the nine digits of the nanoseconds without the zeros at the end. */
  lemma FractionIsExact(nanos: nat)
    requires nanos < NANOS
    ensures var f := FractionDigits(nanos);
            && |f| <= 9 && (f != "" ==> Last(f) != '0')
            && Digits(f + Zeros(9 - |f|)) && Numeral(f + Zeros(9 - |f|)) == nanos
  {
    NanosFit();
    PadNames(nanos, 9);
    TrimmedTail(Pad(nanos, 9));
  }
}
