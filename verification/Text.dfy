/** The string operations of Go's strings package and JavaScript's String that the caveat code uses: trimming, splitting,
    decimal numerals. A char is a Unicode code point. */
module Text {
  import opened Wrappers

  // Which code points count as white space.
  type Spaces = char -> bool

  // unicode.IsSpace
  function GoSpace(c: char): bool {
    '\U{0009}' <= c <= '\U{000D}' || c == ' ' || c == '\U{0085}' || c == '\U{00A0}' || UnicodeSpace(c)
  }

  // The WhiteSpace and LineTerminator code points of ECMAScript.
  function JsSpace(c: char): bool {
    '\U{0009}' <= c <= '\U{000D}' || c == ' ' || c == '\U{00A0}' || c == '\U{FEFF}' || UnicodeSpace(c)
  }

  function UnicodeSpace(c: char): bool {
    c == '\U{1680}' || '\U{2000}' <= c <= '\U{200A}' || c == '\U{2028}' || c == '\U{2029}' || c == '\U{202F}'
    || c == '\U{205F}' || c == '\U{3000}'
  }

  function TrimLeft(sp: Spaces, s: string): (t: string)
    ensures t != "" ==> !sp(t[0])
  {
    if s != "" && sp(s[0]) then TrimLeft(sp, s[1..]) else s
  }

  function TrimRight(sp: Spaces, s: string): (t: string)
    ensures t <= s
    ensures t != "" ==> !sp(Last(t))
  {
    if s != "" && sp(Last(s)) then TrimRight(sp, DropLast(s)) else s
  }

  function Trim(sp: Spaces, s: string): (t: string)
    ensures Trimmed(sp, t)
  {
    TrimRight(sp, TrimLeft(sp, s))
  }

  predicate Trimmed(sp: Spaces, s: string) {
    s != "" ==> !sp(s[0]) && !sp(Last(s))
  }

  lemma TrimOfTrimmed(sp: Spaces, s: string)
    requires Trimmed(sp, s)
    ensures Trim(sp, s) == s
  {
  }

  lemma TrimAfterSpace(sp: Spaces, s: string)
    requires Trimmed(sp, s) && sp(' ')
    ensures Trim(sp, " " + s) == s
  {
    var t := " " + s;
    assert t[0] == ' ' && t[1..] == s;
    assert TrimLeft(sp, t) == TrimLeft(sp, s) == s;
  }

  // strings.Split on one separator code point.
  function Split(s: string, sep: char): (parts: seq<string>)
    ensures parts != []
  {
    if s == "" then [""]
    else if s[0] == sep then [""] + Split(s[1..], sep)
    else var rest := Split(s[1..], sep); [[s[0]] + rest[0]] + rest[1..]
  }

  lemma {:induction false} SplitAtFirst(x: string, sep: char, rest: string)
    requires sep !in x
    ensures Split(x + [sep] + rest, sep) == [x] + Split(rest, sep)
  {
    if x == "" {
      assert x + [sep] + rest == [sep] + rest;
    } else {
      assert (x + [sep] + rest)[1..] == x[1..] + [sep] + rest;
      SplitAtFirst(x[1..], sep, rest);
      assert [x[0]] + x[1..] == x;
    }
  }

  lemma {:induction false} SplitWithout(x: string, sep: char)
    requires sep !in x
    ensures Split(x, sep) == [x]
  {
    if x != "" {
      SplitWithout(x[1..], sep);
      assert [x[0]] + x[1..] == x;
    }
  }

  function Join(items: seq<string>, sep: string): string {
    if items == [] then "" else if |items| == 1 then items[0] else items[0] + sep + Join(items[1..], sep)
  }

  // The first occurrence of a substring.
  function Find(s: string, sub: string): (at: Option<nat>)
    ensures at.Some? ==> at.value + |sub| <= |s|
    decreases |s|
  {
    if sub <= s then Some(0)
    else if s == "" then None
    else match Find(s[1..], sub)
         case None => None
         case Some(i) => Some(i + 1)
  }

  lemma {:induction false} FindAfter(x: string, sub: string, rest: string)
    requires sub != "" && sub[0] !in x
    ensures Find(x + sub + rest, sub) == Some(|x|)
  {
    if x == "" {
      assert x + sub + rest == sub + rest;
    } else {
      assert (x + sub + rest)[0] == x[0];
      assert (x + sub + rest)[1..] == x[1..] + sub + rest;
      FindAfter(x[1..], sub, rest);
    }
  }

  lemma {:induction false} FindWithout(x: string, sub: string)
    requires sub != "" && sub[0] !in x
    ensures Find(x, sub) == None
  {
    if x != "" {
      FindWithout(x[1..], sub);
    }
  }

  // strings.Fields: the maximal runs without white space.
  function Fields(sp: Spaces, s: string): seq<string> {
    if s == "" then []
    else if sp(s[0]) then Fields(sp, s[1..])
    else var n := WordLength(sp, s); [s[..n]] + Fields(sp, s[n..])
  }

  function WordLength(sp: Spaces, s: string): (n: nat)
    requires s != "" && !sp(s[0])
    ensures 0 < n <= |s|
    ensures forall i :: 0 <= i < n ==> !sp(s[i])
    ensures n < |s| ==> sp(s[n])
  {
    if |s| == 1 || sp(s[1]) then 1 else 1 + WordLength(sp, s[1..])
  }

  predicate Word(sp: Spaces, s: string) {
    s != "" && forall i :: 0 <= i < |s| ==> !sp(s[i])
  }

  lemma FieldsOfWord(sp: Spaces, a: string)
    requires Word(sp, a)
    ensures Fields(sp, a) == [a]
  {
    assert a[..|a|] == a && a[|a|..] == "";
  }

  lemma FieldsOfTwoWords(sp: Spaces, a: string, b: string)
    requires Word(sp, a) && Word(sp, b) && sp(' ')
    ensures Fields(sp, a + " " + b) == [a, b]
  {
    var s := a + " " + b;
    assert s[|a|] == ' ' && forall i :: 0 <= i < |a| ==> s[i] == a[i];
    assert WordLength(sp, s) == |a|;
    assert s[..|a|] == a && s[|a|..] == " " + b && (" " + b)[1..] == b;
    FieldsOfWord(sp, b);
  }

  // --- decimal numerals ------------------------------------------------------------------------

  predicate IsDigit(c: char) { '0' <= c <= '9' }

  function DigitOf(c: char): nat
    requires IsDigit(c)
  {
    (c - '0') as nat
  }

  predicate AllDigits(s: string) {
    forall i :: 0 <= i < |s| ==> IsDigit(s[i])
  }

  function ValueOf(s: string): nat
    requires AllDigits(s)
  {
    if s == "" then 0 else 10 * ValueOf(DropLast(s)) + DigitOf(Last(s))
  }

  function Decimal(n: nat): (s: string)
    ensures s != "" && AllDigits(s)
  {
    (if n < 10 then "" else Decimal(n / 10)) + ['0' + (n % 10) as char]
  }

  lemma {:induction false} ValueOfDecimal(n: nat)
    ensures ValueOf(Decimal(n)) == n
  {
    var front := if n < 10 then "" else Decimal(n / 10);
    if n >= 10 {
      ValueOfDecimal(n / 10);
    }
    assert DropLast(Decimal(n)) == front && Last(Decimal(n)) == '0' + (n % 10) as char;
  }

  // --- case folding ----------------------------------------------------------------------------

  predicate Ascii(s: string) {
    forall i :: 0 <= i < |s| ==> s[i] < '\U{0080}'
  }

  function AsciiLower(s: string): string {
    seq(|s|, i requires 0 <= i < |s| => if 'A' <= s[i] <= 'Z' then s[i] + ('a' - 'A') else s[i])
  }

  // --- what the string operations mean ---------------------------------------------------------

  predicate AllSpaces(sp: Spaces, s: string) {
    forall i :: 0 <= i < |s| ==> sp(s[i])
  }

  lemma {:induction false} TrimLeftIsExact(sp: Spaces, s: string) returns (lead: string)
    ensures s == lead + TrimLeft(sp, s) && AllSpaces(sp, lead)
  {
    if s != "" && sp(s[0]) {
      var rest := TrimLeftIsExact(sp, s[1..]);
      lead := [s[0]] + rest;
      assert s == [s[0]] + s[1..];
    } else {
      lead := "";
    }
  }

  lemma {:induction false} TrimRightIsExact(sp: Spaces, s: string) returns (tail: string)
    ensures s == TrimRight(sp, s) + tail && AllSpaces(sp, tail)
  {
    if s != "" && sp(Last(s)) {
      var rest := TrimRightIsExact(sp, DropLast(s));
      tail := rest + [Last(s)];
      assert s == DropLast(s) + [Last(s)];
    } else {
      tail := "";
    }
  }

  /** Trimming takes white space off both ends, all of it and nothing else. */
  lemma TrimIsExact(sp: Spaces, s: string) returns (lead: string, tail: string)
    ensures s == lead + Trim(sp, s) + tail && AllSpaces(sp, lead) && AllSpaces(sp, tail)
    ensures Trim(sp, s) != "" ==> !sp(Trim(sp, s)[0]) && !sp(Last(Trim(sp, s)))
  {
    lead := TrimLeftIsExact(sp, s);
    tail := TrimRightIsExact(sp, TrimLeft(sp, s));
    assert lead + (Trim(sp, s) + tail) == lead + Trim(sp, s) + tail;
  }

  predicate OccursAt(s: string, sub: string, i: nat) {
    i + |sub| <= |s| && s[i..i + |sub|] == sub
  }

  lemma LaterOccurrence(s: string, sub: string, j: nat)
    requires s != "" && j > 0
    ensures OccursAt(s, sub, j) <==> OccursAt(s[1..], sub, j - 1)
  {
    if j + |sub| <= |s| {
      assert s[j..j + |sub|] == s[1..][j - 1..j - 1 + |sub|];
    }
  }

  /** The first occurrence, or none. */
  lemma {:induction false} FindIsExact(s: string, sub: string)
    ensures match Find(s, sub)
            case Some(i) => OccursAt(s, sub, i) && forall j: nat :: j < i ==> !OccursAt(s, sub, j)
            case None => forall j: nat :: !OccursAt(s, sub, j)
    decreases |s|
  {
    assert OccursAt(s, sub, 0) <==> sub <= s;
    if !(sub <= s) && s != "" {
      FindIsExact(s[1..], sub);
      forall j: nat | j > 0 ensures OccursAt(s, sub, j) <==> OccursAt(s[1..], sub, j - 1) {
        LaterOccurrence(s, sub, j);
      }
    }
  }

  /** The two notions of white space differ in just two code points: NEL is one only to Go, the byte order mark only to
      JavaScript. */
  lemma SpacesDiffer(c: char)
    ensures GoSpace(c) != JsSpace(c) <==> c == '\U{0085}' || c == '\U{FEFF}'
    ensures GoSpace(c) <==> c in [' ', '\t', '\n', '\r', '\U{000B}', '\U{000C}', '\U{0085}', '\U{00A0}', '\U{1680}', '\U{2000}', '\U{2001}',
                                  '\U{2002}', '\U{2003}', '\U{2004}', '\U{2005}', '\U{2006}', '\U{2007}', '\U{2008}', '\U{2009}', '\U{200A}',
                                  '\U{2028}', '\U{2029}', '\U{202F}', '\U{205F}', '\U{3000}']
  {
  }
}
