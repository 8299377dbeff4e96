/** The canonical query, path and header value of the signature scheme (nakli-hub/internal/crate/sigv4.go): two requests
    have the same canonical form exactly when they say the same. */
module SigV4 {
  import opened Wrappers
  import opened Text
  import opened Lexicographic

  // A Go string of bytes.
  type Octets = s: string | forall i :: 0 <= i < |s| ==> s[i] < '\U{0100}'

  // --- percent encoding ------------------------------------------------------------------------

  // Section 2.3 of RFC 3986.
  predicate Unreserved(c: char) {
    'A' <= c <= 'Z' || 'a' <= c <= 'z' || '0' <= c <= '9' || c == '-' || c == '_' || c == '.' || c == '~'
  }

  function HexDigit(d: nat): char
    requires d < 16
  {
    if d < 10 then '0' + d as char else 'A' + (d - 10) as char
  }

  function HexValue(c: char): nat {
    if '0' <= c <= '9' then (c - '0') as nat else if 'A' <= c <= 'F' then (c - 'A') as nat + 10 else 0
  }

  function EncodeByte(c: char): string
    requires c < '\U{0100}'
  {
    if Unreserved(c) then [c] else ['%', HexDigit(c as nat / 16), HexDigit(c as nat % 16)]
  }

  function Encode(s: Octets): string {
    if s == "" then "" else EncodeByte(s[0]) + Encode(s[1..])
  }

  // Section 2.1 of RFC 3986.
  function Decode(t: string): string {
    if t == "" then ""
    else if t[0] == '%' && |t| >= 3 then [(HexValue(t[1]) * 16 + HexValue(t[2])) as char] + Decode(t[3..])
    else [t[0]] + Decode(t[1..])
  }

  lemma HexPair(c: char)
    requires c < '\U{0100}'
    ensures (HexValue(HexDigit(c as nat / 16)) * 16 + HexValue(HexDigit(c as nat % 16))) as char == c
  {
  }

  lemma ByteDecodes(c: char, rest: string)
    requires c < '\U{0100}'
    ensures Decode(EncodeByte(c) + rest) == [c] + Decode(rest)
  {
    var t := EncodeByte(c) + rest;
    if Unreserved(c) {
      assert t[1..] == rest;
    } else {
      HexPair(c);
      assert t[3..] == rest;
    }
  }

  /** Percent decoding undoes the segment encoding. */
  lemma {:induction false} DecodeUndoesEncode(s: Octets)
    ensures Decode(Encode(s)) == s
  {
    if s != "" {
      DecodeUndoesEncode(s[1..]);
      ByteDecodes(s[0], Encode(s[1..]));
      assert [s[0]] + s[1..] == s;
    }
  }

  lemma EncodeIsInjective(s: Octets, t: Octets)
    ensures Encode(s) == Encode(t) <==> s == t
  {
    DecodeUndoesEncode(s);
    DecodeUndoesEncode(t);
  }

  lemma {:induction false} EncodedIsPlain(s: Octets)
    ensures forall c :: c in Encode(s) ==> Unreserved(c) || c == '%'
  {
    if s != "" {
      EncodedIsPlain(s[1..]);
    }
  }

  predicate EncodedSoFar(b: string, rest: Octets, s: Octets) {
    b + Encode(rest) == Encode(s)
  }

  lemma NextByte(b: string, rest: Octets, s: Octets)
    requires rest != "" && EncodedSoFar(b, rest, s)
    ensures EncodedSoFar(b + EncodeByte(rest[0]), rest[1..], s)
  {
    assert b + (EncodeByte(rest[0]) + Encode(rest[1..])) == (b + EncodeByte(rest[0])) + Encode(rest[1..]);
  }

  const UPPER: string := "ABCDEFGHIJKLMNOPQRSTUVWXYZ"
  const LOWER: string := "abcdefghijklmnopqrstuvwxyz"
  const DIGITS: string := "0123456789"
  const HEX: string := "0123456789ABCDEF"

  lemma UpperIsListed(c: char)
    ensures c in UPPER <==> 'A' <= c <= 'Z'
  {
    assert forall i :: 0 <= i < |UPPER| ==> UPPER[i] == 'A' + i as char;
    if 'A' <= c <= 'Z' {
      assert UPPER[(c - 'A') as nat] == c;
    }
  }

  lemma LowerIsListed(c: char)
    ensures c in LOWER <==> 'a' <= c <= 'z'
  {
    assert forall i :: 0 <= i < |LOWER| ==> LOWER[i] == 'a' + i as char;
    if 'a' <= c <= 'z' {
      assert LOWER[(c - 'a') as nat] == c;
    }
  }

  lemma DigitIsListed(c: char)
    ensures c in DIGITS <==> '0' <= c <= '9'
  {
    assert forall i :: 0 <= i < |DIGITS| ==> DIGITS[i] == '0' + i as char;
    if '0' <= c <= '9' {
      assert DIGITS[(c - '0') as nat] == c;
    }
  }

  /** The unreserved characters of section 2.3 of RFC 3986 stand for themselves, every other byte for a percent sign and its
      two capital hexadecimal digits. */
  lemma ByteEncodingIsExact(c: char)
    requires c < '\U{0100}'
    ensures var unreserved := c in UPPER || c in LOWER || c in DIGITS || c in "-._~";
            EncodeByte(c) == if unreserved then [c] else ['%', HEX[c as nat / 16], HEX[c as nat % 16]]
  {
    UpperIsListed(c);
    LowerIsListed(c);
    DigitIsListed(c);
    assert c in "-._~" <==> c == '-' || c == '.' || c == '_' || c == '~';
    HexIsListed(c as nat / 16);
    HexIsListed(c as nat % 16);
  }

  lemma HexIsListed(d: nat)
    requires d < 16
    ensures |HEX| == 16 && HEX[d] == HexDigit(d)
  {
  }

  method UriEncodeSegment(s: Octets) returns (b: string)
    ensures b == Encode(s)
  {
    b := "";
    var i := 0;
    assert s[0..] == s;
    while i < |s|
      invariant i <= |s| && EncodedSoFar(b, s[i..], s)
    {
      var c := s[i];
      NextByte(b, s[i..], s);
      assert s[i..][1..] == s[i + 1..];
      if Unreserved(c) {
        b := b + [c];
      } else {
        b := b + ['%', HexDigit(c as nat / 16), HexDigit(c as nat % 16)];
      }
      i := i + 1;
    }
  }

  // --- splitting and joining -------------------------------------------------------------------

  lemma {:induction false} SplitUndoesJoin(items: seq<string>, sep: char)
    requires items != [] && forall i :: 0 <= i < |items| ==> sep !in items[i]
    ensures Split(Join(items, [sep]), sep) == items
  {
    if |items| == 1 {
      SplitWithout(items[0], sep);
    } else {
      SplitUndoesJoin(items[1..], sep);
      SplitAtFirst(items[0], sep, Join(items[1..], [sep]));
      assert items == [items[0]] + items[1..];
    }
  }

  lemma {:induction false} JoinUndoesSplit(s: string, sep: char)
    ensures Join(Split(s, sep), [sep]) == s
  {
    if s != "" {
      var rest := Split(s[1..], sep);
      JoinUndoesSplit(s[1..], sep);
      assert s == [s[0]] + s[1..];
      if s[0] == sep {
        assert ([""] + rest)[1..] == rest;
      } else {
        assert ([[s[0]] + rest[0]] + rest[1..])[1..] == rest[1..];
      }
    }
  }

  lemma {:induction false} PieceChars(s: string, sep: char, i: nat)
    requires i < |Split(s, sep)|
    ensures sep !in Split(s, sep)[i] && forall c :: c in Split(s, sep)[i] ==> c in s
  {
    if s != "" {
      if s[0] != sep {
        PieceChars(s[1..], sep, i);
      } else if i > 0 {
        PieceChars(s[1..], sep, i - 1);
      }
    }
  }

  // --- the query -------------------------------------------------------------------------------

  // url.Values
  type Query = map<Octets, seq<Octets>>

  datatype Pair = Pair(k: string, v: string)

  // How often a query says k = v. A name without values says it once with the empty value.
  function Count(q: Query, k: Octets, v: Octets): nat {
    if k !in q then 0 else CountIn(q[k], v)
  }

  function CountIn(values: seq<Octets>, v: Octets): nat {
    if values == [] then (if v == "" then 1 else 0) else multiset(values)[v]
  }

  function PairOf(k: Octets, v: Octets): Pair {
    Pair(Encode(k), Encode(v))
  }

  lemma PairIsInjective(k: Octets, v: Octets, k': Octets, v': Octets)
    ensures PairOf(k, v) == PairOf(k', v') <==> k == k' && v == v'
  {
    EncodeIsInjective(k, k');
    EncodeIsInjective(v, v');
  }

  predicate PairLess(a: Pair, b: Pair) {
    if a.k != b.k then Less(a.k, b.k) else Less(a.v, b.v)
  }

  lemma PairOrder(a: Pair, b: Pair, c: Pair)
    ensures PairLess(a, b) ==> !PairLess(b, a)
    ensures PairLess(a, b) || a == b || PairLess(b, a)
    ensures PairLess(a, b) && PairLess(b, c) ==> PairLess(a, c)
  {
    LessIsStrict(a.k, b.k);
    LessIsStrict(a.v, b.v);
    LessIsStrict(a.k, c.k);
    if PairLess(a, b) && PairLess(b, c) {
      if a.k == b.k == c.k {
        LessIsTransitive(a.v, b.v, c.v);
      } else if a.k != b.k && b.k != c.k {
        LessIsTransitive(a.k, b.k, c.k);
      }
    }
  }

  ghost predicate Sorted(ps: seq<Pair>) {
    forall i, j :: 0 <= i < j < |ps| ==> !PairLess(ps[j], ps[i])
  }

  /** Sorted means ascending by encoded name, then by encoded value, in byte order. */
  lemma SortedMeansAscending(ps: seq<Pair>)
    ensures Sorted(ps) <==>
            forall i, j :: 0 <= i < j < |ps| ==> Less(ps[i].k, ps[j].k) || (ps[i].k == ps[j].k && (ps[i].v == ps[j].v || Less(ps[i].v, ps[j].v)))
  {
    forall i, j | 0 <= i < j < |ps|
      ensures !PairLess(ps[j], ps[i]) <==> Less(ps[i].k, ps[j].k) || (ps[i].k == ps[j].k && (ps[i].v == ps[j].v || Less(ps[i].v, ps[j].v)))
    {
      LessIsStrict(ps[i].k, ps[j].k);
      LessIsStrict(ps[i].v, ps[j].v);
    }
  }

  function Insert(p: Pair, ps: seq<Pair>): (r: seq<Pair>)
    requires Sorted(ps)
    ensures Sorted(r) && multiset(r) == multiset(ps) + multiset{p}
  {
    if ps == [] then [p]
    else if PairLess(ps[0], p) then
      assert ps == [ps[0]] + ps[1..];
      var rest := Insert(p, ps[1..]);
      InsertedAbove(ps[0], ps[1..], p, rest);
      [ps[0]] + rest
    else
      InsertedBelow(p, ps);
      [p] + ps
  }

  lemma InsertedAbove(a: Pair, ps: seq<Pair>, p: Pair, rest: seq<Pair>)
    requires Sorted([a] + ps) && PairLess(a, p) && Sorted(rest) && multiset(rest) == multiset(ps) + multiset{p}
    ensures Sorted([a] + rest)
  {
    forall j | 0 <= j < |rest| ensures !PairLess(rest[j], a) {
      assert rest[j] in multiset(rest);
      if rest[j] == p {
        PairOrder(a, p, p);
      } else {
        assert rest[j] in ps;
        var i :| 0 <= i < |ps| && ps[i] == rest[j];
        assert ([a] + ps)[i + 1] == ps[i] && ([a] + ps)[0] == a;
      }
    }
  }

  lemma InsertedBelow(p: Pair, ps: seq<Pair>)
    requires Sorted(ps) && ps != [] && !PairLess(ps[0], p)
    ensures Sorted([p] + ps)
  {
    forall j | 0 <= j < |ps| ensures !PairLess(ps[j], p) {
      PairOrder(ps[j], p, ps[0]);
      PairOrder(p, ps[0], ps[j]);
    }
  }

  // sort.Slice
  function Sort(ps: seq<Pair>): (r: seq<Pair>)
    ensures Sorted(r) && multiset(r) == multiset(ps)
  {
    if ps == [] then []
    else
      assert ps == [ps[0]] + ps[1..];
      Insert(ps[0], Sort(ps[1..]))
  }

  lemma FirstIsLeast(a: seq<Pair>, b: seq<Pair>)
    requires Sorted(a) && a != [] && b != [] && multiset(a) == multiset(b)
    ensures !PairLess(b[0], a[0])
  {
    assert b[0] in multiset(a);
    var j :| 0 <= j < |a| && a[j] == b[0];
    PairOrder(a[0], a[0], a[0]);
  }

  lemma {:induction false} SortedIsUnique(a: seq<Pair>, b: seq<Pair>)
    requires Sorted(a) && Sorted(b) && multiset(a) == multiset(b)
    ensures a == b
  {
    assert |multiset(a)| == |a| && |multiset(b)| == |b|;
    if a != [] {
      FirstIsLeast(a, b);
      FirstIsLeast(b, a);
      PairOrder(a[0], b[0], a[0]);
      DropFirst(a, b);
      SortedIsUnique(a[1..], b[1..]);
      assert a == [a[0]] + a[1..] && b == [b[0]] + b[1..];
    }
  }

  lemma DropFirst(a: seq<Pair>, b: seq<Pair>)
    requires a != [] && b != [] && a[0] == b[0] && multiset(a) == multiset(b)
    ensures multiset(a[1..]) == multiset(b[1..])
  {
    assert a == [a[0]] + a[1..] && b == [b[0]] + b[1..];
    assert multiset(a[1..]) == multiset(a) - multiset{a[0]} && multiset(b[1..]) == multiset(b) - multiset{b[0]};
  }

  function Parts(ps: seq<Pair>): seq<string> {
    seq(|ps|, i requires 0 <= i < |ps| => ps[i].k + "=" + ps[i].v)
  }

  ghost predicate Encoded(p: Pair) {
    exists k: Octets, v: Octets :: p == PairOf(k, v)
  }

  // The pairs are the encoded parameters of the query, each as often as the query says it.
  ghost predicate PairsHold(ps: seq<Pair>, q: Query) {
    && (forall i :: 0 <= i < |ps| ==> Encoded(ps[i]))
    && (forall k: Octets, v: Octets :: multiset(ps)[PairOf(k, v)] == Count(q, k, v))
  }

  ghost predicate IsCanonicalQuery(q: Query, s: string) {
    exists ps: seq<Pair> :: Sorted(ps) && PairsHold(ps, q) && s == Join(Parts(ps), "&")
  }

  function ValuePairs(k: Octets, values: seq<Octets>): seq<Pair> {
    seq(|values|, i requires 0 <= i < |values| => PairOf(k, values[i]))
  }

  function NamePairs(k: Octets, values: seq<Octets>): seq<Pair> {
    if values == [] then [PairOf(k, "")] else ValuePairs(k, values)
  }

  lemma CountOfAppend(ps: seq<Pair>, p: Pair, q: Pair)
    ensures multiset(ps + [p])[q] == multiset(ps)[q] + if p == q then 1 else 0
  {
  }

  lemma ValueCountOfAppend(values: seq<Octets>, last: Octets, v: Octets)
    ensures multiset(values + [last])[v] == multiset(values)[v] + if last == v then 1 else 0
  {
  }

  lemma ValuePairsOfAppend(k: Octets, values: seq<Octets>, last: Octets)
    ensures ValuePairs(k, values + [last]) == ValuePairs(k, values) + [PairOf(k, last)]
  {
  }

  lemma ValuePairsNext(k: Octets, values: seq<Octets>, last: Octets, k': Octets, v: Octets)
    requires multiset(ValuePairs(k, values))[PairOf(k', v)] == if k == k' then multiset(values)[v] else 0
    ensures multiset(ValuePairs(k, values + [last]))[PairOf(k', v)] == if k == k' then multiset(values + [last])[v] else 0
  {
    PairIsInjective(k, last, k', v);
    ValuePairsOfAppend(k, values, last);
    CountOfAppend(ValuePairs(k, values), PairOf(k, last), PairOf(k', v));
    ValueCountOfAppend(values, last, v);
  }

  lemma {:induction false} ValuePairsCount(k: Octets, values: seq<Octets>, k': Octets, v: Octets)
    ensures multiset(ValuePairs(k, values))[PairOf(k', v)] == if k == k' then multiset(values)[v] else 0
  {
    if values != [] {
      var front, last := DropLast(values), Last(values);
      ValuePairsCount(k, front, k', v);
      ValuePairsNext(k, front, last, k', v);
      assert values == front + [last];
    }
  }

  lemma NamePairsCount(k: Octets, values: seq<Octets>, k': Octets, v: Octets)
    ensures multiset(NamePairs(k, values))[PairOf(k', v)] == if k == k' then CountIn(values, v) else 0
  {
    if values == [] {
      PairIsInjective(k, "", k', v);
    } else {
      ValuePairsCount(k, values, k', v);
    }
  }

  lemma AddedCount(ps: seq<Pair>, q: Query, k: Octets, values: seq<Octets>, k': Octets, v: Octets)
    requires multiset(ps)[PairOf(k', v)] == Count(q, k', v) && k !in q
    ensures multiset(ps + NamePairs(k, values))[PairOf(k', v)] == Count(q[k := values], k', v)
  {
    NamePairsCount(k, values, k', v);
    assert multiset(ps + NamePairs(k, values)) == multiset(ps) + multiset(NamePairs(k, values));
  }

  lemma AllEncoded(a: seq<Pair>, b: seq<Pair>)
    requires (forall i :: 0 <= i < |a| ==> Encoded(a[i])) && (forall i :: 0 <= i < |b| ==> Encoded(b[i]))
    ensures forall i :: 0 <= i < |a + b| ==> Encoded((a + b)[i])
  {
  }

  lemma AddName(ps: seq<Pair>, q: Query, k: Octets, values: seq<Octets>)
    requires PairsHold(ps, q) && k !in q
    ensures PairsHold(ps + NamePairs(k, values), q[k := values])
  {
    var all := ps + NamePairs(k, values);
    NamePairsEncoded(k, values);
    AllEncoded(ps, NamePairs(k, values));
    forall k': Octets, v: Octets ensures multiset(all)[PairOf(k', v)] == Count(q[k := values], k', v) {
      AddedCount(ps, q, k, values, k', v);
    }
  }

  lemma NamePairsEncoded(k: Octets, values: seq<Octets>)
    ensures forall i :: 0 <= i < |NamePairs(k, values)| ==> Encoded(NamePairs(k, values)[i])
  {
    forall i | 0 <= i < |NamePairs(k, values)| ensures Encoded(NamePairs(k, values)[i]) {
      if values == [] {
        assert NamePairs(k, values)[i] == PairOf(k, "");
      } else {
        assert NamePairs(k, values)[i] == PairOf(k, values[i]);
      }
    }
  }

  lemma SortKeepsPairs(ps: seq<Pair>, q: Query)
    requires PairsHold(ps, q)
    ensures PairsHold(Sort(ps), q)
  {
    var r := Sort(ps);
    forall i | 0 <= i < |r| ensures Encoded(r[i]) {
      assert r[i] in multiset(ps);
      var j :| 0 <= j < |ps| && ps[j] == r[i];
    }
  }

  method PairsOfName(k: Octets, values: seq<Octets>, pairs: seq<Pair>) returns (out: seq<Pair>)
    ensures out == pairs + NamePairs(k, values)
  {
    var ek := UriEncodeSegment(k);
    if |values| == 0 {
      return pairs + [Pair(ek, "")];
    }
    out := pairs;
    var i := 0;
    while i < |values|
      invariant i <= |values| && out == pairs + ValuePairs(k, values[..i])
    {
      var ev := UriEncodeSegment(values[i]);
      assert ValuePairs(k, values[..i + 1]) == ValuePairs(k, values[..i]) + [Pair(ek, ev)];
      out := out + [Pair(ek, ev)];
      i := i + 1;
    }
    assert values[..i] == values;
  }

  method CanonicalQuery(q: Query) returns (s: string)
    ensures IsCanonicalQuery(q, s)
  {
    var pairs: seq<Pair> := [];
    var keys := q.Keys;
    ghost var done: Query := map[];
    while keys != {}
      invariant keys <= q.Keys && done.Keys == q.Keys - keys && (forall k :: k in done ==> done[k] == q[k])
      invariant PairsHold(pairs, done)
      decreases |keys|
    {
      // map iteration, in no particular order
      var k :| k in keys;
      AddName(pairs, done, k, q[k]);
      pairs := PairsOfName(k, q[k], pairs);
      done, keys := done[k := q[k]], keys - {k};
    }
    assert done == q;
    SortKeepsPairs(pairs, q);
    s := JoinPairs(Sort(pairs));
  }

  method JoinPairs(sorted: seq<Pair>) returns (s: string)
    ensures s == Join(Parts(sorted), "&")
  {
    var parts, i := [], 0;
    while i < |sorted|
      invariant i <= |sorted| && parts == Parts(sorted[..i])
    {
      assert Parts(sorted[..i + 1]) == Parts(sorted[..i]) + [sorted[i].k + "=" + sorted[i].v];
      parts, i := parts + [sorted[i].k + "=" + sorted[i].v], i + 1;
    }
    assert sorted[..i] == sorted;
    return Join(parts, "&");
  }

  lemma PlainPair(k: Octets, v: Octets)
    ensures var p := PairOf(k, v); '&' !in p.k + "=" + p.v && Split(p.k + "=" + p.v, '=') == [p.k, p.v]
  {
    EncodedIsPlain(k);
    EncodedIsPlain(v);
    var p := PairOf(k, v);
    SplitAtFirst(p.k, '=', p.v);
    SplitWithout(p.v, '=');
  }

  // The joined text determines the pairs.
  lemma PartsDetermine(ps: seq<Pair>, q: Query)
    requires PairsHold(ps, q)
    ensures Join(Parts(ps), "&") == "" <==> ps == []
    ensures ps != [] ==> Split(Join(Parts(ps), "&"), '&') == Parts(ps)
    ensures forall i :: 0 <= i < |ps| ==> Split(Parts(ps)[i], '=') == [ps[i].k, ps[i].v]
  {
    forall i | 0 <= i < |ps| ensures '&' !in Parts(ps)[i] && Split(Parts(ps)[i], '=') == [ps[i].k, ps[i].v] {
      var k: Octets, v: Octets :| ps[i] == PairOf(k, v);
      PlainPair(k, v);
    }
    if ps != [] {
      SplitUndoesJoin(Parts(ps), '&');
      assert Split("", '&') == [""] && Parts(ps)[0] != "";
    }
  }

  lemma SamePairs(ps: seq<Pair>, q: Query, ps': seq<Pair>, q': Query)
    requires PairsHold(ps, q) && PairsHold(ps', q') && Join(Parts(ps), "&") == Join(Parts(ps'), "&")
    ensures ps == ps'
  {
    PartsDetermine(ps, q);
    PartsDetermine(ps', q');
    if ps != [] {
      assert |Parts(ps)| == |Parts(ps')|;
      forall i | 0 <= i < |ps| ensures ps[i] == ps'[i] {
        assert Parts(ps)[i] == Parts(ps')[i];
        assert [ps[i].k, ps[i].v][0] == [ps'[i].k, ps'[i].v][0] && [ps[i].k, ps[i].v][1] == [ps'[i].k, ps'[i].v][1];
      }
    }
  }

  ghost predicate SameParameters(q: Query, q': Query) {
    forall k: Octets, v: Octets :: Count(q, k, v) == Count(q', k, v)
  }

  lemma SameCounts(ps: seq<Pair>, q: Query, ps': seq<Pair>, q': Query)
    requires PairsHold(ps, q) && PairsHold(ps', q') && SameParameters(q, q')
    ensures multiset(ps) == multiset(ps')
  {
    forall p: Pair ensures multiset(ps)[p] == multiset(ps')[p] {
      if p in multiset(ps) || p in multiset(ps') {
        var k: Octets, v: Octets :| p == PairOf(k, v);
        assert Count(q, k, v) == Count(q', k, v);
      }
    }
  }

  /** Two queries have the same canonical string exactly when they say every name and value equally often. */
  lemma CanonicalQueryIsExact(q: Query, s: string, q': Query, s': string)
    requires IsCanonicalQuery(q, s) && IsCanonicalQuery(q', s')
    ensures s == s' <==> SameParameters(q, q')
  {
    var ps :| Sorted(ps) && PairsHold(ps, q) && s == Join(Parts(ps), "&");
    var ps' :| Sorted(ps') && PairsHold(ps', q') && s' == Join(Parts(ps'), "&");
    if s == s' {
      SamePairs(ps, q, ps', q');
      forall k: Octets, v: Octets ensures Count(q, k, v) == Count(q', k, v) {
        assert multiset(ps)[PairOf(k, v)] == multiset(ps')[PairOf(k, v)];
      }
    }
    if SameParameters(q, q') {
      SameCounts(ps, q, ps', q');
      SortedIsUnique(ps, ps');
    }
  }

  // --- the path --------------------------------------------------------------------------------

  lemma PieceIsOctets(p: Octets, i: nat)
    requires i < |Split(p, '/')|
    ensures forall j :: 0 <= j < |Split(p, '/')[i]| ==> Split(p, '/')[i][j] < '\U{0100}'
  {
    PieceChars(p, '/', i);
    forall j | 0 <= j < |Split(p, '/')[i]| ensures Split(p, '/')[i][j] < '\U{0100}' {
      assert Split(p, '/')[i][j] in p;
    }
  }

  function Piece(p: Octets, i: nat): Octets
    requires i < |Split(p, '/')|
  {
    PieceIsOctets(p, i);
    Split(p, '/')[i]
  }

  function EncodedPieces(p: Octets): seq<string> {
    seq(|Split(p, '/')|, i requires 0 <= i < |Split(p, '/')| => Encode(Piece(p, i)))
  }

  function CanonicalPathOf(p: Octets): string {
    if p == "" then "/" else Join(EncodedPieces(p), "/")
  }

  method CanonicalPath(p: Octets) returns (s: string)
    ensures s == CanonicalPathOf(p)
  {
    if p == "" {
      return "/";
    }
    var pieces, i := Split(p, '/'), 0;
    while i < |pieces|
      invariant i <= |pieces| == |Split(p, '/')|
      invariant forall j :: 0 <= j < i ==> pieces[j] == EncodedPieces(p)[j]
      invariant forall j :: i <= j < |pieces| ==> pieces[j] == Split(p, '/')[j]
    {
      assert pieces[i] == Piece(p, i);
      var e := UriEncodeSegment(Piece(p, i));
      pieces := pieces[i := e];
      i := i + 1;
    }
    assert pieces == EncodedPieces(p);
    return Join(pieces, "/");
  }

  lemma PiecesDetermine(p: Octets, p': Octets)
    requires EncodedPieces(p) == EncodedPieces(p')
    ensures p == p'
  {
    var a, b := Split(p, '/'), Split(p', '/');
    assert |EncodedPieces(p)| == |EncodedPieces(p')|;
    forall i | 0 <= i < |a| ensures a[i] == b[i] {
      assert EncodedPieces(p)[i] == EncodedPieces(p')[i];
      EncodeIsInjective(Piece(p, i), Piece(p', i));
    }
    assert a == b;
    JoinUndoesSplit(p, '/');
    JoinUndoesSplit(p', '/');
  }

  lemma PathSplitsBack(p: Octets)
    ensures Split(Join(EncodedPieces(p), "/"), '/') == EncodedPieces(p)
  {
    forall i | 0 <= i < |EncodedPieces(p)| ensures '/' !in EncodedPieces(p)[i] {
      EncodedIsPlain(Piece(p, i));
    }
    SplitUndoesJoin(EncodedPieces(p), '/');
  }

  lemma RootPath()
    ensures Join(EncodedPieces("/"), "/") == "/"
  {
    assert Split("/"[1..], '/') == [""];
    assert Split("/", '/') == ["", ""];
    assert EncodedPieces("/") == ["", ""];
    assert ["", ""][1..] == [""];
  }

  /** Two paths have the same canonical path exactly when they are equal, or one is empty and the other the root. */
  lemma CanonicalPathIsExact(p: Octets, p': Octets)
    ensures CanonicalPathOf(p) == CanonicalPathOf(p') <==> p == p' || {p, p'} == {"", "/"}
  {
    RootPath();
    var q, q' := if p == "" then "/" else p, if p' == "" then "/" else p';
    assert CanonicalPathOf(p) == Join(EncodedPieces(q), "/") && CanonicalPathOf(p') == Join(EncodedPieces(q'), "/");
    if CanonicalPathOf(p) == CanonicalPathOf(p') {
      PathSplitsBack(q);
      PathSplitsBack(q');
      PiecesDetermine(q, q');
    }
  }

  lemma Regroup(a: string, b: string, c: string)
    ensures (a + b) + c == a + (b + c)
  {
  }

  lemma {:induction false} DecodeAfterEncode(s: Octets, t: string)
    ensures Decode(Encode(s) + t) == s + Decode(t)
  {
    if s == "" {
      assert Encode(s) + t == t && s + Decode(t) == Decode(t);
    } else {
      DecodeAfterEncode(s[1..], t);
      Regroup(EncodeByte(s[0]), Encode(s[1..]), t);
      ByteDecodes(s[0], Encode(s[1..]) + t);
      Regroup([s[0]], s[1..], Decode(t));
      assert [s[0]] + s[1..] == s;
    }
  }

  lemma JoinHead(items: seq<string>)
    requires |items| > 1
    ensures Join(items, "/") == items[0] + ("/" + Join(items[1..], "/"))
  {
  }

  lemma PieceDecodes(s: Octets, rest: string)
    ensures Decode(Encode(s) + ("/" + rest)) == s + ("/" + Decode(rest))
  {
    DecodeAfterEncode(s, "/" + rest);
    assert ("/" + rest)[1..] == rest;
  }

  lemma {:induction false} PiecesDecode(p: Octets, i: nat)
    requires i < |Split(p, '/')|
    ensures Decode(Join(EncodedPieces(p)[i..], "/")) == Join(Split(p, '/')[i..], "/")
    decreases |Split(p, '/')| - i
  {
    var parts, encoded := Split(p, '/')[i..], EncodedPieces(p)[i..];
    assert parts[0] == Piece(p, i) && encoded[0] == Encode(Piece(p, i));
    if |parts| == 1 {
      DecodeUndoesEncode(Piece(p, i));
    } else {
      PiecesDecode(p, i + 1);
      assert parts[1..] == Split(p, '/')[i + 1..] && encoded[1..] == EncodedPieces(p)[i + 1..];
      JoinHead(parts);
      JoinHead(encoded);
      PieceDecodes(Piece(p, i), Join(encoded[1..], "/"));
    }
  }

  /** The canonical path decodes to the path, the empty one to the root, and its slashes are the path's. */
  lemma CanonicalPathDecodes(p: Octets)
    ensures Decode(CanonicalPathOf(p)) == if p == "" then "/" else p
    ensures p != "" ==> |Split(CanonicalPathOf(p), '/')| == |Split(p, '/')|
  {
    if p != "" {
      PiecesDecode(p, 0);
      assert EncodedPieces(p)[0..] == EncodedPieces(p) && Split(p, '/')[0..] == Split(p, '/');
      JoinUndoesSplit(p, '/');
      PathSplitsBack(p);
    }
  }

  // --- header values ---------------------------------------------------------------------------

  predicate Blank(c: char) {
    c == ' ' || c == '\t'
  }

  function Collapse(s: string, inSpace: bool): string {
    if s == "" then ""
    else if Blank(s[0]) then (if inSpace then "" else " ") + Collapse(s[1..], true)
    else [s[0]] + Collapse(s[1..], false)
  }

  predicate CollapsedSoFar(b: string, rest: string, inSpace: bool, t: string) {
    b + Collapse(rest, inSpace) == Collapse(t, false)
  }

  lemma NextChar(b: string, rest: string, inSpace: bool, t: string)
    requires rest != "" && CollapsedSoFar(b, rest, inSpace, t)
    ensures var out := if Blank(rest[0]) then (if inSpace then b else b + " ") else b + [rest[0]];
            CollapsedSoFar(out, rest[1..], Blank(rest[0]), t)
  {
    var more := Collapse(rest[1..], Blank(rest[0]));
    if !Blank(rest[0]) {
      assert b + ([rest[0]] + more) == (b + [rest[0]]) + more;
    } else if !inSpace {
      assert b + (" " + more) == (b + " ") + more;
    } else {
      assert "" + more == more;
    }
  }

  method CollapseWS(s: string) returns (b: string)
    ensures b == Collapse(Trim(GoSpace, s), false)
  {
    var t := Trim(GoSpace, s);
    var inSpace, i := false, 0;
    b := "";
    assert t[0..] == t && CollapsedSoFar("", t, false, t);
    while i < |t|
      invariant i <= |t| && CollapsedSoFar(b, t[i..], inSpace, t)
    {
      NextChar(b, t[i..], inSpace, t);
      assert t[i..][1..] == t[i + 1..];
      if Blank(t[i]) {
        if !inSpace {
          b := b + " ";
          inSpace := true;
        }
      } else {
        b := b + [t[i]];
        inSpace := false;
      }
      i := i + 1;
    }
  }

  lemma {:induction false} CollapseWord(s: string, n: nat, inSpace: bool)
    requires n <= |s| && forall i :: 0 <= i < n ==> !Blank(s[i])
    requires n > 0 || !inSpace
    ensures Collapse(s, inSpace) == s[..n] + Collapse(s[n..], false)
  {
    if n == 0 {
      assert s[..0] + Collapse(s[0..], false) == Collapse(s, false);
    } else {
      var tail := s[1..];
      CollapseWord(tail, n - 1, false);
      assert tail[n - 1..] == s[n..] && s[..n] == [s[0]] + tail[..n - 1];
      Regroup([s[0]], tail[..n - 1], Collapse(s[n..], false));
    }
  }

  lemma {:induction false} CollapseIsWords(s: string, inSpace: bool)
    requires s != "" && !Blank(Last(s))
    ensures Collapse(s, inSpace) == (if Blank(s[0]) && !inSpace then " " else "") + Join(Fields(Blank, s), " ")
    decreases |s|
  {
    if Blank(s[0]) {
      CollapseIsWords(s[1..], true);
    } else {
      var n := WordLength(Blank, s);
      CollapseWord(s, n, inSpace);
      if n < |s| {
        CollapseIsWords(s[n..], false);
        SomeWord(s[n..]);
        JoinFirstWord(s[..n], Fields(Blank, s[n..]));
      } else {
        assert s[n..] == "" && s[..n] == s;
      }
    }
  }

  lemma JoinFirstWord(word: string, rest: seq<string>)
    requires rest != []
    ensures Join([word] + rest, " ") == word + (" " + Join(rest, " "))
  {
    assert ([word] + rest)[1..] == rest;
  }

  lemma {:induction false} SomeWord(s: string)
    requires s != "" && !Blank(Last(s))
    ensures Fields(Blank, s) != []
  {
    if Blank(s[0]) {
      SomeWord(s[1..]);
    }
  }

  lemma {:induction false} FieldsAreWords(s: string)
    ensures forall i :: 0 <= i < |Fields(Blank, s)| ==> Word(Blank, Fields(Blank, s)[i])
    decreases |s|
  {
    if s != "" {
      if Blank(s[0]) {
        FieldsAreWords(s[1..]);
      } else {
        FieldsAreWords(s[WordLength(Blank, s)..]);
      }
    }
  }

  // What is left without spaces and tabs.
  function Solid(s: string): string {
    if s == "" then "" else (if s[0] == ' ' || s[0] == '\t' then "" else [s[0]]) + Solid(s[1..])
  }

  lemma SolidStep(c: char, rest: string)
    ensures Solid([c] + rest) == (if c == ' ' || c == '\t' then "" else [c]) + Solid(rest)
  {
    assert ([c] + rest)[1..] == rest;
  }

  // No tab, and no space after the given start or after another space.
  predicate SingleSpaced(s: string, inSpace: bool) {
    s == "" || (s[0] != '\t' && !(inSpace && s[0] == ' ') && SingleSpaced(s[1..], s[0] == ' '))
  }

  lemma {:induction false} CollapseIsExact(s: string, inSpace: bool)
    ensures Solid(Collapse(s, inSpace)) == Solid(s) && SingleSpaced(Collapse(s, inSpace), inSpace)
  {
    if s != "" {
      var rest := Collapse(s[1..], Blank(s[0]));
      CollapseIsExact(s[1..], Blank(s[0]));
      if !Blank(s[0]) {
        SolidStep(s[0], rest);
        assert ([s[0]] + rest)[1..] == rest;
      } else if !inSpace {
        SolidStep(' ', rest);
        assert (" " + rest)[1..] == rest;
      } else {
        assert "" + rest == rest;
      }
    }
  }

  /** Only blanks and tabs are touched: the other characters stay as they are in their order, no tab is left, and no two
      spaces stand together. */
  lemma HeaderValueKeepsTheRest(s: string)
    ensures Solid(HeaderValue(s)) == Solid(Trim(GoSpace, s)) && SingleSpaced(HeaderValue(s), false)
  {
    CollapseIsExact(Trim(GoSpace, s), false);
  }

  function HeaderValue(s: string): string {
    Collapse(Trim(GoSpace, s), false)
  }

  function Words(s: string): seq<string> {
    Fields(Blank, Trim(GoSpace, s))
  }

  /** A collapsed value is the words of the trimmed text with single spaces between them. */
  lemma HeaderValueIsWords(s: string)
    ensures HeaderValue(s) == Join(Words(s), " ")
    ensures HeaderValue(s) == "" <==> Words(s) == []
    ensures Words(s) != [] ==> Split(HeaderValue(s), ' ') == Words(s)
  {
    var t := Trim(GoSpace, s);
    FieldsAreWords(t);
    if t != "" {
      CollapseIsWords(t, false);
      assert "" + Join(Words(s), " ") == Join(Words(s), " ");
      SomeWord(t);
      SplitUndoesJoin(Words(s), ' ');
      assert Words(s)[0] != "" && Split("", ' ') == [""];
    }
  }

  /** Two header values collapse to the same text exactly when, trimmed, they have the same words between blanks. */
  lemma HeaderValueIsExact(s: string, s': string)
    ensures HeaderValue(s) == HeaderValue(s') <==> Words(s) == Words(s')
  {
    HeaderValueIsWords(s);
    HeaderValueIsWords(s');
  }
}
