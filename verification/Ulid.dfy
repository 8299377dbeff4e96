/** Identifiers of 26 symbols packed from a millisecond clock and ten random bytes (nakli-cf-worker/src/crate-bucket.ts). */
module Ulid {
  import opened Wrappers
  import opened Lexicographic

  // --- positional numerals ---------------------------------------------------------------------

  // The symbols of a base and their values.
  datatype Base = Base(size: nat, symbol: nat -> char, value: char -> nat)
  {
    ghost predicate Lawful() {
      && size > 1
      && (forall d :: 0 <= d < size ==> value(symbol(d)) == d)
      && (forall d, e :: 0 <= d < e < size ==> symbol(d) < symbol(e))
    }

    predicate IsSymbol(c: char) { value(c) < size && symbol(value(c)) == c }

    predicate Numeral(s: Bytes) { forall i :: 0 <= i < |s| ==> IsSymbol(s[i]) }

    function ValueOf(s: Bytes): nat {
      if s == "" then 0 else size * ValueOf(DropLast(s)) + value(Last(s))
    }
  }

  function Power(size: nat, k: nat): nat {
    if k == 0 then 1 else size * Power(size, k - 1)
  }

  lemma TopDigitDecides(size: nat, x: int, d: nat, y: int, e: nat)
    requires d < size && x < y
    ensures size * x + d < size * y + e
  {
    var k: nat := y - x;
    assert size * y == size * x + size * k;
    assert size * k == size + size * (k - 1);
  }

  lemma ByTopDigits(size: nat, x: nat, d: nat, y: nat, e: nat)
    requires d < size && e < size
    ensures size * x + d < size * y + e <==> x < y || (x == y && d < e)
    ensures size * x + d == size * y + e <==> x == y && d == e
  {
    if x < y {
      TopDigitDecides(size, x, d, y, e);
    } else if y < x {
      TopDigitDecides(size, y, e, x, d);
    }
  }

  lemma SymbolOrder(b: Base, c: char, d: char)
    requires b.Lawful() && b.IsSymbol(c) && b.IsSymbol(d)
    ensures c < d <==> b.value(c) < b.value(d)
    ensures c == d <==> b.value(c) == b.value(d)
  {
  }

  // Among numerals of one width the text order is the numeric order.
  lemma {:induction false} NumeralOrder(b: Base, s: Bytes, t: Bytes)
    requires b.Lawful() && b.Numeral(s) && b.Numeral(t) && |s| == |t|
    ensures Less(s, t) <==> b.ValueOf(s) < b.ValueOf(t)
    ensures s == t <==> b.ValueOf(s) == b.ValueOf(t)
  {
    if s != "" {
      var x, y := DropLast(s), DropLast(t);
      NumeralOrder(b, x, y);
      SymbolOrder(b, Last(s), Last(t));
      assert s == x + [Last(s)] && t == y + [Last(t)];
      LessByHeads(x, y, [Last(s)], [Last(t)]);
      ByTopDigits(b.size, b.ValueOf(x), b.value(Last(s)), b.ValueOf(y), b.value(Last(t)));
    }
  }

  // --- bytes and symbols -----------------------------------------------------------------------

  function ByteChar(d: nat): char {
    if d < 256 then d as char else '\0'
  }

  function Octet(): Base {
    Base(256, ByteChar, (c: char) => c as nat)
  }

  const ALPHABET := "0123456789ABCDEFGHJKMNPQRSTVWXYZ"

  function Symbol(d: nat): char {
    if d < 10 then '0' + d as char
    else if d < 18 then 'A' + (d - 10) as char
    else if d < 20 then 'J' + (d - 18) as char
    else if d < 22 then 'M' + (d - 20) as char
    else if d < 27 then 'P' + (d - 22) as char
    else if d < 32 then 'V' + (d - 27) as char
    else '?'
  }

  function SymbolValue(c: char): nat {
    if '0' <= c <= '9' then (c - '0') as nat
    else if 'A' <= c <= 'H' then (c - 'A') as nat + 10
    else if 'J' <= c <= 'K' then (c - 'J') as nat + 18
    else if 'M' <= c <= 'N' then (c - 'M') as nat + 20
    else if 'P' <= c <= 'T' then (c - 'P') as nat + 22
    else if 'V' <= c <= 'Z' then (c - 'V') as nat + 27
    else 32
  }

  function Base32(): Base {
    Base(32, Symbol, SymbolValue)
  }

  lemma OctetIsLawful()
    ensures Octet().Lawful()
  {
  }

  lemma SymbolsAscend(d: nat, e: nat)
    requires d < e < 32
    ensures Symbol(d) < Symbol(e)
  {
  }

  lemma SymbolNames(d: nat)
    requires d < 32
    ensures SymbolValue(Symbol(d)) == d
  {
  }

  lemma Base32IsLawful()
    ensures Base32().Lawful()
  {
    forall d | 0 <= d < 32 ensures SymbolValue(Symbol(d)) == d {
      SymbolNames(d);
    }
    forall d, e | 0 <= d < e < 32 ensures Symbol(d) < Symbol(e) {
      SymbolsAscend(d, e);
    }
  }

  lemma AlphabetSymbols(d: nat)
    requires d < 32
    ensures |ALPHABET| == 32 && ALPHABET[d] == Symbol(d)
  {
  }

  predicate IsOctets(s: Bytes) {
    forall i :: 0 <= i < |s| ==> s[i] < '\U{0100}'
  }

  // The low bytes of a number, most significant first.
  function BytesOf(n: nat, width: nat): (s: Bytes)
    ensures |s| == width && IsOctets(s)
  {
    if width == 0 then "" else BytesOf(n / 256, width - 1) + [(n % 256) as char]
  }

  function ByteValue(s: Bytes): nat {
    Octet().ValueOf(s)
  }

  lemma {:induction false} BytesOfValue(s: Bytes)
    requires IsOctets(s)
    ensures BytesOf(ByteValue(s), |s|) == s
  {
    if s != "" {
      BytesOfValue(DropLast(s));
      assert s == DropLast(s) + [Last(s)];
    }
  }

  lemma {:induction false} ValueOfBytes(n: nat, width: nat)
    requires n < Power(256, width)
    ensures ByteValue(BytesOf(n, width)) == n
  {
    if width > 0 {
      ValueOfBytes(n / 256, width - 1);
      var front := BytesOf(n / 256, width - 1);
      assert DropLast(front + [(n % 256) as char]) == front;
    }
  }

  lemma OctetsAreNumerals(s: Bytes)
    ensures IsOctets(s) <==> Octet().Numeral(s)
  {
  }

  // --- packing ---------------------------------------------------------------------------------

  // The time bytes, filled from the last one down.
  method TimeBytes(now: nat) returns (bytes: array<char>)
    ensures fresh(bytes) && bytes.Length == 6 && bytes[..] == BytesOf(now, 6)
  {
    bytes := new char[6](_ => '\0');
    var ts, i := now, 5;
    while i >= 0
      invariant -1 <= i <= 5
      invariant BytesOf(ts, i + 1) + bytes[i + 1..] == BytesOf(now, 6)
    {
      bytes[i] := (ts % 256) as char;
      ts := ts / 256;
      i := i - 1;
    }
  }

  // JavaScript's conversion to a signed 32-bit integer.
  function Int32(n: int): int {
    (n + 0x8000_0000) % 0x1_0000_0000 - 0x8000_0000
  }

  function Pow2(k: nat): (p: nat)
    ensures p > 0
  {
    if k == 0 then 1 else 2 * Pow2(k - 1)
  }

  // (acc << 8) | b
  function ShiftIn(acc: int, b: nat): int {
    Int32(acc * 256) + b
  }

  // The accumulator and the number packed so far differ by a multiple of 2^32.
  ghost predicate SameLow32(acc: int, n: int) {
    exists q: int :: Shifted(acc, n, q)
  }

  predicate Shifted(acc: int, n: int, q: int) {
    n - acc == 0x1_0000_0000 * q
  }

  lemma Int32Shifts(n: int)
    ensures Shifted(Int32(n), n, (n + 0x8000_0000) / 0x1_0000_0000)
  {
  }

  lemma ShiftKeepsLow(acc: int, n: nat, b: nat)
    requires SameLow32(acc, n) && b < 256
    ensures SameLow32(ShiftIn(acc, b), n * 256 + b)
  {
    var q :| Shifted(acc, n, q);
    Int32Shifts(acc * 256);
    assert Shifted(ShiftIn(acc, b), n * 256 + b, 256 * q + (acc * 256 + 0x8000_0000) / 0x1_0000_0000);
  }

  lemma Spread(p: nat, a: int, b: int)
    ensures p * (a + b) == p * a + p * b
  {
  }

  lemma QuotientIs(x: int, p: nat, b: int, e: nat)
    requires e < p && x == p * b + e
    ensures x / p == b
  {
    var a, d: nat := x / p, x % p;
    assert x == p * a + d;
    if a < b {
      TopDigitDecides(p, a, d, b, e);
    } else if b < a {
      TopDigitDecides(p, b, e, a, d);
    }
  }

  lemma QuotientShift(r: int, p: nat, k: int)
    requires p > 0
    ensures (r + p * k) / p == r / p + k
  {
    Spread(p, r / p, k);
    QuotientIs(r + p * k, p, r / p + k, r % p);
  }

  lemma SymbolOfShifted(n: int, r: int, p: nat, q: int)
    requires 0 < p && n - r == p * (32 * q)
    ensures n / p % 32 == r / p % 32
  {
    QuotientShift(r, p, 32 * q);
  }

  lemma ShiftOutKeepsSymbol(acc: int, n: nat, k: nat)
    requires SameLow32(acc, n) && k <= 7
    ensures acc / Pow2(k) % 32 == n / Pow2(k) % 32
  {
    var q :| Shifted(acc, n, q);
    assert Pow2(4) == 16;
    if k <= 3 {
      SymbolOfShifted(n, acc, Pow2(k), (if k == 0 then 0x800_0000 else if k == 1 then 0x400_0000 else if k == 2 then 0x200_0000 else 0x100_0000) * q);
    } else {
      SymbolOfShifted(n, acc, Pow2(k), (if k == 4 then 0x80_0000 else if k == 5 then 0x40_0000 else if k == 6 then 0x20_0000 else 0x10_0000) * q);
    }
  }

  lemma AddByte(n: nat, b: nat, p: nat)
    requires p > 0 && b < 256
    ensures (n * 256 + b) / (256 * p) == n / p
  {
    var q, e := n / p, n % p;
    assert n == p * q + e;
    assert 256 * (p * q) == (256 * p) * q;
    QuotientIs(n * 256 + b, 256 * p, q, 256 * e + b);
  }

  lemma SplitSymbol(n: nat, p: nat)
    requires p > 0
    ensures n / p == 32 * (n / (32 * p)) + n / p % 32
  {
    var x, e := n / p, n % p;
    var y, d := x / 32, x % 32;
    assert n == p * x + e;
    Spread(p, 32 * y, d);
    assert p * (32 * y) == (32 * p) * y;
    AtMost(p, d);
    QuotientIs(n, 32 * p, y, p * d + e);
  }

  lemma AtMost(p: nat, d: nat)
    requires d <= 31
    ensures p * d <= 31 * p
  {
  }

  // The symbols written name the number read so far, less its last accBits bits, which are still in acc.
  ghost predicate Packed(s: Bytes, acc: int, accBits: nat, n: nat) {
    Base32().Numeral(s) && Base32().ValueOf(s) == n / Pow2(accBits) && SameLow32(acc, n)
  }

  lemma FourMoreBits(k: nat)
    ensures Pow2(k + 4) == 16 * Pow2(k)
  {
    assert Pow2(k + 2) == 2 * Pow2(k + 1) && Pow2(k + 4) == 2 * Pow2(k + 3);
  }

  lemma PackByte(s: Bytes, acc: int, accBits: nat, n: nat, b: nat)
    requires Packed(s, acc, accBits, n) && b < 256
    ensures Packed(s, ShiftIn(acc, b), accBits + 8, n * 256 + b)
  {
    ShiftKeepsLow(acc, n, b);
    FourMoreBits(accBits);
    FourMoreBits(accBits + 4);
    AddByte(n, b, Pow2(accBits));
  }

  lemma Emit(s: Bytes, d: nat)
    requires Base32().Numeral(s) && d < 32
    ensures Base32().Numeral(s + [Symbol(d)]) && Base32().ValueOf(s + [Symbol(d)]) == 32 * Base32().ValueOf(s) + d
  {
    Base32IsLawful();
    assert DropLast(s + [Symbol(d)]) == s;
  }

  lemma PackSymbol(s: Bytes, acc: int, accBits: nat, n: nat)
    requires Packed(s, acc, accBits, n) && 5 <= accBits <= 12
    ensures Packed(s + [Symbol(acc / Pow2(accBits - 5) % 32)], acc, accBits - 5, n)
  {
    var p, d := Pow2(accBits - 5), acc / Pow2(accBits - 5) % 32;
    FourMoreBits(accBits - 5);
    ShiftOutKeepsSymbol(acc, n, accBits - 5);
    SplitSymbol(n, p);
    Emit(s, d);
  }

  lemma PadBits(acc: int, n: nat, q: int)
    requires Shifted(acc, n, q)
    ensures Int32(acc * 4) % 32 == 4 * n % 32
  {
    Int32Shifts(acc * 4);
    var k := 4 * q + (acc * 4 + 0x8000_0000) / 0x1_0000_0000;
    assert 4 * n - Int32(acc * 4) == 32 * (0x800_0000 * k);
  }

  lemma LastSymbol(s: Bytes, acc: int, n: nat)
    requires Packed(s, acc, 3, n)
    ensures var t := s + [Symbol(Int32(acc * 4) % 32)]; Base32().Numeral(t) && Base32().ValueOf(t) == 4 * n
  {
    var q :| Shifted(acc, n, q);
    PadBits(acc, n, q);
    assert Pow2(3) == 8;
    assert 32 * (n / 8) + 4 * n % 32 == 4 * n;
    Emit(s, 4 * n % 32);
  }

  lemma NextValue(s: Bytes, i: nat)
    requires i < |s| && IsOctets(s)
    ensures ByteValue(s[..i + 1]) == ByteValue(s[..i]) * 256 + s[i] as nat
  {
    assert DropLast(s[..i + 1]) == s[..i];
  }

  function AlphabetAt(d: nat): (c: char)
    requires d < 32
    ensures c == Symbol(d)
  {
    AlphabetSymbols(d);
    ALPHABET[d]
  }

  // The inner loop: writes symbols while five bits are left.
  method WriteSymbols(before: Bytes, acc: int, bits: nat, ghost n: nat) returns (s: Bytes, accBits: nat)
    requires bits <= 12 && Packed(before, acc, bits, n)
    ensures accBits < 5 && 5 * |s| + accBits == 5 * |before| + bits && Packed(s, acc, accBits, n)
  {
    s, accBits := before, bits;
    while accBits >= 5
      invariant accBits <= 12 && 5 * |s| + accBits == 5 * |before| + bits && Packed(s, acc, accBits, n)
    {
      PackSymbol(s, acc, accBits, n);
      accBits := accBits - 5;
      s := s + [AlphabetAt(acc / Pow2(accBits) % 32)];
    }
  }

  lemma PackNext(s: Bytes, acc: int, accBits: nat, all: Bytes, i: nat)
    requires IsOctets(all) && i < |all| && Packed(s, acc, accBits, ByteValue(all[..i]))
    ensures Packed(s, ShiftIn(acc, all[i] as nat), accBits + 8, ByteValue(all[..i + 1]))
  {
    NextValue(all, i);
    PackByte(s, acc, accBits, ByteValue(all[..i]), all[i] as nat);
  }

  lemma PackNothing(all: Bytes)
    ensures Packed("", 0, 0, ByteValue(all[..0]))
  {
    assert Shifted(0, 0, 0) && Pow2(0) == 1;
  }

  // The outer loop.
  method PackBytes(all: Bytes) returns (s: Bytes, acc: int, accBits: nat)
    requires IsOctets(all)
    ensures accBits < 5 && 5 * |s| + accBits == 8 * |all| && Packed(s, acc, accBits, ByteValue(all))
  {
    s, acc, accBits := "", 0, 0;
    PackNothing(all);
    var i := 0;
    while i < |all|
      invariant i <= |all| && accBits < 5 && 5 * |s| + accBits == 8 * i
      invariant Packed(s, acc, accBits, ByteValue(all[..i]))
    {
      PackNext(s, acc, accBits, all, i);
      acc := ShiftIn(acc, all[i] as nat);
      s, accBits := WriteSymbols(s, acc, accBits + 8, ByteValue(all[..i + 1]));
      i := i + 1;
    }
    assert all[..i] == all;
  }

  lemma FinalSymbol(s: Bytes, acc: int, all: Bytes)
    requires |s| == 25 && Packed(s, acc, 3, ByteValue(all))
    ensures Pow2(5 - 3) == 4
    ensures var t := s + [Symbol(Int32(acc * 4) % 32)]; IsUlidOf(t, all) && t[..26] == t
  {
    LastSymbol(s, acc, ByteValue(all));
  }

  /** 26 symbols whose value is four times that of the sixteen bytes: the two pad bits are the last ones. */
  method Pack(all: Bytes) returns (s: Bytes)
    requires |all| == 16 && IsOctets(all)
    ensures IsUlidOf(s, all)
  {
    var acc, accBits;
    s, acc, accBits := PackBytes(all);
    assert accBits == 3;
    FinalSymbol(s, acc, all);
    if accBits > 0 {
      s := s + [AlphabetAt(Int32(acc * Pow2(5 - accBits)) % 32)];
    }
    return s[..26];
  }

  // The bytes of an identifier made at a time from ten random bytes.
  function UlidBytes(now: nat, random: Bytes): Bytes {
    BytesOf(now, 6) + random
  }

  // A text is the identifier of sixteen bytes.
  predicate IsUlidOf(s: Bytes, all: Bytes) {
    Base32().Numeral(s) && |s| == 26 && Base32().ValueOf(s) == 4 * ByteValue(all)
  }

  method GenerateUlid(now: nat, random: Bytes) returns (s: Bytes)
    requires |random| == 10 && IsOctets(random)
    ensures IsUlidOf(s, UlidBytes(now, random))
  {
    var timeBytes := TimeBytes(now);
    var all := timeBytes[..] + random;
    s := Pack(all);
  }

  // --- reading back ----------------------------------------------------------------------------

  function UnpackedBytes(s: Bytes): Bytes {
    BytesOf(Base32().ValueOf(s) / 4, 16)
  }

  /** The identifier gives its sixteen bytes back. */
  lemma UnpackUndoesPack(s: Bytes, all: Bytes)
    requires |all| == 16 && IsOctets(all) && IsUlidOf(s, all)
    ensures UnpackedBytes(s) == all
  {
    BytesOfValue(all);
  }

  /** The text order of identifiers is the byte order of what they pack, and equal texts pack equal bytes. */
  lemma TextOrderIsByteOrder(s: Bytes, all: Bytes, s': Bytes, all': Bytes)
    requires |all| == |all'| == 16 && IsOctets(all) && IsOctets(all') && IsUlidOf(s, all) && IsUlidOf(s', all')
    ensures Less(s, s') <==> Less(all, all')
    ensures s == s' <==> all == all'
  {
    OctetIsLawful();
    Base32IsLawful();
    OctetsAreNumerals(all);
    OctetsAreNumerals(all');
    NumeralOrder(Base32(), s, s');
    NumeralOrder(Octet(), all, all');
  }

  /** Identifiers sort by their millisecond, whatever the random bytes, below 2^48. */
  lemma LaterSortsLater(s: Bytes, now: nat, random: Bytes, s': Bytes, now': nat, random': Bytes)
    requires |random| == |random'| == 10 && IsOctets(random) && IsOctets(random')
    requires IsUlidOf(s, UlidBytes(now, random)) && IsUlidOf(s', UlidBytes(now', random'))
    requires now < now' < 0x1_0000_0000_0000
    ensures Less(s, s')
  {
    var a, b := BytesOf(now, 6), BytesOf(now', 6);
    assert Power(256, 6) == 0x1_0000_0000_0000;
    ValueOfBytes(now, 6);
    ValueOfBytes(now', 6);
    OctetIsLawful();
    OctetsAreNumerals(a);
    OctetsAreNumerals(b);
    NumeralOrder(Octet(), a, b);
    LessByHeads(a, b, random, random');
    TextOrderIsByteOrder(s, a + random, s', b + random');
  }

  /** The symbols: ten digits and the capital letters without I, L, O and U, in ascending order. */
  lemma AlphabetIsExact(d: nat, e: nat)
    requires d < 32 && e < 32
    ensures var c := ALPHABET[d]; '0' <= c <= '9' || ('A' <= c <= 'Z' && c !in ['I', 'L', 'O', 'U'])
    ensures ALPHABET[d] < ALPHABET[e] <==> d < e
  {
    AlphabetSymbols(d);
    AlphabetSymbols(e);
    if d < e {
      SymbolsAscend(d, e);
    } else if e < d {
      SymbolsAscend(e, d);
    }
  }

  /** The time bytes name the millisecond clock modulo 2^48, most significant byte first, and the random ones follow as they
      are. */
  lemma UlidBytesAreExact(now: nat, random: Bytes)
    requires now < 0x1_0000_0000_0000 && |random| == 10
    ensures var b := UlidBytes(now, random);
            && |b| == 16 && b[6..] == random
            && now == ((((b[0] as nat * 256 + b[1] as nat) * 256 + b[2] as nat) * 256 + b[3] as nat) * 256 + b[4] as nat) * 256 + b[5] as nat
  {
    var t := BytesOf(now, 6);
    assert Power(256, 6) == 0x1_0000_0000_0000;
    ValueOfBytes(now, 6);
    SixDigits(t);
    assert UlidBytes(now, random)[..6] == t;
  }

  lemma SixDigits(t: Bytes)
    requires |t| == 6
    ensures ByteValue(t) == ((((t[0] as nat * 256 + t[1] as nat) * 256 + t[2] as nat) * 256 + t[3] as nat) * 256 + t[4] as nat) * 256 + t[5] as nat
  {
    NextDigit(t, 0);
    NextDigit(t, 1);
    NextDigit(t, 2);
    NextDigit(t, 3);
    NextDigit(t, 4);
    NextDigit(t, 5);
    assert t[..6] == t;
  }

  lemma NextDigit(t: Bytes, i: nat)
    requires i < |t|
    ensures ByteValue(t[..i + 1]) == ByteValue(t[..i]) * 256 + t[i] as nat
  {
    assert DropLast(t[..i + 1]) == t[..i];
  }
}
