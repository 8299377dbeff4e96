/** Byte-wise string order, as Go's < on strings, SQLite's BINARY collation and JavaScript's < on ASCII use it,
    and fixed-width decimal numerals under it. */
module Lexicographic {
  import opened Wrappers

  predicate Less(a: Bytes, b: Bytes) {
    b != [] && (a == [] || a[0] < b[0] || (a[0] == b[0] && Less(a[1..], b[1..])))
  }

  predicate ProperPrefix(a: Bytes, b: Bytes) {
    a < b
  }

  lemma {:induction false} LessIsStrict(a: Bytes, b: Bytes)
    ensures Less(a, b) ==> !Less(b, a) && a != b
    ensures Less(a, b) || a == b || Less(b, a)
  {
    if a != [] && b != [] && a[0] == b[0] {
      LessIsStrict(a[1..], b[1..]);
      assert a == [a[0]] + a[1..] && b == [b[0]] + b[1..];
    }
  }

  lemma {:induction false} LessIsTransitive(a: Bytes, b: Bytes, c: Bytes)
    requires Less(a, b) && Less(b, c)
    ensures Less(a, c)
  {
    if a != [] && a[0] == b[0] == c[0] {
      LessIsTransitive(a[1..], b[1..], c[1..]);
    }
  }

  // Equal-length heads decide first.
  lemma {:induction false} LessByHeads(a: Bytes, b: Bytes, x: Bytes, y: Bytes)
    requires |a| == |b|
    ensures Less(a + x, b + y) <==> Less(a, b) || (a == b && Less(x, y))
  {
    if a == [] {
      assert a + x == x && b + y == y;
    } else {
      assert (a + x)[1..] == a[1..] + x && (b + y)[1..] == b[1..] + y;
      assert a == [a[0]] + a[1..] && b == [b[0]] + b[1..];
      if a[0] == b[0] {
        LessByHeads(a[1..], b[1..], x, y);
      }
    }
  }

  // Where neither string is a prefix of the other, what follows them does not matter.
  lemma {:induction false} LessByDifference(a: Bytes, b: Bytes, x: Bytes, y: Bytes)
    requires !(a <= b) && !(b <= a)
    ensures Less(a + x, b + y) <==> Less(a, b)
  {
    assert (a + x)[1..] == a[1..] + x && (b + y)[1..] == b[1..] + y;
    assert (a + x)[0] == a[0] && (b + y)[0] == b[0];
    if a[0] == b[0] {
      assert a == [a[0]] + a[1..] && b == [b[0]] + b[1..];
      assert a[1..] <= b[1..] ==> a <= b;
      assert b[1..] <= a[1..] ==> b <= a;
      LessByDifference(a[1..], b[1..], x, y);
    }
  }

  lemma LessAfterPrefix(p: Bytes, x: Bytes, y: Bytes)
    ensures Less(p + x, p + y) <==> Less(x, y)
  {
    LessByHeads(p, p, x, y);
    LessIsStrict(p, p);
  }

  // --- decimal numerals ------------------------------------------------------------------------

  function DigitChar(d: nat): char
    requires d < 10
  {
    '0' + d as char
  }

  function Pow10(w: nat): (p: nat)
    ensures p > 0
  {
    if w == 0 then 1 else 10 * Pow10(w - 1)
  }

  // n in exactly w digits, leading zeros included.
  function Pad(n: nat, w: nat): (s: Bytes)
    ensures |s| == w
    ensures forall i :: 0 <= i < w ==> '0' <= s[i] <= '9'
  {
    if w == 0 then "" else Pad(n / 10, w - 1) + [DigitChar(n % 10)]
  }

  lemma {:induction false} PadOrder(n: nat, m: nat, w: nat)
    requires n < Pow10(w) && m < Pow10(w)
    ensures Less(Pad(n, w), Pad(m, w)) <==> n < m
    ensures Pad(n, w) == Pad(m, w) <==> n == m
  {
    if w > 0 {
      PadOrder(n / 10, m / 10, w - 1);
      LessByHeads(Pad(n / 10, w - 1), Pad(m / 10, w - 1), [DigitChar(n % 10)], [DigitChar(m % 10)]);
      assert Pad(n, w)[..w - 1] == Pad(n / 10, w - 1) && Pad(m, w)[..w - 1] == Pad(m / 10, w - 1);
      assert Pad(n, w)[w - 1] == DigitChar(n % 10) && Pad(m, w)[w - 1] == DigitChar(m % 10);
    }
  }
}
