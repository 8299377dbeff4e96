/** Numbers in unary with a stop, and lists of strings behind their lengths: enough of a codec to show that the laws asked of
    the real ones can be met. */
module SelfDelimiting {
  import opened Wrappers

  function Unary(n: nat): Bytes {
    if n == 0 then "." else "|" + Unary(n - 1)
  }

  // The count of leading bars and what follows them and their full stop.
  function ReadUnary(s: Bytes): (r: (nat, Bytes)) {
    if s != "" && s[0] == '|' then var (n, rest) := ReadUnary(s[1..]); (n + 1, rest)
    else (0, if s == "" then "" else s[1..])
  }

  lemma {:induction false} UnaryRoundTrip(n: nat, rest: Bytes)
    ensures ReadUnary(Unary(n) + rest) == (n, rest)
  {
    var s := Unary(n) + rest;
    if n == 0 {
      assert s[0] == '.' && s[1..] == rest;
    } else {
      assert s[0] == '|' && s[1..] == Unary(n - 1) + rest;
      UnaryRoundTrip(n - 1, rest);
    }
  }

  function Field(s: Bytes): Bytes {
    Unary(|s|) + s
  }

  // A list between brackets, a comma before each item.
  function WriteList(items: seq<Bytes>): Bytes {
    if items == [] then "]" else "," + (Field(items[0]) + WriteList(items[1..]))
  }

  function ReadList(s: Bytes): seq<Bytes>
    decreases |s|
  {
    if s == "" || s[0] != ',' then []
    else
      var (n, rest) := ReadUnary(s[1..]);
      ReadUnaryShrinks(s[1..]);
      if n > |rest| then [] else [rest[..n]] + ReadList(rest[n..])
  }

  lemma {:induction false} ReadUnaryShrinks(s: Bytes)
    ensures |ReadUnary(s).1| <= |s|
  {
    if s != "" && s[0] == '|' {
      ReadUnaryShrinks(s[1..]);
    }
  }

  lemma {:induction false} ListRoundTrip(items: seq<Bytes>)
    ensures ReadList(WriteList(items)) == items
  {
    if items != [] {
      var x, more := items[0], WriteList(items[1..]);
      ListRoundTrip(items[1..]);
      var s := WriteList(items);
      assert s[1..] == Unary(|x|) + (x + more);
      UnaryRoundTrip(|x|, x + more);
      assert (x + more)[..|x|] == x && (x + more)[|x|..] == more;
      assert items == [x] + items[1..];
    }
  }
}
