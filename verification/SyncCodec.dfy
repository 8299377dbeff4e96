/** A codec that meets the laws PeerSync and Convergence ask of encoding/json. */
module SyncCodec {
  import opened Wrappers
  import opened SelfDelimiting
  import opened PeerSync

  function WriteInt(n: int): Bytes {
    if n < 0 then "-" + Unary(-n) else "+" + Unary(n)
  }

  function ReadInt(s: Bytes): int {
    if s == "" then 0 else var n: int := ReadUnary(s[1..]).0; if s[0] == '-' then -n else n
  }

  lemma IntRoundTrip(n: int)
    ensures ReadInt(WriteInt(n)) == n
  {
    var u := Unary(if n < 0 then -n else n);
    assert WriteInt(n)[1..] == u && u + "" == u;
    UnaryRoundTrip(if n < 0 then -n else n, "");
  }

  // A map as the list of its keys and values, in some order.
  ghost function Entries(m: map<Bytes, int>): seq<Bytes> {
    if m == map[] then [] else var k :| k in m; [k, WriteInt(m[k])] + Entries(m - {k})
  }

  function FromEntries(items: seq<Bytes>): map<Bytes, int> {
    if |items| < 2 then map[] else FromEntries(items[2..])[items[0] := ReadInt(items[1])]
  }

  lemma {:induction false} EntriesRoundTrip(m: map<Bytes, int>)
    ensures FromEntries(Entries(m)) == m
  {
    if m != map[] {
      var items := Entries(m);
      var k := items[0];
      IntRoundTrip(m[k]);
      EntriesRoundTrip(m - {k});
      assert items[2..] == Entries(m - {k});
    }
  }

  ghost function Toy(validText: Bytes -> bool): Codec {
    Codec(validText,
          ds => "[" + WriteList(ds), s => if s == "" then [] else ReadList(s[1..]),
          m => "{" + WriteList(Entries(m)), s => if s == "" then map[] else FromEntries(ReadList(s[1..])))
  }

  lemma ToyLists(validText: Bytes -> bool, ds: seq<Bytes>)
    ensures var c := Toy(validText); c.marshalList(ds) != "" && c.unmarshalList(c.marshalList(ds)) == ds
  {
    ListRoundTrip(ds);
    assert ("[" + WriteList(ds))[1..] == WriteList(ds);
  }

  lemma ToyMaps(validText: Bytes -> bool, m: map<Bytes, int>)
    ensures var c := Toy(validText); c.marshalMap(m) != "" && c.unmarshalMap(c.marshalMap(m)) == m
  {
    EntriesRoundTrip(m);
    ListRoundTrip(Entries(m));
    assert ("{" + WriteList(Entries(m)))[1..] == WriteList(Entries(m));
  }

  /** Whatever text counts as valid, some codec meets the laws. */
  lemma LawfulCodecExists(validText: Bytes -> bool)
    ensures exists c: Codec :: c.validText == validText && Lawful(c)
  {
    var c := Toy(validText);
    forall ds ensures c.marshalList(ds) != "" && c.unmarshalList(c.marshalList(ds)) == ds {
      ToyLists(validText, ds);
    }
    forall m ensures c.marshalMap(m) != "" && c.unmarshalMap(c.marshalMap(m)) == m {
      ToyMaps(validText, m);
    }
    assert "[]"[1..] == "]" && "{}"[1..] == "}";
    assert Lawful(c);
  }
}
