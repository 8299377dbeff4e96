/** The encrypted identity file: parse, unlock, serialize and lock (fabric-sdk-go/identity/fif.go; the same wire format in
    fabric-sdk-js/src/identity/fif.js). */
module Fif {
  import opened Wrappers
  import opened SelfDelimiting

  type Uint32 = n: nat | n < 0x1_0000_0000
  type Uint8 = n: nat | n < 0x100

  datatype Params = Params(memory: Uint32, time: Uint32, threads: Uint8)

  datatype Header = Header(format: string, envelopeType: string, kdf: string, params: Params, salt: Bytes, nonce: Bytes)

  // The decrypted body: its format string and the rest.
  datatype Inner = Inner(format: string, content: Bytes)

  datatype Error = FormatError | EnvelopeUnsupported | AuthError | IdentityLocked

  const FORMAT := "fif/1.0"
  const INNER_FORMAT := "fif-inner/1.0"
  const PASSPHRASE_ONLY := "passphrase-only"

  const KEY_SIZE: nat := 32
  const SALT_SIZE: nat := 16
  const NONCE_SIZE: nat := 24
  const TAG_SIZE: nat := 16
  const MAX_HEADER: nat := 0x10_0000

  predicate Reserved(envelopeType: string) {
    envelopeType == "shamir-shares" || envelopeType == "device-quorum" || envelopeType == "social-recovery"
  }

  // Key derivation, authenticated encryption and the JSON forms of header and inner body.
  datatype Library = Library(
    derive: (string, Bytes, Params) -> Bytes,
    seal: (Bytes, Bytes, Bytes, Bytes) -> Bytes,
    open: (Bytes, Bytes, Bytes, Bytes) -> Option<Bytes>,
    encodeHeader: Header -> Bytes,
    decodeHeader: Bytes -> Option<Header>,
    encodeInner: Inner -> Bytes,
    decodeInner: Bytes -> Option<Inner>)
  {
    ghost predicate Lawful() {
      && (forall p, salt, params :: |derive(p, salt, params)| == KEY_SIZE)
      && (forall key, nonce, plain, aad :: |key| == KEY_SIZE && |nonce| == NONCE_SIZE ==> Opens(key, nonce, plain, aad))
      && (forall key, nonce, cipher, aad :: |cipher| < TAG_SIZE ==> open(key, nonce, cipher, aad) == None)
      && (forall h: Header :: Acceptable(h) ==> HeaderReads(h))
      && (forall i: Inner :: decodeInner(encodeInner(i)) == Some(i))
    }

    // open undoes seal under the same key, nonce and associated data.
    predicate Opens(key: Bytes, nonce: Bytes, plain: Bytes, aad: Bytes) {
      open(key, nonce, seal(key, nonce, plain, aad), aad) == Some(plain) && |seal(key, nonce, plain, aad)| >= TAG_SIZE
    }

    predicate HeaderReads(h: Header) {
      decodeHeader(encodeHeader(h)) == Some(h) && 0 < |encodeHeader(h)| <= MAX_HEADER
    }
  }

  predicate Acceptable(h: Header) {
    h.format == FORMAT && h.envelopeType == PASSPHRASE_ONLY && h.kdf == "argon2id" && |h.salt| == SALT_SIZE && |h.nonce| == NONCE_SIZE
  }

  // --- the wire --------------------------------------------------------------------------------

  function BigEndian(n: nat): (s: Bytes)
    ensures |s| == 4
  {
    [(n / 0x100_0000 % 256) as char, (n / 0x1_0000 % 256) as char, (n / 256 % 256) as char, (n % 256) as char]
  }

  function ReadLength(s: Bytes): nat
    requires |s| >= 4
  {
    ((s[0] as nat * 256 + s[1] as nat) * 256 + s[2] as nat) * 256 + s[3] as nat
  }

  lemma LengthRoundTrip(n: nat, rest: Bytes)
    requires n <= MAX_HEADER
    ensures ReadLength(BigEndian(n) + rest) == n
  {
  }

  lemma Nested(n: nat)
    ensures n / 0x1_0000 == n / 256 / 256 && n / 0x100_0000 == n / 256 / 256 / 256
  {
  }

  lemma LowByte(q: nat, d: nat)
    requires d < 256
    ensures (q * 256 + d) / 256 == q && (q * 256 + d) % 256 == d
  {
  }

  // Reading four bytes as a length and writing it gives the bytes back.
  lemma LengthIsItsBytes(s: Bytes)
    requires |s| >= 4 && forall i :: 0 <= i < 4 ==> s[i] < '\U{0100}'
    ensures BigEndian(ReadLength(s)) == s[..4]
  {
    var a, b, c, d := s[0] as nat, s[1] as nat, s[2] as nat, s[3] as nat;
    Nested(ReadLength(s));
    LowByte((a * 256 + b) * 256 + c, d);
    LowByte(a * 256 + b, c);
    LowByte(a, b);
  }

  function Frame(json: Bytes): Bytes {
    BigEndian(|json|) + json
  }

  // --- the object's state ----------------------------------------------------------------------

  // The fields of a FIF. headerBytes and body are empty before the first Serialize.
  datatype State = State(header: Header, headerBytes: Bytes, body: Bytes, key: Option<Bytes>, inner: Option<Inner>)
  {
    predicate Unlocked() { inner.Some? && key.Some? && |key.value| == KEY_SIZE }
  }

  function New(passphrase: string, inner: Inner, salt: Bytes, nonce: Bytes, params: Params, lib: Library): State {
    State(Header(FORMAT, PASSPHRASE_ONLY, "argon2id", params, salt, nonce), "", "", Some(lib.derive(passphrase, salt, params)), Some(inner))
  }

  function HeaderError(h: Header): Option<Error> {
    if h.format != FORMAT then Some(FormatError)
    else if Reserved(h.envelopeType) then Some(EnvelopeUnsupported)
    else if h.envelopeType != PASSPHRASE_ONLY then Some(EnvelopeUnsupported)
    else if h.kdf != "argon2id" then Some(FormatError)
    else if |h.salt| != SALT_SIZE then Some(FormatError)
    else if |h.nonce| != NONCE_SIZE then Some(FormatError)
    else None
  }

  function Parse(bytes: Bytes, lib: Library): Result<State, Error> {
    if |bytes| < 4 then Err(FormatError)
    else
      var n := ReadLength(bytes);
      if n == 0 || n > MAX_HEADER || |bytes| < 4 + n || |bytes| - 4 - n < TAG_SIZE then Err(FormatError)
      else match lib.decodeHeader(bytes[4..4 + n]) {
        case None => Err(FormatError)
        case Some(h) => match HeaderError(h) {
          case Some(e) => Err(e)
          case None => Ok(State(h, BigEndian(n) + bytes[4..4 + n], bytes[4 + n..], None, None))
        }
      }
  }

  function Decrypt(s: State, passphrase: string, lib: Library): Result<Inner, Error> {
    match lib.open(lib.derive(passphrase, s.header.salt, s.header.params), s.header.nonce, s.body, s.headerBytes)
    case None => Err(AuthError)
    case Some(plain) => match lib.decodeInner(plain) {
      case None => Err(FormatError)
      case Some(i) => if i.format != INNER_FORMAT then Err(FormatError) else Ok(i)
    }
  }

  function Unlock(s: State, passphrase: string, lib: Library): (State, Option<Error>) {
    if s.Unlocked() then (s, None)
    else match Decrypt(s, passphrase, lib)
         case Err(e) => (s, Some(e))
         case Ok(i) => (s.(key := Some(lib.derive(passphrase, s.header.salt, s.header.params)), inner := Some(i)), None)
  }

  function Serialize(s: State, nonce: Bytes, lib: Library): (State, Result<Bytes, Error>) {
    if !s.Unlocked() then (s, Err(IdentityLocked))
    else
      var header := s.header.(nonce := nonce);
      var headerBytes := Frame(lib.encodeHeader(header));
      var body := lib.seal(s.key.value, nonce, lib.encodeInner(s.inner.value), headerBytes);
      (s.(header := header, headerBytes := headerBytes, body := body), Ok(headerBytes + body))
  }

  function Lock(s: State): State {
    s.(key := None, inner := None)
  }

  // --- the object ------------------------------------------------------------------------------

  class Fif {
    var header: Header
    var headerBytes: Bytes
    var body: Bytes
    var key: array?<char>
    var inner: Option<Inner>

    function Contents(): State
      reads this, key
    {
      State(header, headerBytes, body, if key == null then None else Some(key[..]), inner)
    }

    // The fields a parsed or new file starts with.
    constructor (s: State)
      ensures Contents() == s && (key != null ==> fresh(key))
    {
      header, headerBytes, body, inner := s.header, s.headerBytes, s.body, s.inner;
      key := null;
      new;
      if s.key.Some? {
        SetKey(s.key.value);
      }
    }

    method SetKey(k: Bytes)
      modifies this`key
      ensures key != null && fresh(key) && key[..] == k
    {
      var a := new char[|k|](i requires 0 <= i < |k| => k[i]);
      assert a[..] == k;
      key := a;
    }

    method UnlockWith(passphrase: string, lib: Library) returns (e: Option<Error>)
      modifies this
      ensures (Contents(), e) == Unlock(old(Contents()), passphrase, lib)
      ensures key == old(key) || fresh(key)
    {
      if inner.Some? && key != null && key.Length == KEY_SIZE {
        return None;
      }
      var derived := lib.derive(passphrase, header.salt, header.params);
      var plain := lib.open(derived, header.nonce, body, headerBytes);
      if plain == None {
        return Some(AuthError);
      }
      var read := lib.decodeInner(plain.value);
      if read == None || read.value.format != INNER_FORMAT {
        return Some(FormatError);
      }
      SetKey(derived);
      inner := read;
      return None;
    }

    method SerializeTo(nonce: Bytes, lib: Library) returns (r: Result<Bytes, Error>)
      modifies this
      ensures (Contents(), r) == Serialize(old(Contents()), nonce, lib)
      ensures key == old(key)
    {
      if !(inner.Some? && key != null && key.Length == KEY_SIZE) {
        return Err(IdentityLocked);
      }
      var innerJson := lib.encodeInner(inner.value);
      header := header.(nonce := nonce);
      var bytes := Frame(lib.encodeHeader(header));
      var cipher := lib.seal(key[..], nonce, innerJson, bytes);
      headerBytes, body := bytes, cipher;
      return Ok(bytes + cipher);
    }

    // The cached key is overwritten before it is dropped.
    method LockUp()
      modifies this, key
      ensures Contents() == Lock(old(Contents()))
      ensures old(key) != null ==> forall i :: 0 <= i < old(key).Length ==> old(key)[i] == '\0'
    {
      if key != null {
        var i := 0;
        while i < key.Length
          invariant i <= key.Length && key == old(key) && header == old(header) && headerBytes == old(headerBytes) && body == old(body)
          invariant forall j :: 0 <= j < i ==> key[j] == '\0'
          modifies key
        {
          key[i] := '\0';
          i := i + 1;
        }
      }
      key := null;
      inner := None;
    }
  }

  // --- parse against serialize -----------------------------------------------------------------

  lemma FrameReads(json: Bytes, body: Bytes)
    requires |json| <= MAX_HEADER
    ensures var bytes, n := Frame(json) + body, |json|;
            ReadLength(bytes) == n && bytes[4..4 + n] == json && bytes[4 + n..] == body && BigEndian(n) + bytes[4..4 + n] == Frame(json)
  {
    assert Frame(json) + body == BigEndian(|json|) + (json + body);
    LengthRoundTrip(|json|, json + body);
  }

  // A serialized file parses to the same header, header bytes and body.
  lemma ParseReadsFrame(header: Header, body: Bytes, lib: Library)
    requires lib.Lawful() && Acceptable(header) && |body| >= TAG_SIZE
    ensures var hb := Frame(lib.encodeHeader(header)); Parse(hb + body, lib) == Ok(State(header, hb, body, None, None))
  {
    assert lib.HeaderReads(header);
    FrameReads(lib.encodeHeader(header), body);
  }

  /** Parsing loses nothing: the header bytes and the body it keeps are the file, and the header is acceptable. */
  lemma ParseIsLossless(bytes: Bytes, lib: Library)
    requires forall i :: 0 <= i < |bytes| ==> bytes[i] < '\U{0100}'
    requires Parse(bytes, lib).Ok?
    ensures var s := Parse(bytes, lib).value;
            && s.headerBytes + s.body == bytes && |s.body| >= TAG_SIZE && Acceptable(s.header) && s == Lock(s)
            && Parse(s.headerBytes + s.body, lib) == Ok(s)
  {
    var n := ReadLength(bytes);
    LengthIsItsBytes(bytes);
    assert bytes[..4] + bytes[4..4 + n] + bytes[4 + n..] == bytes;
  }

  // --- runs ------------------------------------------------------------------------------------

  // Edit assigns the exported Inner field, to nil as well.
  datatype Op = Edit(inner: Option<Inner>) | Serializing(nonce: Bytes) | Locking | Unlocking(passphrase: string)

  // The bytes of the last successful Serialize, with the Inner of that moment and the passphrase of its key.
  datatype Written = Written(bytes: Bytes, inner: Inner, passphrase: string)

  datatype Trace = Trace(fif: State, holder: string, written: Option<Written>)

  function Step(t: Trace, op: Op, lib: Library): Trace {
    match op
    case Edit(i) => t.(fif := t.fif.(inner := i))
    case Locking => t.(fif := Lock(t.fif))
    case Unlocking(p) =>
      var (s, e) := Unlock(t.fif, p, lib);
      t.(fif := s, holder := if e == None && !t.fif.Unlocked() then p else t.holder)
    case Serializing(nonce) =>
      var (s, r) := Serialize(t.fif, nonce, lib);
      t.(fif := s, written := if r.Ok? then Some(Written(r.value, t.fif.inner.value, t.holder)) else t.written)
  }

  function Run(start: Trace, ops: seq<Op>, lib: Library): Trace {
    if ops == [] then start else Step(Run(start, DropLast(ops), lib), Last(ops), lib)
  }

  function StartNew(passphrase: string, inner: Inner, salt: Bytes, nonce: Bytes, params: Params, lib: Library): Trace {
    Trace(New(passphrase, inner, salt, nonce, params, lib), passphrase, None)
  }

  function StartParsed(s: State): Trace {
    Trace(s, "", None)
  }

  predicate FreshNonces(ops: seq<Op>) {
    forall i :: 0 <= i < |ops| && ops[i].Serializing? ==> |ops[i].nonce| == NONCE_SIZE
  }

  // Nonce, header bytes and body belong together: they parse back to themselves.
  predicate Together(s: State, lib: Library) {
    Parse(s.headerBytes + s.body, lib) == Ok(Lock(s))
  }

  // What unlocking must give for these bytes.
  function Opened(w: Written): Result<Inner, Error> {
    if w.inner.format == INNER_FORMAT then Ok(w.inner) else Err(FormatError)
  }

  ghost predicate WrittenOpens(t: Trace, lib: Library) {
    t.written.Some? ==>
      var w := t.written.value;
      && w.bytes == t.fif.headerBytes + t.fif.body
      && Decrypt(t.fif, w.passphrase, lib) == Opened(w)
  }

  ghost predicate Invariant(t: Trace, lib: Library) {
    && Acceptable(t.fif.header)
    && (t.fif.key.Some? ==> t.fif.key.value == lib.derive(t.holder, t.fif.header.salt, t.fif.header.params))
    && ((t.fif.headerBytes == "" && t.fif.body == "" && t.written == None) || Together(t.fif, lib))
    && WrittenOpens(t, lib)
  }

  lemma SerializeKeepsInvariant(t: Trace, nonce: Bytes, lib: Library)
    requires lib.Lawful() && Invariant(t, lib) && |nonce| == NONCE_SIZE
    ensures Invariant(Step(t, Serializing(nonce), lib), lib)
  {
    if t.fif.Unlocked() {
      var s := Serialize(t.fif, nonce, lib).0;
      var key, plain := t.fif.key.value, lib.encodeInner(t.fif.inner.value);
      assert lib.Opens(key, nonce, plain, s.headerBytes);
      ParseReadsFrame(s.header, s.body, lib);
    }
  }

  lemma StepKeepsInvariant(t: Trace, op: Op, lib: Library)
    requires lib.Lawful() && Invariant(t, lib) && (op.Serializing? ==> |op.nonce| == NONCE_SIZE)
    ensures Invariant(Step(t, op, lib), lib)
  {
    if op.Serializing? {
      SerializeKeepsInvariant(t, op.nonce, lib);
    }
  }

  lemma {:induction false} RunKeepsInvariant(start: Trace, ops: seq<Op>, lib: Library)
    requires lib.Lawful() && Invariant(start, lib) && FreshNonces(ops)
    ensures Invariant(Run(start, ops, lib), lib)
  {
    if ops != [] {
      RunKeepsInvariant(start, DropLast(ops), lib);
      StepKeepsInvariant(Run(start, DropLast(ops), lib), Last(ops), lib);
    }
  }

  // A trace starts with a new file, or with a parsed one.
  ghost predicate Starts(t: Trace, lib: Library) {
    || (exists p, inner, salt, nonce, params :: |salt| == SALT_SIZE && |nonce| == NONCE_SIZE && t == StartNew(p, inner, salt, nonce, params, lib))
    || (exists bytes: Bytes :: FileParses(bytes, t, lib))
  }

  predicate FileParses(bytes: Bytes, t: Trace, lib: Library) {
    (forall i :: 0 <= i < |bytes| ==> bytes[i] < '\U{0100}') && Parse(bytes, lib).Ok? && t == StartParsed(Parse(bytes, lib).value)
  }

  lemma StartInvariant(t: Trace, lib: Library)
    requires Starts(t, lib)
    ensures Invariant(t, lib)
  {
    if bytes: Bytes :| FileParses(bytes, t, lib) {
      ParseIsLossless(bytes, lib);
    }
  }

  /** Over any run of edits, serializations, locks and unlocks of a new or parsed file: the last bytes written parse, and
      under the passphrase of their key unlock to the Inner of that moment (refused only for a foreign inner format). */
  lemma LastWrittenUnlocks(start: Trace, ops: seq<Op>, lib: Library)
    requires lib.Lawful() && Starts(start, lib) && FreshNonces(ops) && Run(start, ops, lib).written.Some?
    ensures var w := Run(start, ops, lib).written.value;
            && Parse(w.bytes, lib).Ok?
            && var (s, e) := Unlock(Parse(w.bytes, lib).value, w.passphrase, lib);
               if w.inner.format == INNER_FORMAT then e == None && s.inner == Some(w.inner) && s.Unlocked() else e == Some(FormatError)
  {
    StartInvariant(start, lib);
    RunKeepsInvariant(start, ops, lib);
  }

  /** Once serialized or parsed, the nonce, the header bytes and the body in memory always belong together. */
  lemma FieldsBelongTogether(start: Trace, ops: seq<Op>, lib: Library)
    requires lib.Lawful() && Starts(start, lib) && FreshNonces(ops)
    ensures var t := Run(start, ops, lib); t.written.Some? || t.fif.headerBytes != "" ==> Together(t.fif, lib)
  {
    StartInvariant(start, lib);
    RunKeepsInvariant(start, ops, lib);
  }

  /** Locking a file and unlocking it goes back to what was last written, whatever was edited since. */
  lemma RelockingRestores(start: Trace, ops: seq<Op>, lib: Library)
    requires lib.Lawful() && Starts(start, lib) && FreshNonces(ops) && Run(start, ops, lib).written.Some?
    requires Run(start, ops, lib).written.value.inner.format == INNER_FORMAT
    ensures var t := Run(start, ops, lib);
            Unlock(Lock(t.fif), t.written.value.passphrase, lib).0.inner == Some(t.written.value.inner)
  {
    StartInvariant(start, lib);
    RunKeepsInvariant(start, ops, lib);
  }

  /** A new file locked before its first Serialize can never be unlocked again. */
  lemma UnwrittenIsLost(start: Trace, ops: seq<Op>, passphrase: string, lib: Library)
    requires lib.Lawful() && Starts(start, lib) && FreshNonces(ops)
    requires Run(start, ops, lib).fif.headerBytes == ""
    ensures Unlock(Lock(Run(start, ops, lib).fif), passphrase, lib).1 == Some(AuthError)
  {
    StartInvariant(start, lib);
    RunKeepsInvariant(start, ops, lib);
  }

  // --- the laws can be met ---------------------------------------------------------------------

  // A stand-in library: fields at fixed offsets, a blank tag, the length of the inner format in unary.
  const BLANK_TAG: Bytes := seq(TAG_SIZE, _ => '-')

  function ToyHeader(h: Header): Bytes {
    h.salt + h.nonce + BigEndian(h.params.memory) + BigEndian(h.params.time) + [h.params.threads as char]
  }

  function ReadWord(s: Bytes): Uint32
    requires |s| == 4
  {
    ReadLength(s) % 0x1_0000_0000
  }

  function ToyReadHeader(s: Bytes): Option<Header> {
    if |s| != 49 then None
    else Some(Header(FORMAT, PASSPHRASE_ONLY, "argon2id", Params(ReadWord(s[40..44]), ReadWord(s[44..48]), s[48] as nat % 0x100),
                     s[..16], s[16..40]))
  }

  function ToyInner(i: Inner): Bytes {
    Unary(|i.format|) + (i.format + i.content)
  }

  function ToyReadInner(s: Bytes): Option<Inner> {
    var (n, rest) := ReadUnary(s);
    if n > |rest| then None else Some(Inner(rest[..n], rest[n..]))
  }

  function Toy(): Library {
    Library(
      (p, salt, params) => seq(KEY_SIZE, _ => '-'),
      (key, nonce, plain, aad) => BLANK_TAG + plain,
      (key, nonce, cipher, aad) => if |cipher| < TAG_SIZE then None else Some(cipher[TAG_SIZE..]),
      ToyHeader, ToyReadHeader, ToyInner, ToyReadInner)
  }

  lemma Word32(n: Uint32)
    ensures ReadWord(BigEndian(n)) == n
  {
    Nested(n);
    var q := n / 256;
    var r := q / 256;
    assert n == q * 256 + n % 256 && q == r * 256 + q % 256 && r == r / 256 * 256 + r % 256 && r / 256 % 256 == r / 256;
  }

  lemma ToyHeaderFields(h: Header)
    requires Acceptable(h)
    ensures var s := ToyHeader(h);
            && |s| == 49 && s[..16] == h.salt && s[16..40] == h.nonce && s[48] as nat == h.params.threads
            && s[40..44] == BigEndian(h.params.memory) && s[44..48] == BigEndian(h.params.time)
  {
  }

  lemma ToyHeaderReads(h: Header)
    requires Acceptable(h)
    ensures ToyReadHeader(ToyHeader(h)) == Some(h) && |ToyHeader(h)| == 49
  {
    ToyHeaderFields(h);
    Word32(h.params.memory);
    Word32(h.params.time);
  }

  lemma ToyInnerReads(i: Inner)
    ensures ToyReadInner(ToyInner(i)) == Some(i)
  {
    UnaryRoundTrip(|i.format|, i.format + i.content);
  }

  /** Some library meets every law the theorems ask for. */
  lemma LawfulLibraryExists()
    ensures exists lib: Library :: lib.Lawful()
  {
    forall h: Header | Acceptable(h) ensures Toy().HeaderReads(h) {
      ToyHeaderReads(h);
    }
    forall i: Inner ensures Toy().decodeInner(Toy().encodeInner(i)) == Some(i) {
      ToyInnerReads(i);
    }
    assert Toy().Lawful();
  }

  // --- each operation on its own ---------------------------------------------------------------

  /** Parsing accepts exactly a file of a big-endian length between 1 and 2^20, a readable header of that length and at least a
      tag behind it, when the header is a fif/1.0 passphrase envelope under argon2id with salt and nonce of the right sizes. A
      readable fif/1.0 header of any other envelope type is refused as unsupported, everything else as malformed. */
  lemma ParseIsExact(bytes: Bytes, lib: Library)
    requires forall i :: 0 <= i < |bytes| ==> bytes[i] < '\U{0100}'
    ensures var n := if |bytes| < 4 then 0 else ((bytes[0] as nat * 256 + bytes[1] as nat) * 256 + bytes[2] as nat) * 256 + bytes[3] as nat;
            var framed := |bytes| >= 4 && 1 <= n <= 1048576 && |bytes| >= 4 + n + 16;
            var header := if framed then lib.decodeHeader(bytes[4..4 + n]) else None;
            var ours := header.Some? && header.value.format == "fif/1.0";
            var good := ours && header.value.envelopeType == "passphrase-only" && header.value.kdf == "argon2id"
                        && |header.value.salt| == 16 && |header.value.nonce| == 24;
            && (good ==> Parse(bytes, lib) == Ok(State(header.value, bytes[..4 + n], bytes[4 + n..], None, None)))
            && (ours && header.value.envelopeType != "passphrase-only" ==> Parse(bytes, lib) == Err(EnvelopeUnsupported))
            && (!good && !(ours && header.value.envelopeType != "passphrase-only") ==> Parse(bytes, lib) == Err(FormatError))
  {
    if |bytes| >= 4 {
      LengthIsItsBytes(bytes);
      var n := ReadLength(bytes);
      if |bytes| >= 4 + n {
        assert bytes[..4] + bytes[4..4 + n] == bytes[..4 + n];
      }
    }
  }

  /** Unlocking an unlocked file does nothing; otherwise the body opens under the derived key, the header's nonce and the header
      bytes, and must be an inner file of format fif-inner/1.0. A failure changes nothing. */
  lemma UnlockIsExact(s: State, passphrase: string, lib: Library)
    ensures var (after, e) := Unlock(s, passphrase, lib);
            var unlocked := s.inner.Some? && s.key.Some? && |s.key.value| == 32;
            var key := lib.derive(passphrase, s.header.salt, s.header.params);
            var plain := lib.open(key, s.header.nonce, s.body, s.headerBytes);
            var inner := if plain.Some? then lib.decodeInner(plain.value) else None;
            if unlocked then after == s && e == None
            else if plain == None then after == s && e == Some(AuthError)
            else if inner == None || inner.value.format != "fif-inner/1.0" then after == s && e == Some(FormatError)
            else after == State(s.header, s.headerBytes, s.body, Some(key), inner) && e == None
  {
  }

  /** Serializing a locked file is refused; otherwise the bytes are the big-endian length of the header, the header with the
      fresh nonce, and the inner file sealed under the cached key, that nonce and those header bytes; these are kept. */
  lemma SerializeIsExact(s: State, nonce: Bytes, lib: Library)
    ensures var (after, r) := Serialize(s, nonce, lib);
            var unlocked := s.inner.Some? && s.key.Some? && |s.key.value| == 32;
            var header := Header(s.header.format, s.header.envelopeType, s.header.kdf, s.header.params, s.header.salt, nonce);
            var json := lib.encodeHeader(header);
            var front := BigEndian(|json|) + json;
            if !unlocked then after == s && r == Err(IdentityLocked)
            else var body := lib.seal(s.key.value, nonce, lib.encodeInner(s.inner.value), front);
                 after == State(header, front, body, s.key, s.inner) && r == Ok(front + body)
  {
  }

  /** A new file is unlocked under its passphrase, holds the inner file given, and has nothing written yet. */
  lemma NewIsExact(passphrase: string, inner: Inner, salt: Bytes, nonce: Bytes, params: Params, lib: Library)
    ensures var s := New(passphrase, inner, salt, nonce, params, lib);
            && s.header == Header("fif/1.0", "passphrase-only", "argon2id", params, salt, nonce) && s.headerBytes == "" && s.body == ""
            && s.key == Some(lib.derive(passphrase, salt, params)) && s.inner == Some(inner)
            && (lib.Lawful() ==> s.Unlocked())
  {
  }
}
