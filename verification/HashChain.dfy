/** The history hash chain: what the verifier reports, what a report proves about the events behind
    it, and which arrivals make it fail (nakli-hub/internal/storage/history.go). */
module HashChain {
  import opened Wrappers
  import opened EventLog

  // What a stored row hashes to when the verifier reads it back.
  function Preimage(e: Event): Bytes {
    e.previousEventHash + e.eventId + e.kind + ReadMetadata(e) + ReadDependencies(e)
  }

  function HashBefore(rows: seq<Event>, i: nat): Bytes
    requires i <= |rows|
  {
    if i == 0 then "" else rows[i - 1].eventHash
  }

  // Row i continues the chain: it names its predecessor's hash and carries its own.
  predicate LinkHolds(h: Hash, rows: seq<Event>, i: nat)
    requires i < |rows|
  {
    rows[i].previousEventHash == HashBefore(rows, i) && rows[i].eventHash == h(Preimage(rows[i]))
  }

  datatype VerifyResult = VerifyResult(verified: bool, length: nat, headHash: Bytes, brokenAtEventId: Bytes)

  // The meaning of a report: links hold up to `length`, and the walk stopped there because the
  // stream ended or because the next link does not hold.
  predicate Reports(h: Hash, rows: seq<Event>, r: VerifyResult) {
    && r.length <= |rows|
    && (forall i :: 0 <= i < r.length ==> LinkHolds(h, rows, i))
    && r.headHash == HashBefore(rows, r.length)
    && (r.verified <==> r.length == |rows|)
    && (if r.verified then r.brokenAtEventId == ""
        else !LinkHolds(h, rows, r.length) && r.brokenAtEventId == rows[r.length].eventId)
  }

  /** The walk of VerifyHistoryChain over the rows of one history stream. ORDER BY sequence_number is
      rowid order, because Valid() numbers every stream consecutively. */
  method VerifyHistoryChain(store: Store, streamId: Bytes) returns (r: VerifyResult)
    requires store.Valid()
    ensures Reports(store.sha256, Stream(store.events, StreamKey(HISTORY_NAMESPACE, streamId)), r)
    ensures r.verified && r.length > 0 ==>
              r.headHash == HeadHash(store.Contents(), StreamKey(HISTORY_NAMESPACE, streamId))
  {
    var key := StreamKey(HISTORY_NAMESPACE, streamId);
    var rows := Stream(store.events, key);
    assert StreamAgrees(store.Contents(), key);
    var expectedPrev: Bytes, lastHash: Bytes, count := "", "", 0;
    while count < |rows|
      invariant count <= |rows|
      invariant expectedPrev == lastHash == HashBefore(rows, count)
      invariant forall i :: 0 <= i < count ==> LinkHolds(store.sha256, rows, i)
    {
      var row := rows[count];
      if row.previousEventHash != expectedPrev {
        return VerifyResult(false, count, lastHash, row.eventId);
      }
      var computed := ComputeHistoryEventHash(store.sha256, row.previousEventHash, row.eventId, row.kind, ReadMetadata(row), ReadDependencies(row));
      if computed != row.eventHash {
        return VerifyResult(false, count, lastHash, row.eventId);
      }
      expectedPrev, lastHash := row.eventHash, row.eventHash;
      count := count + 1;
    }
    return VerifyResult(true, count, lastHash, "");
  }

  lemma ReportIsUnique(h: Hash, rows: seq<Event>, r: VerifyResult, r': VerifyResult)
    requires Reports(h, rows, r) && Reports(h, rows, r')
    ensures r == r'
  {
  }

  /** A broken report is final: however the stream grows, the verifier says the same. */
  lemma BrokenReportIsStable(h: Hash, rows: seq<Event>, later: seq<Event>, r: VerifyResult)
    requires rows <= later && Reports(h, rows, r) && !r.verified
    ensures Reports(h, later, r)
  {
    assert forall i :: 0 <= i <= r.length ==> (LinkHolds(h, rows, i) <==> LinkHolds(h, later, i));
  }

  // --- tamper evidence -------------------------------------------------------------------------

  // The part of a preimage after the previous hash.
  function Content(e: Event): Bytes {
    e.eventId + e.kind + ReadMetadata(e) + ReadDependencies(e)
  }

  predicate SameChainedContent(a: seq<Event>, b: seq<Event>, i: nat)
    requires i < |a| && i < |b|
  {
    a[i].previousEventHash == b[i].previousEventHash && Content(a[i]) == Content(b[i])
  }

  // Two different byte strings with one digest, found at position i of the two lists.
  predicate CollisionAt(h: Hash, a: seq<Event>, b: seq<Event>, i: nat)
    requires i < |a| && i < |b|
  {
    Preimage(a[i]) != Preimage(b[i]) && h(Preimage(a[i])) == h(Preimage(b[i]))
  }

  ghost predicate FixedLength(h: Hash, digestLength: nat) {
    forall x :: |h(x)| == digestLength
  }

  /** Two streams that verify with the same length and head hash agree at every position on the previous
      hash and on event_id || kind || payload_metadata || causal_dependencies, unless the streams
      themselves exhibit two different preimages with one digest. */
  lemma TamperEvidence(h: Hash, digestLength: nat, a: seq<Event>, b: seq<Event>, ra: VerifyResult, rb: VerifyResult)
    requires FixedLength(h, digestLength)
    requires Reports(h, a, ra) && Reports(h, b, rb) && ra.verified && rb.verified
    requires ra.length == rb.length && ra.headHash == rb.headHash
    ensures |a| == |b|
    ensures (forall i :: 0 <= i < |a| ==> SameChainedContent(a, b, i)) || exists i :: 0 <= i < |a| && CollisionAt(h, a, b, i)
  {
    if !(exists i :: 0 <= i < |a| && CollisionAt(h, a, b, i)) {
      AgreeBackwards(h, digestLength, a, b, |a|);
    }
  }

  lemma {:induction false} AgreeBackwards(h: Hash, digestLength: nat, a: seq<Event>, b: seq<Event>, n: nat)
    requires FixedLength(h, digestLength) && n <= |a| == |b|
    requires forall i :: 0 <= i < n ==> LinkHolds(h, a, i) && LinkHolds(h, b, i) && !CollisionAt(h, a, b, i)
    requires HashBefore(a, n) == HashBefore(b, n)
    ensures forall i :: 0 <= i < n ==> SameChainedContent(a, b, i)
  {
    if n > 0 {
      var i := n - 1;
      assert LinkHolds(h, a, i) && LinkHolds(h, b, i) && !CollisionAt(h, a, b, i);
      if i > 0 {
        assert LinkHolds(h, a, i - 1) && LinkHolds(h, b, i - 1);
      }
      SplitPreimage(a[i], b[i]);
      AgreeBackwards(h, digestLength, a, b, i);
    }
  }

  lemma SplitPreimage(a: Event, b: Event)
    requires Preimage(a) == Preimage(b) && |a.previousEventHash| == |b.previousEventHash|
    ensures a.previousEventHash == b.previousEventHash && Content(a) == Content(b)
  {
    var n := |a.previousEventHash|;
    assert Preimage(a) == a.previousEventHash + Content(a);
    assert Preimage(b) == b.previousEventHash + Content(b);
    assert Preimage(a)[..n] == a.previousEventHash && Preimage(b)[..n] == b.previousEventHash;
    assert Preimage(a)[n..] == Content(a) && Preimage(b)[n..] == Content(b);
  }

  // The concatenation carries no field boundaries, so the chain cannot tell a split of event_id and
  // kind from another. This is as much as a head hash pins down.
  lemma BoundariesAreNotHashed(h: Hash)
    ensures exists a: Event, b: Event :: a.eventId != b.eventId && a.kind != b.kind && LinkHolds(h, [a], 0) && LinkHolds(h, [b], 0) && a.eventHash == b.eventHash
  {
    var key := StreamKey(HISTORY_NAMESPACE, "s");
    var a := Event("ab", key, STREAM_HISTORY, 1, "c", None, Some("[]"), "{}", "", h("abc[]"), "p", "g");
    var b := a.(eventId := "a", kind := "bc");
    assert Preimage(a) == "abc[]" == Preimage(b);
    assert LinkHolds(h, [a], 0) && LinkHolds(h, [b], 0);
  }

  // Where the field lengths agree, the agreement goes field by field.
  lemma FieldsAgreeAtEqualLengths(a: Event, b: Event)
    requires Content(a) == Content(b)
    requires |a.eventId| == |b.eventId| && |a.kind| == |b.kind| && |ReadMetadata(a)| == |ReadMetadata(b)|
    ensures a.eventId == b.eventId && a.kind == b.kind
    ensures ReadMetadata(a) == ReadMetadata(b) && ReadDependencies(a) == ReadDependencies(b)
  {
    var n, m := |a.eventId|, |a.eventId| + |a.kind|;
    var k := m + |ReadMetadata(a)|;
    forall e | e == a || e == b
      ensures Content(e)[..n] == e.eventId && Content(e)[n..m] == e.kind
      ensures Content(e)[m..k] == ReadMetadata(e) && Content(e)[k..] == ReadDependencies(e)
    {
    }
  }

  // --- the exact verdict -----------------------------------------------------------------------

  // The row arrives linked: it names the stream's recorded head and its hash is the one read back.
  predicate ArrivesLinked(h: Hash, db: Db, row: Event) {
    row.previousEventHash == HeadHash(db, row.key) && row.eventHash == h(Preimage(row))
  }

  predicate InsertsInto(h: Hash, db: Db, op: Op, key: StreamKey) {
    var v := Verdict(h, db, op);
    v.Ok? && v.value.key == key
  }

  // One flag per event of the stream, in arrival order, judged against the tables at that moment.
  function Arrivals(h: Hash, db: Db, ops: seq<Op>, key: StreamKey): seq<bool> {
    if ops == [] then []
    else
      var before := Run(h, db, DropLast(ops));
      Arrivals(h, db, DropLast(ops), key) +
      if InsertsInto(h, before, Last(ops), key)
      then [ArrivesLinked(h, before, Verdict(h, before, Last(ops)).value)] else []
  }

  // flags[i] says whether row i's link holds.
  predicate FlagsMatch(h: Hash, rows: seq<Event>, flags: seq<bool>) {
    && |flags| == |rows|
    && forall i :: 0 <= i < |rows| ==> (LinkHolds(h, rows, i) <==> flags[i])
  }

  /** The verifier's links are exactly the arrival flags, for every run of the three writers. */
  lemma {:induction false} LinksAreArrivals(h: Hash, ops: seq<Op>, key: StreamKey)
    ensures FlagsMatch(h, Stream(Run(h, EMPTY_DB, ops).events, key), Arrivals(h, EMPTY_DB, ops, key))
  {
    if ops != [] {
      var before := Run(h, EMPTY_DB, DropLast(ops));
      LinksAreArrivals(h, DropLast(ops), key);
      EveryRunKeepsInvariant(h, EMPTY_DB, DropLast(ops));
      StepExtendsFlags(h, before, Last(ops), key, Arrivals(h, EMPTY_DB, DropLast(ops), key));
    }
  }

  lemma StepExtendsFlags(h: Hash, db: Db, op: Op, key: StreamKey, flags: seq<bool>)
    requires LogInvariant(db) && FlagsMatch(h, Stream(db.events, key), flags)
    ensures FlagsMatch(h, Stream(Step(h, db, op).events, key),
                       flags + if InsertsInto(h, db, op, key) then [ArrivesLinked(h, db, Verdict(h, db, op).value)] else [])
  {
    if Verdict(h, db, op).Ok? {
      InsertExtendsFlags(h, db, Verdict(h, db, op).value, key, flags);
    }
  }

  lemma InsertExtendsFlags(h: Hash, db: Db, row: Event, key: StreamKey, flags: seq<bool>)
    requires LogInvariant(db) && FlagsMatch(h, Stream(db.events, key), flags)
    ensures FlagsMatch(h, Stream(Insert(db, row).events, key),
                       flags + if row.key == key then [ArrivesLinked(h, db, row)] else [])
  {
    assert StreamAgrees(db, key);
    if row.key == key {
      ArrivalIsLastLink(h, db, row);
    } else {
      StreamOfAppend(db.events, Numbered(db, row), key);
    }
  }

  lemma ArrivalIsLastLink(h: Hash, db: Db, row: Event)
    requires StreamAgrees(db, row.key)
    ensures var rows, next := Stream(db.events, row.key), Stream(Insert(db, row).events, row.key);
            && |next| == |rows| + 1 && rows <= next
            && (LinkHolds(h, next, |rows|) <==> ArrivesLinked(h, db, row))
            && forall i :: 0 <= i < |rows| ==> (LinkHolds(h, next, i) <==> LinkHolds(h, rows, i))
  {
    var rows, next := Stream(db.events, row.key), Stream(Insert(db, row).events, row.key);
    InsertAgrees(db, row, row.key);
    assert next == rows + [Numbered(db, row)];
    assert HashBefore(next, |rows|) == HeadHash(db, row.key);
    assert Preimage(Numbered(db, row)) == Preimage(row);
    forall i | 0 <= i < |rows| ensures LinkHolds(h, next, i) <==> LinkHolds(h, rows, i) {
      assert next[i] == rows[i];
    }
  }

  /** The verdict on a stream after any run: verified exactly when every event arrived linked; otherwise
      the report names the first event that did not, and says the same after any further run. */
  lemma ExactVerdict(h: Hash, ops: seq<Op>, k: nat, key: StreamKey, r: VerifyResult)
    requires k <= |ops| && Reports(h, Stream(Run(h, EMPTY_DB, ops[..k]).events, key), r)
    ensures |Arrivals(h, EMPTY_DB, ops[..k], key)| == |Stream(Run(h, EMPTY_DB, ops[..k]).events, key)|
    ensures r.verified <==> forall i :: 0 <= i < |Arrivals(h, EMPTY_DB, ops[..k], key)| ==> Arrivals(h, EMPTY_DB, ops[..k], key)[i]
    ensures !r.verified ==>
              && r.length < |Arrivals(h, EMPTY_DB, ops[..k], key)|
              && !Arrivals(h, EMPTY_DB, ops[..k], key)[r.length]
              && (forall i :: 0 <= i < r.length ==> Arrivals(h, EMPTY_DB, ops[..k], key)[i])
              && r.brokenAtEventId == Stream(Run(h, EMPTY_DB, ops[..k]).events, key)[r.length].eventId
              && Reports(h, Stream(Run(h, EMPTY_DB, ops).events, key), r)
  {
    var flags, rows := Arrivals(h, EMPTY_DB, ops[..k], key), Stream(Run(h, EMPTY_DB, ops[..k]).events, key);
    LinksAreArrivals(h, ops[..k], key);
    if !r.verified {
      assert !LinkHolds(h, rows, r.length);
      var all := Run(h, EMPTY_DB, ops).events;
      RunExtends(h, EMPTY_DB, ops, k);
      var first := Run(h, EMPTY_DB, ops[..k]).events;
      assert all == first + all[|first|..];
      StreamOfConcat(first, all[|first|..], key);
      BrokenReportIsStable(h, rows, Stream(all, key), r);
    }
  }

  // --- which arrivals are linked ---------------------------------------------------------------

  function RecomputedHash(h: Hash, input: IngestInput): Bytes {
    ComputeHistoryEventHash(h, input.previousEventHash, input.eventId, input.kind, input.payloadMetadata, input.causalDependencies)
  }

  // An ingested row whose hash was recomputed over a non-empty dependency string.
  predicate HashChecked(h: Hash, input: IngestInput) {
    input.causalDependencies != "" && input.eventHash == RecomputedHash(h, input)
  }

  // What the handlers hand to the store: a vault append carries no hash, and a push has a non-empty dependency string and,
  // only if its stream type says history, the recomputed hash.
  predicate HandlerWrite(h: Hash, op: Op) {
    match op
    case Append(input, _) => input.eventHash == ""
    case AppendHistory(_, _) => true
    case Ingest(input) => input.causalDependencies != "" && (input.streamType == STREAM_HISTORY ==> HashChecked(h, input))
  }

  // Whether such a write continues its stream's chain.
  predicate Continues(h: Hash, db: Db, op: Op) {
    match op
    case Append(_, _) => false
    case AppendHistory(input, id) =>
      var p := HeadHash(db, input.Key()) + id + input.kind + input.payloadMetadata;
      input.causalDependencies != "" || h(p) == h(p + "[]")
    case Ingest(input) =>
      input.previousEventHash == HeadHash(db, input.key) && (input.streamType == STREAM_HISTORY || input.eventHash == RecomputedHash(h, input))
  }

  /** Every way a handler's write can break a chain: a vault append, an append without dependencies, a push that does not
      name the head, and a push of another stream type whose hash nobody recomputed. */
  lemma WritesBreakExactly(h: Hash, db: Db, op: Op)
    requires (forall x :: h(x) != "") && HandlerWrite(h, op) && Verdict(h, db, op).Ok?
    ensures ArrivesLinked(h, db, Verdict(h, db, op).value) <==> Continues(h, db, op)
  {
    var row := Verdict(h, db, op).value;
    match op
    case Append(_, _) =>
    case AppendHistory(input, id) =>
      var p := HeadHash(db, input.Key()) + id + input.kind + input.payloadMetadata;
      assert Preimage(row) == p + if input.causalDependencies == "" then "[]" else input.causalDependencies;
      assert p + "" == p;
    case Ingest(input) =>
      assert Preimage(row) == input.previousEventHash + input.eventId + input.kind + input.payloadMetadata + input.causalDependencies;
  }

  // Per event of the stream, in arrival order.
  function Continuations(h: Hash, db: Db, ops: seq<Op>, key: StreamKey): seq<bool> {
    if ops == [] then []
    else
      var before := Run(h, db, DropLast(ops));
      Continuations(h, db, DropLast(ops), key) +
      if InsertsInto(h, before, Last(ops), key) then [Continues(h, before, Last(ops))] else []
  }

  /** So over every run of handler writes ExactVerdict's flags are those conditions, judged at each arrival. */
  lemma {:induction false} ArrivalsAreExact(h: Hash, db: Db, ops: seq<Op>, key: StreamKey)
    requires (forall x :: h(x) != "") && forall i :: 0 <= i < |ops| ==> HandlerWrite(h, ops[i])
    ensures Arrivals(h, db, ops, key) == Continuations(h, db, ops, key)
  {
    if ops != [] {
      ArrivalsAreExact(h, db, DropLast(ops), key);
      var before := Run(h, db, DropLast(ops));
      assert HandlerWrite(h, Last(ops));
      if InsertsInto(h, before, Last(ops), key) {
        WritesBreakExactly(h, before, Last(ops));
      }
    }
  }

  // The writers a history stream is meant for.
  predicate HistoryWriter(h: Hash, op: Op) {
    match op
    case Append(input, _) => input.key.namespace != HISTORY_NAMESPACE
    case AppendHistory(input, _) => input.causalDependencies != ""
    case Ingest(input) => input.key.namespace == HISTORY_NAMESPACE ==> HashChecked(h, input)
  }

  predicate NamesHead(db: Db, op: Op) {
    match op
    case Ingest(input) => input.previousEventHash == HeadHash(db, input.key)
    case _ => true
  }

  /** With the writers a history stream is meant for only an ingested event can break the chain, and it does so exactly when
      its previous hash was not the head on arrival. */
  lemma HistoryWritersBreakOnlyByStalePush(h: Hash, db: Db, op: Op, streamId: Bytes)
    requires HistoryWriter(h, op) && InsertsInto(h, db, op, StreamKey(HISTORY_NAMESPACE, streamId))
    ensures ArrivesLinked(h, db, Verdict(h, db, op).value) <==> NamesHead(db, op)
  {
    var row := Verdict(h, db, op).value;
    match op
    case AppendHistory(input, id) =>
      assert Preimage(row) == row.previousEventHash + id + input.kind + input.payloadMetadata + input.causalDependencies;
    case Ingest(input) =>
      assert Preimage(row) == input.previousEventHash + input.eventId + input.kind + input.payloadMetadata + input.causalDependencies;
    case Append(_, _) =>
  }

  // Per event of the stream, in arrival order: an append counts as naming the head.
  function HeadMatches(h: Hash, db: Db, ops: seq<Op>, key: StreamKey): seq<bool> {
    if ops == [] then []
    else
      var before := Run(h, db, DropLast(ops));
      HeadMatches(h, db, DropLast(ops), key) +
      if InsertsInto(h, before, Last(ops), key) then [NamesHead(before, Last(ops))] else []
  }

  /** So with those writers ExactVerdict's flags are the comparisons of each pushed event's previous hash
      with the head at arrival. */
  lemma {:induction false} ArrivalsAreHeadMatches(h: Hash, db: Db, ops: seq<Op>, streamId: Bytes)
    requires forall i :: 0 <= i < |ops| ==> HistoryWriter(h, ops[i])
    ensures Arrivals(h, db, ops, StreamKey(HISTORY_NAMESPACE, streamId)) == HeadMatches(h, db, ops, StreamKey(HISTORY_NAMESPACE, streamId))
  {
    if ops != [] {
      ArrivalsAreHeadMatches(h, db, DropLast(ops), streamId);
      var before := Run(h, db, DropLast(ops));
      assert HistoryWriter(h, Last(ops));
      if InsertsInto(h, before, Last(ops), StreamKey(HISTORY_NAMESPACE, streamId)) {
        HistoryWritersBreakOnlyByStalePush(h, before, Last(ops), streamId);
      }
    }
  }

  // Dependencies "" are hashed as "" and read back as "[]", so such an append (as handleGrantRevoke
  // makes) breaks its stream unless the two preimages collide.
  lemma EmptyDependenciesBreakTheChain(h: Hash, db: Db, input: HistoryInput, id: Bytes)
    requires input.causalDependencies == "" && Verdict(h, db, AppendHistory(input, id)).Ok?
    ensures var p := HeadHash(db, input.Key()) + id + input.kind + input.payloadMetadata;
            p != p + "[]" && (ArrivesLinked(h, db, Verdict(h, db, AppendHistory(input, id)).value) <==> h(p) == h(p + "[]"))
  {
    var p := HeadHash(db, input.Key()) + id + input.kind + input.payloadMetadata;
    assert p + "" == p;
    assert |p + "[]"| == |p| + 2;
  }

  // A vault append into __history stores no hash, which no digest equals.
  lemma VaultAppendBreaksTheChain(h: Hash, digestLength: nat, db: Db, input: AppendInput, id: Bytes)
    requires FixedLength(h, digestLength) && digestLength > 0 && input.eventHash == ""
    requires Verdict(h, db, Append(input, id)).Ok?
    ensures !ArrivesLinked(h, db, Verdict(h, db, Append(input, id)).value)
  {
    var row := Verdict(h, db, Append(input, id)).value;
    assert |h(Preimage(row))| == digestLength;
  }
}
