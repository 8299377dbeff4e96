/** Peer sync: /sync/pull output replayed into /sync/push of another Hub
    (nakli-hub/internal/server/handlers_stub.go, nakli-hub/internal/storage/sync.go). */
module PeerSync {
  import opened Wrappers
  import opened EventLog
  import opened HashChain
  import opened Paging

  // encoding/json on []string and map[string]int64, as far as sync needs it. The decoder yields only valid UTF-8 and the
  // encoder keeps it; other bytes it replaces.
  datatype Codec = Codec(
    validText: Bytes -> bool,
    marshalList: seq<Bytes> -> Bytes, unmarshalList: Bytes -> seq<Bytes>,
    marshalMap: map<Bytes, int> -> Bytes, unmarshalMap: Bytes -> map<Bytes, int>)
  {
    predicate EncodableList(ds: seq<Bytes>) {
      forall i :: 0 <= i < |ds| ==> validText(ds[i])
    }

    predicate EncodableMap(m: map<Bytes, int>) {
      forall k :: k in m ==> validText(k) && -0x8000_0000_0000_0000 <= m[k] < 0x8000_0000_0000_0000
    }
  }

  ghost predicate Lawful(c: Codec) {
    && (forall ds :: c.marshalList(ds) != "" && (c.EncodableList(ds) ==> c.unmarshalList(c.marshalList(ds)) == ds))
    && c.unmarshalList("[]") == []
    && (forall m :: c.marshalMap(m) != "" && (c.EncodableMap(m) ==> c.unmarshalMap(c.marshalMap(m)) == m))
    && c.unmarshalMap("{}") == map[]
  }

  function JsonStringArray(c: Codec, ds: seq<Bytes>): Bytes { if ds == [] then "[]" else c.marshalList(ds) }

  function JsonStringMap(c: Codec, m: map<Bytes, int>): Bytes { if m == map[] then "{}" else c.marshalMap(m) }

  // An element of a push request. Metadata bytes and hashes travel unchanged; a pull response carries no
  // appended_by_grant_id, and a payload that is not base64 is only recorded as such.
  datatype WireEvent = WireEvent(
    eventId: Bytes, key: StreamKey, streamType: Bytes, kind: Bytes, payloadMetadata: Bytes,
    causalDependencies: seq<Bytes>, vectorClock: map<Bytes, int>, previousEventHash: Bytes, eventHash: Bytes,
    payloadIsBase64: bool, principal: Bytes, grantId: Bytes)

  predicate EncodableEvent(c: Codec, ev: WireEvent) {
    c.EncodableList(ev.causalDependencies) && c.EncodableMap(ev.vectorClock)
  }

  function ToWire(c: Codec, e: Event): WireEvent {
    WireEvent(e.eventId, e.key, e.streamType, e.kind, ReadMetadata(e),
              if ReadDependencies(e) == "" then [] else c.unmarshalList(ReadDependencies(e)),
              if e.vectorClock == "" then map[] else c.unmarshalMap(e.vectorClock),
              e.previousEventHash, e.eventHash, true, e.principal, "")
  }

  function Wires(c: Codec, events: seq<Event>): (r: seq<WireEvent>)
    ensures |r| == |events|
    ensures forall i :: 0 <= i < |r| ==> r[i] == ToWire(c, events[i])
  {
    seq(|events|, i requires 0 <= i < |events| => ToWire(c, events[i]))
  }

  // The authenticated sender of a push and the StrictSyncPushAttribution switch.
  datatype Sender = Sender(strictAttribution: bool, principal: Option<Bytes>)
  {
    predicate MaySpeakFor(claimed: Bytes) {
      !(strictAttribution && principal.Some? && claimed != "" && claimed != principal.value)
    }
  }

  datatype SkipReason = MissingIds | AttributionMismatch | BadCiphertext | HashMismatch

  // The checks of the push loop before the event reaches the store.
  function Screen(h: Hash, c: Codec, sender: Sender, ev: WireEvent): Result<IngestInput, SkipReason> {
    var deps := JsonStringArray(c, ev.causalDependencies);
    var recomputed := ComputeHistoryEventHash(h, ev.previousEventHash, ev.eventId, ev.kind, ev.payloadMetadata, deps);
    if ev.eventId == "" || ev.key.namespace == "" || ev.key.streamId == "" then Err(MissingIds)
    else if !sender.MaySpeakFor(ev.principal) then Err(AttributionMismatch)
    else if !ev.payloadIsBase64 then Err(BadCiphertext)
    else if ev.streamType == STREAM_HISTORY && ev.eventHash != "" && ev.eventHash != recomputed then Err(HashMismatch)
    else Ok(IngestInput(ev.eventId, ev.key, ev.streamType, ev.kind, ev.payloadMetadata, deps,
                        JsonStringMap(c, ev.vectorClock), ev.previousEventHash,
                        if ev.streamType == STREAM_HISTORY then recomputed else ev.eventHash,
                        ev.principal, ev.grantId))
  }

  // Pushed under a principal other than the authenticated sender's, with the strict switch on.
  predicate Impersonates(sender: Sender, claimed: Bytes) {
    sender.strictAttribution && sender.principal.Some? && claimed != "" && claimed != sender.principal.value
  }

  /** The checks of the push loop in their order, and what they hand to the store: every column as sent, lists and clocks in
      JSON with "[]" and "{}" for the empty ones, and for a history event the recomputed hash. */
  lemma ScreenIsExact(h: Hash, c: Codec, sender: Sender, ev: WireEvent)
    ensures var r := Screen(h, c, sender, ev);
            var named := ev.eventId != "" && ev.key.namespace != "" && ev.key.streamId != "";
            var honest := named && !Impersonates(sender, ev.principal);
            var deps := if ev.causalDependencies == [] then "[]" else c.marshalList(ev.causalDependencies);
            var recomputed := h(ev.previousEventHash + ev.eventId + ev.kind + ev.payloadMetadata + deps);
            var forged := ev.streamType == "history" && ev.eventHash != "" && ev.eventHash != recomputed;
            && (r == Err(MissingIds) <==> !named)
            && (r == Err(AttributionMismatch) <==> named && !honest)
            && (r == Err(BadCiphertext) <==> honest && !ev.payloadIsBase64)
            && (r == Err(HashMismatch) <==> honest && ev.payloadIsBase64 && forged)
            && (r.Ok? ==>
                  && r.value.eventId == ev.eventId && r.value.key == ev.key && r.value.streamType == ev.streamType && r.value.kind == ev.kind
                  && r.value.payloadMetadata == ev.payloadMetadata && r.value.causalDependencies == deps
                  && r.value.vectorClock == (if ev.vectorClock == map[] then "{}" else c.marshalMap(ev.vectorClock))
                  && r.value.previousEventHash == ev.previousEventHash
                  && r.value.eventHash == (if ev.streamType == "history" then recomputed else ev.eventHash)
                  && r.value.principal == ev.principal && r.value.grantId == ev.grantId)
  {
  }

  /** What a pull sends of a row: every column as a reader sees it, parsed where it is JSON, and no grant id. */
  lemma PullSends(c: Codec, e: Event)
    ensures var w := ToWire(c, e);
            && w.eventId == e.eventId && w.key == e.key && w.streamType == e.streamType && w.kind == e.kind
            && w.payloadMetadata == (if e.payloadMetadata.Some? then e.payloadMetadata.value else "")
            && w.causalDependencies == (if e.causalDependencies == Some("") then [] else
                                        c.unmarshalList(if e.causalDependencies.Some? then e.causalDependencies.value else "[]"))
            && w.vectorClock == (if e.vectorClock == "" then map[] else c.unmarshalMap(e.vectorClock))
            && w.previousEventHash == e.previousEventHash && w.eventHash == e.eventHash
            && w.payloadIsBase64 && w.principal == e.principal && w.grantId == ""
  {
  }

  // A pushed event of stream type history that passes carries the recomputed hash over a non-empty dependency string.
  lemma ScreenedHistoryIsHashChecked(h: Hash, c: Codec, sender: Sender, ev: WireEvent)
    requires Lawful(c) && Screen(h, c, sender, ev).Ok? && ev.streamType == STREAM_HISTORY
    ensures HashChecked(h, Screen(h, c, sender, ev).value)
    ensures ev.eventHash != "" ==> Screen(h, c, sender, ev).value.eventHash == ev.eventHash
  {
    assert c.marshalList(ev.causalDependencies) != "";
  }

  /** The check goes by the sender's stream type, the verifier by the namespace: a push into `__history` under another
      stream type is accepted with whatever hash it carries. */
  lemma ForeignTypeIsUnchecked(h: Hash, c: Codec, sender: Sender, ev: WireEvent)
    requires ev.eventId != "" && ev.key.namespace == HISTORY_NAMESPACE && ev.key.streamId != "" && ev.streamType != STREAM_HISTORY
    requires sender.MaySpeakFor(ev.principal) && ev.payloadIsBase64
    ensures Screen(h, c, sender, ev).Ok? && Screen(h, c, sender, ev).value.eventHash == ev.eventHash
  {
  }

  /** So an accepted push is a write its history stream is meant for exactly when it is not such an event, or happens to
      carry the recomputed hash. */
  lemma AcceptedPushIsHistoryWriter(h: Hash, c: Codec, sender: Sender, ev: WireEvent)
    requires Lawful(c) && Screen(h, c, sender, ev).Ok?
    ensures var input := Screen(h, c, sender, ev).value;
            && HandlerWrite(h, Ingest(input))
            && (HistoryWriter(h, Ingest(input)) <==>
                (ev.key.namespace == HISTORY_NAMESPACE && ev.streamType != STREAM_HISTORY ==> ev.eventHash == RecomputedHash(h, input)))
  {
    assert c.marshalList(ev.causalDependencies) != "";
  }

  // Writes as the handlers make them, every accepted push included.
  ghost predicate FromHandlers(h: Hash, c: Codec, op: Op) {
    match op
    case Append(input, _) => input.eventHash == ""
    case AppendHistory(_, _) => true
    case Ingest(input) => exists sender, ev :: Screen(h, c, sender, ev) == Ok(input)
  }

  /** The verdict over whole runs of the handlers, with every push they accept: the stream's links hold exactly where
      Continues did at arrival. */
  lemma VerdictOfHandlerRuns(h: Hash, c: Codec, ops: seq<Op>, key: StreamKey, r: VerifyResult)
    requires Lawful(c) && (forall x :: h(x) != "") && forall i :: 0 <= i < |ops| ==> FromHandlers(h, c, ops[i])
    requires Reports(h, Stream(Run(h, EMPTY_DB, ops).events, key), r)
    ensures var flags := Continuations(h, EMPTY_DB, ops, key);
            && |flags| == |Stream(Run(h, EMPTY_DB, ops).events, key)|
            && (r.verified <==> forall i :: 0 <= i < |flags| ==> flags[i])
            && (!r.verified ==> r.length < |flags| && !flags[r.length] && forall i :: 0 <= i < r.length ==> flags[i])
  {
    forall i | 0 <= i < |ops| ensures HandlerWrite(h, ops[i]) {
      assert FromHandlers(h, c, ops[i]);
      if ops[i].Ingest? {
        var sender, ev :| Screen(h, c, sender, ev) == Ok(ops[i].ingest);
        AcceptedPushIsHistoryWriter(h, c, sender, ev);
      }
    }
    ArrivalsAreExact(h, EMPTY_DB, ops, key);
    assert ops[..|ops|] == ops;
    ExactVerdict(h, ops, |ops|, key, r);
  }

  // The writes a history stream is meant for.
  predicate Intended(op: Op) {
    match op
    case Append(input, _) => input.key.namespace != HISTORY_NAMESPACE
    case AppendHistory(input, _) => input.causalDependencies != ""
    case Ingest(input) => input.key.namespace == HISTORY_NAMESPACE ==> input.streamType == STREAM_HISTORY
  }

  /** On streams built by appends with dependencies and pushed history events, whatever pushes the handler accepted, the flags
      of ExactVerdict are the comparisons of each pushed event's previous hash with the head at arrival. */
  lemma HistoryPushesMatchHeads(h: Hash, c: Codec, ops: seq<Op>, streamId: Bytes)
    requires Lawful(c) && forall i :: 0 <= i < |ops| ==> FromHandlers(h, c, ops[i]) && Intended(ops[i])
    ensures Arrivals(h, EMPTY_DB, ops, StreamKey(HISTORY_NAMESPACE, streamId)) == HeadMatches(h, EMPTY_DB, ops, StreamKey(HISTORY_NAMESPACE, streamId))
  {
    forall i | 0 <= i < |ops| ensures HistoryWriter(h, ops[i]) {
      assert FromHandlers(h, c, ops[i]) && Intended(ops[i]);
      if ops[i].Ingest? {
        var sender, ev :| Screen(h, c, sender, ev) == Ok(ops[i].ingest);
        AcceptedPushIsHistoryWriter(h, c, sender, ev);
      }
    }
    ArrivalsAreHeadMatches(h, EMPTY_DB, ops, streamId);
  }

  predicate Accepts(h: Hash, c: Codec, sender: Sender, db: Db, ev: WireEvent) {
    Screen(h, c, sender, ev).Ok? && !HasId(db.events, ev.eventId)
  }

  function PushOne(h: Hash, c: Codec, sender: Sender, db: Db, ev: WireEvent): Db {
    match Screen(h, c, sender, ev)
    case Ok(input) => Step(h, db, Ingest(input))
    case Err(_) => db
  }

  function PushAll(h: Hash, c: Codec, sender: Sender, db: Db, evs: seq<WireEvent>): Db {
    if evs == [] then db else PushOne(h, c, sender, PushAll(h, c, sender, db, DropLast(evs)), Last(evs))
  }

  function AcceptedCount(h: Hash, c: Codec, sender: Sender, db: Db, evs: seq<WireEvent>): nat {
    if evs == [] then 0
    else AcceptedCount(h, c, sender, db, DropLast(evs)) +
         if Accepts(h, c, sender, PushAll(h, c, sender, db, DropLast(evs)), Last(evs)) then 1 else 0
  }

  /** One pushed event: taken by the checks and new, it is stored with the columns handed over, its grant id included; otherwise
      nothing changes. */
  lemma PushStores(h: Hash, c: Codec, sender: Sender, db: Db, ev: WireEvent)
    requires LogInvariant(db)
    ensures var r, after := Screen(h, c, sender, ev), PushOne(h, c, sender, db, ev);
            if r.Err? || (exists i :: 0 <= i < |db.events| && db.events[i].eventId == ev.eventId) then after == db
            else Stored(db, after, ev.key, ev.eventId, ev.streamType, ev.kind, ev.payloadMetadata, r.value.causalDependencies,
                        r.value.vectorClock, ev.previousEventHash, r.value.eventHash, ev.principal, ev.grantId)
  {
    if Screen(h, c, sender, ev).Ok? {
      ScreenIsExact(h, c, sender, ev);
      IngestStores(h, db, Screen(h, c, sender, ev).value);
    }
  }

  lemma PushOneInserts(h: Hash, c: Codec, sender: Sender, db: Db, ev: WireEvent)
    requires LogInvariant(db)
    ensures LogInvariant(PushOne(h, c, sender, db, ev))
    ensures if Accepts(h, c, sender, db, ev)
            then PushOne(h, c, sender, db, ev) == Insert(db, Screen(h, c, sender, ev).value.Row())
            else PushOne(h, c, sender, db, ev) == db
  {
    if Screen(h, c, sender, ev).Ok? {
      StepKeepsInvariant(h, db, Ingest(Screen(h, c, sender, ev).value));
    }
  }

  lemma {:induction false} PushKeepsInvariant(h: Hash, c: Codec, sender: Sender, db: Db, evs: seq<WireEvent>)
    requires LogInvariant(db)
    ensures LogInvariant(PushAll(h, c, sender, db, evs))
    ensures |PushAll(h, c, sender, db, evs).events| == |db.events| + AcceptedCount(h, c, sender, db, evs)
  {
    if evs != [] {
      PushKeepsInvariant(h, c, sender, db, DropLast(evs));
      PushOneInserts(h, c, sender, PushAll(h, c, sender, db, DropLast(evs)), Last(evs));
    }
  }

  // One element of the push loop: screened, then ingested unless the id is already present.
  method PushEvent(store: Store, c: Codec, sender: Sender, ev: WireEvent) returns (accepted: bool)
    requires store.Valid()
    modifies store
    ensures store.Valid() && store.Contents() == PushOne(store.sha256, c, sender, old(store.Contents()), ev)
    ensures accepted <==> Accepts(store.sha256, c, sender, old(store.Contents()), ev)
  {
    var screened := Screen(store.sha256, c, sender, ev);
    if screened.Err? {
      return false;
    }
    var ingested := store.IngestEvent(screened.value);
    return ingested.Ok?;
  }

  /** The push loop: each event is accepted or skipped, and the store ends as PushAll says. */
  method HandleSyncPush(store: Store, c: Codec, sender: Sender, evs: seq<WireEvent>) returns (accepted: nat, skipped: nat)
    requires store.Valid()
    modifies store
    ensures store.Valid() && store.Contents() == PushAll(store.sha256, c, sender, old(store.Contents()), evs)
    ensures accepted == AcceptedCount(store.sha256, c, sender, old(store.Contents()), evs)
    ensures accepted + skipped == |evs|
    ensures |store.events| == old(|store.events|) + accepted
  {
    accepted, skipped := 0, 0;
    ghost var start := store.Contents();
    var i := 0;
    while i < |evs|
      invariant i <= |evs| && store.Valid()
      invariant store.Contents() == PushAll(store.sha256, c, sender, start, evs[..i])
      invariant accepted == AcceptedCount(store.sha256, c, sender, start, evs[..i]) && accepted + skipped == i
    {
      assert DropLast(evs[..i + 1]) == evs[..i];
      var ok := PushEvent(store, c, sender, evs[i]);
      if ok {
        accepted := accepted + 1;
      } else {
        skipped := skipped + 1;
      }
      i := i + 1;
    }
    assert evs[..i] == evs;
    PushKeepsInvariant(store.sha256, c, sender, start, evs);
  }

  // --- portable events -------------------------------------------------------------------------

  ghost predicate IsDependencyText(c: Codec, text: Bytes) {
    exists ds :: c.EncodableList(ds) && text == JsonStringArray(c, ds)
  }

  ghost predicate IsClockText(c: Codec, text: Bytes) {
    exists m :: c.EncodableMap(m) && text == JsonStringMap(c, m)
  }

  // A row another Hub will take as it is.
  ghost predicate Portable(h: Hash, c: Codec, e: Event) {
    && e.eventId != "" && e.key.namespace != "" && e.key.streamId != ""
    && e.payloadMetadata != Some("")
    && IsDependencyText(c, ReadDependencies(e))
    && IsClockText(c, e.vectorClock)
    && (e.streamType == STREAM_HISTORY ==> e.eventHash == h(Preimage(e)))
  }

  // What a receiver stores for it: the same event, the dependency column filled in, the grant id lost.
  function Replica(e: Event): Event {
    e.(causalDependencies := Some(ReadDependencies(e)), grantId := "")
  }

  function Replicas(rows: seq<Event>): (r: seq<Event>)
    ensures |r| == |rows|
    ensures forall i :: 0 <= i < |r| ==> r[i] == Replica(rows[i])
  {
    seq(|rows|, i requires 0 <= i < |rows| => Replica(rows[i]))
  }

  lemma DependencyTextSurvives(c: Codec, text: Bytes)
    requires Lawful(c) && IsDependencyText(c, text)
    ensures text != "" && JsonStringArray(c, c.unmarshalList(text)) == text
  {
    var ds :| c.EncodableList(ds) && text == JsonStringArray(c, ds);
    assert c.unmarshalList(c.marshalList(ds)) == ds;
  }

  lemma ClockTextSurvives(c: Codec, text: Bytes)
    requires Lawful(c) && IsClockText(c, text)
    ensures text != "" && JsonStringMap(c, c.unmarshalMap(text)) == text
  {
    var m :| c.EncodableMap(m) && text == JsonStringMap(c, m);
    assert c.unmarshalMap(c.marshalMap(m)) == m;
  }

  // Whether a peer's screening lets an event with intact columns through depends on its hash alone.
  lemma ScreenIsTheHashCheck(h: Hash, c: Codec, sender: Sender, e: Event)
    requires Lawful(c) && sender.MaySpeakFor(e.principal) && IsDependencyText(c, ReadDependencies(e))
    requires e.eventId != "" && e.key.namespace != "" && e.key.streamId != ""
    ensures Screen(h, c, sender, ToWire(c, e)).Ok? <==>
              (e.streamType == STREAM_HISTORY && e.eventHash != "" ==> e.eventHash == h(Preimage(e)))
  {
    DependencyTextSurvives(c, ReadDependencies(e));
  }

  /** A revocation's row, whose dependencies "" are hashed as such and read back as "[]", is refused by every peer unless the
      two preimages collide. */
  lemma RevocationIsRefused(h: Hash, c: Codec, sender: Sender, db: Db, input: HistoryInput, id: Bytes, n: nat)
    requires Lawful(c) && input.causalDependencies == "" && Verdict(h, db, AppendHistory(input, id)).Ok?
    requires var p := HeadHash(db, input.Key()) + id + input.kind + input.payloadMetadata; h(p) != "" && h(p) != h(p + "[]")
    ensures Screen(h, c, sender, ToWire(c, Verdict(h, db, AppendHistory(input, id)).value.(sequenceNumber := n))).Err?
  {
    var p, e := HeadHash(db, input.Key()) + id + input.kind + input.payloadMetadata, Verdict(h, db, AppendHistory(input, id)).value;
    assert e.eventHash == h(p) by { assert p + "" == p; }
    assert JsonStringArray(c, ToWire(c, e.(sequenceNumber := n)).causalDependencies) == "[]";
    assert HeadHash(db, input.Key()) + id + input.kind + input.payloadMetadata + "[]" == p + "[]";
  }

  lemma PortableIsCopied(h: Hash, c: Codec, sender: Sender, e: Event)
    requires Lawful(c) && Portable(h, c, e) && sender.MaySpeakFor(e.principal)
    ensures Screen(h, c, sender, ToWire(c, e)).Ok?
    ensures Screen(h, c, sender, ToWire(c, e)).value.Row() == Replica(e).(sequenceNumber := 0)
  {
    DependencyTextSurvives(c, ReadDependencies(e));
    ClockTextSurvives(c, e.vectorClock);
  }

  lemma ReplicaIsPortable(h: Hash, c: Codec, e: Event, n: nat)
    requires Portable(h, c, e)
    ensures Portable(h, c, Replica(e).(sequenceNumber := n))
  {
    assert Preimage(Replica(e).(sequenceNumber := n)) == Preimage(e);
  }

  // --- replication -----------------------------------------------------------------------------

  lemma {:induction false} PushAllConcat(h: Hash, c: Codec, sender: Sender, db: Db, xs: seq<WireEvent>, ys: seq<WireEvent>)
    ensures PushAll(h, c, sender, db, xs + ys) == PushAll(h, c, sender, PushAll(h, c, sender, db, xs), ys)
  {
    if ys == [] {
      assert xs + ys == xs;
    } else {
      assert DropLast(xs + ys) == xs + DropLast(ys);
      PushAllConcat(h, c, sender, db, xs, DropLast(ys));
    }
  }

  // One push request per pulled page.
  function PushPages(h: Hash, c: Codec, sender: Sender, db: Db, pages: seq<seq<Event>>): Db {
    if pages == [] then db
    else PushAll(h, c, sender, PushPages(h, c, sender, db, DropLast(pages)), Wires(c, Last(pages)))
  }

  lemma WiresConcat(c: Codec, xs: seq<Event>, ys: seq<Event>)
    ensures Wires(c, xs + ys) == Wires(c, xs) + Wires(c, ys)
  {
  }

  lemma {:induction false} PushPagesIsPushAll(h: Hash, c: Codec, sender: Sender, db: Db, pages: seq<seq<Event>>)
    ensures PushPages(h, c, sender, db, pages) == PushAll(h, c, sender, db, Wires(c, Flatten(pages)))
  {
    if pages != [] {
      var front, page := DropLast(pages), Last(pages);
      PushPagesIsPushAll(h, c, sender, db, front);
      WiresConcat(c, Flatten(front), page);
      PushAllConcat(h, c, sender, db, Wires(c, Flatten(front)), Wires(c, page));
    } else {
      assert Wires(c, Flatten(pages)) == [];
    }
  }

  // The log of a sender whose rows of one stream can be copied to a receiver that does not know them.
  ghost predicate CanReplicate(h: Hash, c: Codec, sender: Sender, events: seq<Event>, b: Db, key: StreamKey) {
    && UniqueIds(events) && Consecutive(Stream(events, key))
    && LogInvariant(b) && key !in b.streams
    && (forall e :: e in events && e.key == key ==> Portable(h, c, e) && sender.MaySpeakFor(e.principal) && !HasId(b.events, e.eventId))
  }

  // The receiver after the first n events of the sender's log have been pushed.
  ghost predicate ReplicatedUpTo(events: seq<Event>, db: Db, key: StreamKey, n: nat)
    requires n <= |events|
  {
    && LogInvariant(db)
    && Stream(db.events, key) == Replicas(Stream(events[..n], key))
    && (forall i :: n <= i < |events| && events[i].key == key ==> !HasId(db.events, events[i].eventId))
  }

  lemma ReplicateOwn(h: Hash, c: Codec, sender: Sender, front: seq<Event>, e: Event, db: Db)
    requires Lawful(c) && LogInvariant(db) && Portable(h, c, e) && sender.MaySpeakFor(e.principal) && !HasId(db.events, e.eventId)
    requires Stream(db.events, e.key) == Replicas(Stream(front, e.key)) && e.sequenceNumber == |Stream(front, e.key)| + 1
    ensures Stream(PushOne(h, c, sender, db, ToWire(c, e)).events, e.key) == Replicas(Stream(front, e.key) + [e])
  {
    PushOneInserts(h, c, sender, db, ToWire(c, e));
    PortableIsCopied(h, c, sender, e);
    CopyExtendsReplicas(db, e, Stream(front, e.key), e.key);
  }

  lemma ReplicateOther(h: Hash, c: Codec, sender: Sender, e: Event, db: Db, key: StreamKey)
    requires LogInvariant(db) && e.key != key
    ensures Stream(PushOne(h, c, sender, db, ToWire(c, e)).events, key) == Stream(db.events, key)
  {
    PushOneInserts(h, c, sender, db, ToWire(c, e));
    if Accepts(h, c, sender, db, ToWire(c, e)) {
      StreamOfAppend(db.events, Numbered(db, Screen(h, c, sender, ToWire(c, e)).value.Row()), key);
    }
  }

  lemma ReplicateNext(h: Hash, c: Codec, sender: Sender, events: seq<Event>, db: Db, key: StreamKey, n: nat)
    requires Lawful(c) && UniqueIds(events) && Consecutive(Stream(events, key))
    requires 0 < n <= |events| && ReplicatedUpTo(events, db, key, n - 1)
    requires events[n - 1].key == key ==> Portable(h, c, events[n - 1]) && sender.MaySpeakFor(events[n - 1].principal)
    ensures ReplicatedUpTo(events, PushOne(h, c, sender, db, ToWire(c, events[n - 1])), key, n)
  {
    var front, e := events[..n - 1], events[n - 1];
    assert events[..n] == front + [e];
    StreamOfAppend(front, e, key);
    PushOneInserts(h, c, sender, db, ToWire(c, e));
    IdsStayFresh(h, c, sender, events, db, key, n);
    if e.key == key {
      NextNumber(events, n, key);
      ReplicateOwn(h, c, sender, front, e, db);
    } else {
      ReplicateOther(h, c, sender, e, db, key);
    }
  }

  lemma {:induction false} ReplicatePrefix(h: Hash, c: Codec, sender: Sender, events: seq<Event>, b: Db, key: StreamKey, n: nat)
    requires Lawful(c) && CanReplicate(h, c, sender, events, b, key) && n <= |events|
    ensures ReplicatedUpTo(events, PushAll(h, c, sender, b, Wires(c, events[..n])), key, n)
  {
    if n == 0 {
      assert StreamAgrees(b, key);
      forall i | 0 <= i < |events| && events[i].key == key ensures !HasId(b.events, events[i].eventId) {
        assert events[i] in events;
      }
    } else {
      ReplicatePrefix(h, c, sender, events, b, key, n - 1);
      assert events[n - 1] in events;
      ReplicateNext(h, c, sender, events, PushAll(h, c, sender, b, Wires(c, events[..n - 1])), key, n);
      assert DropLast(Wires(c, events[..n])) == Wires(c, events[..n - 1]);
    }
  }

  lemma NextNumber(events: seq<Event>, n: nat, key: StreamKey)
    requires 0 < n <= |events| && events[n - 1].key == key && Consecutive(Stream(events, key))
    ensures events[n - 1].sequenceNumber == |Stream(events[..n - 1], key)| + 1
  {
    var front, e := events[..n - 1], events[n - 1];
    assert events == front + [e] + events[n..];
    StreamOfConcat(front + [e], events[n..], key);
    StreamOfAppend(front, e, key);
    assert Stream(events, key)[|Stream(front, key)|] == e;
  }

  lemma CopyExtendsReplicas(db: Db, e: Event, rows: seq<Event>, key: StreamKey)
    requires LogInvariant(db) && e.key == key
    requires Stream(db.events, key) == Replicas(rows) && e.sequenceNumber == |rows| + 1
    ensures Stream(Insert(db, Replica(e).(sequenceNumber := 0)).events, key) == Replicas(rows + [e])
  {
    assert StreamAgrees(db, key);
    InsertAgrees(db, Replica(e).(sequenceNumber := 0), key);
  }

  lemma IdsStayFresh(h: Hash, c: Codec, sender: Sender, events: seq<Event>, before: Db, key: StreamKey, n: nat)
    requires UniqueIds(events) && 0 < n <= |events| && LogInvariant(before)
    requires forall i :: n - 1 <= i < |events| && events[i].key == key ==> !HasId(before.events, events[i].eventId)
    ensures var after := PushOne(h, c, sender, before, ToWire(c, events[n - 1]));
            forall i :: n <= i < |events| && events[i].key == key ==> !HasId(after.events, events[i].eventId)
  {
    PushOneInserts(h, c, sender, before, ToWire(c, events[n - 1]));
    var after := PushOne(h, c, sender, before, ToWire(c, events[n - 1]));
    forall i | n <= i < |events| && events[i].key == key ensures !HasId(after.events, events[i].eventId) {
      assert events[n - 1].eventId != events[i].eventId;
      forall j | 0 <= j < |after.events| ensures after.events[j].eventId != events[i].eventId {
        assert j < |before.events| ==> after.events[j] == before.events[j];
      }
    }
  }

  lemma ReplicasReportAlike(h: Hash, rows: seq<Event>, r: VerifyResult)
    ensures Reports(h, Replicas(rows), r) <==> Reports(h, rows, r)
  {
    forall i | 0 <= i < |rows| ensures LinkHolds(h, Replicas(rows), i) <==> LinkHolds(h, rows, i) {
      assert Preimage(Replicas(rows)[i]) == Preimage(rows[i]);
    }
    assert forall n :: 0 <= n <= |rows| ==> HashBefore(Replicas(rows), n) == HashBefore(rows, n);
  }

  /** Pulling a log page by page, with any limits while it grows, until the last page reaches its end, and pushing
      each page in order, gives a Hub without that stream the same events in the same order with the same
      sequence numbers and hashes, the same head, and the same verifier report. */
  lemma ReplicationKeepsTheChain(h: Hash, c: Codec, sender: Sender, logs: seq<seq<Event>>, limits: seq<int>, calls: nat,
                                 b: Db, key: StreamKey, r: VerifyResult)
    requires Lawful(c) && 0 < calls <= |logs| == |limits| && Growing(logs)
    requires Position(logs, limits, calls) == |logs[calls - 1]|
    requires CanReplicate(h, c, sender, logs[calls - 1], b, key)
    ensures var rows, after := Stream(logs[calls - 1], key), PushPages(h, c, sender, b, Pages(logs, limits, calls));
            && LogInvariant(after)
            && Stream(after.events, key) == Replicas(rows)
            && (rows != [] ==> key in after.streams
                               && after.streams[key].headEventId == Some(Last(rows).eventId)
                               && after.streams[key].headEventHash == Last(rows).eventHash
                               && after.streams[key].eventCount == |rows|)
            && (Reports(h, Stream(after.events, key), r) <==> Reports(h, rows, r))
  {
    var events := logs[calls - 1];
    var rows, after := Stream(events, key), PushPages(h, c, sender, b, Pages(logs, limits, calls));
    PagesAreExact(logs, limits, calls);
    PushPagesIsPushAll(h, c, sender, b, Pages(logs, limits, calls));
    assert events[..|events|] == events;
    WiresOfReadBack(c, events);
    ReplicatePrefix(h, c, sender, events, b, key, |events|);
    assert StreamAgrees(after, key);
    ReplicasReportAlike(h, rows, r);
  }

  lemma WiresOfReadBack(c: Codec, events: seq<Event>)
    ensures Wires(c, ReadBackAll(events)) == Wires(c, events)
  {
    forall i | 0 <= i < |events| ensures ToWire(c, ReadBack(events[i])) == ToWire(c, events[i]) {
    }
  }
}
