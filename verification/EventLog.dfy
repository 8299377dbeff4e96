/** The Hub's append-only event log: the `events` and `streams` tables and their three writers
    (nakli-hub/internal/storage/events.go, history.go, sync.go). One SQL transaction is one step. */
module EventLog {
  import opened Wrappers

  type Hash = Bytes -> Bytes

  const HISTORY_NAMESPACE: Bytes := "__history"
  const STREAM_VAULT: Bytes := "vault"
  const STREAM_HISTORY: Bytes := "history"

  datatype StreamKey = StreamKey(namespace: Bytes, streamId: Bytes)

  // A row of `events`. The table is a rowid table from which nothing is ever deleted, so the rowid
  // of events[i] is i + 1. An Option column is one that may be NULL.
  datatype Event = Event(
    eventId: Bytes,
    key: StreamKey,
    streamType: Bytes,
    sequenceNumber: nat,
    kind: Bytes,
    payloadMetadata: Option<Bytes>,
    causalDependencies: Option<Bytes>,
    vectorClock: Bytes,
    previousEventHash: Bytes,
    eventHash: Bytes,
    principal: Bytes,
    grantId: Bytes)

  // A row of `streams`.
  datatype StreamRow = StreamRow(streamType: Bytes, headEventId: Option<Bytes>, headEventHash: Bytes, eventCount: nat)

  datatype Db = Db(events: seq<Event>, streams: map<StreamKey, StreamRow>)

  const EMPTY_DB := Db([], map[])

  function NullableString(s: Bytes): Option<Bytes> {
    if s == "" then None else Some(s)
  }

  // COALESCE(payload_metadata, '') and COALESCE(causal_dependencies, '[]'): what every reader sees.
  function ReadMetadata(e: Event): Bytes { GetOr(e.payloadMetadata, "") }

  function ReadDependencies(e: Event): Bytes { GetOr(e.causalDependencies, "[]") }

  function ComputeHistoryEventHash(h: Hash, prev: Bytes, eventId: Bytes, kind: Bytes, metadata: Bytes, deps: Bytes): Bytes {
    h(prev + eventId + kind + metadata + deps)
  }

  // --- queries --------------------------------------------------------------------------------

  // The rows of one stream, in rowid order.
  function Stream(events: seq<Event>, key: StreamKey): seq<Event> {
    if events == [] then []
    else Stream(DropLast(events), key) + if Last(events).key == key then [Last(events)] else []
  }

  // SELECT COUNT(1) FROM events WHERE event_id = ?
  predicate HasId(events: seq<Event>, eventId: Bytes) {
    exists i :: 0 <= i < |events| && events[i].eventId == eventId
  }

  // SELECT COALESCE(MAX(sequence_number), 0) over the rows of one stream.
  function MaxSequence(rows: seq<Event>): nat {
    if rows == [] then 0
    else
      var m := MaxSequence(DropLast(rows));
      if m < Last(rows).sequenceNumber then Last(rows).sequenceNumber else m
  }

  // COALESCE(head_event_hash, x'') of the stream row, empty when there is none.
  function HeadHash(db: Db, key: StreamKey): Bytes {
    if key in db.streams then db.streams[key].headEventHash else ""
  }

  // --- the three writers on values -------------------------------------------------------------

  datatype AppendError = HistoryConflict | AlreadyPresent | IdsRequired | UniqueViolation

  // The tail the writers share: number the row MAX + 1, insert it, make it the stream's head.
  function Insert(db: Db, e: Event): Db {
    var count := if e.key in db.streams then db.streams[e.key].eventCount else 0;
    var streamType := if e.key in db.streams then db.streams[e.key].streamType else e.streamType;
    Db(db.events + [Numbered(db, e)],
       db.streams[e.key := StreamRow(streamType, Some(e.eventId), e.eventHash, count + 1)])
  }

  function Numbered(db: Db, e: Event): Event {
    e.(sequenceNumber := MaxSequence(Stream(db.events, e.key)) + 1)
  }

  datatype AppendInput = AppendInput(
    key: StreamKey, streamType: Bytes, kind: Bytes, payloadMetadata: Bytes, causalDependencies: Bytes,
    vectorClock: Bytes, principal: Bytes, grantId: Bytes, previousEventHash: Bytes, eventHash: Bytes)
  {
    function Row(eventId: Bytes): Event {
      Event(eventId, key, streamType, 0, kind, NullableString(payloadMetadata), NullableString(causalDependencies),
            vectorClock, previousEventHash, eventHash, principal, grantId)
    }
  }

  datatype HistoryInput = HistoryInput(
    streamId: Bytes, kind: Bytes, payloadMetadata: Bytes, causalDependencies: Bytes,
    vectorClock: Bytes, previousEventHash: Bytes, principal: Bytes, grantId: Bytes)
  {
    function Key(): StreamKey { StreamKey(HISTORY_NAMESPACE, streamId) }

    // The row hashes causalDependencies as given but stores "" as NULL.
    function Row(h: Hash, head: Bytes, eventId: Bytes): Event {
      Event(eventId, Key(), STREAM_HISTORY, 0, kind, NullableString(payloadMetadata), NullableString(causalDependencies),
            vectorClock, head, ComputeHistoryEventHash(h, head, eventId, kind, payloadMetadata, causalDependencies),
            principal, grantId)
    }
  }

  datatype IngestInput = IngestInput(
    eventId: Bytes, key: StreamKey, streamType: Bytes, kind: Bytes, payloadMetadata: Bytes, causalDependencies: Bytes,
    vectorClock: Bytes, previousEventHash: Bytes, eventHash: Bytes, principal: Bytes, grantId: Bytes)
  {
    function Row(): Event {
      Event(eventId, key, streamType, 0, kind, NullableString(payloadMetadata), NullableString(causalDependencies),
            vectorClock, previousEventHash, eventHash, principal, grantId)
    }
  }

  datatype Op =
    | Append(append: AppendInput, newId: Bytes)
    | AppendHistory(history: HistoryInput, newId: Bytes)
    | Ingest(ingest: IngestInput)

  // What a writer does with a request: refuse it, leaving the tables alone, or insert one row.
  function Verdict(h: Hash, db: Db, op: Op): Result<Event, AppendError> {
    match op
    case Append(input, id) =>
      if HasId(db.events, id) then Err(UniqueViolation) else Ok(input.Row(id))
    case AppendHistory(input, id) =>
      var head := HeadHash(db, input.Key());
      if head != input.previousEventHash then Err(HistoryConflict)
      else if HasId(db.events, id) then Err(UniqueViolation)
      else Ok(input.Row(h, head, id))
    case Ingest(input) =>
      if input.eventId == "" || input.key.namespace == "" || input.key.streamId == "" then Err(IdsRequired)
      else if HasId(db.events, input.eventId) then Err(AlreadyPresent)
      else Ok(input.Row())
  }

  function Step(h: Hash, db: Db, op: Op): Db {
    match Verdict(h, db, op)
    case Ok(row) => Insert(db, row)
    case Err(_) => db
  }

  function Run(h: Hash, db: Db, ops: seq<Op>): Db {
    if ops == [] then db else Step(h, Run(h, db, DropLast(ops)), Last(ops))
  }

  // --- the invariant ---------------------------------------------------------------------------

  predicate UniqueIds(events: seq<Event>) {
    forall i, j :: 0 <= i < j < |events| ==> events[i].eventId != events[j].eventId
  }

  // The stream is numbered 1, 2, ... in rowid order.
  predicate Consecutive(rows: seq<Event>) {
    forall i :: 0 <= i < |rows| ==> rows[i].sequenceNumber == i + 1
  }

  predicate StreamAgrees(db: Db, key: StreamKey) {
    var rows := Stream(db.events, key);
    && Consecutive(rows)
    && (key in db.streams <==> rows != [])
    && (rows != [] ==>
          && db.streams[key].headEventId == Some(Last(rows).eventId)
          && db.streams[key].headEventHash == Last(rows).eventHash
          && db.streams[key].eventCount == |rows|)
  }

  ghost predicate LogInvariant(db: Db) {
    && UniqueIds(db.events)
    && forall key :: StreamAgrees(db, key)
  }

  /** The largest number among the rows, 0 when there are none. */
  lemma {:induction false} MaxIsLargest(rows: seq<Event>)
    ensures forall i :: 0 <= i < |rows| ==> rows[i].sequenceNumber <= MaxSequence(rows)
    ensures if rows == [] then MaxSequence(rows) == 0 else exists i :: 0 <= i < |rows| && rows[i].sequenceNumber == MaxSequence(rows)
  {
    if rows != [] {
      var front := DropLast(rows);
      MaxIsLargest(front);
      assert forall i :: 0 <= i < |front| ==> rows[i] == front[i];
      if MaxSequence(rows) == Last(rows).sequenceNumber {
        assert rows[|rows| - 1] == Last(rows);
      } else {
        var i :| 0 <= i < |front| && front[i].sequenceNumber == MaxSequence(front);
        assert rows[i].sequenceNumber == MaxSequence(rows);
      }
    }
  }

  lemma {:induction false} MaxOfConsecutive(rows: seq<Event>)
    requires Consecutive(rows)
    ensures MaxSequence(rows) == |rows|
  {
    if rows != [] {
      assert rows == DropLast(rows) + [Last(rows)];
      MaxOfConsecutive(DropLast(rows));
    }
  }

  lemma StreamOfAppend(events: seq<Event>, e: Event, key: StreamKey)
    ensures Stream(events + [e], key) == Stream(events, key) + if e.key == key then [e] else []
  {
    assert DropLast(events + [e]) == events;
  }

  lemma {:induction false} StreamOfConcat(a: seq<Event>, b: seq<Event>, key: StreamKey)
    ensures Stream(a + b, key) == Stream(a, key) + Stream(b, key)
  {
    if b == [] {
      assert a + b == a;
    } else {
      assert a + b == (a + DropLast(b)) + [Last(b)];
      StreamOfAppend(a + DropLast(b), Last(b), key);
      StreamOfConcat(a, DropLast(b), key);
    }
  }

  // A row of a stream is a row of the log with that key.
  lemma {:induction false} StreamMembers(events: seq<Event>, key: StreamKey)
    ensures forall e :: e in Stream(events, key) <==> e in events && e.key == key
  {
    if events != [] {
      assert events == DropLast(events) + [Last(events)];
      StreamMembers(DropLast(events), key);
    }
  }

  // Rows of one stream inherit the log's unique ids.
  lemma {:induction false} StreamHasUniqueIds(events: seq<Event>, key: StreamKey)
    requires UniqueIds(events)
    ensures UniqueIds(Stream(events, key))
  {
    if events != [] {
      StreamHasUniqueIds(DropLast(events), key);
      StreamMembers(DropLast(events), key);
      var front := Stream(DropLast(events), key);
      forall i | 0 <= i < |front| && Last(events).key == key ensures front[i].eventId != Last(events).eventId {
        assert front[i] in DropLast(events);
      }
    }
  }

  lemma InsertAgrees(db: Db, e: Event, key: StreamKey)
    requires StreamAgrees(db, key) && StreamAgrees(db, e.key)
    ensures StreamAgrees(Insert(db, e), key)
    ensures Stream(Insert(db, e).events, key) == Stream(db.events, key) + if e.key == key then [Numbered(db, e)] else []
    ensures Numbered(db, e).sequenceNumber == |Stream(db.events, e.key)| + 1
  {
    MaxOfConsecutive(Stream(db.events, e.key));
    StreamOfAppend(db.events, Numbered(db, e), key);
  }

  lemma InsertKeepsInvariant(db: Db, e: Event)
    requires LogInvariant(db) && !HasId(db.events, e.eventId)
    ensures LogInvariant(Insert(db, e))
    ensures Numbered(db, e).sequenceNumber == |Stream(db.events, e.key)| + 1
    ensures Insert(db, e).streams[e.key].eventCount == |Stream(db.events, e.key)| + 1
  {
    forall key ensures StreamAgrees(Insert(db, e), key) {
      assert StreamAgrees(db, key) && StreamAgrees(db, e.key);
      InsertAgrees(db, e, key);
    }
    assert StreamAgrees(db, e.key);
    InsertAgrees(db, e, e.key);
  }

  lemma StepKeepsInvariant(h: Hash, db: Db, op: Op)
    requires LogInvariant(db)
    ensures LogInvariant(Step(h, db, op))
  {
    match Verdict(h, db, op)
    case Ok(row) => InsertKeepsInvariant(db, row);
    case Err(_) =>
  }

  /** In every state reached by any mix of the three writers, event ids are unique, each stream is
      numbered 1..event_count in rowid order, and its head is its last event. */
  lemma {:induction false} EveryRunKeepsInvariant(h: Hash, db: Db, ops: seq<Op>)
    requires LogInvariant(db)
    ensures LogInvariant(Run(h, db, ops))
  {
    if ops != [] {
      EveryRunKeepsInvariant(h, db, DropLast(ops));
      StepKeepsInvariant(h, Run(h, db, DropLast(ops)), Last(ops));
    }
  }

  // The log only grows: a later state's events extend an earlier state's.
  lemma {:induction false} RunExtends(h: Hash, db: Db, ops: seq<Op>, k: nat)
    requires k <= |ops|
    ensures Run(h, db, ops[..k]).events <= Run(h, db, ops).events
  {
    if k == |ops| {
      assert ops[..k] == ops;
    } else {
      assert DropLast(ops)[..k] == ops[..k];
      RunExtends(h, db, DropLast(ops), k);
    }
  }

  // --- the store -------------------------------------------------------------------------------

  class Store {
    const sha256: Hash
    var events: seq<Event>
    var streams: map<StreamKey, StreamRow>

    function Contents(): Db reads this { Db(events, streams) }

    ghost predicate Valid() reads this { LogInvariant(Contents()) }

    constructor (sha256: Hash)
      ensures Valid() && Contents() == EMPTY_DB && this.sha256 == sha256
    {
      this.sha256 := sha256;
      events, streams := [], map[];
    }

    method AppendEvent(input: AppendInput, eventId: Bytes) returns (r: Result<nat, AppendError>)
      requires Valid()
      modifies this
      ensures Valid()
      ensures Contents() == Step(sha256, old(Contents()), Append(input, eventId))
      ensures r.Ok? <==> forall i :: 0 <= i < |old(events)| ==> old(events)[i].eventId != eventId
      ensures r.Ok? ==> r.value == old(|Stream(events, input.key)|) + 1 && streams[input.key].eventCount == r.value
      ensures r.Err? ==> r.error == UniqueViolation && Contents() == old(Contents())
    {
      var tables := EnsureStream(input.key, input.streamType);
      var seqNo := MaxSequence(Stream(events, input.key)) + 1;
      if HasId(events, eventId) {
        return Err(UniqueViolation);  // the INSERT fails and the transaction rolls back
      }
      StepKeepsInvariant(sha256, Contents(), Append(input, eventId));
      InsertKeepsInvariant(Contents(), input.Row(eventId));
      events := events + [input.Row(eventId).(sequenceNumber := seqNo)];
      streams := MoveHead(tables, input.key, eventId, input.eventHash);
      assert Contents() == Insert(old(Contents()), input.Row(eventId));
      return Ok(seqNo);
    }

    method AppendHistoryEvent(input: HistoryInput, eventId: Bytes) returns (r: Result<nat, AppendError>)
      requires Valid()
      modifies this
      ensures Valid()
      ensures Contents() == Step(sha256, old(Contents()), AppendHistory(input, eventId))
      ensures r.Err? <==> old(HeadHash(Contents(), input.Key())) != input.previousEventHash || old(HasId(events, eventId))
      ensures r == Err(HistoryConflict) <==> old(HeadHash(Contents(), input.Key())) != input.previousEventHash
      ensures r.Ok? ==> r.value == old(|Stream(events, input.Key())|) + 1 && streams[input.Key()].eventCount == r.value
      ensures r.Err? ==> Contents() == old(Contents())
    {
      var key := input.Key();
      var tables := streams;
      var currentHead: Bytes;
      if key !in streams {
        if input.previousEventHash != "" {
          return Err(HistoryConflict);
        }
        tables := EnsureStream(key, STREAM_HISTORY);
        currentHead := "";
      } else {
        currentHead := streams[key].headEventHash;
        if currentHead != input.previousEventHash {
          return Err(HistoryConflict);
        }
      }
      var seqNo := MaxSequence(Stream(events, key)) + 1;
      if HasId(events, eventId) {
        return Err(UniqueViolation);
      }
      var row := input.Row(sha256, currentHead, eventId);
      StepKeepsInvariant(sha256, Contents(), AppendHistory(input, eventId));
      InsertKeepsInvariant(Contents(), row);
      events := events + [row.(sequenceNumber := seqNo)];
      streams := MoveHead(tables, key, eventId, row.eventHash);
      assert Contents() == Insert(old(Contents()), row);
      return Ok(seqNo);
    }

    method IngestEvent(input: IngestInput) returns (r: Result<nat, AppendError>)
      requires Valid()
      modifies this
      ensures Valid()
      ensures Contents() == Step(sha256, old(Contents()), Ingest(input))
      ensures r == Err(IdsRequired) <==> input.eventId == "" || input.key.namespace == "" || input.key.streamId == ""
      ensures r == Err(AlreadyPresent) <==>
              input.eventId != "" && input.key.namespace != "" && input.key.streamId != "" &&
              exists i :: 0 <= i < |old(events)| && old(events)[i].eventId == input.eventId
      ensures r.Err? ==> r.error in {IdsRequired, AlreadyPresent} && Contents() == old(Contents())
      ensures r.Ok? ==> r.value == old(|Stream(events, input.key)|) + 1 && streams[input.key].eventCount == r.value
    {
      if input.eventId == "" || input.key.namespace == "" || input.key.streamId == "" {
        return Err(IdsRequired);
      }
      if HasId(events, input.eventId) {
        return Err(AlreadyPresent);
      }
      var tables := EnsureStream(input.key, input.streamType);
      var seqNo := MaxSequence(Stream(events, input.key)) + 1;
      StepKeepsInvariant(sha256, Contents(), Ingest(input));
      InsertKeepsInvariant(Contents(), input.Row());
      events := events + [input.Row().(sequenceNumber := seqNo)];
      streams := MoveHead(tables, input.key, input.eventId, input.eventHash);
      assert Contents() == Insert(old(Contents()), input.Row());
      return Ok(seqNo);
    }

    // INSERT INTO streams ... when the row is missing.
    function EnsureStream(key: StreamKey, streamType: Bytes): map<StreamKey, StreamRow> reads this {
      if key in streams then streams else streams[key := StreamRow(streamType, None, "", 0)]
    }

    // UPDATE streams SET head_event_id = ?, head_event_hash = ?, event_count = event_count + 1
    static function MoveHead(tables: map<StreamKey, StreamRow>, key: StreamKey, eventId: Bytes, eventHash: Bytes): map<StreamKey, StreamRow>
      requires key in tables
    {
      tables[key := tables[key].(headEventId := Some(eventId), headEventHash := eventHash, eventCount := tables[key].eventCount + 1)]
    }
  }

  // --- what is stored --------------------------------------------------------------------------

  // The tables after row e was accepted for its stream: one more row there, with every column given here, the stream row
  // pointing at it, and all other streams as they were.
  ghost predicate Stored(before: Db, after: Db, key: StreamKey, eventId: Bytes, streamType: Bytes, kind: Bytes, metadata: Bytes,
                         dependencies: Bytes, vectorClock: Bytes, prev: Bytes, hash: Bytes, principal: Bytes, grantId: Bytes) {
    && |after.events| == |before.events| + 1 && before.events <= after.events
    && var e, n := Last(after.events), |Stream(before.events, key)|;
       && e.key == key && e.eventId == eventId && e.streamType == streamType && e.sequenceNumber == n + 1 && e.kind == kind
       && (e.payloadMetadata == if metadata == "" then None else Some(metadata))
       && (e.causalDependencies == if dependencies == "" then None else Some(dependencies))
       && e.vectorClock == vectorClock && e.previousEventHash == prev && e.eventHash == hash
       && e.principal == principal && e.grantId == grantId
       && after.streams == before.streams[key :=
            StreamRow(if key in before.streams then before.streams[key].streamType else streamType, Some(eventId), hash, n + 1)]
  }

  lemma InsertStores(db: Db, e: Event)
    requires LogInvariant(db) && !HasId(db.events, e.eventId)
    ensures Last(Insert(db, e).events) == e.(sequenceNumber := |Stream(db.events, e.key)| + 1)
    ensures Insert(db, e).events == db.events + [Last(Insert(db, e).events)]
    ensures Insert(db, e).streams == db.streams[e.key :=
              StreamRow(if e.key in db.streams then db.streams[e.key].streamType else e.streamType, Some(e.eventId), e.eventHash, |Stream(db.events, e.key)| + 1)]
  {
    InsertKeepsInvariant(db, e);
  }

  /** An append stores its row column by column, exactly when its id is new. */
  lemma AppendStores(h: Hash, db: Db, input: AppendInput, id: Bytes)
    requires LogInvariant(db)
    ensures if exists i :: 0 <= i < |db.events| && db.events[i].eventId == id then Step(h, db, Append(input, id)) == db
            else Stored(db, Step(h, db, Append(input, id)), input.key, id, input.streamType, input.kind, input.payloadMetadata,
                        input.causalDependencies, input.vectorClock, input.previousEventHash, input.eventHash, input.principal, input.grantId)
  {
    if !HasId(db.events, id) {
      InsertStores(db, input.Row(id));
    }
  }

  /** A history append stores its row, hashed over the head and the columns as given, exactly when it names the head and its id
      is new. */
  lemma AppendHistoryStores(h: Hash, db: Db, input: HistoryInput, id: Bytes)
    requires LogInvariant(db)
    ensures var key := StreamKey("__history", input.streamId);
            var head := if key in db.streams then db.streams[key].headEventHash else "";
            if head != input.previousEventHash || (exists i :: 0 <= i < |db.events| && db.events[i].eventId == id)
            then Step(h, db, AppendHistory(input, id)) == db
            else Stored(db, Step(h, db, AppendHistory(input, id)), key, id, "history", input.kind, input.payloadMetadata,
                        input.causalDependencies, input.vectorClock, head,
                        h(head + id + input.kind + input.payloadMetadata + input.causalDependencies), input.principal, input.grantId)
  {
    if Verdict(h, db, AppendHistory(input, id)).Ok? {
      InsertStores(db, Verdict(h, db, AppendHistory(input, id)).value);
    }
  }

  /** An ingested event is stored as it came, under the next number, exactly when it has its ids and its event id is new. */
  lemma IngestStores(h: Hash, db: Db, input: IngestInput)
    requires LogInvariant(db)
    ensures if input.eventId == "" || input.key.namespace == "" || input.key.streamId == "" ||
               (exists i :: 0 <= i < |db.events| && db.events[i].eventId == input.eventId)
            then Step(h, db, Ingest(input)) == db
            else Stored(db, Step(h, db, Ingest(input)), input.key, input.eventId, input.streamType, input.kind, input.payloadMetadata,
                        input.causalDependencies, input.vectorClock, input.previousEventHash, input.eventHash, input.principal, input.grantId)
  {
    if Verdict(h, db, Ingest(input)).Ok? {
      InsertStores(db, input.Row());
    }
  }
}
