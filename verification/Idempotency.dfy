/** The idempotency table and the middleware in front of the mutating handlers
    (nakli-hub/internal/storage/idempotency.go, nakli-hub/internal/server/middleware.go). Requests are atomic;
    expiry is decided by comparing RFC 3339 texts. */
module Idempotency {
  import opened Wrappers
  import opened Lexicographic
  import opened TimeText

  datatype Slot = Slot(key: Bytes, grantId: Bytes)

  // expiresAt is text, as stored.
  datatype Record = Record(payloadHash: Bytes, status: int, body: Bytes, expiresAt: Bytes)

  type Table = map<Slot, Record>

  // WHERE expires_at > ? does not hold.
  predicate TextExpired(expiresAt: Bytes, now: Bytes) {
    !Less(now, expiresAt)
  }

  datatype Lookup = Fresh | Replay(status: int, body: Bytes) | Conflict

  function LookupIn(table: Table, slot: Slot, payloadHash: Bytes, now: Bytes): Lookup {
    if slot !in table || TextExpired(table[slot].expiresAt, now) then Fresh
    else if table[slot].payloadHash != payloadHash then Conflict
    else Replay(table[slot].status, table[slot].body)
  }

  function EffectiveRetention(seconds: int): nat {
    if seconds <= 0 then 86400 else seconds
  }

  function Collected(table: Table, now: Bytes): Table {
    map slot | slot in table && !TextExpired(table[slot].expiresAt, now) :: table[slot]
  }

  // A request with the clock readings at its lookup and after its handler, and what the handler answers if
  // it runs; or a run of the garbage collector.
  datatype Event =
    | Request(slot: Slot, payloadHash: Bytes, now: Instant, done: Instant, status: int, body: Bytes)
    | Collect(now: Instant)
  {
    function End(): Instant { if Request? then done else now }
  }

  datatype Outcome = Rejected | Ran(status: int, body: Bytes) | Replayed(status: int, body: Bytes) | Conflicted | Swept

  predicate Success(status: int) { 200 <= status < 300 }

  // The configured retention and the printed form of an expiry.
  datatype Config = Config(retention: int, format: Instant -> Bytes)

  function RecordOf(e: Event, cfg: Config): Record
    requires e.Request?
  {
    Record(e.payloadHash, e.status, e.body, cfg.format(Expiry(e, cfg)))
  }

  function Expiry(e: Event, cfg: Config): Instant
    requires e.Request?
  {
    e.done.Plus(EffectiveRetention(cfg.retention))
  }

  function Handle(table: Table, e: Event, cfg: Config): (Table, Outcome) {
    match e
    case Collect(now) => (Collected(table, cfg.format(now)), Swept)
    case Request(slot, hash, now, done, status, body) =>
      if slot.key == "" || slot.grantId == "" then (table, Rejected)
      else match LookupIn(table, slot, hash, cfg.format(now)) {
        case Replay(s, b) => (table, Replayed(s, b))
        case Conflict => (table, Conflicted)
        case Fresh => (if Success(status) then table[slot := RecordOf(e, cfg)] else table, Ran(status, body))
      }
  }

  /** One request, in terms of its slot's row: refused without a key or a grant; answered from a row whose expiry text is above
      the clock's; otherwise run, and stored, exactly when the status is 200 to 299, until the retention after the handler. */
  lemma HandleIsExact(table: Table, e: Event, cfg: Config)
    requires e.Request?
    ensures var ((after, r), slot) := (Handle(table, e, cfg), e.slot);
            var live := slot in table && Less(cfg.format(e.now), table[slot].expiresAt);
            var kept: nat := if cfg.retention > 0 then cfg.retention else 86400;
            && (r == Rejected <==> slot.key == "" || slot.grantId == "")
            && (r != Rejected && live ==>
                  r == if table[slot].payloadHash == e.payloadHash then Replayed(table[slot].status, table[slot].body) else Conflicted)
            && (r != Rejected && !live ==> r == Ran(e.status, e.body))
            && after == if r != Rejected && !live && 200 <= e.status <= 299
                        then table[slot := Record(e.payloadHash, e.status, e.body, cfg.format(Instant(e.done.seconds + kept, e.done.nanos)))]
                        else table
  {
  }

  /** One sweep removes exactly the rows whose expiry text is not above the clock's. */
  lemma SweepIsExact(table: Table, now: Instant, cfg: Config, slot: Slot)
    ensures var after := Handle(table, Collect(now), cfg).0;
            && (slot in after <==> slot in table && Less(cfg.format(now), table[slot].expiresAt))
            && (slot in after ==> after[slot] == table[slot])
  {
  }

  // --- the store and the middleware ------------------------------------------------------------

  method BytesEqual(a: Bytes, b: Bytes) returns (equal: bool)
    ensures equal <==> a == b
  {
    if |a| != |b| {
      return false;
    }
    var i := 0;
    while i < |a|
      invariant i <= |a| && a[..i] == b[..i]
    {
      if a[i] != b[i] {
        return false;
      }
      i := i + 1;
    }
    return true;
  }

  class IdempotencyStore {
    const format: Instant -> Bytes  // nowRFC3339
    var table: Table

    constructor ()
      ensures table == map[] && format == Print
    {
      format := Print;
      table := map[];
    }

    method LookupIdempotency(slot: Slot, payloadHash: Bytes, now: Instant) returns (r: Option<Lookup>)
      ensures r.None? <==> slot.key == "" || slot.grantId == ""
      ensures r.Some? ==> r.value == LookupIn(table, slot, payloadHash, format(now))
    {
      if slot.key == "" || slot.grantId == "" {
        return None;
      }
      if slot !in table || TextExpired(table[slot].expiresAt, format(now)) {
        return Some(Fresh);
      }
      var equal := BytesEqual(table[slot].payloadHash, payloadHash);
      if !equal {
        return Some(Conflict);
      }
      return Some(Replay(table[slot].status, table[slot].body));
    }

    // INSERT OR REPLACE
    method PutIdempotency(slot: Slot, payloadHash: Bytes, status: int, body: Bytes, now: Instant, retentionSeconds: int)
      modifies this
      ensures var kept := if retentionSeconds > 0 then retentionSeconds else 86400;
              table == old(table)[slot := Record(payloadHash, status, body, format(Instant(now.seconds + kept, now.nanos)))]
    {
      var retention := if retentionSeconds <= 0 then 86400 else retentionSeconds;
      var expiresAt := now.Plus(retention);
      table := table[slot := Record(payloadHash, status, body, format(expiresAt))];
    }

    method DeleteExpiredIdempotency(now: Instant) returns (n: nat)
      modifies this
      ensures table == Collected(old(table), format(now)) && n == |old(table)| - |table|
    {
      var kept := Collected(table, format(now));
      KeptIsFewer(table, kept);
      n := |table| - |kept|;
      table := kept;
    }

    // The middleware around a handler that answers (status, body).
    method Serve(slot: Slot, payloadHash: Bytes, now: Instant, done: Instant, status: int, body: Bytes, retention: int) returns (r: Outcome)
      modifies this
      ensures (table, r) == Handle(old(table), Request(slot, payloadHash, now, done, status, body), Config(retention, format))
    {
      var found := LookupIdempotency(slot, payloadHash, now);
      if found.None? {
        return Rejected;
      }
      match found.value {
        case Replay(s, b) => return Replayed(s, b);
        case Conflict => return Conflicted;
        case Fresh =>
      }
      if status >= 200 && status < 300 {
        PutIdempotency(slot, payloadHash, status, body, done, retention);
      }
      return Ran(status, body);
    }
  }

  lemma {:induction false} KeptIsFewer(table: Table, kept: Table)
    requires kept.Keys <= table.Keys
    ensures |kept| <= |table|
    decreases |kept|
  {
    if kept != map[] {
      var slot :| slot in kept;
      var kept', table' := kept - {slot}, table - {slot};
      assert kept'.Keys == kept.Keys - {slot} && table'.Keys == table.Keys - {slot};
      assert |kept'.Keys| == |kept.Keys| - 1 && |table'.Keys| == |table.Keys| - 1;
      KeptIsFewer(table', kept');
    }
  }

  // --- runs ------------------------------------------------------------------------------------

  function Run(events: seq<Event>, cfg: Config): Table {
    if events == [] then map[] else Handle(Run(DropLast(events), cfg), Last(events), cfg).0
  }

  function OutcomeAt(events: seq<Event>, k: nat, cfg: Config): Outcome
    requires k < |events|
  {
    Handle(Run(events[..k], cfg), events[k], cfg).1
  }

  // The handler ran for request k and its response was stored.
  predicate Recorded(events: seq<Event>, k: nat, cfg: Config)
    requires k < |events|
  {
    events[k].Request? && OutcomeAt(events, k, cfg).Ran? && Success(events[k].status)
  }

  predicate NotAfter(a: Instant, b: Instant) {
    !Before(b, a)
  }

  // The clock does not step back, within or between events.
  predicate Clock(events: seq<Event>) {
    && (forall i :: 0 <= i < |events| ==> NotAfter(events[i].now, events[i].End()))
    && (forall i, j :: 0 <= i < j < |events| ==> NotAfter(events[i].End(), events[j].now))
  }

  // Every instant printed lies in years 0000 to 9999.
  ghost predicate Printable(events: seq<Event>, cfg: Config) {
    forall i :: 0 <= i < |events| ==>
      events[i].now.Valid() && (events[i].Request? ==> Expiry(events[i], cfg).Valid())
  }

  // The run can be extended to any sequence with the same start.
  lemma OutcomeOfPrefix(events: seq<Event>, n: nat, k: nat, cfg: Config)
    requires k < n <= |events|
    ensures OutcomeAt(events[..n], k, cfg) == OutcomeAt(events, k, cfg)
    ensures Recorded(events[..n], k, cfg) <==> Recorded(events, k, cfg)
  {
    assert events[..n][..k] == events[..k];
  }

  // The text order decides instants of different seconds.
  ghost predicate SecondsDecide(format: Instant -> Bytes) {
    forall a: Instant, b: Instant :: a.Valid() && b.Valid() && a.seconds != b.seconds ==>
      (Less(format(a), format(b)) <==> a.seconds < b.seconds)
  }

  lemma PrintedSecondsDecide()
    ensures SecondsDecide(Print)
  {
    forall a: Instant, b: Instant | a.Valid() && b.Valid() && a.seconds != b.seconds
      ensures Less(Print(a), Print(b)) <==> a.seconds < b.seconds
    {
      TextOrderIsTimeOrder(a, b);
    }
  }

  // Expiry as text never comes in a second before the expiry's own.
  lemma ExpiredSecond(e: Instant, now: Instant, format: Instant -> Bytes)
    requires e.Valid() && now.Valid() && SecondsDecide(format)
    ensures TextExpired(format(e), format(now)) ==> now.seconds >= e.seconds
    ensures now.seconds > e.seconds ==> TextExpired(format(e), format(now))
  {
  }

  predicate LastRecorded(events: seq<Event>, slot: Slot, i: nat, cfg: Config) {
    && i < |events| && Recorded(events, i, cfg) && events[i].slot == slot
    && forall k :: i < k < |events| && Recorded(events, k, cfg) ==> events[k].slot != slot
  }

  predicate NeverRecorded(events: seq<Event>, slot: Slot, cfg: Config) {
    forall k :: 0 <= k < |events| && Recorded(events, k, cfg) ==> events[k].slot != slot
  }

  // Reading g finds the row of recorded run i expired.
  predicate ReadsExpired(events: seq<Event>, i: nat, g: nat, cfg: Config)
    requires i < |events| && g < |events| && events[i].Request?
  {
    TextExpired(RecordOf(events[i], cfg).expiresAt, cfg.format(events[g].now))
  }

  // Some sweep after run i found its row expired.
  predicate SweptSince(events: seq<Event>, i: nat, cfg: Config)
    requires i < |events| && events[i].Request?
  {
    exists g :: i < g < |events| && events[g].Collect? && ReadsExpired(events, i, g, cfg)
  }

  // The row of a slot is that of its last recorded run, unless a sweep since found it expired; then there is none.
  predicate RowIs(table: Table, slot: Slot, row: Record, swept: bool) {
    (slot in table <==> !swept) && (slot in table ==> table[slot] == row)
  }

  ghost predicate RowExplained(events: seq<Event>, slot: Slot, cfg: Config) {
    && (NeverRecorded(events, slot, cfg) ==> slot !in Run(events, cfg))
    && (forall i: nat :: LastRecorded(events, slot, i, cfg) ==> RowIs(Run(events, cfg), slot, RecordOf(events[i], cfg), SweptSince(events, i, cfg)))
  }

  // Event e, handled in this table, records a run for the slot.
  predicate Records(table: Table, e: Event, slot: Slot, cfg: Config) {
    e.Request? && e.slot == slot && Handle(table, e, cfg).1.Ran? && Success(e.status)
  }

  lemma RecordedAtEnd(events: seq<Event>, slot: Slot, cfg: Config)
    requires events != []
    ensures var n, front := |events| - 1, DropLast(events);
            if Records(Run(front, cfg), events[n], slot, cfg)
            then LastRecorded(events, slot, n, cfg) && forall i: nat :: LastRecorded(events, slot, i, cfg) ==> i == n
            else (NeverRecorded(events, slot, cfg) ==> NeverRecorded(front, slot, cfg))
                 && forall i: nat :: LastRecorded(events, slot, i, cfg) ==> LastRecorded(front, slot, i, cfg)
  {
    var n, front := |events| - 1, DropLast(events);
    assert front == events[..n];
    forall k | 0 <= k < n ensures front[k] == events[k] && (Recorded(events, k, cfg) <==> Recorded(front, k, cfg)) {
      OutcomeOfPrefix(events, n, k, cfg);
    }
    if Records(Run(front, cfg), events[n], slot, cfg) {
      assert Recorded(events, n, cfg);
    } else {
      assert !(Recorded(events, n, cfg) && events[n].slot == slot);
    }
  }

  // What one event does to a slot's row.
  lemma HandleRow(table: Table, e: Event, slot: Slot, cfg: Config)
    ensures var after := Handle(table, e, cfg).0;
            if Records(table, e, slot, cfg) then slot in after && after[slot] == RecordOf(e, cfg)
            else && (slot in after <==> slot in table && !(e.Collect? && TextExpired(table[slot].expiresAt, cfg.format(e.now))))
                 && (slot in after ==> after[slot] == table[slot])
  {
  }

  lemma SweptStep(events: seq<Event>, i: nat, cfg: Config)
    requires i + 1 < |events| && events[i].Request?
    ensures SweptSince(events, i, cfg) <==>
            SweptSince(DropLast(events), i, cfg) || (Last(events).Collect? && ReadsExpired(events, i, |events| - 1, cfg))
  {
    var n, front := |events| - 1, DropLast(events);
    assert forall g :: i < g < n ==> front[g] == events[g] && (ReadsExpired(events, i, g, cfg) <==> ReadsExpired(front, i, g, cfg));
    if SweptSince(front, i, cfg) {
      var g :| i < g < n && front[g].Collect? && ReadsExpired(front, i, g, cfg);
      assert events[g].Collect? && ReadsExpired(events, i, g, cfg);
    }
  }

  lemma ExtendRow(events: seq<Event>, slot: Slot, cfg: Config, i: nat)
    requires events != [] && LastRecorded(DropLast(events), slot, i, cfg)
    requires RowIs(Run(DropLast(events), cfg), slot, RecordOf(events[i], cfg), SweptSince(DropLast(events), i, cfg))
    requires !Records(Run(DropLast(events), cfg), Last(events), slot, cfg)
    ensures RowIs(Run(events, cfg), slot, RecordOf(events[i], cfg), SweptSince(events, i, cfg))
  {
    SweptStep(events, i, cfg);
    HandleRow(Run(DropLast(events), cfg), Last(events), slot, cfg);
  }

  lemma ExtendExplanation(events: seq<Event>, slot: Slot, cfg: Config)
    requires events != [] && RowExplained(DropLast(events), slot, cfg)
    ensures RowExplained(events, slot, cfg)
  {
    var n, front := |events| - 1, DropLast(events);
    RecordedAtEnd(events, slot, cfg);
    HandleRow(Run(front, cfg), events[n], slot, cfg);
    if !Records(Run(front, cfg), events[n], slot, cfg) {
      forall i: nat | LastRecorded(events, slot, i, cfg)
        ensures RowIs(Run(events, cfg), slot, RecordOf(events[i], cfg), SweptSince(events, i, cfg))
      {
        ExtendRow(events, slot, cfg, i);
      }
    }
  }

  /** In every run, a slot's row is that of its last recorded handler run, and is gone exactly when a sweep since then
      found it expired; under any clock and any format. */
  lemma {:induction false} EveryRowIsExplained(events: seq<Event>, slot: Slot, cfg: Config)
    ensures RowExplained(events, slot, cfg)
  {
    if events != [] {
      EveryRowIsExplained(DropLast(events), slot, cfg);
      ExtendExplanation(events, slot, cfg);
    }
  }

  // Request j itself, or a sweep since run i, finds the row of run i expired.
  predicate FoundExpired(events: seq<Event>, i: nat, j: nat, cfg: Config)
    requires i < j < |events| && events[i].Request?
  {
    exists g :: i < g <= j && (g == j || events[g].Collect?) && ReadsExpired(events, i, g, cfg)
  }

  lemma SweptBefore(events: seq<Event>, i: nat, j: nat, cfg: Config)
    requires i < j < |events| && events[i].Request?
    ensures FoundExpired(events, i, j, cfg) <==> SweptSince(events[..j], i, cfg) || ReadsExpired(events, i, j, cfg)
  {
    var front := events[..j];
    assert forall g :: i < g < j ==> front[g] == events[g] && (ReadsExpired(events, i, g, cfg) <==> ReadsExpired(front, i, g, cfg));
    if SweptSince(front, i, cfg) {
      var g :| i < g < j && front[g].Collect? && ReadsExpired(front, i, g, cfg);
      assert events[g].Collect? && ReadsExpired(events, i, g, cfg);
    }
  }

  /** What a request gets whose slot's last recorded run before it is i: its handler runs exactly when it, or a sweep in
      between, finds that run's row expired; otherwise it gets the stored response or, for another payload, a conflict. */
  lemma AnswerIsExact(events: seq<Event>, i: nat, j: nat, cfg: Config)
    requires i < j < |events| && events[j].Request? && LastRecorded(events[..j], events[j].slot, i, cfg)
    ensures var e := events[j];
            OutcomeAt(events, j, cfg) == if FoundExpired(events, i, j, cfg) then Ran(e.status, e.body)
                                         else if events[i].payloadHash == e.payloadHash then Replayed(events[i].status, events[i].body)
                                         else Conflicted
  {
    var front, slot := events[..j], events[j].slot;
    EveryRowIsExplained(front, slot, cfg);
    assert front[i] == events[i];
    assert slot.key != "" && slot.grantId != "" by { assert OutcomeAt(front, i, cfg).Ran?; }
    SweptBefore(events, i, j, cfg);
    LookupOfRow(Run(front, cfg), slot, events[j].payloadHash, cfg.format(events[j].now), RecordOf(events[i], cfg), SweptSince(front, i, cfg));
  }

  lemma LookupOfRow(table: Table, slot: Slot, payloadHash: Bytes, now: Bytes, row: Record, swept: bool)
    requires RowIs(table, slot, row, swept)
    ensures LookupIn(table, slot, payloadHash, now) ==
            if swept || TextExpired(row.expiresAt, now) then Fresh
            else if row.payloadHash == payloadHash then Replay(row.status, row.body) else Conflict
  {
  }

  // An event that looks at the slot's row.
  predicate Looks(e: Event, slot: Slot) {
    e.Collect? || e.slot == slot
  }

  // The first look that finds run i's row expired, if there is one up to j.
  lemma {:induction false} NoRunBetween(events: seq<Event>, i: nat, j: nat, cfg: Config)
    requires i < j <= |events| && Recorded(events, i, cfg)
    requires forall g :: i < g < j && Looks(events[g], events[i].slot) ==> !ReadsExpired(events, i, g, cfg)
    ensures LastRecorded(events[..j], events[i].slot, i, cfg)
    decreases j
  {
    var front, slot := events[..j], events[i].slot;
    OutcomeOfPrefix(events, j, i, cfg);
    assert front[i] == events[i];
    forall k | i < k < j && Recorded(front, k, cfg) ensures front[k].slot != slot {
      if events[k].slot == slot {
        NoRunBetween(events, i, k, cfg);
        AnswerIsExact(events, i, k, cfg);
        OutcomeOfPrefix(events, j, k, cfg);
        assert false;
      }
    }
  }

  /** After a recorded run every request of its slot is answered without running its handler, with the stored response
      for the same payload and a conflict for another, as long as no sweep and no request of the slot, itself included,
      finds the row expired. */
  lemma RequestsBetweenAreAnswered(events: seq<Event>, i: nat, j: nat, cfg: Config)
    requires i < j < |events| && Recorded(events, i, cfg) && events[j].Request? && events[i].slot == events[j].slot
    requires forall g :: i < g <= j && Looks(events[g], events[i].slot) ==> !ReadsExpired(events, i, g, cfg)
    ensures OutcomeAt(events, j, cfg) ==
              if events[i].payloadHash == events[j].payloadHash then Replayed(events[i].status, events[i].body) else Conflicted
  {
    NoRunBetween(events, i, j, cfg);
    AnswerIsExact(events, i, j, cfg);
  }

  /** In particular, under a clock that does not step back, until the second of the expiry. */
  lemma RetentionHoldsInSeconds(events: seq<Event>, i: nat, j: nat, cfg: Config)
    requires SecondsDecide(cfg.format) && Clock(events) && Printable(events, cfg)
    requires i < j < |events| && Recorded(events, i, cfg) && events[j].Request? && events[i].slot == events[j].slot
    requires events[j].now.seconds < events[i].done.seconds + if cfg.retention > 0 then cfg.retention else 86400
    ensures OutcomeAt(events, j, cfg) ==
              if events[i].payloadHash == events[j].payloadHash then Replayed(events[i].status, events[i].body) else Conflicted
  {
    forall g | i < g <= j ensures !ReadsExpired(events, i, g, cfg) {
      assert g < j ==> NotAfter(events[g].now, events[g].End()) && NotAfter(events[g].End(), events[j].now);
      ExpiredSecond(Expiry(events[i], cfg), events[g].now, cfg.format);
    }
    RequestsBetweenAreAnswered(events, i, j, cfg);
  }

  /** Two recorded handler runs of one (key, grant) are the retention apart, in whole seconds, wherever the collector
      ran. */
  lemma RecordedRunsAreRetentionApart(events: seq<Event>, i: nat, j: nat, cfg: Config)
    requires SecondsDecide(cfg.format) && Clock(events) && Printable(events, cfg)
    requires i < j < |events| && Recorded(events, i, cfg) && Recorded(events, j, cfg) && events[i].slot == events[j].slot
    ensures cfg.retention > 0 ==> events[j].now.seconds >= events[i].done.seconds + cfg.retention
    ensures cfg.retention <= 0 ==> events[j].now.seconds >= events[i].done.seconds + 86400
  {
    if events[j].now.seconds < events[i].done.seconds + (if cfg.retention > 0 then cfg.retention else 86400) {
      RetentionHoldsInSeconds(events, i, j, cfg);
      assert false;
    }
  }

  /** And no longer: after the second of the expiry of its slot's last recorded run, a request runs its handler. */
  lemma RetentionEndsInSeconds(events: seq<Event>, i: nat, j: nat, cfg: Config)
    requires SecondsDecide(cfg.format) && Printable(events, cfg)
    requires i < j < |events| && events[j].Request? && LastRecorded(events[..j], events[j].slot, i, cfg)
    requires events[j].now.seconds > events[i].done.seconds + if cfg.retention > 0 then cfg.retention else 86400
    ensures OutcomeAt(events, j, cfg) == Ran(events[j].status, events[j].body)
  {
    assert events[..j][i] == events[i];
    ExpiredSecond(Expiry(events[i], cfg), events[j].now, cfg.format);
    assert ReadsExpired(events, i, j, cfg);
    AnswerIsExact(events, i, j, cfg);
  }

  /** A request with a key and a grant whose slot has no recorded run yet runs its handler. */
  lemma FirstRequestRuns(events: seq<Event>, j: nat, cfg: Config)
    requires j < |events| && events[j].Request? && events[j].slot.key != "" && events[j].slot.grantId != ""
    requires NeverRecorded(events[..j], events[j].slot, cfg)
    ensures OutcomeAt(events, j, cfg) == Ran(events[j].status, events[j].body)
  {
    EveryRowIsExplained(events[..j], events[j].slot, cfg);
  }

  // --- expiry as text --------------------------------------------------------------------------

  /** A row reads as expired exactly when its expiry has come, except that within the expiry's second the answer is
      inverted when one of the two fractions is a prefix of the other. */
  lemma TextExpiredExactly(expiry: Instant, now: Instant)
    requires expiry.Valid() && now.Valid()
    ensures TextExpired(Print(expiry), Print(now)) <==> (NotAfter(expiry, now) <==> !PrefixRelated(now, expiry))
  {
    TextOrderIsTimeOrder(now, expiry);
    if PrefixRelated(now, expiry) {
      FractionTextOrder(now.nanos, expiry.nanos);
    }
  }

  // A row with this expiry reads as expired at this moment.
  predicate ReadAsDue(expiry: Instant, now: Instant) {
    NotAfter(expiry, now) <==> !PrefixRelated(now, expiry)
  }

  /** The exact retention, to the nanosecond: if i is the slot's last recorded run before request j, then j's handler runs
      exactly when j or a sweep in between comes at a moment at which i's expiry reads as due. */
  lemma HandlerRunsWhenReadAsDue(events: seq<Event>, i: nat, j: nat, cfg: Config)
    requires cfg.format == Print && Printable(events, cfg)
    requires i < j < |events| && events[j].Request? && LastRecorded(events[..j], events[j].slot, i, cfg)
    ensures OutcomeAt(events, j, cfg).Ran? <==>
            exists g :: i < g <= j && (g == j || events[g].Collect?) && ReadAsDue(Expiry(events[i], cfg), events[g].now)
    ensures OutcomeAt(events, j, cfg).Ran? ==>
            exists g :: i < g <= j && (g == j || events[g].Collect?)
                        && (NotAfter(Expiry(events[i], cfg), events[g].now) || PrefixRelated(events[g].now, Expiry(events[i], cfg)))
  {
    assert events[..j][i] == events[i];
    AnswerIsExact(events, i, j, cfg);
    forall g | i < g <= j ensures ReadsExpired(events, i, g, cfg) <==> ReadAsDue(Expiry(events[i], cfg), events[g].now) {
      TextExpiredExactly(Expiry(events[i], cfg), events[g].now);
    }
    if OutcomeAt(events, j, cfg).Ran? {
      var g :| i < g <= j && (g == j || events[g].Collect?) && ReadsExpired(events, i, g, cfg);
      assert ReadAsDue(Expiry(events[i], cfg), events[g].now);
    }
  }

  lemma {:induction false} TrimUndoesZeros(f: Bytes, k: nat)
    requires f != "" ==> Last(f) != '0'
    ensures TrimZeros(f + Zeros(k)) == f
  {
    if k > 0 {
      TrimUndoesZeros(f, k - 1);
      assert DropLast(f + Zeros(k)) == f + Zeros(k - 1);
    } else {
      assert f + Zeros(0) == f;
    }
  }

  lemma {:induction false} PadOfZero(w: nat)
    ensures Pad(0, w) == Zeros(w)
  {
    if w > 0 {
      PadOfZero(w - 1);
    }
  }

  lemma PadTen(n: nat, w: nat)
    ensures Pad(10 * n, w + 1) == Pad(n, w) + ['0']
  {
    assert 10 * n / 10 == n && 10 * n % 10 == 0;
  }

  lemma TimesTen(d: nat, p: nat)
    ensures d * (10 * p) == 10 * (d * p)
  {
  }

  lemma {:induction false} PadTimesTen(d: nat, w: nat, n: nat)
    requires d < 10 && n == d * Pow10(w)
    ensures Pad(n, w + 1) == [DigitChar(d)] + Zeros(w)
  {
    if w == 0 {
      assert n == d && Pad(d / 10, 0) == "";
    } else {
      var m := d * Pow10(w - 1);
      TimesTen(d, Pow10(w - 1));
      PadTimesTen(d, w - 1, m);
      PadTen(m, w);
      assert Zeros(w) == Zeros(w - 1) + ['0'];
    }
  }

  lemma TenthsAsFraction(d: nat)
    requires d < 10
    ensures FractionDigits(d * 100_000_000) == if d == 0 then "" else [DigitChar(d)]
  {
    if d == 0 {
      PadOfZero(9);
      TrimUndoesZeros("", 9);
      assert "" + Zeros(9) == Zeros(9);
    } else {
      EightDigits();
      PadTimesTen(d, 8, d * 100_000_000);
      TrimUndoesZeros([DigitChar(d)], 8);
    }
  }

  lemma EightDigits()
    ensures Pow10(8) == 100_000_000
  {
    Widths();
    assert Pow10(6) == 1000000;
  }

  /** Expiring d tenths after a whole second, a row reads as expired on that second already and as live e < d tenths
      after it: a handler can run again up to a second early, and a sweep in between shows. */
  lemma EarlyExpiryExists(seconds: nat, d: nat, e: nat)
    requires InRange(seconds) && 0 < e < d < 10
    ensures var expiry, whole, later := Tenths(seconds, d), Tenths(seconds, 0), Tenths(seconds, e);
            && Before(whole, later) && Before(later, expiry)
            && TextExpired(Print(expiry), Print(whole)) && !TextExpired(Print(expiry), Print(later))
  {
    var expiry, whole, later := Tenths(seconds, d), Tenths(seconds, 0), Tenths(seconds, e);
    TenthsAsFraction(d);
    TenthsAsFraction(e);
    TenthsAsFraction(0);
    assert PrefixRelated(whole, expiry) by {
      assert ProperPrefix("", [DigitChar(d)]);
    }
    assert !PrefixRelated(later, expiry);
    TextExpiredExactly(expiry, whole);
    TextExpiredExactly(expiry, later);
  }

  function Tenths(seconds: nat, d: nat): Instant {
    Instant(seconds, d * 100_000_000)
  }

  // A successful request handled in no time.
  function InstantRequest(slot: Slot, payloadHash: Bytes, body: Bytes, at: Instant): Event {
    Request(slot, payloadHash, at, at, 200, body)
  }

  function RerunPair(slot: Slot, payloadHash: Bytes, body: Bytes, seconds: nat, d: nat): seq<Event> {
    [InstantRequest(slot, payloadHash, body, Tenths(seconds, d)), InstantRequest(slot, payloadHash, body, Tenths(seconds + 1, 0))]
  }

  // A second request that finds the first one's row expired is recorded too.
  lemma RerunIsRecorded(events: seq<Event>, cfg: Config)
    requires |events| == 2 && events[0].Request? && events[1].Request? && events[0].slot == events[1].slot
    requires events[0].slot.key != "" && events[0].slot.grantId != "" && Success(events[0].status) && Success(events[1].status)
    requires ReadsExpired(events, 0, 1, cfg)
    ensures Recorded(events, 0, cfg) && Recorded(events, 1, cfg)
  {
    FirstIsRecorded(events, cfg);
    AnswerIsExact(events, 0, 1, cfg);
  }

  lemma ReadsEarly(expiry: Instant, whole: Instant, seconds: nat, d: nat)
    requires InRange(seconds) && 1 < d < 10 && expiry == Tenths(seconds, d) && whole == Tenths(seconds, 0)
    ensures TextExpired(Print(expiry), Print(whole)) && Before(whole, expiry)
  {
    EarlyExpiryExists(seconds, d, 1);
  }

  lemma RerunPairReads(events: seq<Event>, seconds: nat, d: nat, cfg: Config)
    requires |events| == 2 && events[0].Request? && cfg.format == Print && cfg.retention == 1 && InRange(seconds + 1) && 1 < d < 10
    requires events[0].done == Tenths(seconds, d) && events[1].now == Tenths(seconds + 1, 0)
    ensures ReadsExpired(events, 0, 1, cfg) && Before(events[1].now, Expiry(events[0], cfg))
  {
    var expiry := Expiry(events[0], cfg);
    ReadsEarly(expiry, events[1].now, seconds + 1, d);
    assert RecordOf(events[0], cfg).expiresAt == cfg.format(expiry);
  }

  lemma RerunPairClock(events: seq<Event>, seconds: nat, d: nat)
    requires |events| == 2 && d < 10
    requires events[0].now == events[0].End() == Tenths(seconds, d) && events[1].now == events[1].End() == Tenths(seconds + 1, 0)
    ensures Clock(events)
  {
  }

  /** The failing run: with a retention of one second, a request d tenths after a second and one on the next second both
      run their handlers and are recorded, 1 - d/10 seconds apart. */
  lemma EarlyRerunExists(slot: Slot, payloadHash: Bytes, body: Bytes, seconds: nat, d: nat, cfg: Config)
    requires slot.key != "" && slot.grantId != "" && InRange(seconds + 1) && 1 < d < 10 && cfg == Config(1, Print)
    ensures var events := RerunPair(slot, payloadHash, body, seconds, d);
            && Clock(events) && Recorded(events, 0, cfg) && Recorded(events, 1, cfg)
            && Before(events[1].now, Expiry(events[0], cfg))
  {
    var events := RerunPair(slot, payloadHash, body, seconds, d);
    RerunPairClock(events, seconds, d);
    RerunPairReads(events, seconds, d, cfg);
    RerunIsRecorded(events, cfg);
  }

  // A run's first request finds nothing and is recorded.
  lemma FirstIsRecorded(events: seq<Event>, cfg: Config)
    requires |events| > 1 && events[0].Request? && events[0].slot.key != "" && events[0].slot.grantId != "" && Success(events[0].status)
    ensures Recorded(events, 0, cfg) && LastRecorded(events[..1], events[0].slot, 0, cfg)
    ensures Run(events[..1], cfg) == map[events[0].slot := RecordOf(events[0], cfg)]
  {
    assert events[..0] == [] && DropLast(events[..1]) == [] && Last(events[..1]) == events[0];
    assert OutcomeAt(events, 0, cfg).Ran?;
    OutcomeOfPrefix(events, 1, 0, cfg);
  }
}
