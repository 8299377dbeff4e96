/** The garbage collector of the idempotency table beside the same run without it: when its sweeps can be seen. */
module IdempotencyCollector {
  import opened Wrappers
  import opened Lexicographic
  import opened TimeText
  import opened Idempotency

  // The run with the collector switched off.
  function RunUncollected(events: seq<Event>, cfg: Config): Table {
    if events == [] then map[]
    else if Last(events).Collect? then RunUncollected(DropLast(events), cfg)
    else Handle(RunUncollected(DropLast(events), cfg), Last(events), cfg).0
  }

  function Swept(events: seq<Event>, n: nat, cfg: Config): Table
    requires n <= |events|
  {
    Run(events[..n], cfg)
  }

  function Full(events: seq<Event>, n: nat, cfg: Config): Table
    requires n <= |events|
  {
    RunUncollected(events[..n], cfg)
  }

  lemma Steps(events: seq<Event>, n: nat, cfg: Config)
    requires n < |events|
    ensures Swept(events, n + 1, cfg) == Handle(Swept(events, n, cfg), events[n], cfg).0
    ensures Full(events, n + 1, cfg) == if events[n].Collect? then Full(events, n, cfg) else Handle(Full(events, n, cfg), events[n], cfg).0
  {
    assert DropLast(events[..n + 1]) == events[..n] && Last(events[..n + 1]) == events[n];
  }

  predicate SameAnswer(events: seq<Event>, k: nat, cfg: Config)
    requires k < |events|
  {
    events[k].Request? ==> Handle(Swept(events, k, cfg), events[k], cfg).1 == Handle(Full(events, k, cfg), events[k], cfg).1
  }

  predicate SameAnswers(events: seq<Event>, n: nat, cfg: Config)
    requires n <= |events|
  {
    forall k :: 0 <= k < n ==> SameAnswer(events, k, cfg)
  }

  predicate Untouched(events: seq<Event>, slot: Slot, g: nat, n: nat, cfg: Config)
    requires n <= |events|
  {
    forall k :: g < k < n ==> !Records(Full(events, k, cfg), events[k], slot, cfg)
  }

  // Sweep g finds the slot's row expired, and no run rewrites it before n.
  predicate SweptAt(events: seq<Event>, slot: Slot, g: nat, n: nat, cfg: Config)
    requires n <= |events|
  {
    && g < n && events[g].Collect? && slot in Full(events, g, cfg)
    && TextExpired(Full(events, g, cfg)[slot].expiresAt, cfg.format(events[g].now))
    && Untouched(events, slot, g, n, cfg)
  }

  // The row sweep g finds expired reads as live again at request j.
  predicate Flickers(events: seq<Event>, g: nat, j: nat, cfg: Config)
    requires j < |events|
  {
    && events[j].Request? && events[j].slot.key != "" && events[j].slot.grantId != ""
    && SweptAt(events, events[j].slot, g, j, cfg)
    && !TextExpired(Full(events, g, cfg)[events[j].slot].expiresAt, cfg.format(events[j].now))
  }

  lemma FullRowStep(events: seq<Event>, slot: Slot, n: nat, cfg: Config)
    requires n < |events|
    ensures var before, after := Full(events, n, cfg), Full(events, n + 1, cfg);
            if Records(before, events[n], slot, cfg) then slot in after && after[slot] == RecordOf(events[n], cfg)
            else (slot in before <==> slot in after) && (slot in before ==> after[slot] == before[slot])
  {
    Steps(events, n, cfg);
    HandleRow(Full(events, n, cfg), events[n], slot, cfg);
  }

  lemma {:induction false} UntouchedRow(events: seq<Event>, slot: Slot, g: nat, n: nat, cfg: Config)
    requires g < n <= |events| && events[g].Collect? && slot in Full(events, g, cfg) && Untouched(events, slot, g, n, cfg)
    ensures slot in Full(events, n, cfg) && Full(events, n, cfg)[slot] == Full(events, g, cfg)[slot]
    decreases n
  {
    FullRowStep(events, slot, n - 1, cfg);
    if g < n - 1 {
      UntouchedRow(events, slot, g, n - 1, cfg);
    }
  }

  predicate RowsOf(swept: Table, full: Table) {
    forall slot :: slot in swept ==> slot in full && full[slot] == swept[slot]
  }

  // Same answers keep the swept table inside the full one.
  lemma {:induction false} SweptIsPartOfFull(events: seq<Event>, n: nat, cfg: Config)
    requires n <= |events| && SameAnswers(events, n, cfg)
    ensures RowsOf(Swept(events, n, cfg), Full(events, n, cfg))
  {
    if n > 0 {
      SweptIsPartOfFull(events, n - 1, cfg);
      assert SameAnswer(events, n - 1, cfg);
      Steps(events, n - 1, cfg);
    }
  }

  lemma {:induction false} SweptRowIsGone(events: seq<Event>, slot: Slot, g: nat, n: nat, cfg: Config)
    requires n <= |events| && SameAnswers(events, n, cfg) && SweptAt(events, slot, g, n, cfg)
    ensures slot !in Swept(events, n, cfg)
    decreases n
  {
    Steps(events, n - 1, cfg);
    assert SameAnswer(events, n - 1, cfg);
    if g == n - 1 {
      SweptIsPartOfFull(events, g, cfg);
    } else {
      assert !Records(Full(events, n - 1, cfg), events[n - 1], slot, cfg);
      SweptRowIsGone(events, slot, g, n - 1, cfg);
      HandleRow(Swept(events, n - 1, cfg), events[n - 1], slot, cfg);
    }
  }

  lemma RowVanishes(events: seq<Event>, slot: Slot, n: nat, cfg: Config)
    requires n < |events| && SameAnswers(events, n + 1, cfg)
    requires slot in Full(events, n + 1, cfg) && slot !in Swept(events, n + 1, cfg)
    ensures !Records(Full(events, n, cfg), events[n], slot, cfg) && slot in Full(events, n, cfg)
    ensures slot in Swept(events, n, cfg) ==> SweptAt(events, slot, n, n + 1, cfg)
  {
    Steps(events, n, cfg);
    FullRowStep(events, slot, n, cfg);
    HandleRow(Swept(events, n, cfg), events[n], slot, cfg);
    assert SameAnswer(events, n, cfg);
    SweptIsPartOfFull(events, n, cfg);
  }

  // A row only the full table has was swept and not rewritten.
  lemma {:induction false} MissingRowWasSwept(events: seq<Event>, slot: Slot, n: nat, cfg: Config) returns (g: nat)
    requires n <= |events| && SameAnswers(events, n, cfg)
    requires slot in Full(events, n, cfg) && slot !in Swept(events, n, cfg)
    ensures SweptAt(events, slot, g, n, cfg)
    decreases n
  {
    assert n > 0;
    RowVanishes(events, slot, n - 1, cfg);
    if slot in Swept(events, n - 1, cfg) {
      g := n - 1;
    } else {
      g := MissingRowWasSwept(events, slot, n - 1, cfg);
    }
  }

  lemma AnswerOf(swept: Table, full: Table, e: Event, cfg: Config)
    requires e.Request?
    requires (e.slot in swept && e.slot in full && swept[e.slot] == full[e.slot]) ||
             (e.slot !in swept && (e.slot in full ==> TextExpired(full[e.slot].expiresAt, cfg.format(e.now))))
    ensures Handle(swept, e, cfg).1 == Handle(full, e, cfg).1
  {
  }

  lemma {:induction false} UnseenUpTo(events: seq<Event>, n: nat, cfg: Config)
    requires n <= |events|
    requires forall g, j :: 0 <= g < j < n ==> !Flickers(events, g, j, cfg)
    ensures SameAnswers(events, n, cfg)
  {
    if n > 0 {
      var k, e := n - 1, events[n - 1];
      UnseenUpTo(events, k, cfg);
      SweptIsPartOfFull(events, k, cfg);
      if e.Request? && e.slot.key != "" && e.slot.grantId != "" {
        if e.slot in Full(events, k, cfg) && e.slot !in Swept(events, k, cfg) {
          var g := MissingRowWasSwept(events, e.slot, k, cfg);
          UntouchedRow(events, e.slot, g, k, cfg);
          assert !Flickers(events, g, k, cfg);
        }
        AnswerOf(Swept(events, k, cfg), Full(events, k, cfg), e, cfg);
      }
    }
  }

  /** The collector changes some answer exactly when a row that a sweep finds expired reads as live again at a later
      request of its slot; for any format and any clock. */
  lemma WhenSweepsShow(events: seq<Event>, cfg: Config)
    ensures SameAnswers(events, |events|, cfg) <==> forall g, j :: 0 <= g < j < |events| ==> !Flickers(events, g, j, cfg)
  {
    if SameAnswers(events, |events|, cfg) {
      forall g, j | 0 <= g < j < |events| ensures !Flickers(events, g, j, cfg) {
        if Flickers(events, g, j, cfg) {
          assert SameAnswer(events, j, cfg);
          SweptRowIsGone(events, events[j].slot, g, j, cfg);
          UntouchedRow(events, events[j].slot, g, j, cfg);
          assert false;
        }
      }
    } else if forall g, j :: 0 <= g < j < |events| ==> !Flickers(events, g, j, cfg) {
      UnseenUpTo(events, |events|, cfg);
    }
  }

  // Every stored expiry is the text of some request's expiry.
  lemma {:induction false} ExpiryOfRow(events: seq<Event>, slot: Slot, n: nat, cfg: Config) returns (i: nat)
    requires n <= |events| && slot in Full(events, n, cfg)
    ensures i < n && events[i].Request? && Full(events, n, cfg)[slot] == RecordOf(events[i], cfg)
    decreases n
  {
    assert n > 0;
    FullRowStep(events, slot, n - 1, cfg);
    if Records(Full(events, n - 1, cfg), events[n - 1], slot, cfg) {
      i := n - 1;
    } else {
      i := ExpiryOfRow(events, slot, n - 1, cfg);
    }
  }

  // No sweep falls into the second in which some row expires.
  predicate SweepsOutsideExpirySeconds(events: seq<Event>, cfg: Config) {
    forall i, g :: 0 <= i < g < |events| && events[i].Request? && events[g].Collect? ==>
      Expiry(events[i], cfg).seconds != events[g].now.seconds
  }

  /** Under a clock that does not step back the collector changes no answer, provided it does not run in the very
      second in which a row expires. */
  lemma CollectorIsInvisible(events: seq<Event>, cfg: Config)
    requires SecondsDecide(cfg.format) && Clock(events) && Printable(events, cfg)
    requires SweepsOutsideExpirySeconds(events, cfg)
    ensures SameAnswers(events, |events|, cfg)
  {
    forall g, j | 0 <= g < j < |events| ensures !Flickers(events, g, j, cfg) {
      if Flickers(events, g, j, cfg) {
        var i := ExpiryOfRow(events, events[j].slot, g, cfg);
        assert NotAfter(events[g].End(), events[j].now);
        ExpiredSecond(Expiry(events[i], cfg), events[g].now, cfg.format);
        ExpiredSecond(Expiry(events[i], cfg), events[j].now, cfg.format);
        assert false;
      }
    }
    WhenSweepsShow(events, cfg);
  }

  // A request, a sweep that finds its row expired, and the slot's request again that does not.
  lemma SweepBetween(events: seq<Event>, cfg: Config)
    requires |events| == 3 && events[0].Request? && events[1].Collect? && events[2].Request? && events[0].slot == events[2].slot
    requires events[0].slot.key != "" && events[0].slot.grantId != "" && Success(events[0].status)
    requires ReadsExpired(events, 0, 1, cfg) && !ReadsExpired(events, 0, 2, cfg)
    ensures !SameAnswers(events, |events|, cfg)
  {
    assert events[..0] == [] && Full(events, 0, cfg) == map[];
    Steps(events, 0, cfg);
    assert Full(events, 1, cfg) == map[events[0].slot := RecordOf(events[0], cfg)];
    assert Flickers(events, 1, 2, cfg);
    WhenSweepsShow(events, cfg);
  }

  function SweptRun(slot: Slot, payloadHash: Bytes, body: Bytes, seconds: nat, d: nat, e: nat): seq<Event> {
    [InstantRequest(slot, payloadHash, body, Tenths(seconds, d)), Collect(Tenths(seconds + 1, 0)),
     InstantRequest(slot, payloadHash, body, Tenths(seconds + 1, e))]
  }

  lemma SweptRunReads(events: seq<Event>, seconds: nat, d: nat, e: nat, cfg: Config)
    requires |events| == 3 && events[0].Request? && cfg == Config(1, Print) && InRange(seconds + 1) && 0 < e < d < 10
    requires events[0].done == Tenths(seconds, d) && events[1].now == Tenths(seconds + 1, 0) && events[2].now == Tenths(seconds + 1, e)
    ensures ReadsExpired(events, 0, 1, cfg) && !ReadsExpired(events, 0, 2, cfg)
  {
    EarlyExpiryExists(seconds + 1, d, e);
    assert Expiry(events[0], cfg) == Tenths(seconds + 1, d);
  }

  lemma SweptRunClock(events: seq<Event>, seconds: nat, d: nat, e: nat)
    requires |events| == 3 && events[0].now == events[0].End() == Tenths(seconds, d) && d < 10
    requires events[1].now == events[1].End() == Tenths(seconds + 1, 0) && events[2].now == events[2].End() == Tenths(seconds + 1, e)
    ensures Clock(events)
  {
  }

  /** A run it does change: with a retention of one second, a request d tenths after a second, a sweep on the next second and
      the request again e < d tenths later. Without the sweep the second is a replay; with it the handler runs again. */
  lemma VisibleSweepExists(slot: Slot, payloadHash: Bytes, body: Bytes, seconds: nat, d: nat, e: nat, cfg: Config)
    requires slot.key != "" && slot.grantId != "" && InRange(seconds + 1) && 0 < e < d < 10 && cfg == Config(1, Print)
    ensures var events := SweptRun(slot, payloadHash, body, seconds, d, e); Clock(events) && !SameAnswers(events, |events|, cfg)
  {
    var events := SweptRun(slot, payloadHash, body, seconds, d, e);
    SweptRunClock(events, seconds, d, e);
    SweptRunReads(events, seconds, d, e, cfg);
    SweepBetween(events, cfg);
  }
}
