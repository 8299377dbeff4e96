/** Two Hubs that exchange their logs end with the same events (nakli-hub/internal/storage/sync.go,
    nakli-hub/internal/server/handlers_stub.go). */
module Convergence {
  import opened Wrappers
  import opened EventLog
  import opened HashChain
  import opened PeerSync

  function IdSet(events: seq<Event>): set<Bytes> {
    set i | 0 <= i < |events| :: events[i].eventId
  }

  // Events two Hubs have in common lie in the same stream.
  predicate SameIdSameStream(a: seq<Event>, b: seq<Event>) {
    forall i, j :: 0 <= i < |a| && 0 <= j < |b| && a[i].eventId == b[j].eventId ==> a[i].key == b[j].key
  }

  ghost predicate AllPortable(h: Hash, c: Codec, sender: Sender, events: seq<Event>) {
    forall i :: 0 <= i < |events| ==> Portable(h, c, events[i]) && sender.MaySpeakFor(events[i].principal)
  }

  // The push loop's checks let the event through, as it comes out of a pull.
  predicate Takes(h: Hash, c: Codec, sender: Sender, e: Event) {
    Screen(h, c, sender, ToWire(c, e)).Ok?
  }

  function TakenIds(h: Hash, c: Codec, sender: Sender, events: seq<Event>): set<Bytes> {
    set i | 0 <= i < |events| && Takes(h, c, sender, events[i]) :: events[i].eventId
  }

  lemma HasIdIsMembership(events: seq<Event>, id: Bytes)
    ensures HasId(events, id) <==> id in IdSet(events)
  {
  }

  lemma IdsOfAppend(events: seq<Event>, e: Event)
    ensures IdSet(events + [e]) == IdSet(events) + {e.eventId}
  {
    var all := events + [e];
    forall id ensures id in IdSet(all) <==> id in IdSet(events) + {e.eventId} {
      if id in IdSet(events) {
        var i :| 0 <= i < |events| && events[i].eventId == id;
        assert all[i].eventId == id;
      }
      assert all[|events|] == e;
    }
  }

  // --- one direction ---------------------------------------------------------------------------

  lemma TakenOfAppend(h: Hash, c: Codec, sender: Sender, events: seq<Event>, e: Event)
    ensures TakenIds(h, c, sender, events + [e]) == TakenIds(h, c, sender, events) + if Takes(h, c, sender, e) then {e.eventId} else {}
  {
    var all := events + [e];
    forall id ensures id in TakenIds(h, c, sender, all) <==>
                      id in TakenIds(h, c, sender, events) || (Takes(h, c, sender, e) && id == e.eventId)
    {
      if id in TakenIds(h, c, sender, events) {
        var i :| 0 <= i < |events| && Takes(h, c, sender, events[i]) && events[i].eventId == id;
        assert all[i] == events[i];
      }
      assert all[|events|] == e;
    }
  }

  lemma PushOneDelivers(h: Hash, c: Codec, sender: Sender, db: Db, e: Event)
    requires LogInvariant(db)
    ensures IdSet(PushOne(h, c, sender, db, ToWire(c, e)).events) ==
            IdSet(db.events) + if Takes(h, c, sender, e) then {e.eventId} else {}
  {
    PushOneInserts(h, c, sender, db, ToWire(c, e));
    HasIdIsMembership(db.events, e.eventId);
    if Accepts(h, c, sender, db, ToWire(c, e)) {
      var row := Screen(h, c, sender, ToWire(c, e)).value.Row();
      IdsOfAppend(db.events, Numbered(db, row));
    } else if Takes(h, c, sender, e) {
      assert IdSet(db.events) + {e.eventId} == IdSet(db.events);
    }
  }

  // One more pulled event in a push.
  lemma PushAllNext(h: Hash, c: Codec, sender: Sender, db: Db, front: seq<Event>, e: Event)
    ensures var before := PushAll(h, c, sender, db, Wires(c, front));
            && PushAll(h, c, sender, db, Wires(c, front + [e])) == PushOne(h, c, sender, before, ToWire(c, e))
            && AcceptedCount(h, c, sender, db, Wires(c, front + [e])) ==
               AcceptedCount(h, c, sender, db, Wires(c, front)) + if Accepts(h, c, sender, before, ToWire(c, e)) then 1 else 0
  {
    assert DropLast(Wires(c, front + [e])) == Wires(c, front);
  }

  // The receiver's ids after a push are its own and those of the events taken.
  lemma {:induction false} PushAddsTaken(h: Hash, c: Codec, sender: Sender, events: seq<Event>, db: Db)
    requires LogInvariant(db)
    ensures IdSet(PushAll(h, c, sender, db, Wires(c, events)).events) == IdSet(db.events) + TakenIds(h, c, sender, events)
  {
    if events == [] {
      assert TakenIds(h, c, sender, events) == {};
    } else {
      var front, e := DropLast(events), Last(events);
      assert events == front + [e];
      var before := PushAll(h, c, sender, db, Wires(c, front));
      PushAddsTaken(h, c, sender, front, db);
      PushKeepsInvariant(h, c, sender, db, Wires(c, front));
      PushOneDelivers(h, c, sender, before, e);
      PushAllNext(h, c, sender, db, front, e);
      TakenOfAppend(h, c, sender, front, e);
    }
  }

  lemma OnlySentIds(h: Hash, c: Codec, sender: Sender, events: seq<Event>)
    ensures TakenIds(h, c, sender, events) <= IdSet(events)
  {
  }

  lemma TakenCount(had: set<Bytes>, taken: set<Bytes>, sent: set<Bytes>)
    requires taken <= sent
    ensures |had + taken| == |had| + |taken - had|
    ensures |sent - (had + taken)| == |sent - had| - |taken - had|
  {
    assert had + taken == had + (taken - had);
    assert sent - (had + taken) == (sent - had) - (taken - had) && taken - had <= sent - had;
  }

  /** Pushing any log to any Hub adds exactly the ids of the events its checks take; the number accepted is the number of
      those it was missing, and the ids of the log it still misses shrink by just that number. */
  lemma PushDelivers(h: Hash, c: Codec, sender: Sender, events: seq<Event>, db: Db)
    requires LogInvariant(db)
    ensures var after, accepted := PushAll(h, c, sender, db, Wires(c, events)), AcceptedCount(h, c, sender, db, Wires(c, events));
            && IdSet(after.events) == IdSet(db.events) + TakenIds(h, c, sender, events)
            && accepted == |TakenIds(h, c, sender, events) - IdSet(db.events)|
            && |IdSet(events) - IdSet(after.events)| == |IdSet(events) - IdSet(db.events)| - accepted
  {
    var after, taken := PushAll(h, c, sender, db, Wires(c, events)), TakenIds(h, c, sender, events);
    PushAddsTaken(h, c, sender, events, db);
    PushKeepsInvariant(h, c, sender, db, Wires(c, events));
    DistinctIds(db.events);
    DistinctIds(after.events);
    OnlySentIds(h, c, sender, events);
    TakenCount(IdSet(db.events), taken, IdSet(events));
  }

  // Every row after a push was there before or stands for a pushed event of the same id and stream.
  predicate ComesFrom(row: Event, kept: seq<Event>, pushed: seq<Event>) {
    || (exists i :: 0 <= i < |kept| && kept[i] == row)
    || (exists j :: 0 <= j < |pushed| && pushed[j].eventId == row.eventId && pushed[j].key == row.key)
  }

  lemma PushOneKeepsRows(h: Hash, c: Codec, sender: Sender, db: Db, e: Event)
    requires LogInvariant(db)
    ensures var after := PushOne(h, c, sender, db, ToWire(c, e));
            && LogInvariant(after)
            && (after == db || (|after.events| == |db.events| + 1 && db.events <= after.events
                                && Last(after.events).eventId == e.eventId && Last(after.events).key == e.key))
  {
    PushOneInserts(h, c, sender, db, ToWire(c, e));
  }

  ghost predicate RowsKept(after: Db, kept: seq<Event>, pushed: seq<Event>) {
    && LogInvariant(after) && kept <= after.events
    && forall k :: 0 <= k < |after.events| ==> ComesFrom(after.events[k], kept, pushed)
  }

  lemma KeepNext(h: Hash, c: Codec, sender: Sender, before: Db, kept: seq<Event>, front: seq<Event>, e: Event)
    requires RowsKept(before, kept, front)
    ensures RowsKept(PushOne(h, c, sender, before, ToWire(c, e)), kept, front + [e])
  {
    var after := PushOne(h, c, sender, before, ToWire(c, e));
    PushOneKeepsRows(h, c, sender, before, e);
    forall k | 0 <= k < |after.events| ensures ComesFrom(after.events[k], kept, front + [e]) {
      if k < |before.events| {
        assert after.events[k] == before.events[k];
        assert ComesFrom(before.events[k], kept, front);
        WidenOrigin(before.events[k], kept, front, e);
      } else {
        assert after.events[k] == Last(after.events);
        assert (front + [e])[|front|] == e;
      }
    }
  }

  lemma {:induction false} PushKeepsRows(h: Hash, c: Codec, sender: Sender, events: seq<Event>, db: Db)
    requires LogInvariant(db)
    ensures RowsKept(PushAll(h, c, sender, db, Wires(c, events)), db.events, events)
  {
    if events != [] {
      var front, e := DropLast(events), Last(events);
      assert events == front + [e];
      PushKeepsRows(h, c, sender, front, db);
      PushAllNext(h, c, sender, db, front, e);
      KeepNext(h, c, sender, PushAll(h, c, sender, db, Wires(c, front)), db.events, front, e);
    }
  }

  lemma WidenOrigin(row: Event, kept: seq<Event>, front: seq<Event>, e: Event)
    requires ComesFrom(row, kept, front)
    ensures ComesFrom(row, kept, front + [e])
  {
    if !(exists i :: 0 <= i < |kept| && kept[i] == row) {
      var j :| 0 <= j < |front| && front[j].eventId == row.eventId && front[j].key == row.key;
      assert (front + [e])[j] == front[j];
    }
  }

  // --- the exchange ----------------------------------------------------------------------------

  lemma {:induction false} DistinctIds(rows: seq<Event>)
    requires UniqueIds(rows)
    ensures |IdSet(rows)| == |rows|
  {
    if rows != [] {
      var front, e := DropLast(rows), Last(rows);
      DistinctIds(front);
      assert rows == front + [e];
      IdsOfAppend(front, e);
      assert forall i :: 0 <= i < |front| ==> front[i].eventId != e.eventId;
    }
  }

  lemma StreamIds(events: seq<Event>, key: StreamKey)
    requires UniqueIds(events)
    ensures forall id :: id in IdSet(Stream(events, key)) <==> exists i :: 0 <= i < |events| && events[i].key == key && events[i].eventId == id
    ensures |IdSet(Stream(events, key))| == |Stream(events, key)|
  {
    var rows := Stream(events, key);
    StreamHasUniqueIds(events, key);
    DistinctIds(rows);
    StreamMembers(events, key);
    forall id ensures id in IdSet(rows) <==> exists i :: 0 <= i < |events| && events[i].key == key && events[i].eventId == id {
      if id in IdSet(rows) {
        var k :| 0 <= k < |rows| && rows[k].eventId == id;
        assert rows[k] in events;
      }
      if i :| 0 <= i < |events| && events[i].key == key && events[i].eventId == id {
        assert events[i] in rows;
      }
    }
  }

  lemma SameIdsSameCounts(a: Db, b: Db, key: StreamKey)
    requires LogInvariant(a) && LogInvariant(b)
    requires IdSet(a.events) == IdSet(b.events) && SameIdSameStream(a.events, b.events)
    ensures |Stream(a.events, key)| == |Stream(b.events, key)|
  {
    StreamIds(a.events, key);
    StreamIds(b.events, key);
    forall id ensures id in IdSet(Stream(a.events, key)) <==> id in IdSet(Stream(b.events, key)) {
      if id in IdSet(a.events) {
        var i :| 0 <= i < |a.events| && a.events[i].eventId == id;
        var j :| 0 <= j < |b.events| && b.events[j].eventId == id;
        assert a.events[i].key == b.events[j].key;
        assert UniqueIds(a.events) && UniqueIds(b.events);
      }
    }
    assert IdSet(Stream(a.events, key)) == IdSet(Stream(b.events, key));
  }

  lemma OriginsAgree(a: seq<Event>, b: seq<Event>, b': seq<Event>, a': seq<Event>)
    requires SameIdSameStream(a, b) && UniqueIds(a) && UniqueIds(b')
    requires forall k :: 0 <= k < |b'| ==> ComesFrom(b'[k], b, a)
    requires forall k :: 0 <= k < |a'| ==> ComesFrom(a'[k], a, b')
    ensures SameIdSameStream(a', b')
  {
    forall i, j | 0 <= i < |a'| && 0 <= j < |b'| && a'[i].eventId == b'[j].eventId ensures a'[i].key == b'[j].key {
      assert ComesFrom(a'[i], a, b') && ComesFrom(b'[j], b, a);
      if m :| 0 <= m < |a| && a[m] == a'[i] {
        if n :| 0 <= n < |b| && b[n] == b'[j] {
          assert a[m].key == b[n].key;
        } else {
          var n :| 0 <= n < |a| && a[n].eventId == b'[j].eventId && a[n].key == b'[j].key;
          assert m == n;
        }
      } else {
        var n :| 0 <= n < |b'| && b'[n].eventId == a'[i].eventId && b'[n].key == a'[i].key;
        assert n == j;
      }
    }
  }

  // The state of both Hubs after A's log went to B and then B's log to A. Each Hub judges a push by its own switch and the
  // peer's principal: toB is A as B sees it, toA is B as A sees it.
  function Exchange(h: Hash, c: Codec, toB: Sender, toA: Sender, a: Db, b: Db): (Db, Db) {
    var b' := PushAll(h, c, toB, b, Wires(c, a.events));
    (PushAll(h, c, toA, a, Wires(c, b'.events)), b')
  }

  // The receiver has the event or its push loop lets it through: a check on the two logs, before any push.
  predicate NewsTaken(h: Hash, c: Codec, sender: Sender, events: seq<Event>, db: Db) {
    forall i :: 0 <= i < |events| ==> events[i].eventId in IdSet(db.events) || Takes(h, c, sender, events[i])
  }

  predicate Exchangeable(h: Hash, c: Codec, toB: Sender, toA: Sender, a: Db, b: Db) {
    NewsTaken(h, c, toB, a.events, b) && NewsTaken(h, c, toA, b.events, a)
  }

  // Everything sent is known or taken exactly when the receiver ends with every id sent.
  lemma DeliveredExactly(h: Hash, c: Codec, sender: Sender, events: seq<Event>, db: Db)
    requires UniqueIds(events)
    ensures NewsTaken(h, c, sender, events, db) <==> IdSet(events) <= IdSet(db.events) + TakenIds(h, c, sender, events)
  {
    if IdSet(events) <= IdSet(db.events) + TakenIds(h, c, sender, events) {
      forall i | 0 <= i < |events| ensures events[i].eventId in IdSet(db.events) || Takes(h, c, sender, events[i]) {
        assert events[i].eventId in IdSet(events);
        if events[i].eventId in TakenIds(h, c, sender, events) {
          var j :| 0 <= j < |events| && Takes(h, c, sender, events[j]) && events[j].eventId == events[i].eventId;
          assert j == i;
        }
      }
    }
  }

  // A's own ids aside, what B sends back is what B had.
  lemma SentBack(h: Hash, c: Codec, toA: Sender, a: Db, b: Db, b': Db)
    requires RowsKept(b', b.events, a.events)
    ensures NewsTaken(h, c, toA, b'.events, a) <==> NewsTaken(h, c, toA, b.events, a)
  {
    assert forall i :: 0 <= i < |b.events| ==> b'.events[i] == b.events[i];
    if NewsTaken(h, c, toA, b.events, a) {
      forall k | 0 <= k < |b'.events| ensures b'.events[k].eventId in IdSet(a.events) || Takes(h, c, toA, b'.events[k]) {
        assert ComesFrom(b'.events[k], b.events, a.events);
        if i :| 0 <= i < |b.events| && b.events[i] == b'.events[k] {
          assert b.events[i].eventId in IdSet(a.events) || Takes(h, c, toA, b.events[i]);
        }
      }
    }
  }

  /** After an exchange of any two logs both Hubs hold the same ids exactly when each side's checks take every event the
      other has and it lacks; those are then the ids either had. */
  lemma ExchangeConvergesExactly(h: Hash, c: Codec, toB: Sender, toA: Sender, a: Db, b: Db)
    requires LogInvariant(a) && LogInvariant(b)
    ensures var (a', b') := Exchange(h, c, toB, toA, a, b);
            && (IdSet(a'.events) == IdSet(b'.events) <==> Exchangeable(h, c, toB, toA, a, b))
            && (Exchangeable(h, c, toB, toA, a, b) ==> IdSet(a'.events) == IdSet(a.events) + IdSet(b.events))
  {
    var (a', b') := Exchange(h, c, toB, toA, a, b);
    PushAddsTaken(h, c, toB, a.events, b);
    PushKeepsRows(h, c, toB, a.events, b);
    PushAddsTaken(h, c, toA, b'.events, a);
    DeliveredExactly(h, c, toB, a.events, b);
    DeliveredExactly(h, c, toA, b'.events, a);
    SentBack(h, c, toA, a, b, b');
    OnlySentIds(h, c, toB, a.events);
    OnlySentIds(h, c, toA, b'.events);
  }

  lemma ExchangeKeepsRows(h: Hash, c: Codec, toB: Sender, toA: Sender, a: Db, b: Db)
    requires LogInvariant(a) && LogInvariant(b)
    ensures var (a', b') := Exchange(h, c, toB, toA, a, b);
            && RowsKept(b', b.events, a.events) && RowsKept(a', a.events, b'.events)
            && (SameIdSameStream(a.events, b.events) ==> SameIdSameStream(a'.events, b'.events))
  {
    PushKeepsRows(h, c, toB, a.events, b);
    var b' := PushAll(h, c, toB, b, Wires(c, a.events));
    PushKeepsRows(h, c, toA, b'.events, a);
    if SameIdSameStream(a.events, b.events) {
      OriginsAgree(a.events, b.events, b'.events, PushAll(h, c, toA, a, Wires(c, b'.events)).events);
    }
  }

  lemma ExchangeDelivers(h: Hash, c: Codec, toB: Sender, toA: Sender, a: Db, b: Db)
    requires LogInvariant(a) && LogInvariant(b) && Exchangeable(h, c, toB, toA, a, b)
    ensures var (a', b') := Exchange(h, c, toB, toA, a, b);
            && IdSet(a'.events) == IdSet(b'.events) == IdSet(a.events) + IdSet(b.events)
            && AcceptedCount(h, c, toB, b, Wires(c, a.events)) == |IdSet(a.events) - IdSet(b.events)|
            && AcceptedCount(h, c, toA, a, Wires(c, b'.events)) == |IdSet(b.events) - IdSet(a.events)|
  {
    var (a', b') := Exchange(h, c, toB, toA, a, b);
    ExchangeConvergesExactly(h, c, toB, toA, a, b);
    PushDelivers(h, c, toB, a.events, b);
    PushKeepsInvariant(h, c, toB, b, Wires(c, a.events));
    PushDelivers(h, c, toA, b'.events, a);
    OnlySentIds(h, c, toB, a.events);
    OnlySentIds(h, c, toA, b'.events);
    assert TakenIds(h, c, toB, a.events) - IdSet(b.events) == IdSet(a.events) - IdSet(b.events);
    assert TakenIds(h, c, toA, b'.events) - IdSet(a.events) == IdSet(b.events) - IdSet(a.events);
  }

  /** A full A-to-B then B-to-A exchange in which every missing event is taken leaves both Hubs with all the events either
      had and with the same count in every stream; each direction accepts exactly what the receiver was missing. */
  lemma ExchangeConverges(h: Hash, c: Codec, toB: Sender, toA: Sender, a: Db, b: Db, key: StreamKey)
    requires LogInvariant(a) && LogInvariant(b) && Exchangeable(h, c, toB, toA, a, b) && SameIdSameStream(a.events, b.events)
    ensures var (a', b') := Exchange(h, c, toB, toA, a, b);
            && IdSet(a'.events) == IdSet(b'.events) == IdSet(a.events) + IdSet(b.events)
            && AcceptedCount(h, c, toB, b, Wires(c, a.events)) == |IdSet(a.events) - IdSet(b.events)|
            && AcceptedCount(h, c, toA, a, Wires(c, b'.events)) == |IdSet(b.events) - IdSet(a.events)|
            && (key in a'.streams <==> key in b'.streams)
            && (key in a'.streams ==> a'.streams[key].eventCount == b'.streams[key].eventCount)
  {
    var (a', b') := Exchange(h, c, toB, toA, a, b);
    ExchangeDelivers(h, c, toB, toA, a, b);
    ExchangeKeepsRows(h, c, toB, toA, a, b);
    SameIdsSameCounts(a', b', key);
    CountsAgree(a', key);
    CountsAgree(b', key);
  }

  lemma CountsAgree(db: Db, key: StreamKey)
    requires LogInvariant(db)
    ensures key in db.streams <==> |Stream(db.events, key)| > 0
    ensures key in db.streams ==> db.streams[key].eventCount == |Stream(db.events, key)|
  {
    assert StreamAgrees(db, key);
  }

  /** After an exchange of any two logs a further round accepts nothing and changes nothing, refused events included. */
  lemma ExchangeIsIdempotent(h: Hash, c: Codec, toB: Sender, toA: Sender, a: Db, b: Db)
    requires LogInvariant(a) && LogInvariant(b)
    ensures var (a', b') := Exchange(h, c, toB, toA, a, b);
            && AcceptedCount(h, c, toB, b', Wires(c, a'.events)) == 0
            && AcceptedCount(h, c, toA, a', Wires(c, b'.events)) == 0
            && Exchange(h, c, toB, toA, a', b') == (a', b')
  {
    var (a', b') := Exchange(h, c, toB, toA, a, b);
    ExchangeKeepsRows(h, c, toB, toA, a, b);
    PushAddsTaken(h, c, toB, a.events, b);
    PushAddsTaken(h, c, toA, b'.events, a);
    TakenIsKnown(h, c, toB, a', a.events, b');
    TakenKnownChangesNothing(h, c, toB, a'.events, b');
    forall k | 0 <= k < |b'.events| && Takes(h, c, toA, b'.events[k]) ensures b'.events[k].eventId in IdSet(a'.events) {
      assert b'.events[k].eventId in TakenIds(h, c, toA, b'.events);
    }
    TakenKnownChangesNothing(h, c, toA, b'.events, a');
  }

  // What A has after the exchange is its own log, pushed before, or came from B.
  lemma TakenIsKnown(h: Hash, c: Codec, toB: Sender, a': Db, kept: seq<Event>, b': Db)
    requires RowsKept(a', kept, b'.events) && TakenIds(h, c, toB, kept) <= IdSet(b'.events)
    ensures forall k :: 0 <= k < |a'.events| && Takes(h, c, toB, a'.events[k]) ==> a'.events[k].eventId in IdSet(b'.events)
  {
    forall k | 0 <= k < |a'.events| && Takes(h, c, toB, a'.events[k]) ensures a'.events[k].eventId in IdSet(b'.events) {
      assert ComesFrom(a'.events[k], kept, b'.events);
      if i :| 0 <= i < |kept| && kept[i] == a'.events[k] {
        assert kept[i].eventId in TakenIds(h, c, toB, kept);
      }
    }
  }

  lemma {:induction false} TakenKnownChangesNothing(h: Hash, c: Codec, sender: Sender, events: seq<Event>, db: Db)
    requires LogInvariant(db)
    requires forall k :: 0 <= k < |events| && Takes(h, c, sender, events[k]) ==> events[k].eventId in IdSet(db.events)
    ensures PushAll(h, c, sender, db, Wires(c, events)) == db
    ensures AcceptedCount(h, c, sender, db, Wires(c, events)) == 0
  {
    if events != [] {
      var front, e := DropLast(events), Last(events);
      assert events == front + [e] && events[|front|] == e;
      assert forall k :: 0 <= k < |front| ==> front[k] == events[k];
      TakenKnownChangesNothing(h, c, sender, front, db);
      PushAllNext(h, c, sender, db, front, e);
      HasIdIsMembership(db.events, e.eventId);
      PushOneInserts(h, c, sender, db, ToWire(c, e));
    }
  }

  // --- logs that do not converge ---------------------------------------------------------------

  lemma RefusedStaysHome(h: Hash, c: Codec, toB: Sender, toA: Sender, a: Db)
    requires LogInvariant(a) && |a.events| == 1 && !Takes(h, c, toB, a.events[0])
    ensures Exchange(h, c, toB, toA, a, EMPTY_DB) == (a, EMPTY_DB)
    ensures IdSet(a.events) == {a.events[0].eventId} && IdSet(EMPTY_DB.events) == {}
  {
    TakenKnownChangesNothing(h, c, toB, a.events, EMPTY_DB);
    assert Wires(c, EMPTY_DB.events) == [];
  }

  /** A revocation, appended with dependencies "", stays on the Hub that made it: no exchange with an empty Hub, and so no
      number of them, brings the two together unless two preimages collide. */
  lemma RevocationsDoNotConverge(h: Hash, c: Codec, toB: Sender, toA: Sender, input: HistoryInput, id: Bytes)
    requires Lawful(c) && input.causalDependencies == "" && input.previousEventHash == ""
    requires var p := id + input.kind + input.payloadMetadata; h(p) != "" && h(p) != h(p + "[]")
    ensures var a := Step(h, EMPTY_DB, AppendHistory(input, id));
            && IdSet(a.events) == {id} && IdSet(EMPTY_DB.events) == {}
            && Exchange(h, c, toB, toA, a, EMPTY_DB) == (a, EMPTY_DB)
  {
    var a := Step(h, EMPTY_DB, AppendHistory(input, id));
    StepKeepsInvariant(h, EMPTY_DB, AppendHistory(input, id));
    assert "" + id + input.kind + input.payloadMetadata == id + input.kind + input.payloadMetadata;
    RevocationIsRefused(h, c, toB, EMPTY_DB, input, id, 1);
    assert Stream(EMPTY_DB.events, input.Key()) == [];
    assert a.events == [input.Row(h, "", id).(sequenceNumber := 1)];
    RefusedStaysHome(h, c, toB, toA, a);
  }

  /** Under strict attribution, neither does an event of another principal than the peer's. */
  lemma OtherPrincipalsDoNotConverge(h: Hash, c: Codec, toB: Sender, toA: Sender, input: AppendInput, id: Bytes)
    requires toB.strictAttribution && toB.principal.Some? && input.principal != "" && input.principal != toB.principal.value
    ensures var a := Step(h, EMPTY_DB, Append(input, id));
            && IdSet(a.events) == {id} && IdSet(EMPTY_DB.events) == {}
            && Exchange(h, c, toB, toA, a, EMPTY_DB) == (a, EMPTY_DB)
  {
    var a := Step(h, EMPTY_DB, Append(input, id));
    StepKeepsInvariant(h, EMPTY_DB, Append(input, id));
    RefusedStaysHome(h, c, toB, toA, a);
  }

  // --- which runs leave only portable events ---------------------------------------------------

  // The requests the handlers make of the store, revocations excepted (their dependencies are "").
  ghost predicate HandlerOp(h: Hash, c: Codec, sender: Sender, op: Op) {
    match op
    case Append(input, id) =>
      && id != "" && input.key.namespace != "" && input.key.streamId != "" && input.streamType == STREAM_VAULT
      && IsDependencyText(c, input.causalDependencies) && IsClockText(c, input.vectorClock)
      && sender.MaySpeakFor(input.principal)
    case AppendHistory(input, id) =>
      && id != "" && input.streamId != ""
      && IsDependencyText(c, input.causalDependencies) && IsClockText(c, input.vectorClock)
      && sender.MaySpeakFor(input.principal)
    case Ingest(input) =>
      && sender.MaySpeakFor(input.principal)
      && exists s, ev :: EncodableEvent(c, ev) && Screen(h, c, s, ev) == Ok(input)
  }

  lemma HandlerRowIsPortable(h: Hash, c: Codec, sender: Sender, db: Db, op: Op, n: nat)
    requires Lawful(c) && HandlerOp(h, c, sender, op) && Verdict(h, db, op).Ok?
    ensures var row := Verdict(h, db, op).value.(sequenceNumber := n); Portable(h, c, row) && sender.MaySpeakFor(row.principal)
  {
    var row := Verdict(h, db, op).value.(sequenceNumber := n);
    match op
    case Append(input, id) =>
      DependencyTextSurvives(c, input.causalDependencies);
    case AppendHistory(input, id) =>
      DependencyTextSurvives(c, input.causalDependencies);
      assert Preimage(row) == row.previousEventHash + id + input.kind + input.payloadMetadata + input.causalDependencies;
    case Ingest(input) =>
      var s, ev :| EncodableEvent(c, ev) && Screen(h, c, s, ev) == Ok(input);
      assert input.causalDependencies == JsonStringArray(c, ev.causalDependencies);
      assert input.vectorClock == JsonStringMap(c, ev.vectorClock);
      DependencyTextSurvives(c, input.causalDependencies);
      assert Preimage(row) == input.previousEventHash + input.eventId + input.kind + input.payloadMetadata + input.causalDependencies;
  }

  lemma PortableLogsExchange(h: Hash, c: Codec, toB: Sender, toA: Sender, a: Db, b: Db)
    requires Lawful(c) && AllPortable(h, c, toB, a.events) && AllPortable(h, c, toA, b.events)
    ensures Exchangeable(h, c, toB, toA, a, b)
  {
    forall i | 0 <= i < |a.events| ensures Takes(h, c, toB, a.events[i]) {
      PortableIsCopied(h, c, toB, a.events[i]);
    }
    forall i | 0 <= i < |b.events| ensures Takes(h, c, toA, b.events[i]) {
      PortableIsCopied(h, c, toA, b.events[i]);
    }
  }

  /** A Hub reached through its handlers holds only portable events, so the logs of any two such Hubs are
      exchangeable. */
  lemma {:induction false} HandlerRunsArePortable(h: Hash, c: Codec, sender: Sender, ops: seq<Op>)
    requires Lawful(c) && forall i :: 0 <= i < |ops| ==> HandlerOp(h, c, sender, ops[i])
    ensures AllPortable(h, c, sender, Run(h, EMPTY_DB, ops).events)
  {
    if ops != [] {
      HandlerRunsArePortable(h, c, sender, DropLast(ops));
      var before, op := Run(h, EMPTY_DB, DropLast(ops)), Last(ops);
      assert HandlerOp(h, c, sender, op);
      if Verdict(h, before, op).Ok? {
        HandlerRowIsPortable(h, c, sender, before, op, Numbered(before, Verdict(h, before, op).value).sequenceNumber);
      }
    }
  }
}
