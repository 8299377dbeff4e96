/** Reading the log in pages: ReadStream by last event id (nakli-hub/internal/storage/events.go) and
    SyncPull by rowid cursor (nakli-hub/internal/storage/sync.go). */
module Paging {
  import opened Wrappers
  import opened EventLog

  function EffectiveLimit(limit: int): (l: nat)
    ensures 1 <= l <= 1000
  {
    if limit <= 0 || limit > 1000 then 100 else limit
  }

  // An event as a reader sees it, NULL columns coalesced. A pulled event keeps the sender's number.
  function ReadBack(e: Event): Event {
    e.(payloadMetadata := Some(ReadMetadata(e)), causalDependencies := Some(ReadDependencies(e)))
  }

  function ReadBackAll(events: seq<Event>): (r: seq<Event>)
    ensures |r| == |events|
    ensures forall i :: 0 <= i < |r| ==> r[i] == ReadBack(events[i])
  {
    seq(|events|, i requires 0 <= i < |events| => ReadBack(events[i]))
  }

  /** A reader sees every column as stored, with a NULL metadata as "" and NULL dependencies as "[]". */
  lemma ReaderSees(e: Event)
    ensures var r := ReadBack(e);
            && r.eventId == e.eventId && r.key == e.key && r.streamType == e.streamType && r.sequenceNumber == e.sequenceNumber
            && r.kind == e.kind && r.vectorClock == e.vectorClock && r.previousEventHash == e.previousEventHash
            && r.eventHash == e.eventHash && r.principal == e.principal && r.grantId == e.grantId
            && r.payloadMetadata == Some(if e.payloadMetadata.Some? then e.payloadMetadata.value else "")
            && r.causalDependencies == Some(if e.causalDependencies.Some? then e.causalDependencies.value else "[]")
  {
  }

  // The page of at most `limit` rows that starts after the first n rows.
  function Page(rows: seq<Event>, n: nat, limit: nat): seq<Event>
    requires n <= |rows|
  {
    ReadBackAll(rows[n..Min(n + limit, |rows|)])
  }

  lemma PageTruncates(rows: seq<Event>, n: nat, limit: nat)
    requires n <= |rows|
    ensures Page(rows, n, limit + 1)[..Min(limit, |rows| - n)] == Page(rows, n, limit)
    ensures |Page(rows, n, limit + 1)| == Min(limit + 1, |rows| - n)
  {
  }

  // The row loop both readers run: scan one row, append it, until LIMIT rows or the end.
  method ScanRows(rows: seq<Event>, n: nat, limit: nat) returns (out: seq<Event>)
    requires n <= |rows|
    ensures out == Page(rows, n, limit)
  {
    out := [];
    while n + |out| < |rows| && |out| < limit
      invariant n + |out| <= |rows| && |out| <= limit
      invariant out == ReadBackAll(rows[n..n + |out|])
    {
      var next := ReadBack(rows[n + |out|]);
      assert rows[n..n + |out| + 1] == rows[n..n + |out|] + [rows[n + |out|]];
      out := out + [next];
    }
  }

  // --- SyncPull --------------------------------------------------------------------------------

  // The cursor of a request: absent, a rowid, or text that is not an integer.
  datatype Cursor = Start | At(rowid: int) | Malformed

  datatype PullResult = PullResult(events: seq<Event>, cursor: Cursor, more: bool)

  // How many rows a cursor has already passed.
  function Passed(events: seq<Event>, since: Cursor): nat {
    match since
    case At(rowid) => if rowid < 0 then 0 else Min(rowid, |events|)
    case _ => 0
  }

  // SELECT rowid FROM events WHERE event_id = ?
  function RowidOf(events: seq<Event>, eventId: Bytes): nat {
    if events == [] then 0
    else if Last(events).eventId == eventId then |events|
    else RowidOf(DropLast(events), eventId)
  }

  lemma {:induction false} RowidOfEvent(events: seq<Event>, i: nat)
    requires UniqueIds(events) && i < |events|
    ensures RowidOf(events, events[i].eventId) == i + 1
  {
    if i < |events| - 1 {
      RowidOfEvent(DropLast(events), i);
    }
  }

  // One pull.
  function Pull(events: seq<Event>, since: Cursor, limit: int): PullResult {
    var n, l := Passed(events, since), EffectiveLimit(limit);
    PullResult(Page(events, n, l), if n == |events| then since else At(Min(n + l, |events|)), n + l < |events|)
  }

  /** Of a log of rows with rowids 1, 2, ..., a pull returns those above its cursor in order, at most its limit of them, or 100
      when the limit is not between 1 and 1000; the new cursor is the rowid of the last row returned. */
  lemma PullIsExact(events: seq<Event>, since: Cursor, limit: int)
    ensures var r := Pull(events, since, limit);
            var n := if since.At? && since.rowid > 0 then Min(since.rowid, |events|) else 0;
            var l := if 1 <= limit <= 1000 then limit else 100;
            && |r.events| == Min(l, |events| - n)
            && (forall i :: 0 <= i < |r.events| ==> r.events[i] == ReadBack(events[n + i]))
            && (r.more <==> n + |r.events| < |events|)
            && (r.events != [] ==> r.cursor == At(n + |r.events|)) && (r.events == [] ==> r.cursor == since)
  {
  }

  lemma {:induction false} RowidOfLast(events: seq<Event>, n: nat, l: nat)
    requires UniqueIds(events) && 0 < l && n + l <= |events|
    ensures |Page(events, n, l)| == l && RowidOf(events, Page(events, n, l)[l - 1].eventId) == n + l
  {
    assert Page(events, n, l)[l - 1] == ReadBack(events[n + l - 1]);
    RowidOfEvent(events, n + l - 1);
  }

  /** One page. The loop may read one row too many; the cursor of a truncated page is looked up again by
      the id of its last event. */
  method SyncPull(store: Store, since: Cursor, limit: int) returns (r: Option<PullResult>)
    requires store.Valid()
    ensures r.None? <==> since.Malformed?
    ensures r.Some? ==> r.value == Pull(store.events, since, limit)
  {
    if since.Malformed? {
      return None;
    }
    var l := EffectiveLimit(limit);
    var n := Passed(store.events, since);  // rows with a rowid above the cursor start at index n
    var out := ScanRows(store.events, n, l + 1);
    PageTruncates(store.events, n, l);
    var nextRowid := if out == [] then 0 else n + |out|;
    var more := false;
    if |out| > l {
      out := out[..l];
      more := true;
      RowidOfLast(store.events, n, l);
      nextRowid := RowidOf(store.events, out[l - 1].eventId);
    }
    return Some(PullResult(out, if nextRowid > 0 then At(nextRowid) else since, more));
  }

  // --- ReadStream ------------------------------------------------------------------------------

  // SELECT sequence_number FROM events WHERE namespace = ? AND stream_id = ? AND event_id = ?
  function SequenceOf(rows: seq<Event>, eventId: Bytes): Option<nat> {
    if rows == [] then None
    else if Last(rows).eventId == eventId then Some(Last(rows).sequenceNumber)
    else SequenceOf(DropLast(rows), eventId)
  }

  // WHERE sequence_number > ?
  function After(rows: seq<Event>, sequenceNumber: nat): seq<Event> {
    if rows == [] then []
    else After(DropLast(rows), sequenceNumber) + if Last(rows).sequenceNumber > sequenceNumber then [Last(rows)] else []
  }

  lemma {:induction false} AfterIsSuffix(rows: seq<Event>, n: nat)
    requires Consecutive(rows)
    ensures After(rows, n) == rows[Min(n, |rows|)..]
  {
    if rows != [] {
      assert rows == DropLast(rows) + [Last(rows)];
      AfterIsSuffix(DropLast(rows), n);
    }
  }

  lemma {:induction false} SequenceOfMember(rows: seq<Event>, i: nat)
    requires Consecutive(rows) && UniqueIds(rows) && i < |rows|
    ensures SequenceOf(rows, rows[i].eventId) == Some(i + 1)
  {
    if i < |rows| - 1 {
      SequenceOfMember(DropLast(rows), i);
    }
  }

  lemma {:induction false} SequenceOfStranger(rows: seq<Event>, eventId: Bytes)
    ensures SequenceOf(rows, eventId).None? <==> !HasId(rows, eventId)
  {
    if rows != [] {
      SequenceOfStranger(DropLast(rows), eventId);
      assert HasId(rows, eventId) <==> HasId(DropLast(rows), eventId) || Last(rows).eventId == eventId by {
        if HasId(rows, eventId) {
          var i :| 0 <= i < |rows| && rows[i].eventId == eventId;
          assert i < |rows| - 1 ==> DropLast(rows)[i].eventId == eventId;
        }
        if HasId(DropLast(rows), eventId) {
          var i :| 0 <= i < |rows| - 1 && DropLast(rows)[i].eventId == eventId;
          assert rows[i].eventId == eventId;
        }
        assert rows[|rows| - 1] == Last(rows);
      }
    }
  }

  lemma PageAfter(rows: seq<Event>, n: nat, limit: nat)
    requires Consecutive(rows) && n <= |rows|
    ensures Page(After(rows, n), 0, limit + 1) == Page(rows, n, limit + 1)
  {
    AfterIsSuffix(rows, n);
    assert rows[n..][0..Min(limit + 1, |rows| - n)] == rows[n..Min(n + limit + 1, |rows|)];
  }

  datatype ReadResult = ReadResult(events: seq<Event>, more: bool)

  // `since` is the id of row n (rows counted from 1), or "" for the start.
  predicate IsPosition(rows: seq<Event>, since: Bytes, n: nat) {
    && n <= |rows|
    && (if since == "" then n == 0 else n > 0 && rows[n - 1].eventId == since)
  }

  lemma PositionIsUnique(rows: seq<Event>, since: Bytes, n: nat, m: nat)
    requires UniqueIds(rows) && IsPosition(rows, since, n) && IsPosition(rows, since, m)
    ensures n == m
  {
  }

  function PositionOf(rows: seq<Event>, since: Bytes): (n: nat)
    requires since == "" || HasId(rows, since)
    ensures IsPosition(rows, since, n)
  {
    if since == "" then 0
    else if Last(rows).eventId == since then |rows|
    else
      assert HasId(DropLast(rows), since) by {
        var i :| 0 <= i < |rows| && rows[i].eventId == since;
        assert DropLast(rows)[i].eventId == since;
      }
      PositionOf(DropLast(rows), since)
  }

  // One call of ReadStream on the rows of a stream.
  function Read(rows: seq<Event>, since: Bytes, limit: int): Option<ReadResult> {
    if since != "" && !HasId(rows, since) then None
    else
      var n, l := PositionOf(rows, since), EffectiveLimit(limit);
      Some(ReadResult(Page(rows, n, l), n + l < |rows|))
  }

  /** Of a stream, a read returns the rows after the one with the given id, at most its limit of them, or 100 when the limit is
      not between 1 and 1000; it fails exactly for an id the stream does not have. */
  lemma ReadIsExact(rows: seq<Event>, since: Bytes, limit: int)
    ensures Read(rows, since, limit).None? <==> since != "" && forall i :: 0 <= i < |rows| ==> rows[i].eventId != since
    ensures Read(rows, since, limit).Some? ==>
              var r, n, l := Read(rows, since, limit).value, PositionOf(rows, since), (if 1 <= limit <= 1000 then limit else 100);
              && (if since == "" then n == 0 else n > 0 && rows[n - 1].eventId == since)
              && |r.events| == Min(l, |rows| - n) && (forall i :: 0 <= i < |r.events| ==> r.events[i] == ReadBack(rows[n + i]))
              && (r.more <==> n + |r.events| < |rows|)
  {
  }

  method FindSince(rows: seq<Event>, since: Bytes) returns (n: Option<nat>)
    requires Consecutive(rows) && UniqueIds(rows)
    ensures n.None? <==> since != "" && !HasId(rows, since)
    ensures n.Some? ==> IsPosition(rows, since, n.value)
  {
    if since == "" {
      return Some(0);
    }
    SequenceOfStranger(rows, since);
    n := SequenceOf(rows, since);
    if n.Some? {
      ghost var i :| 0 <= i < |rows| && rows[i].eventId == since;
      SequenceOfMember(rows, i);
    }
  }

  /** A page of one stream after event `since` (from the start for ""). */
  method ReadStream(store: Store, key: StreamKey, since: Bytes, limit: int) returns (r: Option<ReadResult>, ghost n: nat)
    requires store.Valid()
    ensures r == Read(Stream(store.events, key), since, limit)
    ensures r.None? <==> since != "" && !HasId(Stream(store.events, key), since)
    ensures r.Some? ==>
              var rows, l := Stream(store.events, key), EffectiveLimit(limit);
              IsPosition(rows, since, n) && r.value == ReadResult(Page(rows, n, l), n + l < |rows|)
  {
    var l := EffectiveLimit(limit);
    var rows := Stream(store.events, key);
    assert StreamAgrees(store.Contents(), key);
    StreamHasUniqueIds(store.events, key);
    var sinceSeq := FindSince(rows, since);
    if sinceSeq.None? {
      return None, 0;
    }
    n := sinceSeq.value;
    PositionIsUnique(rows, since, n, PositionOf(rows, since));
    var selected := After(rows, sinceSeq.value);
    var out := ScanRows(selected, 0, l + 1);
    PageAfter(rows, n, l);
    PageTruncates(rows, n, l);
    var more := false;
    if |out| > l {
      out := out[..l];
      more := true;
    }
    r := Some(ReadResult(out, more));
  }

  // --- following pages -------------------------------------------------------------------------

  // Call k of a reader sees rows[k] and passes limits[k]; rows may be appended between calls.
  predicate Growing(logs: seq<seq<Event>>) {
    forall i, j :: 0 <= i <= j < |logs| ==> logs[i] <= logs[j]
  }

  // How many rows a reader has after `calls` calls, each resuming where the previous page ended.
  function Position(logs: seq<seq<Event>>, limits: seq<int>, calls: nat): (n: nat)
    requires calls <= |logs| == |limits| && Growing(logs)
    ensures if calls == 0 then n == 0 else n <= |logs[calls - 1]|
  {
    if calls == 0 then 0
    else Min(Position(logs, limits, calls - 1) + EffectiveLimit(limits[calls - 1]), |logs[calls - 1]|)
  }

  lemma PositionFits(logs: seq<seq<Event>>, limits: seq<int>, calls: nat)
    requires 0 < calls <= |logs| == |limits| && Growing(logs)
    ensures Position(logs, limits, calls - 1) <= Position(logs, limits, calls) <= |logs[calls - 1]|
    ensures calls > 1 ==> logs[calls - 2] <= logs[calls - 1]
  {
  }

  function Pages(logs: seq<seq<Event>>, limits: seq<int>, calls: nat): seq<seq<Event>>
    requires calls <= |logs| == |limits| && Growing(logs)
  {
    if calls == 0 then []
    else
      PositionFits(logs, limits, calls);
      Pages(logs, limits, calls - 1) + [Page(logs[calls - 1], Position(logs, limits, calls - 1), EffectiveLimit(limits[calls - 1]))]
  }

  lemma AppendPage(now: seq<Event>, pages: seq<seq<Event>>, m: nat, limit: nat)
    requires m <= |now| && Flatten(pages) == ReadBackAll(now[..m])
    ensures Flatten(pages + [Page(now, m, limit)]) == ReadBackAll(now[..Min(m + limit, |now|)])
  {
    var n := Min(m + limit, |now|);
    assert DropLast(pages + [Page(now, m, limit)]) == pages;
    assert now[..n] == now[..m] + now[m..n];
    assert ReadBackAll(now[..m]) + ReadBackAll(now[m..n]) == ReadBackAll(now[..n]);
  }

  /** The pages concatenate to the first Position rows, without gap or repeat, whatever the limits and
      whatever is appended between calls. */
  lemma {:induction false} PagesAreExact(logs: seq<seq<Event>>, limits: seq<int>, calls: nat)
    requires 0 < calls <= |logs| == |limits| && Growing(logs)
    ensures Flatten(Pages(logs, limits, calls)) == ReadBackAll(logs[calls - 1][..Position(logs, limits, calls)])
  {
    PositionFits(logs, limits, calls);
    var m := Position(logs, limits, calls - 1);
    if calls > 1 {
      PagesAreExact(logs, limits, calls - 1);
      assert logs[calls - 2][..m] == logs[calls - 1][..m];
    }
    AppendPage(logs[calls - 1], Pages(logs, limits, calls - 1), m, EffectiveLimit(limits[calls - 1]));
  }

  // The cursor of a client that starts without one, after `calls` calls.
  function FollowCursor(logs: seq<seq<Event>>, limits: seq<int>, calls: nat): Cursor
    requires calls <= |logs| == |limits|
  {
    if calls == 0 then Start else Pull(logs[calls - 1], FollowCursor(logs, limits, calls - 1), limits[calls - 1]).cursor
  }

  /** Following SyncPull's cursors yields exactly Pages: call k returns page k, its cursor stands for the rows seen
      so far, and `more` is false exactly when those are the whole log at that call. */
  lemma {:induction false} CursorIsExact(logs: seq<seq<Event>>, limits: seq<int>, calls: nat)
    requires 0 < calls <= |logs| == |limits| && Growing(logs)
    ensures Pull(logs[calls - 1], FollowCursor(logs, limits, calls - 1), limits[calls - 1]).events == Last(Pages(logs, limits, calls))
    ensures FollowCursor(logs, limits, calls) == if Position(logs, limits, calls) == 0 then Start else At(Position(logs, limits, calls))
    ensures Pull(logs[calls - 1], FollowCursor(logs, limits, calls - 1), limits[calls - 1]).more <==> Position(logs, limits, calls) < |logs[calls - 1]|
  {
    PositionFits(logs, limits, calls);
    if calls > 1 {
      CursorIsExact(logs, limits, calls - 1);
    }
    assert Passed(logs[calls - 1], FollowCursor(logs, limits, calls - 1)) == Position(logs, limits, calls - 1);
  }

  /** A ReadStream reader that passes its last event id resumes at Position: the id names that row and, ids
      being unique, no other. */
  lemma LastIdIsThePosition(logs: seq<seq<Event>>, limits: seq<int>, calls: nat, n: nat)
    requires 0 < calls <= |logs| == |limits| && Growing(logs)
    requires UniqueIds(logs[calls - 1]) && Position(logs, limits, calls) > 0
    ensures var seen := Flatten(Pages(logs, limits, calls));
            && |seen| == Position(logs, limits, calls)
            && (Last(seen).eventId != "" ==> (IsPosition(logs[calls - 1], Last(seen).eventId, n) <==> n == |seen|))
  {
    PagesAreExact(logs, limits, calls);
    LastOfPrefix(logs[calls - 1], Position(logs, limits, calls), n);
  }

  lemma LastOfPrefix(rows: seq<Event>, p: nat, n: nat)
    requires 0 < p <= |rows| && UniqueIds(rows)
    ensures |ReadBackAll(rows[..p])| == p
    ensures var id := Last(ReadBackAll(rows[..p])).eventId; id != "" ==> (IsPosition(rows, id, n) <==> n == p)
  {
    assert ReadBackAll(rows[..p])[p - 1].eventId == rows[p - 1].eventId;
  }

  // The rows of one stream at each call, as the log's invariant has them, no id empty.
  predicate StreamAt(rows: seq<Event>) {
    Consecutive(rows) && UniqueIds(rows) && forall i :: 0 <= i < |rows| ==> rows[i].eventId != ""
  }

  // The id passed after a page.
  function NextId(r: Option<ReadResult>, since: Bytes): Bytes {
    if r.None? || r.value.events == [] then since else Last(r.value.events).eventId
  }

  type Reader = (seq<Event>, Bytes, int) -> Option<ReadResult>

  // From a row's id, the page of the rows after it.
  ghost predicate ReadsOn(read: Reader) {
    forall rows: seq<Event>, since: Bytes, n: nat, limit: int :: StreamAt(rows) && IsPosition(rows, since, n) ==>
      read(rows, since, limit) == Some(ReadResult(Page(rows, n, EffectiveLimit(limit)), n + EffectiveLimit(limit) < |rows|))
  }

  lemma ReadStreamReadsOn()
    ensures ReadsOn(Read)
  {
    forall rows: seq<Event>, since: Bytes, n: nat, limit: int | StreamAt(rows) && IsPosition(rows, since, n)
      ensures Read(rows, since, limit) == Some(ReadResult(Page(rows, n, EffectiveLimit(limit)), n + EffectiveLimit(limit) < |rows|))
    {
      assert since == "" || HasId(rows, since);
      PositionIsUnique(rows, since, n, PositionOf(rows, since));
    }
  }

  lemma ReadAt(read: Reader, rows: seq<Event>, since: Bytes, n: nat, limit: int)
    requires ReadsOn(read) && StreamAt(rows) && IsPosition(rows, since, n)
    ensures IsPosition(rows, NextId(read(rows, since, limit), since), Min(n + EffectiveLimit(limit), |rows|))
  {
    var page, m := Page(rows, n, EffectiveLimit(limit)), Min(n + EffectiveLimit(limit), |rows|);
    if page != [] {
      assert Last(page) == ReadBack(rows[m - 1]);
    }
  }

  lemma PositionStays(rows: seq<Event>, later: seq<Event>, since: Bytes, n: nat)
    requires rows <= later && IsPosition(rows, since, n)
    ensures IsPosition(later, since, n)
  {
    assert n > 0 ==> later[n - 1] == rows[n - 1];
  }

  lemma NextPosition(read: Reader, rows: seq<Event>, later: seq<Event>, since: Bytes, n: nat, limit: int)
    requires ReadsOn(read) && StreamAt(rows) && IsPosition(rows, since, n) && rows <= later
    ensures IsPosition(later, NextId(read(rows, since, limit), since), Min(n + EffectiveLimit(limit), |rows|))
  {
    ReadAt(read, rows, since, n, limit);
    PositionStays(rows, later, NextId(read(rows, since, limit), since), Min(n + EffectiveLimit(limit), |rows|));
  }

  // The event id a reader passes after `calls` calls: the last one it was given.
  function FollowIds(read: Reader, logs: seq<seq<Event>>, limits: seq<int>, calls: nat): Bytes
    requires calls <= |logs| == |limits|
  {
    if calls == 0 then ""
    else
      var since := FollowIds(read, logs, limits, calls - 1);
      NextId(read(logs[calls - 1], since, limits[calls - 1]), since)
  }

  // It stands for the rows the reader has, in the stream as the next call finds it.
  lemma {:induction false} IdsFit(read: Reader, logs: seq<seq<Event>>, limits: seq<int>, calls: nat)
    requires ReadsOn(read) && calls < |logs| == |limits| && Growing(logs) && forall k :: 0 <= k < |logs| ==> StreamAt(logs[k])
    ensures IsPosition(logs[calls], FollowIds(read, logs, limits, calls), Position(logs, limits, calls))
  {
    if calls > 0 {
      IdsFit(read, logs, limits, calls - 1);
      var rows, since, p := logs[calls - 1], FollowIds(read, logs, limits, calls - 1), Position(logs, limits, calls - 1);
      NextPosition(read, rows, logs[calls], since, p, limits[calls - 1]);
    }
  }

  lemma {:induction false} NextPage(logs: seq<seq<Event>>, limits: seq<int>, calls: nat)
    requires 0 < calls <= |logs| == |limits| && Growing(logs)
    ensures var p, l := Position(logs, limits, calls - 1), EffectiveLimit(limits[calls - 1]);
            && p <= |logs[calls - 1]|
            && Last(Pages(logs, limits, calls)) == Page(logs[calls - 1], p, l)
            && (Position(logs, limits, calls) < |logs[calls - 1]| <==> p + l < |logs[calls - 1]|)
  {
    PositionFits(logs, limits, calls);
  }

  /** Following a stream by the last event id yields exactly Pages, whatever the limits and whatever is appended between
      calls: call k returns page k, and its `more` is false exactly when the pages so far are the whole stream at that call. */
  lemma {:induction false} StreamIdsAreExact(logs: seq<seq<Event>>, limits: seq<int>, calls: nat)
    requires 0 < calls <= |logs| == |limits| && Growing(logs) && forall k :: 0 <= k < |logs| ==> StreamAt(logs[k])
    ensures Read(logs[calls - 1], FollowIds(Read, logs, limits, calls - 1), limits[calls - 1]) ==
            Some(ReadResult(Last(Pages(logs, limits, calls)), Position(logs, limits, calls) < |logs[calls - 1]|))
  {
    ReadStreamReadsOn();
    ReaderIsExact(Read, logs, limits, calls);
  }

  lemma {:induction false} ReaderIsExact(read: Reader, logs: seq<seq<Event>>, limits: seq<int>, calls: nat)
    requires ReadsOn(read)
    requires 0 < calls <= |logs| == |limits| && Growing(logs) && forall k :: 0 <= k < |logs| ==> StreamAt(logs[k])
    ensures read(logs[calls - 1], FollowIds(read, logs, limits, calls - 1), limits[calls - 1]) ==
            Some(ReadResult(Last(Pages(logs, limits, calls)), Position(logs, limits, calls) < |logs[calls - 1]|))
  {
    IdsFit(read, logs, limits, calls - 1);
    NextPage(logs, limits, calls);
  }
}
