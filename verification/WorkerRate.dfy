/** The Worker's rate buckets: a JavaScript Map, iterated in insertion order, used as a capped LRU
    (nakli-cf-worker/src/worker.ts). Buckets are those of RateLimit, times in seconds. */
module WorkerRate {
  import opened Wrappers
  import opened RateLimit

  const RATE_BUCKETS_MAX: nat := 10_000

  datatype Entry = Entry(grant: Bytes, bucket: Bucket)

  datatype Call = Call(grant: Bytes, capacity: int, window: real, now: real)
  {
    predicate Valid() { capacity > 0 && window > 0.0 }
  }

  // --- the Map ---------------------------------------------------------------------------------

  function Grants(entries: seq<Entry>): (r: seq<Bytes>)
    ensures |r| == |entries|
    ensures forall i :: 0 <= i < |r| ==> r[i] == entries[i].grant
  {
    seq(|entries|, i requires 0 <= i < |entries| => entries[i].grant)
  }

  predicate Distinct(ids: seq<Bytes>) {
    forall i, j :: 0 <= i < j < |ids| ==> ids[i] != ids[j]
  }

  function Find(entries: seq<Entry>, grant: Bytes): Option<Bucket> {
    if entries == [] then None
    else if entries[0].grant == grant then Some(entries[0].bucket)
    else Find(entries[1..], grant)
  }

  function Without(entries: seq<Entry>, grant: Bytes): seq<Entry> {
    if entries == [] then []
    else (if entries[0].grant == grant then [] else [entries[0]]) + Without(entries[1..], grant)
  }

  // The last n of a list.
  function Newest<T>(s: seq<T>, n: nat): seq<T> {
    if |s| <= n then s else s[|s| - n..]
  }

  // The bucket a call works on: the one found, unless its parameters changed.
  function BucketFor(found: Option<Bucket>, call: Call): Bucket {
    if found.Some? && found.value.capacity == call.capacity && found.value.window == call.window then found.value
    else NewBucket(call.capacity, call.window, call.now)
  }

  // The call's bucket after the refill and the token, and whether there was a token.
  function Serve(found: Option<Bucket>, call: Call): (Bucket, bool)
    requires call.Valid()
  {
    TakeToken(BucketFor(found, call), call.now)
  }

  function Consume(entries: seq<Entry>, cap: nat, call: Call): (seq<Entry>, bool)
    requires call.Valid()
  {
    var (after, allowed) := Serve(Find(entries, call.grant), call);
    (PutBack(entries, cap, Entry(call.grant, after)), allowed)
  }

  class RateBuckets {
    const cap: nat
    var entries: seq<Entry>

    ghost predicate Valid() reads this {
      cap > 0 && |entries| <= cap && Distinct(Grants(entries))
    }

    constructor (cap: nat)
      requires cap > 0
      ensures Valid() && entries == [] && this.cap == cap
    {
      this.cap := cap;
      entries := [];
    }

    // The Map part of a call: take the entry out if there is one, put its bucket or a new one at the
    // back, evict.
    method Touch(call: Call) returns (b: Bucket)
      requires Valid() && call.Valid()
      modifies this
      ensures Valid() && b == BucketFor(Find(old(entries), call.grant), call)
      ensures entries == PutBack(old(entries), cap, Entry(call.grant, b))
    {
      PutBackKeepsOrder(entries, cap, Entry(call.grant, BucketFor(Find(entries, call.grant), call)));
      WithoutStranger(entries, call.grant);
      var found := Find(entries, call.grant);
      if found.Some? {
        entries := Without(entries, call.grant);
      }
      if found.None? || found.value.capacity != call.capacity || found.value.window != call.window {
        b := NewBucket(call.capacity, call.window, call.now);
      } else {
        b := found.value;
      }
      entries := entries + [Entry(call.grant, b)];
      entries := Evict(entries, cap);
    }

    method RateConsume(call: Call) returns (allowed: bool)
      requires Valid() && call.Valid()
      modifies this
      ensures Valid()
      ensures (entries, allowed) == Consume(old(entries), cap, call)
      ensures entries != [] && Last(entries).grant == call.grant
    {
      ghost var before := entries;
      PutBackKeepsOrder(before, cap, Entry(call.grant, Serve(Find(before, call.grant), call).0));
      var b := Touch(call);
      var (after, ok) := TakeToken(b, call.now);
      // the Map holds a reference, so the refill and the token taken show in the entry set above
      UpdateBack(before, cap, Entry(call.grant, b), Entry(call.grant, after));
      entries := entries[|entries| - 1 := Entry(call.grant, after)];
      return ok;
    }
  }

  // Delete the oldest key until the cap holds.
  method Evict(entries: seq<Entry>, cap: nat) returns (kept: seq<Entry>)
    ensures kept == Newest(entries, cap)
  {
    kept := entries;
    while |kept| > cap
      invariant |kept| <= |entries| && kept == entries[|entries| - |kept|..]
      invariant |kept| < cap ==> kept == entries
    {
      kept := kept[1..];
    }
  }

  lemma UpdateBack(entries: seq<Entry>, cap: nat, e: Entry, e': Entry)
    requires cap > 0 && e.grant == e'.grant
    ensures PutBack(entries, cap, e) != []
    ensures PutBack(entries, cap, e)[|PutBack(entries, cap, e)| - 1 := e'] == PutBack(entries, cap, e')
  {
  }

  lemma {:induction false} GrantsWithout(entries: seq<Entry>, grant: Bytes)
    ensures Grants(Without(entries, grant)) == Remove(Grants(entries), grant)
  {
    if entries != [] {
      var head, rest := entries[0].grant, entries[1..];
      GrantsWithout(rest, grant);
      assert Grants(entries)[1..] == Grants(rest);
      if head != grant {
        GrantsCons(entries[0], Without(rest, grant));
      } else {
        assert Without(entries, grant) == Without(rest, grant);
      }
    }
  }

  lemma GrantsCons(e: Entry, rest: seq<Entry>)
    ensures Grants([e] + rest) == [e.grant] + Grants(rest)
  {
  }

  lemma {:induction false} FindMember(entries: seq<Entry>, grant: Bytes)
    ensures Find(entries, grant).Some? <==> grant in Grants(entries)
  {
    if entries != [] {
      FindMember(entries[1..], grant);
      assert Grants(entries) == [entries[0].grant] + Grants(entries[1..]);
    }
  }

  lemma {:induction false} WithoutStranger(entries: seq<Entry>, grant: Bytes)
    ensures Find(entries, grant).None? ==> Without(entries, grant) == entries
  {
    if entries != [] {
      WithoutStranger(entries[1..], grant);
    }
  }

  // The entries left by putting e at the back.
  function PutBack(entries: seq<Entry>, cap: nat, e: Entry): seq<Entry> {
    Newest(Without(entries, e.grant) + [e], cap)
  }

  lemma PutBackKeepsOrder(entries: seq<Entry>, cap: nat, e: Entry)
    requires cap > 0 && Distinct(Grants(entries))
    ensures Grants(PutBack(entries, cap, e)) == Newest(Remove(Grants(entries), e.grant) + [e.grant], cap)
    ensures Distinct(Grants(PutBack(entries, cap, e))) && 0 < |PutBack(entries, cap, e)| <= cap
    ensures Last(PutBack(entries, cap, e)) == e
  {
    GrantsWithout(entries, e.grant);
    RemoveFacts(Grants(entries), e.grant);
    var full, ids := Without(entries, e.grant) + [e], Remove(Grants(entries), e.grant) + [e.grant];
    assert Grants(full) == ids;
    GrantsOfNewest(full, cap);
    DistinctAppend(Remove(Grants(entries), e.grant), e.grant);
  }

  lemma GrantsOfNewest(entries: seq<Entry>, n: nat)
    ensures Grants(Newest(entries, n)) == Newest(Grants(entries), n)
  {
  }

  lemma DistinctAppend(ids: seq<Bytes>, id: Bytes)
    requires Distinct(ids) && id !in ids
    ensures Distinct(ids + [id])
  {
  }

  // --- recency ---------------------------------------------------------------------------------

  function Remove(ids: seq<Bytes>, id: Bytes): seq<Bytes> {
    if ids == [] then []
    else (if ids[0] == id then [] else [ids[0]]) + Remove(ids[1..], id)
  }

  lemma {:induction false} RemoveFacts(ids: seq<Bytes>, id: Bytes)
    ensures forall x :: x in Remove(ids, id) <==> x in ids && x != id
    ensures Distinct(ids) ==> Distinct(Remove(ids, id))
    ensures id !in ids ==> Remove(ids, id) == ids
  {
    if ids != [] {
      RemoveFacts(ids[1..], id);
      var rest := Remove(ids[1..], id);
      assert forall x :: x in ids <==> x == ids[0] || x in ids[1..];
      if Distinct(ids) {
        assert Distinct(ids[1..]) && ids[0] !in ids[1..];
        assert ids[0] !in rest;
      }
    }
  }

  lemma RemoveCons(head: Bytes, rest: seq<Bytes>, id: Bytes)
    ensures Remove([head] + rest, id) == (if head == id then [] else [head]) + Remove(rest, id)
  {
    assert ([head] + rest)[1..] == rest;
  }

  lemma {:induction false} RemoveConcat(a: seq<Bytes>, b: seq<Bytes>, id: Bytes)
    ensures Remove(a + b, id) == Remove(a, id) + Remove(b, id)
  {
    if a == [] {
      assert a + b == b && Remove(a, id) == [];
    } else {
      var head, rest := a[0], a[1..];
      RemoveConcat(rest, b, id);
      assert a == [head] + rest && a + b == [head] + (rest + b);
      RemoveCons(head, rest, id);
      RemoveCons(head, rest + b, id);
    }
  }

  // The grants called so far, each once, in the order of their last use.
  function Recency(calls: seq<Call>): seq<Bytes> {
    if calls == [] then []
    else Remove(Recency(DropLast(calls)), Last(calls).grant) + [Last(calls).grant]
  }

  function GrantSet(calls: seq<Call>): set<Bytes> {
    set i | 0 <= i < |calls| :: calls[i].grant
  }

  lemma {:induction false} RecencyFacts(calls: seq<Call>)
    ensures Distinct(Recency(calls))
    ensures forall x :: x in Recency(calls) <==> x in GrantSet(calls)
    ensures |Recency(calls)| == |GrantSet(calls)|
  {
    if calls != [] {
      var front := DropLast(calls);
      RecencyFacts(front);
      RemoveFacts(Recency(front), Last(calls).grant);
      assert calls == front + [Last(calls)];
      GrantSetOfAppend(front, Last(calls));
    }
    DistinctLength(Recency(calls), GrantSet(calls));
  }

  lemma {:induction false} DistinctLength(ids: seq<Bytes>, members: set<Bytes>)
    requires Distinct(ids) && forall x :: x in ids <==> x in members
    ensures |ids| == |members|
  {
    if ids == [] {
      assert members == {};
    } else {
      var rest := members - {ids[0]};
      assert forall x :: x in ids[1..] <==> x in rest by {
        assert forall x :: x in ids <==> x == ids[0] || x in ids[1..];
      }
      DistinctLength(ids[1..], rest);
    }
  }

  lemma GrantSetOfAppend(calls: seq<Call>, call: Call)
    ensures GrantSet(calls + [call]) == GrantSet(calls) + {call.grant}
  {
    var all := calls + [call];
    forall x ensures x in GrantSet(all) <==> x in GrantSet(calls) + {call.grant} {
      if x in GrantSet(calls) {
        var i :| 0 <= i < |calls| && calls[i].grant == x;
        assert all[i].grant == x;
      }
      assert all[|calls|] == call;
    }
  }

  predicate ValidCalls(calls: seq<Call>) {
    forall i :: 0 <= i < |calls| ==> calls[i].Valid()
  }

  function Run(cap: nat, calls: seq<Call>): seq<Entry>
    requires ValidCalls(calls)
  {
    if calls == [] then [] else Consume(Run(cap, DropLast(calls)), cap, Last(calls)).0
  }

  lemma NewestOfSuffix<T>(a: seq<T>, b: seq<T>, n: nat)
    requires a == [] || |b| >= n
    ensures Newest(a + b, n) == Newest(b, n)
  {
    if a == [] {
      assert a + b == b;
    }
  }

  lemma MoveToBack(recent: seq<Bytes>, cap: nat, id: Bytes)
    requires Distinct(recent) && cap > 0
    ensures Newest(Remove(Newest(recent, cap), id) + [id], cap) == Newest(Remove(recent, id) + [id], cap)
  {
    var kept := Newest(recent, cap);
    var lost := recent[..|recent| - |kept|];
    assert recent == lost + kept;
    var tail := Remove(kept, id) + [id];
    assert |tail| >= |kept| by {
      DistinctSlice(recent, |recent| - |kept|);
      RemoveFacts(kept, id);
      if id in kept {
        RemovedLength(kept, id);
      }
    }
    RemoveConcat(lost, kept, id);
    assert Remove(recent, id) + [id] == Remove(lost, id) + tail;
    NewestOfSuffix(Remove(lost, id), tail, cap);
  }

  lemma DistinctSlice(ids: seq<Bytes>, n: nat)
    requires Distinct(ids) && n <= |ids|
    ensures Distinct(ids[n..])
  {
  }

  lemma {:induction false} RemovedLength(ids: seq<Bytes>, id: Bytes)
    requires Distinct(ids) && id in ids
    ensures |Remove(ids, id)| == |ids| - 1
  {
    if ids[0] == id {
      assert id !in ids[1..];
      RemoveFacts(ids[1..], id);
    } else {
      RemovedLength(ids[1..], id);
    }
  }

  /** The stack property: after any calls the Map holds exactly the `cap` most recently used grants, in the order
      of their last use. */
  lemma {:induction false} MapIsNewestOfRecency(cap: nat, calls: seq<Call>)
    requires cap > 0 && ValidCalls(calls)
    ensures Grants(Run(cap, calls)) == Newest(Recency(calls), cap)
    ensures Distinct(Grants(Run(cap, calls))) && |Run(cap, calls)| <= cap
  {
    if calls != [] {
      var front, call := DropLast(calls), Last(calls);
      MapIsNewestOfRecency(cap, front);
      RecencyFacts(front);
      PutBackKeepsOrder(Run(cap, front), cap, Entry(call.grant, Serve(Find(Run(cap, front), call.grant), call).0));
      MoveToBack(Recency(front), cap, call.grant);
    }
  }

  lemma RemoveAround(before: seq<Bytes>, kept: Bytes, after: seq<Bytes>, id: Bytes)
    requires id != kept
    ensures Remove(before + [kept] + after, id) == Remove(before, id) + [kept] + Remove(after, id)
  {
    RemoveConcat(before + [kept], after, id);
    RemoveConcat(before, [kept], id);
    RemoveCons(kept, [], id);
  }

  lemma {:induction false} RecencySince(calls: seq<Call>, later: seq<Call>) returns (before: seq<Bytes>)
    requires calls != [] && Last(calls).grant !in GrantSet(later)
    ensures Recency(calls + later) == before + [Last(calls).grant] + Recency(later)
  {
    if later == [] {
      assert calls + later == calls;
      before := Remove(Recency(DropLast(calls)), Last(calls).grant);
    } else {
      var front, id, grant := DropLast(later), Last(later).grant, Last(calls).grant;
      assert later == front + [Last(later)];
      GrantSetOfAppend(front, Last(later));
      var b := RecencySince(calls, front);
      assert DropLast(calls + later) == calls + front;
      RemoveAround(b, grant, Recency(front), id);
      before := Remove(b, id);
      assert before + [grant] + (Remove(Recency(front), id) + [id]) == before + [grant] + Remove(Recency(front), id) + [id];
    }
  }

  lemma NewestKeeps(before: seq<Bytes>, id: Bytes, rest: seq<Bytes>, n: nat)
    requires Distinct(before + [id] + rest)
    ensures id in Newest(before + [id] + rest, n) <==> |rest| < n
  {
    var all := before + [id] + rest;
    var start := |all| - |Newest(all, n)|;
    assert all[|before|] == id;
    if |rest| < n {
      assert Newest(all, n)[|before| - start] == id;
    }
  }

  /** A grant's bucket survives exactly while fewer than `cap` distinct other grants have been called since. */
  lemma SurvivesByReuseDistance(cap: nat, calls: seq<Call>, later: seq<Call>)
    requires cap > 0 && calls != [] && ValidCalls(calls + later)
    requires Last(calls).grant !in GrantSet(later)
    ensures Last(calls).grant in Grants(Run(cap, calls + later)) <==> |GrantSet(later)| < cap
  {
    MapIsNewestOfRecency(cap, calls + later);
    var before := RecencySince(calls, later);
    RecencyFacts(later);
    RecencyFacts(calls + later);
    NewestKeeps(before, Last(calls).grant, Recency(later), cap);
  }

  // --- against an unbounded map ----------------------------------------------------------------

  function ConsumeUnbounded(buckets: map<Bytes, Bucket>, call: Call): (map<Bytes, Bucket>, bool)
    requires call.Valid()
  {
    var (after, allowed) := Serve(if call.grant in buckets then Some(buckets[call.grant]) else None, call);
    (buckets[call.grant := after], allowed)
  }

  function RunUnbounded(calls: seq<Call>): map<Bytes, Bucket>
    requires ValidCalls(calls)
  {
    if calls == [] then map[] else ConsumeUnbounded(RunUnbounded(DropLast(calls)), Last(calls)).0
  }

  function Answers(cap: nat, calls: seq<Call>): seq<bool>
    requires ValidCalls(calls)
  {
    if calls == [] then [] else Answers(cap, DropLast(calls)) + [Consume(Run(cap, DropLast(calls)), cap, Last(calls)).1]
  }

  function UnboundedAnswers(calls: seq<Call>): seq<bool>
    requires ValidCalls(calls)
  {
    if calls == [] then []
    else UnboundedAnswers(DropLast(calls)) + [ConsumeUnbounded(RunUnbounded(DropLast(calls)), Last(calls)).1]
  }

  // Between two uses of one grant fewer than `cap` distinct other grants are called.
  predicate ReusedWithin(cap: nat, calls: seq<Call>) {
    forall i, k :: 0 <= i < k < |calls| && calls[i].grant == calls[k].grant && calls[k].grant !in GrantSet(calls[i + 1..k]) ==>
      |GrantSet(calls[i + 1..k])| < cap
  }

  lemma {:induction false} LastUse(calls: seq<Call>, grant: Bytes) returns (i: nat)
    requires grant in GrantSet(calls)
    ensures i < |calls| && calls[i].grant == grant && grant !in GrantSet(calls[i + 1..])
  {
    if Last(calls).grant == grant {
      i := |calls| - 1;
    } else {
      var front := DropLast(calls);
      assert grant in GrantSet(front) by {
        var k :| 0 <= k < |calls| && calls[k].grant == grant;
        assert front[k].grant == grant;
      }
      i := LastUse(front, grant);
      var since := front[i + 1..];
      assert calls[i + 1..] == since + [Last(calls)];
      GrantSetOfAppend(since, Last(calls));
    }
  }

  lemma {:induction false} FindEntry(entries: seq<Entry>, i: nat)
    requires i < |entries| && Distinct(Grants(entries))
    ensures Find(entries, entries[i].grant) == Some(entries[i].bucket)
  {
    if i > 0 {
      assert Grants(entries)[0] != Grants(entries)[i];
      assert Grants(entries[1..]) == Grants(entries)[1..];
      FindEntry(entries[1..], i - 1);
    }
  }

  // Every bucket the Map still holds is the unbounded map's.
  ghost predicate Mirrors(entries: seq<Entry>, buckets: map<Bytes, Bucket>) {
    forall i :: 0 <= i < |entries| ==> entries[i].grant in buckets && buckets[entries[i].grant] == entries[i].bucket
  }

  lemma {:induction false} WithoutIsSubset(entries: seq<Entry>, grant: Bytes)
    ensures forall e :: e in Without(entries, grant) ==> e in entries && e.grant != grant
  {
    if entries != [] {
      WithoutIsSubset(entries[1..], grant);
    }
  }

  lemma {:induction false} UnboundedKeys(calls: seq<Call>)
    requires ValidCalls(calls)
    ensures RunUnbounded(calls).Keys == GrantSet(calls)
  {
    if calls != [] {
      var front := DropLast(calls);
      UnboundedKeys(front);
      assert calls == front + [Last(calls)];
      GrantSetOfAppend(front, Last(calls));
    }
  }

  lemma HeldWhileReused(cap: nat, calls: seq<Call>)
    requires cap > 0 && calls != [] && ValidCalls(calls) && ReusedWithin(cap, calls)
    ensures Last(calls).grant in Grants(Run(cap, DropLast(calls))) <==> Last(calls).grant in GrantSet(DropLast(calls))
  {
    var front, grant := DropLast(calls), Last(calls).grant;
    if grant in GrantSet(front) {
      var i := LastUse(front, grant);
      assert calls[i + 1..|calls| - 1] == front[i + 1..];
      assert front == front[..i + 1] + front[i + 1..];
      SurvivesByReuseDistance(cap, front[..i + 1], front[i + 1..]);
    } else {
      MapIsNewestOfRecency(cap, front);
      RecencyFacts(front);
    }
  }

  // What the next call finds in the Map is what the unbounded map holds.
  lemma FindsTheSame(entries: seq<Entry>, buckets: map<Bytes, Bucket>, grant: Bytes)
    requires Distinct(Grants(entries)) && Mirrors(entries, buckets)
    requires grant in Grants(entries) <==> grant in buckets
    ensures Find(entries, grant) == if grant in buckets then Some(buckets[grant]) else None
  {
    FindMember(entries, grant);
    if grant in buckets {
      var k :| 0 <= k < |Grants(entries)| && Grants(entries)[k] == grant;
      FindEntry(entries, k);
    }
  }

  lemma ConsumeMirrors(entries: seq<Entry>, buckets: map<Bytes, Bucket>, cap: nat, call: Call)
    requires call.Valid() && Distinct(Grants(entries)) && Mirrors(entries, buckets)
    requires call.grant in Grants(entries) <==> call.grant in buckets
    ensures Mirrors(Consume(entries, cap, call).0, ConsumeUnbounded(buckets, call).0)
    ensures Consume(entries, cap, call).1 == ConsumeUnbounded(buckets, call).1
  {
    FindsTheSame(entries, buckets, call.grant);
    var kept := Without(entries, call.grant);
    WithoutIsSubset(entries, call.grant);
    forall i | 0 <= i < |kept| ensures kept[i].grant != call.grant && kept[i].grant in buckets && buckets[kept[i].grant] == kept[i].bucket {
      assert kept[i] in kept;
    }
  }

  /** While every grant comes back before `cap` distinct others, each answer is that of an unbounded per-grant map. */
  lemma {:induction false} BoundedIsUnboundedWithinReuse(cap: nat, calls: seq<Call>)
    requires cap > 0 && ValidCalls(calls) && ReusedWithin(cap, calls)
    ensures Mirrors(Run(cap, calls), RunUnbounded(calls))
    ensures Answers(cap, calls) == UnboundedAnswers(calls)
  {
    if calls != [] {
      var front := DropLast(calls);
      ReusedWithinPrefix(cap, calls);
      BoundedIsUnboundedWithinReuse(cap, front);
      HeldWhileReused(cap, calls);
      UnboundedKeys(front);
      MapIsNewestOfRecency(cap, front);
      ConsumeMirrors(Run(cap, front), RunUnbounded(front), cap, Last(calls));
    }
  }

  lemma ReusedWithinPrefix(cap: nat, calls: seq<Call>)
    requires calls != [] && ReusedWithin(cap, calls)
    ensures ReusedWithin(cap, DropLast(calls))
  {
    var front := DropLast(calls);
    forall i, k | 0 <= i < k < |front| && front[i].grant == front[k].grant && front[k].grant !in GrantSet(front[i + 1..k])
      ensures |GrantSet(front[i + 1..k])| < cap
    {
      assert front[i + 1..k] == calls[i + 1..k];
    }
  }

  /** The Worker's Map, capped at RATE_BUCKETS_MAX: never longer, always the most recently used grants, and an unbounded map
      to callers that come back before that many distinct others. */
  lemma WorkerMap(calls: seq<Call>)
    requires ValidCalls(calls)
    ensures |Run(RATE_BUCKETS_MAX, calls)| <= RATE_BUCKETS_MAX
    ensures Grants(Run(RATE_BUCKETS_MAX, calls)) == Newest(Recency(calls), RATE_BUCKETS_MAX)
    ensures ReusedWithin(RATE_BUCKETS_MAX, calls) ==> Answers(RATE_BUCKETS_MAX, calls) == UnboundedAnswers(calls)
  {
    MapIsNewestOfRecency(RATE_BUCKETS_MAX, calls);
    if ReusedWithin(RATE_BUCKETS_MAX, calls) {
      BoundedIsUnboundedWithinReuse(RATE_BUCKETS_MAX, calls);
    }
  }

  /** What one call leaves and answers: a grant that comes back with the same limit goes on with its bucket, any other call
      starts a full one; either way the account of that bucket decides, and the bucket left is the newest entry. */
  lemma ConsumeBalance(entries: seq<Entry>, cap: nat, call: Call)
    requires cap > 0 && call.Valid() && Distinct(Grants(entries)) && (forall e :: e in entries ==> e.bucket.Valid())
    ensures var ((after, allowed), found) := (Consume(entries, cap, call), Find(entries, call.grant));
            var same := found.Some? && found.value.capacity == call.capacity && found.value.window == call.window;
            && after != [] && Last(after).grant == call.grant
            && (same ==> Accounts(found.value, call.now, Last(after).bucket, allowed))
            && (!same ==> Accounts(Bucket(call.capacity, call.window, call.capacity as real, call.now), call.now, Last(after).bucket, allowed))
  {
    FoundIsEntry(entries, call.grant);
    TakeBalance(BucketFor(Find(entries, call.grant), call), call.now);
    PutBackKeepsOrder(entries, cap, Entry(call.grant, Serve(Find(entries, call.grant), call).0));
  }

  lemma {:induction false} FoundIsEntry(entries: seq<Entry>, grant: Bytes)
    ensures Find(entries, grant).Some? ==> Entry(grant, Find(entries, grant).value) in entries
  {
    if entries != [] {
      FoundIsEntry(entries[1..], grant);
    }
  }
}
