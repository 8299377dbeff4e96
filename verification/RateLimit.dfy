/** The token bucket behind `rate <= N per <window>` (nakli-hub/internal/server/runtime.go). Times and windows
    are reals in seconds; the clock may step back. */
module RateLimit {
  import opened Wrappers

  datatype Bucket = Bucket(capacity: int, window: real, tokens: real, lastRefill: real)
  {
    // N tokens per window; 0 < capacity and 0 < window is what rateConsume's guard leaves.
    predicate Valid() {
      capacity > 0 && window > 0.0 && 0.0 <= tokens <= capacity as real
    }

    function Rate(): real
      requires window > 0.0
    {
      capacity as real / window
    }
  }

  function NewBucket(capacity: int, window: real, now: real): Bucket {
    Bucket(capacity, window, capacity as real, now)
  }

  function Refill(b: Bucket, now: real): Bucket
    requires b.window > 0.0
  {
    if now - b.lastRefill > 0.0 then
      var filled := b.tokens + b.Rate() * (now - b.lastRefill);
      b.(tokens := if filled > b.capacity as real then b.capacity as real else filled, lastRefill := now)
    else b
  }

  function TakeToken(b: Bucket, now: real): (Bucket, bool)
    requires b.window > 0.0
  {
    var r := Refill(b, now);
    if r.tokens < 1.0 then (r, false) else (r.(tokens := r.tokens - 1.0), true)
  }

  function Smaller(a: real, b: real): real {
    if a < b then a else b
  }

  // The exact account of a call: the tokens held plus what the elapsed time earns, cut at the capacity, pay for it if they make
  // a whole token. A clock that steps back earns nothing.
  predicate Accounts(b: Bucket, now: real, b': Bucket, allowed: bool)
    requires b.window > 0.0
  {
    var since := if now > b.lastRefill then now - b.lastRefill else 0.0;
    var balance := Smaller(b.capacity as real, b.tokens + b.capacity as real / b.window * since);
    && b'.tokens + (if allowed then 1.0 else 0.0) == balance
    && (allowed <==> balance >= 1.0)
    && b'.lastRefill == b.lastRefill + since && b'.capacity == b.capacity && b'.window == b.window
  }

  /** One call on a bucket. */
  lemma TakeBalance(b: Bucket, now: real)
    requires b.Valid()
    ensures Accounts(b, now, TakeToken(b, now).0, TakeToken(b, now).1)
  {
  }

  class RateBucket {
    const capacity: int
    const window: real
    var tokens: real
    var lastRefill: real

    function State(): Bucket reads this { Bucket(capacity, window, tokens, lastRefill) }

    constructor (capacity: int, window: real, now: real)
      requires capacity > 0 && window > 0.0
      ensures State() == NewBucket(capacity, window, now) && State().Valid()
    {
      this.capacity, this.window := capacity, window;
      tokens, lastRefill := capacity as real, now;
    }

    method Take(now: real) returns (allowed: bool)
      requires State().Valid()
      modifies this
      ensures (State(), allowed) == TakeToken(old(State()), now)
      ensures State().Valid() && lastRefill == (if now > old(lastRefill) then now else old(lastRefill))
      ensures Accounts(old(State()), now, State(), allowed)
    {
      TakeAccounts(State(), now);
      TakeBalance(State(), now);
      var elapsed := now - lastRefill;
      if elapsed > 0.0 {
        var rate := capacity as real / window;
        tokens := tokens + rate * elapsed;
        if tokens > capacity as real {
          tokens := capacity as real;
        }
        lastRefill := now;
      }
      assert State() == Refill(old(State()), now);
      if tokens < 1.0 {
        return false;
      }
      tokens := tokens - 1.0;
      return true;
    }
  }

  lemma RefillBound(b: Bucket, now: real)
    requires b.Valid()
    ensures var r := Refill(b, now);
            && r.Valid() && r.capacity == b.capacity && r.window == b.window
            && r.lastRefill == (if now > b.lastRefill then now else b.lastRefill)
            && b.tokens <= r.tokens <= b.tokens + b.Rate() * (r.lastRefill - b.lastRefill)
  {
    if now > b.lastRefill {
      assert b.Rate() * (now - b.lastRefill) >= 0.0;
    }
  }

  // `allowed` calls plus the tokens left afterwards are paid for by the tokens held before and the refill.
  predicate PaidFor(b: Bucket, b': Bucket, allowed: nat) {
    && b.Valid() && b'.Valid() && b'.capacity == b.capacity && b'.window == b.window
    && b'.lastRefill >= b.lastRefill
    && allowed as real + b'.tokens <= b.tokens + b.Rate() * (b'.lastRefill - b.lastRefill)
  }

  lemma TakeAccounts(b: Bucket, now: real)
    requires b.Valid()
    ensures var (b', allowed) := TakeToken(b, now);
            && PaidFor(b, b', if allowed then 1 else 0)
            && b'.lastRefill == (if now > b.lastRefill then now else b.lastRefill)
            && (!allowed ==> b'.tokens < 1.0)
  {
    RefillBound(b, now);
  }

  lemma PaidForTwice(b: Bucket, m: Bucket, b': Bucket, first: nat, second: nat)
    requires PaidFor(b, m, first) && PaidFor(m, b', second)
    ensures PaidFor(b, b', first + second)
  {
    Distribute(b.Rate(), m.lastRefill - b.lastRefill, b'.lastRefill - m.lastRefill);
    assert m.Rate() == b.Rate();
  }

  lemma Distribute(r: real, x: real, y: real)
    ensures r * x + r * y == r * (x + y)
  {
  }

  // --- runs of calls ---------------------------------------------------------------------------

  function After(b: Bucket, times: seq<real>): Bucket
    requires b.window > 0.0
    ensures After(b, times).window == b.window
  {
    if times == [] then b else TakeToken(After(b, DropLast(times)), Last(times)).0
  }

  function Allowed(b: Bucket, times: seq<real>): nat
    requires b.window > 0.0
  {
    if times == [] then 0
    else Allowed(b, DropLast(times)) + if TakeToken(After(b, DropLast(times)), Last(times)).1 then 1 else 0
  }

  /** Over any run of calls, clock steps back included: calls allowed plus tokens left are at most the tokens held
      at the start plus the rate times the growth of lastRefill. */
  lemma {:induction false} BucketBound(b: Bucket, times: seq<real>)
    requires b.Valid()
    ensures PaidFor(b, After(b, times), Allowed(b, times))
  {
    if times != [] {
      BucketBound(b, DropLast(times));
      var m := After(b, DropLast(times));
      TakeAccounts(m, Last(times));
      PaidForTwice(b, m, After(b, times), Allowed(b, DropLast(times)), Allowed(b, times) - Allowed(b, DropLast(times)));
    } else {
      assert b.Rate() * 0.0 == 0.0;
    }
  }

  /** At most N calls plus N per elapsed window: 2N while lastRefill grows by no more than one window. */
  lemma WindowBound(b: Bucket, times: seq<real>, windows: nat)
    requires b.Valid() && After(b, times).lastRefill - b.lastRefill <= windows as real * b.window
    ensures Allowed(b, times) <= (windows + 1) * b.capacity
  {
    BucketBound(b, times);
    PaidForWithin(b, After(b, times), Allowed(b, times), windows);
  }

  lemma PaidForWithin(b: Bucket, b': Bucket, allowed: nat, windows: nat)
    requires PaidFor(b, b', allowed) && b'.lastRefill - b.lastRefill <= windows as real * b.window
    ensures allowed <= (windows + 1) * b.capacity
  {
    var refill := b.Rate() * (b'.lastRefill - b.lastRefill);
    assert allowed as real <= b.tokens + refill;
    assert refill <= (windows * b.capacity) as real by {
      RateTimesWindows(b, b'.lastRefill - b.lastRefill, windows);
    }
    WholeBound(allowed, windows, b.capacity);
  }

  lemma WholeBound(allowed: nat, windows: nat, capacity: int)
    requires allowed as real <= capacity as real + (windows * capacity) as real
    ensures allowed <= (windows + 1) * capacity
  {
    assert (windows + 1) * capacity == capacity + windows * capacity;
  }

  lemma RateTimesWindows(b: Bucket, growth: real, windows: nat)
    requires b.Valid() && growth <= windows as real * b.window
    ensures b.Rate() * growth <= (windows * b.capacity) as real
  {
    var n, w := windows as real, b.window;
    assert b.Rate() * growth <= b.Rate() * (n * w) by { MultiplyBound(b.Rate(), growth, n * w); }
    calc {
      b.Rate() * (n * w);
      n * (b.Rate() * w);
      n * b.capacity as real;
      (windows * b.capacity) as real;
    }
  }

  lemma MultiplyBound(r: real, x: real, y: real)
    requires r >= 0.0 && x <= y
    ensures r * x <= r * y
  {
    assert r * (y - x) >= 0.0;
    Distribute(r, x, y - x);
  }

  // Each call comes at least `gap` after the one before.
  predicate Spaced(gap: real, times: seq<real>) {
    forall i :: 0 < i < |times| ==> times[i] >= times[i - 1] + gap
  }

  // The first call finds a token: one is held, or the last refill is a gap ago.
  predicate StartsServed(b: Bucket, now: real)
    requires b.Valid()
  {
    now >= b.lastRefill && (b.tokens >= 1.0 || now >= b.lastRefill + Gap(b))
  }

  function Gap(b: Bucket): (gap: real)
    requires b.Valid()
    ensures gap > 0.0
  {
    b.window / b.capacity as real
  }

  lemma RateTimesGap(c: real, w: real)
    requires c > 0.0 && w > 0.0
    ensures (c / w) * (w / c) == 1.0
  {
    assert (c / w) * w == c;
    assert (w / c) * c == w;
    calc {
      (c / w) * (w / c);
      ((c / w) * (w / c) * c) / c;
      ((c / w) * ((w / c) * c)) / c;
      c / c;
    }
  }

  lemma GapRefillsOne(b: Bucket, now: real)
    requires b.Valid() && now >= b.lastRefill + Gap(b)
    ensures TakeToken(b, now).1 && TakeToken(b, now).0.lastRefill == now
  {
    RateTimesGap(b.capacity as real, b.window);
    MultiplyBound(b.Rate(), Gap(b), now - b.lastRefill);
  }

  lemma FirstCallIsServed(b: Bucket, now: real)
    requires b.Valid() && StartsServed(b, now)
    ensures TakeToken(b, now).1 && TakeToken(b, now).0.lastRefill == now
  {
    if b.tokens < 1.0 {
      GapRefillsOne(b, now);
    } else {
      RefillBound(b, now);
    }
  }

  /** A caller whose calls are at least window/N apart is never refused, when its first call finds a token or comes that
      long after the last refill. */
  lemma {:induction false} SpacedCallsAreNeverRefused(b: Bucket, times: seq<real>)
    requires b.Valid() && Spaced(Gap(b), times) && (times != [] ==> StartsServed(b, times[0]))
    ensures Allowed(b, times) == |times|
    ensures After(b, times).lastRefill == if times == [] then b.lastRefill else Last(times)
  {
    if |times| == 1 {
      assert DropLast(times) == [];
      FirstCallIsServed(b, times[0]);
    } else if times != [] {
      var front := DropLast(times);
      SpacedCallsAreNeverRefused(b, front);
      BucketBound(b, front);
      var m := After(b, front);
      assert Gap(m) == Gap(b) && Last(front) == times[|times| - 2];
      GapRefillsOne(m, Last(times));
    }
  }

  /** So a caller that spaces all its calls is never refused, from the call that creates its bucket on. */
  lemma NewCallersAreNeverRefused(capacity: int, window: real, created: real, times: seq<real>)
    requires capacity > 0 && window > 0.0 && (times != [] ==> times[0] >= created)
    requires Spaced(window / capacity as real, times)
    ensures Allowed(NewBucket(capacity, window, created), times) == |times|
  {
    SpacedCallsAreNeverRefused(NewBucket(capacity, window, created), times);
  }

  // Calls allowed and tokens left account for the tokens held and the rate times the growth of lastRefill.
  predicate Balanced(b: Bucket, b': Bucket, allowed: int)
    requires b.window > 0.0
  {
    allowed as real + b'.tokens == b.tokens + b.capacity as real / b.window * (b'.lastRefill - b.lastRefill)
  }

  lemma BalancedTwice(b: Bucket, m: Bucket, b': Bucket, first: int, second: int)
    requires b.window > 0.0 && m.window == b.window && m.capacity == b.capacity
    requires Balanced(b, m, first) && Balanced(m, b', second)
    ensures Balanced(b, b', first + second)
  {
    Distribute(b.capacity as real / b.window, m.lastRefill - b.lastRefill, b'.lastRefill - m.lastRefill);
  }

  lemma {:induction false} SameLimits(b: Bucket, times: seq<real>)
    requires b.Valid()
    ensures After(b, times).Valid() && After(b, times).capacity == b.capacity && After(b, times).window == b.window
  {
    if times != [] {
      SameLimits(b, DropLast(times));
      TakeBalance(After(b, DropLast(times)), Last(times));
      RefillBound(After(b, DropLast(times)), Last(times));
    }
  }

  lemma NothingBalances(b: Bucket)
    requires b.Valid()
    ensures Balanced(b, b, 0)
  {
    assert b.capacity as real / b.window * 0.0 == 0.0;
  }

  // The refill of one more call is not cut.
  predicate UncutAt(m: Bucket, now: real)
    requires m.Valid()
  {
    now > m.lastRefill ==> m.tokens + m.capacity as real / m.window * (now - m.lastRefill) <= m.capacity as real
  }

  // No refill of the run is cut at the capacity.
  predicate Uncut(b: Bucket, times: seq<real>)
    requires b.Valid()
  {
    times == [] || (Uncut(b, DropLast(times)) && After(b, DropLast(times)).Valid() && UncutAt(After(b, DropLast(times)), Last(times)))
  }

  /** Where no refill is cut, nothing is lost: calls allowed plus tokens left are exactly the tokens held at the start plus the
      rate times the growth of lastRefill. */
  lemma {:induction false} UncutRunsBalance(b: Bucket, times: seq<real>)
    requires b.Valid() && Uncut(b, times)
    ensures Balanced(b, After(b, times), Allowed(b, times))
  {
    if times == [] {
      NothingBalances(b);
    } else {
      var front, now := DropLast(times), Last(times);
      UncutRunsBalance(b, front);
      SameLimits(b, front);
      var m := After(b, front);
      UncutTake(m, now);
      BalancedTwice(b, m, TakeToken(m, now).0, Allowed(b, front), if TakeToken(m, now).1 then 1 else 0);
    }
  }

  lemma UncutTake(b: Bucket, now: real)
    requires b.Valid() && UncutAt(b, now)
    ensures var (b', allowed) := TakeToken(b, now); Balanced(b, b', if allowed then 1 else 0)
  {
    TakeBalance(b, now);
    assert b.capacity as real / b.window * 0.0 == 0.0;
  }

  lemma {:induction false} BurstState(b: Bucket, now: real, k: nat)
    requires b.Valid() && b.tokens == b.capacity as real && now == b.lastRefill && k <= b.capacity
    ensures var times := seq(k, _ => now); Allowed(b, times) == k && After(b, times) == b.(tokens := (b.capacity - k) as real)
  {
    if k > 0 {
      BurstState(b, now, k - 1);
      var times := seq(k, _ => now);
      assert DropLast(times) == seq(k - 1, _ => now) && Last(times) == now;
      TakeBalance(b.(tokens := (b.capacity - (k - 1)) as real), now);
    } else {
      assert b.(tokens := (b.capacity - 0) as real) == b;
    }
  }

  /** A new bucket is full: it allows its whole capacity at once and refuses the next call of that moment. */
  lemma NewBucketIsFull(capacity: int, window: real, now: real)
    requires capacity > 0 && window > 0.0
    ensures var b, times := NewBucket(capacity, window, now), seq(capacity, _ => now);
            Allowed(b, times) == capacity && !TakeToken(After(b, times), now).1
  {
    var b := NewBucket(capacity, window, now);
    BurstState(b, now, capacity);
    TakeBalance(b.(tokens := 0.0), now);
  }
}
