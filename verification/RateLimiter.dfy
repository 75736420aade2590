/** The token bucket (packages/transport/src/rate-limiter.ts), over exact arithmetic. */
module RateLimiters {
  import opened Common

  datatype Bucket = Bucket(tokens: real, lastRefill: real)

  datatype Limits = Limits(requestsPerMinute: real, burstSize: real)

  /** Tokens per millisecond. */
  function Rate(c: Limits): real {
    c.requestsPerMinute / 60000.0
  }

  /** Tokens that come back in d milliseconds. */
  function Refill(c: Limits, d: real): real {
    d * Rate(c)
  }

  /** Tokens that the configuration promises for d milliseconds. */
  function Owed(c: Limits, d: real): real {
    d * c.requestsPerMinute / 60000.0
  }

  lemma RefillLaw(c: Limits, d: real)
    ensures Refill(c, d) == Owed(c, d)
  {
  }

  lemma RefillAdd(c: Limits, x: real, y: real)
    ensures Refill(c, x + y) == Refill(c, x) + Refill(c, y)
    ensures Refill(c, 0.0) == 0.0
  {
  }

  lemma RefillMono(c: Limits, x: real, y: real)
    requires c.requestsPerMinute >= 0.0 && x <= y
    ensures Refill(c, x) <= Refill(c, y)
    ensures x >= 0.0 ==> Refill(c, x) >= 0.0
  {
    var r := Rate(c);
    assert r >= 0.0;
    assert (y - x) * r >= 0.0;
    assert y * r == (y - x) * r + x * r;
  }

  function Min(a: real, b: real): real {
    if a <= b then a else b
  }

  type Buckets = map<string, Bucket>

  /** Tokens available to the key at the given time. */
  function Level(c: Limits, buckets: Buckets, key: string, now: real): real {
    if key !in buckets then c.burstSize
    else Min(c.burstSize, buckets[key].tokens + Refill(c, now - buckets[key].lastRefill))
  }

  class RateLimiter {
    const c: Limits
    var buckets: Buckets

    constructor (c: Limits)
      ensures this.c == c && buckets == map[]
    {
      this.c, buckets := c, map[];
    }

    /** Accepts iff a whole token is available, and then takes it; only this key's bucket changes. */
    method Consume(key: string, now: real) returns (ok: bool)
      modifies this
      ensures ok <==> old(Level(c, buckets, key, now)) >= 1.0
      ensures buckets == Charge(c, old(buckets), key, now)
    {
      var bucket := if key in buckets then buckets[key] else Bucket(c.burstSize, now);
      var elapsed := now - bucket.lastRefill;
      var tokens := Min(c.burstSize, bucket.tokens + elapsed * (c.requestsPerMinute / 60000.0));
      ok := tokens >= 1.0;
      buckets := buckets[key := Bucket(if ok then tokens - 1.0 else tokens, now)];
    }

    method Remaining(key: string, now: real) returns (tokens: real)
      ensures tokens == Level(c, buckets, key, now) <= c.burstSize
    {
      if key !in buckets {
        return c.burstSize;
      }
      var elapsed := now - buckets[key].lastRefill;
      tokens := Min(c.burstSize, buckets[key].tokens + elapsed * (c.requestsPerMinute / 60000.0));
    }

    method Reset(key: string)
      modifies this
      ensures buckets == old(buckets) - {key}
      ensures forall now :: Level(c, buckets, key, now) == c.burstSize
    {
      buckets := buckets - {key};
    }
  }

  function Accepts(c: Limits, buckets: Buckets, key: string, now: real): bool {
    Level(c, buckets, key, now) >= 1.0
  }

  function Charge(c: Limits, buckets: Buckets, key: string, now: real): Buckets {
    var level := Level(c, buckets, key, now);
    buckets[key := Bucket(if level >= 1.0 then level - 1.0 else level, now)]
  }

  // ----- whole runs, over any mix of keys -----

  datatype Request = Request(key: string, time: real)

  function After(c: Limits, reqs: seq<Request>): Buckets {
    if reqs == [] then map[]
    else Charge(c, After(c, Front(reqs)), reqs[|reqs| - 1].key, reqs[|reqs| - 1].time)
  }

  /** Whether the n-th request of the run is accepted. */
  predicate Accepted(c: Limits, reqs: seq<Request>, n: nat)
    requires n < |reqs|
  {
    Accepts(c, After(c, reqs[..n]), reqs[n].key, reqs[n].time)
  }

  /** Accepted requests of the key among those numbered i to n - 1. */
  ghost function Served(c: Limits, reqs: seq<Request>, key: string, i: nat, n: nat): real
    requires n <= |reqs|
  {
    if i >= n then 0.0
    else Served(c, reqs, key, i, n - 1) + (if reqs[n - 1].key == key && Accepted(c, reqs, n - 1) then 1.0 else 0.0)
  }

  /** What the bound leaves, at time `now`, for the window that opens with request i. */
  ghost function Allowance(c: Limits, reqs: seq<Request>, key: string, i: nat, n: nat, now: real): real
    requires i < n <= |reqs|
  {
    c.burstSize + Refill(c, now - reqs[i].time) - Served(c, reqs, key, i, n)
  }

  ghost predicate BelowAll(c: Limits, reqs: seq<Request>, key: string, n: nat, now: real, level: real)
    requires n <= |reqs|
  {
    level <= c.burstSize &&
    forall i: nat :: i < n && reqs[i].key == key ==> level <= Allowance(c, reqs, key, i, n, now)
  }

  ghost predicate Attained(c: Limits, reqs: seq<Request>, key: string, n: nat, now: real, level: real)
    requires n <= |reqs|
  {
    level == c.burstSize ||
    exists i: nat :: i < n && reqs[i].key == key && level == Allowance(c, reqs, key, i, n, now)
  }

  lemma AllowanceStep(c: Limits, reqs: seq<Request>, key: string, i: nat, n: nat, now: real)
    requires i < n - 1 < |reqs|
    ensures Allowance(c, reqs, key, i, n, now) ==
            Allowance(c, reqs, key, i, n - 1, reqs[n - 1].time) + Refill(c, now - reqs[n - 1].time)
            - (if reqs[n - 1].key == key && Accepted(c, reqs, n - 1) then 1.0 else 0.0)
  {
    hide Refill, Accepted;
    RefillAdd(c, now - reqs[n - 1].time, reqs[n - 1].time - reqs[i].time);
    assert now - reqs[n - 1].time + (reqs[n - 1].time - reqs[i].time) == now - reqs[i].time;
  }

  /** The level is exactly the tightest of the bounds over all windows ending now. */
  lemma {:induction false} LevelExact(c: Limits, reqs: seq<Request>, n: nat, key: string, now: real)
    requires n <= |reqs|
    ensures BelowAll(c, reqs, key, n, now, Level(c, After(c, reqs[..n]), key, now))
    ensures Attained(c, reqs, key, n, now, Level(c, After(c, reqs[..n]), key, now))
    decreases n
  {
    hide Refill, Charge, Accepted, BelowAll, Attained;
    if n == 0 {
      LevelStart(c, reqs, key, now);
    } else {
      var r, m := reqs[n - 1], n - 1;
      assert Front(reqs[..n]) == reqs[..m];
      if r.key == key {
        LevelExact(c, reqs, m, key, r.time);
        SameKeyStep(c, reqs, n, key, now);
      } else {
        LevelExact(c, reqs, m, key, now);
        OtherKeyLevel(c, reqs, n, key, now);
        OtherKeyStep(c, reqs, n, key, now, Level(c, After(c, reqs[..m]), key, now));
      }
    }
  }

  lemma LevelStart(c: Limits, reqs: seq<Request>, key: string, now: real)
    ensures BelowAll(c, reqs, key, 0, now, Level(c, After(c, reqs[..0]), key, now))
    ensures Attained(c, reqs, key, 0, now, Level(c, After(c, reqs[..0]), key, now))
  {
  }

  lemma OtherKeyLevel(c: Limits, reqs: seq<Request>, n: nat, key: string, now: real)
    requires 0 < n <= |reqs| && reqs[n - 1].key != key
    ensures Level(c, After(c, reqs[..n]), key, now) == Level(c, After(c, reqs[..n - 1]), key, now)
  {
    assert Front(reqs[..n]) == reqs[..n - 1];
  }

  /** A request of the key takes its token, and the bucket refills until `now`. */
  lemma SameKeyLevel(c: Limits, reqs: seq<Request>, n: nat, key: string, now: real)
    requires 0 < n <= |reqs| && reqs[n - 1].key == key
    ensures var past := reqs[n - 1].time;
            var level0 := Level(c, After(c, reqs[..n - 1]), key, past);
            Level(c, After(c, reqs[..n]), key, now) ==
            Min(c.burstSize, level0 - (if Accepted(c, reqs, n - 1) then 1.0 else 0.0) + Refill(c, now - past))
  {
    hide Refill;
    assert Front(reqs[..n]) == reqs[..n - 1];
  }

  lemma OtherKeyStep(c: Limits, reqs: seq<Request>, n: nat, key: string, now: real, level: real)
    requires 0 < n <= |reqs| && reqs[n - 1].key != key
    requires BelowAll(c, reqs, key, n - 1, now, level) && Attained(c, reqs, key, n - 1, now, level)
    ensures BelowAll(c, reqs, key, n, now, level) && Attained(c, reqs, key, n, now, level)
  {
    forall i: nat | i < n - 1
      ensures Allowance(c, reqs, key, i, n, now) == Allowance(c, reqs, key, i, n - 1, now)
    {
    }
  }

  lemma SameKeyStep(c: Limits, reqs: seq<Request>, n: nat, key: string, now: real)
    requires 0 < n <= |reqs| && reqs[n - 1].key == key
    requires var past := reqs[n - 1].time;
             var level := Level(c, After(c, reqs[..n - 1]), key, past);
             BelowAll(c, reqs, key, n - 1, past, level) && Attained(c, reqs, key, n - 1, past, level)
    ensures BelowAll(c, reqs, key, n, now, Level(c, After(c, reqs[..n]), key, now))
    ensures Attained(c, reqs, key, n, now, Level(c, After(c, reqs[..n]), key, now))
  {
    hide Refill, Level, Accepted, Allowance, After;
    var past := reqs[n - 1].time;
    var level0 := Level(c, After(c, reqs[..n - 1]), key, past);
    var taken := if Accepted(c, reqs, n - 1) then 1.0 else 0.0;
    var level := Level(c, After(c, reqs[..n]), key, now);
    SameKeyLevel(c, reqs, n, key, now);
    LastAllowance(c, reqs, key, n, now);
    forall i: nat | i < n && reqs[i].key == key ensures level <= Allowance(c, reqs, key, i, n, now) {
      if i < n - 1 {
        AllowanceStep(c, reqs, key, i, n, now);
      }
    }
    if level != c.burstSize {
      if level0 == c.burstSize {
        assert level == Allowance(c, reqs, key, n - 1, n, now);
      } else {
        var i: nat :| i < n - 1 && reqs[i].key == key && level0 == Allowance(c, reqs, key, i, n - 1, past);
        AllowanceStep(c, reqs, key, i, n, now);
      }
    }
  }

  lemma LastAllowance(c: Limits, reqs: seq<Request>, key: string, n: nat, now: real)
    requires 0 < n <= |reqs| && reqs[n - 1].key == key
    ensures Allowance(c, reqs, key, n - 1, n, now) ==
            c.burstSize + Refill(c, now - reqs[n - 1].time) - (if Accepted(c, reqs, n - 1) then 1.0 else 0.0)
  {
    hide Refill, Accepted;
    assert Served(c, reqs, key, n - 1, n - 1) == 0.0;
  }

  /** Accepting request n keeps the bound on the window that opens with request i. */
  ghost predicate Fits(c: Limits, reqs: seq<Request>, i: nat, n: nat)
    requires i <= n < |reqs|
  {
    Served(c, reqs, reqs[n].key, i, n) + 1.0 <=
    c.burstSize + Owed(c, reqs[n].time - reqs[i].time)
  }

  lemma FitsIffAllowed(c: Limits, reqs: seq<Request>, i: nat, n: nat)
    requires i <= n < |reqs|
    ensures i < n ==> (Fits(c, reqs, i, n) <==> Allowance(c, reqs, reqs[n].key, i, n, reqs[n].time) >= 1.0)
    ensures i == n ==> (Fits(c, reqs, i, n) <==> c.burstSize >= 1.0)
  {
    hide Refill, Owed, Accepted;
    RefillLaw(c, reqs[n].time - reqs[i].time);
    RefillAdd(c, 0.0, 0.0);
    assert reqs[n].time - reqs[n].time == 0.0;
  }

  /** Sound and tight: a request is accepted iff accepting it keeps, on every window of
      requests of its key that ends now, the number accepted within burst plus refill. */
  lemma AcceptedIffFits(c: Limits, reqs: seq<Request>, n: nat)
    requires n < |reqs|
    ensures Accepted(c, reqs, n) <==> forall i: nat :: i <= n && reqs[i].key == reqs[n].key ==> Fits(c, reqs, i, n)
  {
    hide Refill, Level, After, Fits, Served, Allowance;
    var key, now := reqs[n].key, reqs[n].time;
    var level := Level(c, After(c, reqs[..n]), key, now);
    LevelExact(c, reqs, n, key, now);
    if Accepted(c, reqs, n) {
      forall i: nat | i <= n && reqs[i].key == key ensures Fits(c, reqs, i, n) {
        FitsIffAllowed(c, reqs, i, n);
      }
    } else if level == c.burstSize {
      FitsIffAllowed(c, reqs, n, n);
    } else {
      var i: nat :| i < n && reqs[i].key == key && level == Allowance(c, reqs, key, i, n, now);
      FitsIffAllowed(c, reqs, i, n);
    }
  }

  /** The clock never goes back. */
  ghost predicate Monotone(reqs: seq<Request>) {
    forall i, j :: 0 <= i <= j < |reqs| ==> reqs[i].time <= reqs[j].time
  }

  lemma {:induction false} WindowBound(c: Limits, reqs: seq<Request>, key: string, i: nat, n: nat)
    requires Monotone(reqs) && c.requestsPerMinute >= 0.0 && i < n <= |reqs| && reqs[i].key == key
    ensures Served(c, reqs, key, i, n) == 0.0 ||
            Served(c, reqs, key, i, n) <=
            c.burstSize + Owed(c, reqs[n - 1].time - reqs[i].time)
    decreases n
  {
    hide Refill, Owed, Accepted;
    RefillLaw(c, reqs[n - 1].time - reqs[i].time);
    if reqs[n - 1].key == key && Accepted(c, reqs, n - 1) {
      AcceptedIffFits(c, reqs, n - 1);
      assert Fits(c, reqs, i, n - 1);
      RefillLaw(c, reqs[n - 1].time - reqs[i].time);
    } else if i < n - 1 {
      WindowBound(c, reqs, key, i, n - 1);
      RefillLaw(c, reqs[n - 2].time - reqs[i].time);
      RefillMono(c, reqs[n - 2].time - reqs[i].time, reqs[n - 1].time - reqs[i].time);
    }
  }

  /** Accepted requests of the key with a time in [a, b], among the first n. */
  ghost function ServedIn(c: Limits, reqs: seq<Request>, key: string, a: real, b: real, n: nat): real
    requires n <= |reqs|
  {
    if n == 0 then 0.0
    else ServedIn(c, reqs, key, a, b, n - 1) +
         (if a <= reqs[n - 1].time <= b && reqs[n - 1].key == key && Accepted(c, reqs, n - 1) then 1.0 else 0.0)
  }

  lemma {:induction false} ServedGrows(c: Limits, reqs: seq<Request>, key: string, i: nat, m: nat, n: nat)
    requires m <= n <= |reqs|
    ensures Served(c, reqs, key, i, m) <= Served(c, reqs, key, i, n)
    decreases n
  {
    if m < n {
      ServedGrows(c, reqs, key, i, m, n - 1);
    }
  }

  /** What an interval of time holds is held by a window of requests inside it. */
  lemma {:induction false} IntervalIsWindow(c: Limits, reqs: seq<Request>, key: string, a: real, b: real, n: nat)
    returns (i: nat, m: nat)
    requires n <= |reqs| && ServedIn(c, reqs, key, a, b, n) > 0.0
    ensures i < m <= n && reqs[i].key == key && a <= reqs[i].time && reqs[m - 1].time <= b
    ensures ServedIn(c, reqs, key, a, b, n) <= Served(c, reqs, key, i, m)
    decreases n
  {
    var last := reqs[n - 1];
    var counted := a <= last.time <= b && last.key == key && Accepted(c, reqs, n - 1);
    if ServedIn(c, reqs, key, a, b, n - 1) > 0.0 {
      i, m := IntervalIsWindow(c, reqs, key, a, b, n - 1);
      if counted {
        ServedGrows(c, reqs, key, i, m, n - 1);
        m := n;
      }
    } else {
      ServedInSign(c, reqs, key, a, b, n - 1);
      i, m := n - 1, n;
      assert Served(c, reqs, key, n - 1, n - 1) == 0.0;
    }
  }

  lemma {:induction false} ServedInSign(c: Limits, reqs: seq<Request>, key: string, a: real, b: real, n: nat)
    requires n <= |reqs|
    ensures ServedIn(c, reqs, key, a, b, n) >= 0.0
  {
    if n > 0 {
      ServedInSign(c, reqs, key, a, b, n - 1);
    }
  }

  lemma IntervalOwed(c: Limits, reqs: seq<Request>, key: string, a: real, b: real)
    requires Monotone(reqs) && c.requestsPerMinute >= 0.0 && a <= b && c.burstSize >= 0.0
    ensures ServedIn(c, reqs, key, a, b, |reqs|) <= c.burstSize + Owed(c, b - a)
  {
    hide Refill, Owed, Accepted;
    var served := ServedIn(c, reqs, key, a, b, |reqs|);
    RefillLaw(c, b - a);
    RefillMono(c, 0.0, b - a);
    RefillAdd(c, 0.0, 0.0);
    if served > 0.0 {
      var i, m := IntervalIsWindow(c, reqs, key, a, b, |reqs|);
      WindowBound(c, reqs, key, i, m);
      RefillLaw(c, reqs[m - 1].time - reqs[i].time);
      RefillMono(c, reqs[m - 1].time - reqs[i].time, b - a);
    }
  }

  /** In any interval of time, the accepted requests of a key are at most the burst plus
      the configured rate over the interval. */
  lemma IntervalBound(c: Limits, reqs: seq<Request>, key: string, a: real, b: real)
    requires Monotone(reqs) && c.requestsPerMinute >= 0.0 && a <= b && c.burstSize >= 0.0
    ensures ServedIn(c, reqs, key, a, b, |reqs|) <= c.burstSize + (b - a) * c.requestsPerMinute / 60000.0
  {
    hide ServedIn, Monotone;
    IntervalOwed(c, reqs, key, a, b);
  }
}
