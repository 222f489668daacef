/** The login rate limiter of `src/lib/rate-limit.ts`: a key -> record store
    in which each record counts attempts and carries an absolute expiry time.
    Time is an integer number of milliseconds; the store is the `rateLimit`
    table; the decision to run the opportunistic sweep (the source draws
    `Math.random() < 0.1`) is the parameter `sweep`. */
module RateLimit {
  import opened Strings

  /** One row of the `rateLimit` table. */
  datatype Record = Record(count: int, expiresAt: int)

  type Store = map<string, Record>

  /** `Math.pow(2, n)` */
  function Pow2(n: nat): (p: nat)
    ensures p >= 1
  {
    if n == 0 then 1 else 2 * Pow2(n - 1)
  }

  lemma {:induction false} Pow2AtLeast32(n: nat)
    requires n >= 5
    ensures Pow2(n) >= 32
  {
    if n > 5 { Pow2AtLeast32(n - 1); }
  }

  /** The powers of two below the cap, and the cap from the fifth on. */
  lemma Pow2Cases(n: nat)
    requires n >= 1
    ensures n == 1 ==> Pow2(n) == 2
    ensures n == 2 ==> Pow2(n) == 4
    ensures n == 3 ==> Pow2(n) == 8
    ensures n == 4 ==> Pow2(n) == 16
    ensures n >= 5 ==> Pow2(n) >= 32
  {
    if n >= 5 { Pow2AtLeast32(n); }
  }

  function Min(a: int, b: int): (m: int)
    ensures m <= a && m <= b && (m == a || m == b)
  {
    if a <= b then a else b
  }

  /** The number of over-quota attempts a live record at `count` represents,
      counting the one being made. */
  function OverQuotaAttempts(count: int, limit: int): (a: nat)
    requires count >= limit
    ensures a >= 1
  {
    count - limit + 1
  }

  /** `Math.min(Math.pow(2, attempts), 32)`: the factor by which the window is
      stretched on a denied attempt. */
  function BackoffMultiplier(count: int, limit: int): (m: int)
    requires count >= limit
    ensures m == 2 || m == 4 || m == 8 || m == 16 || m == 32
    ensures m == 32 <==> OverQuotaAttempts(count, limit) >= 5
  {
    var attempts := OverQuotaAttempts(count, limit);
    Pow2Cases(attempts);
    Min(Pow2(attempts), 32)
  }

  /** Each further denied attempt doubles the multiplier until it reaches the cap. */
  lemma BackoffDoubles(count: int, limit: int)
    requires count >= limit
    ensures BackoffMultiplier(count + 1, limit) == Min(2 * BackoffMultiplier(count, limit), 32)
  {
  }

  /** A record is expired only once `now` is strictly past its expiry. */
  predicate Expired(r: Record, now: int) {
    r.expiresAt < now
  }

  /** The `deleteMany({ expiresAt: { lt: now } })` sweep. */
  function Sweep(store: Store, now: int): (s: Store)
    ensures forall k :: k in s <==> k in store && !Expired(store[k], now)
    ensures forall k :: k in s ==> s[k] == store[k]
  {
    map k | k in store && !Expired(store[k], now) :: store[k]
  }

  function MaybeSweep(store: Store, now: int, sweep: bool): Store {
    if sweep then Sweep(store, now) else store
  }

  /** The new store after a call, and whether the call allowed the attempt. */
  datatype Outcome = Outcome(store: Store, allowed: bool)

  /** The effect of one `checkRateLimit(key, limit, windowSeconds)` call at
      time `now` (src/lib/rate-limit.ts:10-70). */
  function Check(store: Store, key: string, limit: int, windowSeconds: int, now: int, sweep: bool): Outcome {
    var created := Record(1, now + windowSeconds * 1000);
    if key !in store then
      Outcome(MaybeSweep(store[key := created], now, sweep), true)
    else
      var r := store[key];
      if Expired(r, now) then
        Outcome(store[key := created], true)
      else if r.count >= limit then
        var m := BackoffMultiplier(r.count, limit);
        Outcome(store[key := Record(r.count + 1, now + windowSeconds * m * 1000)], false)
      else
        Outcome(MaybeSweep(store[key := Record(r.count + 1, r.expiresAt)], now, sweep), true)
  }

  /** The store seen through the sweep-free path: what a call does to `key`
      alone. */
  function Lookup(store: Store, key: string): Option<Record> {
    if key in store then Some(store[key]) else None
  }

  // ---------------------------------------------------------------------
  // The four transitions
  // ---------------------------------------------------------------------

  /** A key with no record gets `count = 1` and a full window, and is allowed;
      without a sweep nothing else changes. */
  lemma CreateTransition(store: Store, key: string, limit: int, windowSeconds: int, now: int, sweep: bool)
    requires key !in store
    ensures var o := Check(store, key, limit, windowSeconds, now, sweep);
      && o.allowed
      && (!sweep || windowSeconds >= 0 ==> Lookup(o.store, key) == Some(Record(1, now + windowSeconds * 1000)))
      && (!sweep ==> forall k :: k != key ==> Lookup(o.store, k) == Lookup(store, k))
  {
  }

  /** An expired record is replaced by a fresh one whatever its count was:
      the outcome does not depend on the old record at all, and the sweep
      never runs on this path. */
  lemma ResetForgetsHistory(store: Store, key: string, old1: Record, old2: Record,
                            limit: int, windowSeconds: int, now: int, sweep1: bool, sweep2: bool)
    requires Expired(old1, now) && Expired(old2, now)
    ensures Check(store[key := old1], key, limit, windowSeconds, now, sweep1)
         == Check(store[key := old2], key, limit, windowSeconds, now, sweep2)
    ensures var o := Check(store[key := old1], key, limit, windowSeconds, now, sweep1);
      o.allowed && o.store == store[key := Record(1, now + windowSeconds * 1000)]
  {
    assert store[key := old1][key := Record(1, now + windowSeconds * 1000)]
        == store[key := old2][key := Record(1, now + windowSeconds * 1000)];
  }

  /** Under the limit, a live record (including one expiring exactly now) is
      incremented by one and keeps its expiry; the attempt is allowed. */
  lemma IncrementTransition(store: Store, key: string, limit: int, windowSeconds: int, now: int, sweep: bool)
    requires key in store && store[key].expiresAt >= now && store[key].count < limit
    ensures var o := Check(store, key, limit, windowSeconds, now, sweep);
      && o.allowed
      && Lookup(o.store, key) == Some(Record(store[key].count + 1, store[key].expiresAt))
      && (!sweep ==> forall k :: k != key ==> Lookup(o.store, k) == Lookup(store, k))
  {
  }

  /** At or over the limit, a live record denies the attempt, counts it, and
      pushes its expiry to `now` plus the window stretched by the backoff
      multiplier; no other record changes. */
  lemma DenyTransition(store: Store, key: string, limit: int, windowSeconds: int, now: int, sweep: bool)
    requires key in store && store[key].expiresAt >= now && store[key].count >= limit
    ensures var o := Check(store, key, limit, windowSeconds, now, sweep);
      && !o.allowed
      && key in o.store
      && o.store[key].count == store[key].count + 1
      && (exists m :: (m == 2 || m == 4 || m == 8 || m == 16 || m == 32)
                      && m == BackoffMultiplier(store[key].count, limit)
                      && o.store[key].expiresAt == now + windowSeconds * m * 1000)
      && forall k :: k != key ==> Lookup(o.store, k) == Lookup(store, k)
  {
    var m := BackoffMultiplier(store[key].count, limit);
    assert Check(store, key, limit, windowSeconds, now, sweep).store[key].expiresAt == now + windowSeconds * m * 1000;
  }

  /** A call is denied exactly when the key has a live record at or over the limit. */
  lemma DeniedIff(store: Store, key: string, limit: int, windowSeconds: int, now: int, sweep: bool)
    ensures !Check(store, key, limit, windowSeconds, now, sweep).allowed
        <==> key in store && !Expired(store[key], now) && store[key].count >= limit
  {
  }

  // ---------------------------------------------------------------------
  // The sweep
  // ---------------------------------------------------------------------

  /** The sweep never changes the decision; it only runs on the create and
      increment paths, where it removes exactly the expired records of the
      sweep-free result, and on the reset and deny paths it does nothing. */
  lemma SweepIsBestEffort(store: Store, key: string, limit: int, windowSeconds: int, now: int)
    ensures var with := Check(store, key, limit, windowSeconds, now, true);
            var without := Check(store, key, limit, windowSeconds, now, false);
      && with.allowed == without.allowed
      && (key in store && (Expired(store[key], now) || store[key].count >= limit) ==> with.store == without.store)
      && (key !in store || (!Expired(store[key], now) && store[key].count < limit) ==> with.store == Sweep(without.store, now))
  {
  }

  /** What the sweep removes was expired; what it keeps is untouched. */
  lemma SweepDeletesOnlyExpired(store: Store, now: int, k: string)
    requires k in store
    ensures k !in Sweep(store, now) <==> store[k].expiresAt < now
    ensures k in Sweep(store, now) ==> Sweep(store, now)[k] == store[k]
  {
  }

  // ---------------------------------------------------------------------
  // Store invariant
  // ---------------------------------------------------------------------

  /** Every record that exists has counted at least one attempt. */
  predicate CountsPositive(store: Store) {
    forall k :: k in store ==> store[k].count >= 1
  }

  lemma CheckKeepsCountsPositive(store: Store, key: string, limit: int, windowSeconds: int, now: int, sweep: bool)
    requires CountsPositive(store)
    ensures CountsPositive(Check(store, key, limit, windowSeconds, now, sweep).store)
  {
  }

  /** While a record lives, every call raises its count by exactly one. */
  lemma LiveCountIncreases(store: Store, key: string, limit: int, windowSeconds: int, now: int, sweep: bool)
    requires key in store && !Expired(store[key], now)
    ensures var o := Check(store, key, limit, windowSeconds, now, sweep);
      key in o.store && o.store[key].count == store[key].count + 1
  {
  }

  // ---------------------------------------------------------------------
  // Remaining time
  // ---------------------------------------------------------------------

  /** `Math.ceil(a / b)` for a non-negative `a`. */
  function CeilDiv(a: nat, b: nat): (q: nat)
    requires b > 0
    ensures q * b >= a && (q == 0 || (q - 1) * b < a)
  {
    var q := (a + b - 1) / b;
    assert (a + b - 1) == q * b + (a + b - 1) % b;
    q
  }

  /** `getRateLimitInfo(key)` read at time `now` (src/lib/rate-limit.ts:77-88):
      no value for an absent or expired key, otherwise the whole seconds left,
      rounded up. */
  function RemainingSeconds(store: Store, key: string, now: int): (r: Option<nat>)
    ensures r.None? <==> key !in store || Expired(store[key], now)
    ensures r.Some? ==> var left := store[key].expiresAt - now;
      r.value * 1000 >= left && (r.value == 0 || (r.value - 1) * 1000 < left)
    ensures r.Some? ==> (r.value > 0 <==> store[key].expiresAt > now)
  {
    if key !in store then None
    else if Expired(store[key], now) then None
    else Some(CeilDiv(store[key].expiresAt - now, 1000))
  }

  /** Queried at the instant of a denial, the remaining time is exactly the
      stretched window: `windowSeconds * multiplier` seconds. */
  lemma RemainingAfterDenial(store: Store, key: string, limit: int, windowSeconds: int, now: int, sweep: bool)
    requires key in store && !Expired(store[key], now) && store[key].count >= limit
    requires windowSeconds >= 0
    ensures var o := Check(store, key, limit, windowSeconds, now, sweep);
            var m := BackoffMultiplier(store[key].count, limit);
      RemainingSeconds(o.store, key, now) == Some(windowSeconds * m)
      && windowSeconds * 2 <= windowSeconds * m <= windowSeconds * 32
  {
    var o := Check(store, key, limit, windowSeconds, now, sweep);
    var m := BackoffMultiplier(store[key].count, limit);
    assert o.store[key].expiresAt - now == (windowSeconds * m) * 1000;
    var r := RemainingSeconds(o.store, key, now);
    assert r.Some?;
    var v := r.value;
    assert v * 1000 >= (windowSeconds * m) * 1000;
    assert v == 0 || (v - 1) * 1000 < (windowSeconds * m) * 1000;
  }

  // ---------------------------------------------------------------------
  // Repeated calls
  // ---------------------------------------------------------------------

  /** The results of a sequence of calls for one key at one instant, one call
      per entry of `sweeps`. */
  datatype Trace = Trace(store: Store, results: seq<bool>)

  function Run(store: Store, key: string, limit: int, windowSeconds: int, now: int, sweeps: seq<bool>): Trace
    decreases |sweeps|
  {
    if sweeps == [] then Trace(store, [])
    else
      var o := Check(store, key, limit, windowSeconds, now, sweeps[0]);
      var t := Run(o.store, key, limit, windowSeconds, now, sweeps[1..]);
      Trace(t.store, [o.allowed] + t.results)
  }

  function Trues(n: nat): (s: seq<bool>)
    ensures |s| == n && forall i :: 0 <= i < n ==> s[i]
  {
    if n == 0 then [] else [true] + Trues(n - 1)
  }

  /** A live record at count `c <= limit` allows exactly `limit - c` more
      calls at the same instant and denies the next one. */
  lemma {:induction false} LiveRunQuota(store: Store, key: string, limit: int, windowSeconds: int, now: int, sweeps: seq<bool>)
    requires key in store && !Expired(store[key], now)
    requires 1 <= store[key].count <= limit
    requires |sweeps| == limit - store[key].count + 1
    ensures Run(store, key, limit, windowSeconds, now, sweeps).results == Trues(limit - store[key].count) + [false]
    decreases |sweeps|
  {
    var o := Check(store, key, limit, windowSeconds, now, sweeps[0]);
    if store[key].count == limit {
      assert !o.allowed;
      assert sweeps[1..] == [];
    } else {
      IncrementTransition(store, key, limit, windowSeconds, now, sweeps[0]);
      assert o.allowed;
      LiveRunQuota(o.store, key, limit, windowSeconds, now, sweeps[1..]);
      var k := limit - store[key].count;
      assert Trues(k) == [true] + Trues(k - 1);
      assert [true] + (Trues(k - 1) + [false]) == ([true] + Trues(k - 1)) + [false];
    }
  }

  /** For a key with no record, a positive limit and a non-negative window,
      calls 1..limit at one instant are allowed and call limit+1 is denied,
      however the sweep draws fall. */
  lemma {:induction false} FreshKeyQuota(store: Store, key: string, limit: int, windowSeconds: int, now: int, sweeps: seq<bool>)
    requires key !in store && limit >= 1 && windowSeconds >= 0
    requires |sweeps| == limit + 1
    ensures Run(store, key, limit, windowSeconds, now, sweeps).results == Trues(limit) + [false]
  {
    var o := Check(store, key, limit, windowSeconds, now, sweeps[0]);
    CreateTransition(store, key, limit, windowSeconds, now, sweeps[0]);
    assert o.store[key] == Record(1, now + windowSeconds * 1000);
    LiveRunQuota(o.store, key, limit, windowSeconds, now, sweeps[1..]);
    assert Trues(limit) == [true] + Trues(limit - 1);
    assert [true] + (Trues(limit - 1) + [false]) == ([true] + Trues(limit - 1)) + [false];
  }

  // ---------------------------------------------------------------------
  // The store as the source mutates it
  // ---------------------------------------------------------------------

  class RateLimiter {
    /** The `rateLimit` table, keyed by `key`. */
    var store: Store

    constructor ()
      ensures store == map[]
    {
      store := map[];
    }

    /** `checkRateLimit(key, limit, windowSeconds)` at time `now`: find,
        then delete-and-create, update, or create, then maybe sweep. */
    method CheckRateLimit(key: string, limit: int, windowSeconds: int, now: int, sweep: bool) returns (allowed: bool)
      modifies this
      ensures Outcome(store, allowed) == Check(old(store), key, limit, windowSeconds, now, sweep)
    {
      var expiresAt := now + windowSeconds * 1000;
      if key in store {
        var rateLimit := store[key];
        if rateLimit.expiresAt < now {
          store := store - {key};
          store := store[key := Record(1, expiresAt)];
          assert store == old(store)[key := Record(1, expiresAt)];
          return true;
        }
        if rateLimit.count >= limit {
          var attempts := rateLimit.count - limit + 1;
          var backoffMultiplier := Min(Pow2(attempts), 32);
          var newExpiresAt := now + windowSeconds * backoffMultiplier * 1000;
          store := store[key := Record(rateLimit.count + 1, newExpiresAt)];
          return false;
        }
        store := store[key := Record(rateLimit.count + 1, rateLimit.expiresAt)];
      } else {
        store := store[key := Record(1, expiresAt)];
      }
      if sweep {
        store := map k | k in store && !(store[k].expiresAt < now) :: store[k];
      }
      return true;
    }

    /** `getRateLimitInfo(key)` at time `now`; it only reads the store. */
    method GetRateLimitInfo(key: string, now: int) returns (r: Option<nat>)
      ensures r.None? <==> key !in store || store[key].expiresAt < now
      ensures r.Some? ==> var left := store[key].expiresAt - now;
        r.value * 1000 >= left && (r.value == 0 || (r.value - 1) * 1000 < left)
      ensures r == RemainingSeconds(store, key, now)
    {
      if key !in store {
        return None;
      }
      var rateLimit := store[key];
      if rateLimit.expiresAt < now {
        return None;
      }
      return Some((rateLimit.expiresAt - now + 999) / 1000);
    }
  }
}
