/**
 * The time-windowed memo both crawlers wrap around fetch_offers: results
 * are memoised per argument, and the first call at or after the expiration
 * time empties the memo and opens a new window of `lifetime` seconds.
 * The clock is a parameter: `now` is the reading a call compares and uses.
 */
module TimedCache {
  import opened Wrappers

  /** The decorator's state: the fixed lifetime, the end of the current
      window and the memo table. */
  datatype CacheState<K, V> = CacheState(lifetime: real, expiration: real, memo: map<K, V>)

  /** What one call does: the state after it, what it returns (`None` when
      the wrapped function raised) and whether the wrapped function ran. */
  datatype CallResult<K, V> = CallResult(state: CacheState<K, V>, result: Option<V>, ran: bool)

  /** The state when the decorator is applied at time `decoratedAt`. */
  function Decorated<K, V>(seconds: real, decoratedAt: real): (s: CacheState<K, V>)
    ensures s.lifetime == seconds
    ensures s.expiration == decoratedAt + seconds
    ensures s.memo == map[]
  {
    CacheState(seconds, decoratedAt + seconds, map[])
  }

  /** The state once the window check has run: an expired window is
      replaced by an empty memo and a window of `lifetime` from `now`. */
  function Refreshed<K, V>(s: CacheState<K, V>, now: real): (t: CacheState<K, V>)
    ensures t.lifetime == s.lifetime
    ensures now >= s.expiration ==> t.expiration == now + s.lifetime && t.memo == map[]
    ensures now < s.expiration ==> t == s
  {
    if now >= s.expiration then CacheState(s.lifetime, now + s.lifetime, map[]) else s
  }

  /** One call of the wrapped function with argument `key` at time `now`;
      `compute` is what the wrapped function returns for an argument, or
      `None` when it raises, in which case nothing is memoised. */
  function Step<K, V>(s: CacheState<K, V>, now: real, key: K, compute: K -> Option<V>): (c: CallResult<K, V>)
    ensures c.state.lifetime == s.lifetime
  {
    var t := Refreshed(s, now);
    if key in t.memo then CallResult(t, Some(t.memo[key]), false)
    else
      var out := compute(key);
      CallResult(if out.Some? then t.(memo := t.memo[key := out.value]) else t, out, true)
  }

  /** Within the window a memoised argument is answered from the memo, the
      wrapped function does not run and the state does not change. */
  lemma {:induction false} ReuseWithinWindow<K, V>(s: CacheState<K, V>, now: real, key: K, compute: K -> Option<V>)
    requires now < s.expiration && key in s.memo
    ensures Step(s, now, key, compute) == CallResult(s, Some(s.memo[key]), false)
  {
  }

  /** Within the window the expiration time stays where it is and nothing
      memoised is forgotten. */
  lemma {:induction false} WindowKept<K, V>(s: CacheState<K, V>, now: real, key: K, compute: K -> Option<V>)
    requires now < s.expiration
    ensures Step(s, now, key, compute).state.expiration == s.expiration
    ensures forall k :: k in s.memo ==> k in Step(s, now, key, compute).state.memo
  {
  }

  /** Within the window an argument not yet memoised makes the wrapped
      function run; what it returns is answered and, unless it raised,
      memoised beside everything already there. */
  lemma {:induction false} MissInWindowRuns<K, V>(s: CacheState<K, V>, now: real, key: K, compute: K -> Option<V>)
    requires now < s.expiration && key !in s.memo
    ensures var c := Step(s, now, key, compute);
      && c.ran
      && c.result == compute(key)
      && c.state.expiration == s.expiration
      && (compute(key).Some? ==> c.state.memo == s.memo[key := compute(key).value])
      && (compute(key).None? ==> c.state == s)
  {
  }

  /** At or after the expiration time every memoised argument is forgotten,
      the new window ends `lifetime` after `now`, and the wrapped function
      runs again; only its result for `key` can be memoised. */
  lemma {:induction false} RecomputeAfterExpiry<K, V>(s: CacheState<K, V>, now: real, key: K, compute: K -> Option<V>)
    requires now >= s.expiration
    ensures var c := Step(s, now, key, compute);
      && c.ran
      && c.result == compute(key)
      && c.state.expiration == now + s.lifetime
      && c.state.memo.Keys <= {key}
      && (compute(key).Some? <==> key in c.state.memo)
  {
  }

  /** The memo only holds what the wrapped function returned. */
  ghost predicate Faithful<K, V>(s: CacheState<K, V>, compute: K -> Option<V>) {
    forall k :: k in s.memo ==> compute(k) == Some(s.memo[k])
  }

  /** For a wrapped function whose answer does not change, the memo is
      invisible: every call returns what the function returns, and the memo
      stays faithful. */
  lemma {:induction false} StepIsTransparent<K, V>(s: CacheState<K, V>, now: real, key: K, compute: K -> Option<V>)
    requires Faithful(s, compute)
    ensures Step(s, now, key, compute).result == compute(key)
    ensures Faithful(Step(s, now, key, compute).state, compute)
  {
    var t := Refreshed(s, now);
    assert Faithful(t, compute);
    if key !in t.memo && compute(key).Some? {
      var m := t.memo[key := compute(key).value];
      forall k | k in m
        ensures compute(k) == Some(m[k])
      {
        if k != key {
          assert k in t.memo;
        }
      }
    }
  }

  /** A second call with the same argument inside the window that the first
      call left open does not run the wrapped function, once the first call
      has memoised a result. */
  lemma {:induction false} SecondCallReuses<K, V>(s: CacheState<K, V>, now1: real, now2: real, key: K, compute: K -> Option<V>)
    requires Step(s, now1, key, compute).result.Some?
    requires now2 < Step(s, now1, key, compute).state.expiration
    ensures var first := Step(s, now1, key, compute);
      var second := Step(first.state, now2, key, compute);
      !second.ran && second.result == first.result && second.state == first.state
  {
    var first := Step(s, now1, key, compute);
    assert key in first.state.memo;
    ReuseWithinWindow(first.state, now2, key, compute);
  }

  /** The decorated function with its lifetime, expiration and memo as
      fields the calls update. */
  class Cache<K(==), V> {
    var lifetime: real
    var expiration: real
    var memo: map<K, V>

    function State(): CacheState<K, V>
      reads this
    {
      CacheState(lifetime, expiration, memo)
    }

    /** Decoration at time `decoratedAt`: the first window ends `seconds`
        after decoration, not after the first call. */
    constructor (seconds: real, decoratedAt: real)
      ensures State() == Decorated(seconds, decoratedAt)
    {
      lifetime := seconds;
      expiration := decoratedAt + seconds;
      memo := map[];
    }

    /** The wrapper: the window check, then the memoised call. */
    method Call(now: real, key: K, compute: K -> Option<V>) returns (result: Option<V>, ran: bool)
      modifies this
      ensures CallResult(State(), result, ran) == Step(old(State()), now, key, compute)
    {
      if now >= expiration {
        memo := map[];
        expiration := now + lifetime;
      }
      if key in memo {
        result := Some(memo[key]);
        ran := false;
      } else {
        result := compute(key);
        ran := true;
        if result.Some? {
          memo := memo[key := result.value];
        }
      }
    }
  }
}
