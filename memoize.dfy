/**
 * `memoize` (`i18n_utils/utils.py`): a wrapper that remembers what the
 * wrapped callable returned for each argument list. The callable is code
 * this model cannot see and need not be pure, so what it would return when
 * invoked is a parameter of each call.
 */
module Memoize {

  /** `(args, tuple(kwargs.items()))`: the positional values, then the keyword pairs in call order. */
  datatype CallKey<A> = CallKey(args: seq<A>, kwargs: seq<(string, A)>)

  /**
   * The closure `memoizer` with the dictionary `cache` it shares with
   * `obj.cache`; `invoked` records, in order, the keys the wrapped callable
   * was invoked with.
   */
  class Memoized<A(==, !new), V> {
    var cache: map<CallKey<A>, V>
    ghost var invoked: seq<CallKey<A>>

    /** The callable is invoked once for each key in the cache, and for nothing else. */
    ghost predicate Valid()
      reads this
    {
      && (forall i, j :: 0 <= i < j < |invoked| ==> invoked[i] != invoked[j])
      && (forall k :: k in cache <==> k in invoked)
    }

    /** `memoize(obj)` (lines 4-5): an empty cache. */
    constructor()
      ensures Valid() && cache == map[] && invoked == []
    {
      cache := map[];
      invoked := [];
    }

    /**
     * `memoizer(*args, **kwargs)` (lines 8-12). `computed` is what the
     * wrapped callable returns if it is invoked now. On a hit the cached
     * value comes back and nothing changes; on a miss the callable is
     * invoked once and its value is stored under the key and returned.
     */
    method Call(args: seq<A>, kwargs: seq<(string, A)>, computed: V) returns (r: V)
      requires Valid()
      modifies this
      ensures Valid()
      ensures var key := CallKey(args, kwargs);
        && key in cache && r == cache[key]
        && (key in old(cache) ==> cache == old(cache) && r == old(cache)[key] && invoked == old(invoked))
        && (key !in old(cache) ==> cache == old(cache)[key := computed] && r == computed && invoked == old(invoked) + [key])
    {
      var key := CallKey(args, kwargs);
      if key !in cache {
        cache := cache[key := computed];
        invoked := invoked + [key];
      }
      r := cache[key];
    }
  }

  /**
   * Two calls with equal arguments return the same value, whatever the
   * wrapped callable would return the second time, and the second call
   * does not invoke it; the cache only grows.
   */
  method CallTwice<A(==, !new), V>(m: Memoized<A, V>, args: seq<A>, kwargs: seq<(string, A)>, first: V, second: V)
    returns (r1: V, r2: V)
    requires m.Valid()
    modifies m
    ensures m.Valid()
    ensures r1 == r2
    ensures CallKey(args, kwargs) in old(m.cache) ==> r1 == old(m.cache)[CallKey(args, kwargs)]
    ensures CallKey(args, kwargs) !in old(m.cache) ==> r1 == first
    ensures forall k :: k in old(m.cache) ==> k in m.cache && m.cache[k] == old(m.cache)[k]
    ensures |m.invoked| <= |old(m.invoked)| + 1
  {
    r1 := m.Call(args, kwargs, first);
    ghost var between := m.invoked;
    r2 := m.Call(args, kwargs, second);
    assert m.invoked == between;
  }
}
