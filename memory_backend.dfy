/**
 * The in-process history store: one sorted list of admission timestamps
 * per tracked key, mutated in place by insertion and pruning.
 */
module MemoryBackend {
  import opened SortedLog

  /** Tracked key to its sorted timestamps, the shape of `_requests`. */
  type Store = map<string, seq<real>>

  /** A key's timestamps; an unknown key has none. */
  function History(store: Store, key: string): seq<real> {
    if key in store then store[key] else []
  }

  /** Every key's list is sorted. */
  predicate AllSorted(store: Store) {
    forall k :: k in store ==> Sorted(store[k])
  }

  /** The store after `add_request(key, t)`. */
  function Recorded(store: Store, key: string, t: real): (r: Store)
    ensures key in r && |r[key]| == |History(store, key)| + 1 && t in r[key]
  {
    var inserted := InsertSorted(History(store, key), t);
    InsertSortedContents(History(store, key), t);
    assert t in multiset(inserted);
    store[key := inserted]
  }

  /** The store after `cleanup_old_requests(key, windowStart)`. */
  function Pruned(store: Store, key: string, windowStart: real): (r: Store)
    ensures key in r <==> key in store
    ensures |History(r, key)| <= |History(store, key)|
  {
    if key in store then store[key := Since(store[key], windowStart)] else store
  }

  /**
   * Recording adds one copy of `t` to the key's list, keeps every list
   * sorted, creates a one-element list for an unseen key and leaves every
   * other key alone.
   */
  lemma RecordedAddsOne(store: Store, key: string, t: real)
    requires AllSorted(store)
    ensures AllSorted(Recorded(store, key, t))
    ensures key in Recorded(store, key, t)
    ensures multiset(History(Recorded(store, key, t), key)) == multiset(History(store, key)) + multiset{t}
    ensures |History(Recorded(store, key, t), key)| == |History(store, key)| + 1
    ensures key !in store ==> History(Recorded(store, key, t), key) == [t]
    ensures forall k :: k != key ==> (k in Recorded(store, key, t) <==> k in store)
    ensures forall k :: k != key ==> History(Recorded(store, key, t), k) == History(store, k)
  {
    InsertSortedKeepsOrder(History(store, key), t);
    InsertSortedContents(History(store, key), t);
  }

  /** What pruning does to the pruned key's own list. */
  lemma PrunedKeyList(store: Store, key: string, windowStart: real)
    requires AllSorted(store)
    ensures AllSorted(Pruned(store, key, windowStart))
    ensures History(Pruned(store, key, windowStart), key) == Since(History(store, key), windowStart)
    ensures multiset(History(Pruned(store, key, windowStart), key)) + multiset(Before(History(store, key), windowStart))
            == multiset(History(store, key))
  {
    var h := History(store, key);
    WindowPartition(h, windowStart);
    if key in store {
      SinceSorted(h, windowStart);
    }
  }

  /** Pruning again prunes nothing, and no key but the pruned one changes. */
  lemma PrunedFrame(store: Store, key: string, windowStart: real)
    ensures Pruned(Pruned(store, key, windowStart), key, windowStart) == Pruned(store, key, windowStart)
    ensures key !in store ==> Pruned(store, key, windowStart) == store
    ensures forall k :: k != key ==> History(Pruned(store, key, windowStart), k) == History(store, k)
  {
    SinceIdempotent(History(store, key), windowStart);
  }

  /**
   * Pruning removes exactly the timestamps before the window start, keeps
   * the rest in order (so the window count is unchanged), is idempotent,
   * touches no other key and never creates an entry.
   */
  lemma PrunedRemovesOnlyOld(store: Store, key: string, windowStart: real)
    requires AllSorted(store)
    ensures AllSorted(Pruned(store, key, windowStart))
    ensures History(Pruned(store, key, windowStart), key) == Since(History(store, key), windowStart)
    ensures multiset(History(Pruned(store, key, windowStart), key)) + multiset(Before(History(store, key), windowStart))
            == multiset(History(store, key))
    ensures |Since(History(Pruned(store, key, windowStart), key), windowStart)| == |Since(History(store, key), windowStart)|
    ensures Pruned(Pruned(store, key, windowStart), key, windowStart) == Pruned(store, key, windowStart)
    ensures key !in store ==> Pruned(store, key, windowStart) == store
    ensures forall k :: k != key ==> History(Pruned(store, key, windowStart), k) == History(store, k)
    ensures (Pruned(store, key, windowStart)).Keys == store.Keys
  {
    PrunedKeyList(store, key, windowStart);
    PrunedFrame(store, key, windowStart);
    SinceIdempotent(History(store, key), windowStart);
  }

  class InMemoryBackend {
    /** The `_requests` dictionary. */
    var requests: Store

    ghost predicate Valid()
      reads this
    {
      AllSorted(requests)
    }

    constructor ()
      ensures Valid() && requests == map[]
    {
      requests := map[];
    }

    /** `add_request`: sorted insertion into the key's list, creating it if needed. */
    method AddRequest(key: string, t: real)
      requires Valid()
      modifies this
      ensures Valid()
      ensures requests == Recorded(old(requests), key, t)
    {
      if key !in requests {
        requests := requests[key := []];
      }
      var inserted := Insort(requests[key], t);
      requests := requests[key := inserted];
    }

    /** `get_request_count`: how many stored timestamps are `>= windowStart`. */
    method GetRequestCount(key: string, windowStart: real) returns (n: nat)
      requires Valid()
      ensures n == |Since(History(requests, key), windowStart)|
      ensures key !in requests ==> n == 0
    {
      if key !in requests {
        return 0;
      }
      var timestamps := requests[key];
      var startIndex := BisectLeft(timestamps, windowStart);
      WindowPartition(timestamps, windowStart);
      n := |timestamps| - startIndex;
    }

    /** `cleanup_old_requests`: drop the timestamps `< windowStart`. */
    method CleanupOldRequests(key: string, windowStart: real)
      requires Valid()
      modifies this
      ensures Valid()
      ensures requests == Pruned(old(requests), key, windowStart)
    {
      if key !in requests {
        return;
      }
      var timestamps := requests[key];
      var startIndex := BisectLeft(timestamps, windowStart);
      if startIndex > 0 {
        requests := requests[key := timestamps[startIndex..]];
      } else {
        assert timestamps[0..] == timestamps;
        assert requests == requests[key := timestamps[startIndex..]];
      }
      PrunedRemovesOnlyOld(old(requests), key, windowStart);
    }

    /**
     * `get_oldest_request_time`: the least stored timestamp `>= windowStart`,
     * or `windowStart` when there is none or the key is unknown.
     */
    method GetOldestRequestTime(key: string, windowStart: real) returns (t: real)
      requires Valid()
      ensures t == OldestSince(History(requests, key), windowStart)
      ensures t >= windowStart
      ensures Since(History(requests, key), windowStart) == [] ==> t == windowStart
      ensures Since(History(requests, key), windowStart) != [] ==> t in History(requests, key)
      ensures forall y :: y in History(requests, key) && y >= windowStart ==> t <= y
    {
      OldestSinceIsLeast(History(requests, key), windowStart);
      if key !in requests {
        return windowStart;
      }
      var timestamps := requests[key];
      var startIndex := BisectLeft(timestamps, windowStart);
      if startIndex < |timestamps| {
        return timestamps[startIndex];
      }
      return windowStart;
    }
  }
}
