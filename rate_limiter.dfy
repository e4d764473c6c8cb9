/**
 * The sliding-window-log engine: a table of per-key ceilings and the
 * decision, for one tracked key at a time, of how long a caller must wait,
 * made against the history store.
 */
module Engine {
  import opened SortedLog
  import opened MemoryBackend

  /** `RateLimit`: at most `maxRequests` admissions in any trailing `timeWindow` seconds. */
  datatype RateLimit = RateLimit(maxRequests: int, timeWindow: real)

  /** Tracked key to its ceiling, the shape of `rate_limits`. */
  type Limits = map<string, RateLimit>

  /** The `{'current': ..., 'limit': ...}` answer of `get_current_usage`. */
  datatype Usage = Usage(current: int, limit: int)

  /** A wait in seconds together with the store the decision leaves behind. */
  datatype Decision = Decision(wait: real, store: Store)

  /** Whether an admission was recorded, and the store afterwards. */
  datatype Attempt = Attempt(ok: bool, store: Store)

  /** The clock reading an admission was recorded at, and the store afterwards. */
  datatype Admission = Admission(at: real, store: Store)

  function Max(a: real, b: real): real {
    if a >= b then a else b
  }

  /** The count of timestamps in the closed window `[now - timeWindow, now]` and later. */
  function InWindowCount(rl: RateLimit, h: seq<real>, now: real): nat {
    |Since(h, now - rl.timeWindow)|
  }

  /** The branch of `get_sleep_time` that admits at once. */
  predicate UnderCeiling(rl: RateLimit, h: seq<real>, now: real) {
    InWindowCount(rl, h, now) < rl.maxRequests
  }

  /**
   * The wait on the ceiling branch: until the oldest in-window timestamp
   * leaves the window when the store can name it, otherwise a whole window.
   */
  function BlockedWait(rl: RateLimit, h: seq<real>, now: real, oldestLookup: bool): real {
    if oldestLookup then Max(0.0, OldestSince(h, now - rl.timeWindow) + rl.timeWindow - now)
    else rl.timeWindow
  }

  /** `get_sleep_time(key)` at clock reading `now`. */
  function Decide(limits: Limits, store: Store, key: string, now: real, oldestLookup: bool): (r: Decision)
    ensures |History(r.store, key)| <= |History(store, key)|
    ensures r.wait > 0.0 ==> r.store == store
    ensures oldestLookup ==> r.wait >= 0.0
  {
    if key !in limits then Decision(0.0, store)
    else
      var rl := limits[key];
      if UnderCeiling(rl, History(store, key), now) then Decision(0.0, Pruned(store, key, now - rl.timeWindow))
      else Decision(BlockedWait(rl, History(store, key), now, oldestLookup), store)
  }

  /** `try_acquire(key)` at clock reading `now`. */
  function TryAdmit(limits: Limits, store: Store, key: string, now: real, oldestLookup: bool): (r: Attempt)
    ensures !r.ok ==> r.store == store && key in limits
    ensures r.ok && key in limits ==> now in History(r.store, key)
    ensures |History(r.store, key)| <= |History(store, key)| + 1
  {
    var d := Decide(limits, store, key, now, oldestLookup);
    if d.wait > 0.0 then Attempt(false, d.store)
    else if key in limits then Attempt(true, Recorded(d.store, key, now))
    else Attempt(true, d.store)
  }

  /** `acquire_lock(key)` entered at `now`: wait, then record at the later clock reading. */
  function Admit(limits: Limits, store: Store, key: string, now: real, oldestLookup: bool): (r: Admission)
    ensures r.at >= now
    ensures key in limits ==> r.at in History(r.store, key)
    ensures |History(r.store, key)| <= |History(store, key)| + 1
  {
    var d := Decide(limits, store, key, now, oldestLookup);
    var at := if d.wait > 0.0 then now + d.wait else now;
    if key in limits then Admission(at, Recorded(d.store, key, at))
    else Admission(at, d.store)
  }

  /** `get_current_usage(key)` at clock reading `now`. */
  function UsageOf(limits: Limits, store: Store, key: string, now: real): (r: Usage)
    ensures 0 <= r.current <= |History(store, key)|
    ensures key !in limits ==> r.limit == 0
    ensures key in limits ==> r.limit == limits[key].maxRequests
  {
    if key !in limits then Usage(0, 0)
    else Usage(InWindowCount(limits[key], History(store, key), now), limits[key].maxRequests)
  }

  /**
   * Below the ceiling the wait is 0 and only the key's timestamps older
   * than the window are removed; at the ceiling the store is untouched.
   * Either way the in-window count and every other key stay as they were.
   */
  lemma DecideEffect(limits: Limits, store: Store, key: string, now: real, oldestLookup: bool)
    requires AllSorted(store)
    requires key in limits
    ensures var rl := limits[key]; var d := Decide(limits, store, key, now, oldestLookup);
      && AllSorted(d.store)
      && (UnderCeiling(rl, History(store, key), now) ==>
            d.wait == 0.0
            && History(d.store, key) == Since(History(store, key), now - rl.timeWindow)
            && multiset(History(d.store, key)) + multiset(Before(History(store, key), now - rl.timeWindow))
               == multiset(History(store, key)))
      && (!UnderCeiling(rl, History(store, key), now) ==>
            d.store == store && d.wait == BlockedWait(rl, History(store, key), now, oldestLookup))
      && InWindowCount(rl, History(d.store, key), now) == InWindowCount(rl, History(store, key), now)
      && (forall k :: k != key ==> History(d.store, k) == History(store, k))
  {
    var rl := limits[key];
    var ws := now - rl.timeWindow;
    var h := History(store, key);
    var d := Decide(limits, store, key, now, oldestLookup);
    PrunedRemovesOnlyOld(store, key, ws);
    if UnderCeiling(rl, h, now) {
      assert d.store == Pruned(store, key, ws);
    } else {
      assert d.store == store;
    }
  }

  /**
   * With an oldest-timestamp lookup the ceiling-branch wait is never
   * negative; it is 0 exactly when the oldest in-window timestamp sits on
   * the window start (the window is closed) or the window is empty; and it
   * is at most one window when no timestamp lies in the future.
   */
  lemma BlockedWaitBounds(rl: RateLimit, h: seq<real>, now: real)
    requires Sorted(h)
    ensures BlockedWait(rl, h, now, true) >= 0.0
    ensures BlockedWait(rl, h, now, true) == 0.0 <==> OldestSince(h, now - rl.timeWindow) == now - rl.timeWindow
    ensures Since(h, now - rl.timeWindow) == [] ==> BlockedWait(rl, h, now, true) == 0.0
    ensures now - rl.timeWindow in h ==> BlockedWait(rl, h, now, true) == 0.0
    ensures rl.timeWindow >= 0.0 && (forall y :: y in h ==> y <= now) ==>
            BlockedWait(rl, h, now, true) <= rl.timeWindow
  {
    OldestSinceIsLeast(h, now - rl.timeWindow);
  }

  /**
   * With an oldest-timestamp lookup, a configured key gets a zero wait
   * exactly when it is below its ceiling or its oldest in-window timestamp
   * sits on the window start.
   */
  lemma ZeroWaitIff(limits: Limits, store: Store, key: string, now: real)
    requires AllSorted(store) && key in limits
    ensures var rl := limits[key];
      Decide(limits, store, key, now, true).wait == 0.0 <==>
      UnderCeiling(rl, History(store, key), now) || OldestSince(History(store, key), now - rl.timeWindow) == now - rl.timeWindow
  {
    BlockedWaitBounds(limits[key], History(store, key), now);
  }

  /** Deciding twice in a row, with no admission between, gives the same wait and store. */
  lemma DecideIdempotent(limits: Limits, store: Store, key: string, now: real, oldestLookup: bool)
    requires AllSorted(store)
    ensures var d := Decide(limits, store, key, now, oldestLookup);
      Decide(limits, d.store, key, now, oldestLookup) == d
  {
    if key in limits {
      var rl := limits[key];
      var ws := now - rl.timeWindow;
      var d := Decide(limits, store, key, now, oldestLookup);
      PrunedRemovesOnlyOld(store, key, ws);
      if UnderCeiling(rl, History(store, key), now) {
        assert d.store == Pruned(store, key, ws);
        assert UnderCeiling(rl, History(d.store, key), now);
        assert Decide(limits, d.store, key, now, oldestLookup) == Decision(0.0, Pruned(d.store, key, ws));
      }
    }
  }

  /** A decision depends on the key's own history only, and never changes another key. */
  lemma DecideIsLocal(limits: Limits, s1: Store, s2: Store, key: string, now: real, oldestLookup: bool)
    requires History(s1, key) == History(s2, key)
    ensures Decide(limits, s1, key, now, oldestLookup).wait == Decide(limits, s2, key, now, oldestLookup).wait
    ensures History(Decide(limits, s1, key, now, oldestLookup).store, key)
         == History(Decide(limits, s2, key, now, oldestLookup).store, key)
    ensures forall k :: k != key ==> History(Decide(limits, s1, key, now, oldestLookup).store, k) == History(s1, k)
  {
  }

  /**
   * `try_acquire` refuses exactly when the wait is positive, and then
   * records nothing; otherwise it records one copy of `now` for a
   * configured key and nothing for an unconfigured one.
   */
  lemma TryAdmitRecordsOnZeroWait(limits: Limits, store: Store, key: string, now: real, oldestLookup: bool)
    requires AllSorted(store)
    ensures var d := Decide(limits, store, key, now, oldestLookup);
      var a := TryAdmit(limits, store, key, now, oldestLookup);
      && AllSorted(a.store)
      && (a.ok <==> d.wait <= 0.0)
      && (!a.ok ==> a.store == store && key in limits)
      && (a.ok && key !in limits ==> a.store == store)
      && (a.ok && key in limits ==>
            multiset(History(a.store, key)) == multiset(History(d.store, key)) + multiset{now}
            && Sorted(History(a.store, key)))
      && (forall k :: k != key ==> History(a.store, k) == History(store, k))
  {
    if key in limits {
      DecideEffect(limits, store, key, now, oldestLookup);
      var d := Decide(limits, store, key, now, oldestLookup);
      RecordedAddsOne(d.store, key, now);
    }
  }

  /** `try_acquire`'s outcome and its effect on the key depend on the key's own history only. */
  lemma TryAdmitIsLocal(limits: Limits, s1: Store, s2: Store, key: string, now: real, oldestLookup: bool)
    requires History(s1, key) == History(s2, key)
    ensures TryAdmit(limits, s1, key, now, oldestLookup).ok == TryAdmit(limits, s2, key, now, oldestLookup).ok
    ensures History(TryAdmit(limits, s1, key, now, oldestLookup).store, key)
         == History(TryAdmit(limits, s2, key, now, oldestLookup).store, key)
    ensures forall k :: k != key ==> History(TryAdmit(limits, s1, key, now, oldestLookup).store, k) == History(s1, k)
  {
    DecideIsLocal(limits, s1, s2, key, now, oldestLookup);
  }

  /**
   * An admission taken below the ceiling leaves at most `maxRequests`
   * timestamps in the closed window: the count grows by exactly one.
   */
  lemma AdmissionWithinCeiling(limits: Limits, store: Store, key: string, now: real, oldestLookup: bool)
    requires AllSorted(store) && key in limits
    requires limits[key].timeWindow >= 0.0
    requires UnderCeiling(limits[key], History(store, key), now)
    ensures var a := TryAdmit(limits, store, key, now, oldestLookup);
      a.ok &&
      InWindowCount(limits[key], History(a.store, key), now) == InWindowCount(limits[key], History(store, key), now) + 1 &&
      InWindowCount(limits[key], History(a.store, key), now) <= limits[key].maxRequests
  {
    AdmittedUnderCeiling(limits, store, key, now, oldestLookup);
    InsertIntoWindowCount(limits[key], History(store, key), now);
  }

  /** Below the ceiling `try_acquire` admits, leaving the key its in-window timestamps with `now` inserted. */
  lemma AdmittedUnderCeiling(limits: Limits, store: Store, key: string, now: real, oldestLookup: bool)
    requires key in limits
    requires UnderCeiling(limits[key], History(store, key), now)
    ensures var a := TryAdmit(limits, store, key, now, oldestLookup);
      a.ok && History(a.store, key) == InsertSorted(Since(History(store, key), now - limits[key].timeWindow), now)
  {
    var ws := now - limits[key].timeWindow;
    var p := Pruned(store, key, ws);
    assert Decide(limits, store, key, now, oldestLookup) == Decision(0.0, p);
    assert TryAdmit(limits, store, key, now, oldestLookup) == Attempt(true, Recorded(p, key, now));
    assert History(p, key) == Since(History(store, key), ws);
  }

  /** Recording `now` into the pruned history of a key under its ceiling adds one to the window count. */
  lemma InsertIntoWindowCount(rl: RateLimit, h: seq<real>, now: real)
    requires rl.timeWindow >= 0.0
    ensures InWindowCount(rl, InsertSorted(Since(h, now - rl.timeWindow), now), now) == InWindowCount(rl, h, now) + 1
  {
    var ws := now - rl.timeWindow;
    SinceIdempotent(h, ws);
    InsertSortedCount(Since(h, ws), now, ws);
  }

  /**
   * At the ceiling an admission is still granted when the oldest
   * in-window timestamp sits exactly on the window start (or the window is
   * empty under a ceiling of 0 or less), and then the closed window holds
   * one more timestamp than `maxRequests` allows. This is the only way
   * `try_acquire` admits past its ceiling; `acquire_lock` passes it in the
   * same boundary case and after every positive wait
   * (`AdmitAfterWaitLandsOnBoundary`).
   */
  lemma AdmissionPastCeilingOnlyAtBoundary(limits: Limits, store: Store, key: string, now: real)
    requires AllSorted(store) && key in limits
    requires limits[key].timeWindow >= 0.0
    requires !UnderCeiling(limits[key], History(store, key), now)
    ensures var rl := limits[key]; var a := TryAdmit(limits, store, key, now, true);
      (a.ok <==> OldestSince(History(store, key), now - rl.timeWindow) == now - rl.timeWindow) &&
      (a.ok ==> InWindowCount(rl, History(a.store, key), now) == InWindowCount(rl, History(store, key), now) + 1 > rl.maxRequests)
  {
    var rl := limits[key];
    BlockedWaitBounds(rl, History(store, key), now);
    InsertSortedCount(History(store, key), now, now - rl.timeWindow);
  }

  /**
   * A ceiling of 1 per second with a timestamp at 0.0: at 1.0 the
   * timestamp is still in the closed window, yet the wait is 0 and the
   * admission leaves two timestamps in the window.
   */
  lemma BoundaryAdmissionExample()
    ensures var limits := map["k" := RateLimit(1, 1.0)];
      var a := TryAdmit(limits, map["k" := [0.0]], "k", 1.0, true);
      a.ok && History(a.store, "k") == [0.0, 1.0] && InWindowCount(limits["k"], History(a.store, "k"), 1.0) == 2
  {
    var limits := map["k" := RateLimit(1, 1.0)];
    var store := map["k" := [0.0]];
    assert Since([0.0], 0.0) == [0.0];
    assert InsertSorted([0.0], 1.0) == [0.0] + InsertSorted([], 1.0);
    assert Since([0.0, 1.0], 0.0) == [0.0] + Since([1.0], 0.0);
  }

  /** A ceiling of 0 still admits one request into an empty window. */
  lemma ZeroCeilingAdmitsIntoEmptyWindow(limits: Limits, store: Store, key: string, now: real)
    requires AllSorted(store) && key in limits
    requires limits[key].maxRequests == 0 && limits[key].timeWindow >= 0.0
    requires InWindowCount(limits[key], History(store, key), now) == 0
    ensures var a := TryAdmit(limits, store, key, now, true);
      a.ok && InWindowCount(limits[key], History(a.store, key), now) == 1
  {
    var rl := limits[key];
    var h := History(store, key);
    BlockedWaitBounds(rl, h, now);
    assert !UnderCeiling(rl, h, now);
    assert Decide(limits, store, key, now, true) == Decision(0.0, store);
    assert TryAdmit(limits, store, key, now, true).store == Recorded(store, key, now);
    InsertSortedCount(h, now, now - rl.timeWindow);
  }

  /**
   * `acquire_lock` records exactly one timestamp for a configured key,
   * whatever the wait, at the clock reading after the wait.
   */
  lemma AdmitRecordsOnce(limits: Limits, store: Store, key: string, now: real, oldestLookup: bool)
    requires AllSorted(store)
    ensures var d := Decide(limits, store, key, now, oldestLookup);
      var a := Admit(limits, store, key, now, oldestLookup);
      && AllSorted(a.store)
      && a.at == (if d.wait > 0.0 then now + d.wait else now)
      && a.at >= now
      && (key !in limits ==> a.store == store && a.at == now)
      && (key in limits ==>
            multiset(History(a.store, key)) == multiset(History(d.store, key)) + multiset{a.at}
            && |History(a.store, key)| == |History(d.store, key)| + 1)
      && (forall k :: k != key ==> History(a.store, k) == History(store, k))
  {
    if key in limits {
      DecideEffect(limits, store, key, now, oldestLookup);
      var d := Decide(limits, store, key, now, oldestLookup);
      var at := if d.wait > 0.0 then now + d.wait else now;
      assert Admit(limits, store, key, now, oldestLookup) == Admission(at, Recorded(d.store, key, at));
      RecordedAddsOne(d.store, key, at);
    }
  }

  /**
   * With an oldest-timestamp lookup and no stored timestamp in the future,
   * `acquire_lock` records at most one window after it was entered.
   */
  lemma AdmitWithinOneWindow(limits: Limits, store: Store, key: string, now: real)
    requires AllSorted(store) && key in limits && limits[key].timeWindow >= 0.0
    requires forall y :: y in History(store, key) ==> y <= now
    ensures now <= Admit(limits, store, key, now, true).at <= now + limits[key].timeWindow
  {
    DecideEffect(limits, store, key, now, true);
    BlockedWaitBounds(limits[key], History(store, key), now);
  }

  /**
   * After a positive wait `acquire_lock` records exactly when the oldest
   * in-window timestamp reaches the window start, so that timestamp is
   * still in the closed window: the window ending at the admission holds
   * one more timestamp than `maxRequests` allows.
   */
  lemma AdmitAfterWaitLandsOnBoundary(limits: Limits, store: Store, key: string, now: real)
    requires AllSorted(store) && key in limits && limits[key].timeWindow >= 0.0
    requires Decide(limits, store, key, now, true).wait > 0.0
    ensures var rl := limits[key]; var h := History(store, key);
      var a := Admit(limits, store, key, now, true);
      && !UnderCeiling(rl, h, now)
      && a.at - rl.timeWindow == OldestSince(h, now - rl.timeWindow)
      && InWindowCount(rl, History(a.store, key), a.at) == InWindowCount(rl, h, now) + 1 > rl.maxRequests
  {
    var rl := limits[key];
    var h := History(store, key);
    var ws := now - rl.timeWindow;
    var o := OldestSince(h, ws);
    var d := Decide(limits, store, key, now, true);
    assert !UnderCeiling(rl, h, now);
    assert d == Decision(Max(0.0, o + rl.timeWindow - now), store);
    var at := o + rl.timeWindow;
    var a := Admit(limits, store, key, now, true);
    assert a == Admission(at, Recorded(store, key, at));
    assert History(a.store, key) == InsertSorted(h, at);
    WaitedInsertCount(rl, h, now);
  }

  /**
   * Recording at the end of the computed wait, when the oldest in-window
   * timestamp sits exactly on the window's closed start, adds one to the
   * count the ceiling was reached with.
   */
  lemma WaitedInsertCount(rl: RateLimit, h: seq<real>, now: real)
    requires Sorted(h) && rl.timeWindow >= 0.0
    ensures var at := OldestSince(h, now - rl.timeWindow) + rl.timeWindow;
      InWindowCount(rl, InsertSorted(h, at), at) == InWindowCount(rl, h, now) + 1
  {
    var ws := now - rl.timeWindow;
    var o := OldestSince(h, ws);
    WindowFromOldest(h, ws);
    var at := o + rl.timeWindow;
    assert at - rl.timeWindow == o && at >= o;
    InsertSortedCount(h, at, o);
    assert InWindowCount(rl, InsertSorted(h, at), at) == |Since(InsertSorted(h, at), o)| == |Since(h, o)| + 1;
    assert InWindowCount(rl, h, now) == |Since(h, ws)| == |Since(h, o)|;
  }

  /** Starting the window at its oldest timestamp keeps the same timestamps in it. */
  lemma WindowFromOldest(h: seq<real>, windowStart: real)
    requires Sorted(h)
    ensures OldestSince(h, windowStart) >= windowStart
    ensures Since(h, OldestSince(h, windowStart)) == Since(h, windowStart)
  {
    var o := OldestSince(h, windowStart);
    OldestSinceIsLeast(h, windowStart);
    forall y | y in h ensures y >= o <==> y >= windowStart {
    }
    SinceAgrees(h, o, windowStart);
  }

  /**
   * A ceiling of 1 per second with a timestamp at 0.5, entered at 1.0:
   * `acquire_lock` waits half a second and records at 1.5, when 0.5 is
   * still in the closed window, leaving two timestamps in it.
   */
  lemma WaitedAdmissionExample()
    ensures var limits := map["k" := RateLimit(1, 1.0)];
      var a := Admit(limits, map["k" := [0.5]], "k", 1.0, true);
      a.at == 1.5 && History(a.store, "k") == [0.5, 1.5] && InWindowCount(limits["k"], History(a.store, "k"), 1.5) == 2
  {
    var limits := map["k" := RateLimit(1, 1.0)];
    var store := map["k" := [0.5]];
    assert Since([0.5], 0.0) == [0.5];
    assert Decide(limits, store, "k", 1.0, true) == Decision(0.5, store);
    assert InsertSorted([0.5], 1.5) == [0.5] + InsertSorted([], 1.5);
    assert Since([0.5, 1.5], 0.5) == [0.5] + Since([1.5], 0.5);
  }

  /**
   * The usage report agrees with the admission decision: a configured key
   * is reported below its limit exactly when `get_sleep_time` takes the
   * admitting branch, and pruning does not change the report.
   */
  lemma UsageAgreesWithDecision(limits: Limits, store: Store, key: string, now: real, oldestLookup: bool)
    requires AllSorted(store) && key in limits
    ensures var u := UsageOf(limits, store, key, now);
      (u.current < u.limit <==> UnderCeiling(limits[key], History(store, key), now)) &&
      UsageOf(limits, Decide(limits, store, key, now, oldestLookup).store, key, now) == u
  {
    DecideEffect(limits, store, key, now, oldestLookup);
  }

  class SlidingWindowRateLimiter {
    /** The history store; the source never replaces it. */
    const backend: InMemoryBackend
    /** Whether the store offers `get_oldest_request_time`. */
    const oldestLookup: bool
    /** The `rate_limits` table. */
    var rateLimits: Limits

    ghost predicate Valid()
      reads this, backend
    {
      backend.Valid()
    }

    constructor (backend: InMemoryBackend, oldestLookup: bool)
      ensures this.backend == backend && this.oldestLookup == oldestLookup
      ensures rateLimits == map[]
    {
      this.backend := backend;
      this.oldestLookup := oldestLookup;
      rateLimits := map[];
    }

    /** `set_rate_limit`: upsert the key's ceiling; history is kept and reread under it. */
    method SetRateLimit(key: string, maxRequests: int, timeWindow: real)
      modifies this
      ensures rateLimits == old(rateLimits)[key := RateLimit(maxRequests, timeWindow)]
      ensures unchanged(backend)
    {
      rateLimits := rateLimits[key := RateLimit(maxRequests, timeWindow)];
    }

    /** `get_sleep_time`: how long to wait before `key` may be admitted at `now`. */
    method GetSleepTime(key: string, now: real) returns (wait: real)
      requires Valid()
      modifies backend
      ensures Valid()
      ensures Decision(wait, backend.requests) == Decide(rateLimits, old(backend.requests), key, now, oldestLookup)
      ensures key !in rateLimits ==> wait == 0.0 && backend.requests == old(backend.requests)
    {
      if key !in rateLimits {
        return 0.0;
      }
      var rateLimit := rateLimits[key];
      var windowStart := now - rateLimit.timeWindow;
      var currentCount := backend.GetRequestCount(key, windowStart);
      if currentCount < rateLimit.maxRequests {
        backend.CleanupOldRequests(key, windowStart);
        return 0.0;
      }
      if oldestLookup {
        var oldestTime := backend.GetOldestRequestTime(key, windowStart);
        var sleepUntil := oldestTime + rateLimit.timeWindow;
        wait := Max(0.0, sleepUntil - now);
      } else {
        wait := rateLimit.timeWindow;
      }
    }

    /**
     * `acquire_lock`: wait as long as `get_sleep_time` says (the clock
     * advances by the wait), then record the clock reading for a
     * configured key.
     */
    method AcquireLock(key: string, now: real) returns (admittedAt: real)
      requires Valid()
      modifies backend
      ensures Valid()
      ensures Admission(admittedAt, backend.requests) == Admit(rateLimits, old(backend.requests), key, now, oldestLookup)
    {
      var sleepTime := GetSleepTime(key, now);
      admittedAt := now;
      if sleepTime > 0.0 {
        admittedAt := now + sleepTime;
      }
      if key in rateLimits {
        backend.AddRequest(key, admittedAt);
      }
    }

    /** `try_acquire`: admit and record at `now` only when no wait is needed. */
    method TryAcquire(key: string, now: real) returns (ok: bool)
      requires Valid()
      modifies backend
      ensures Valid()
      ensures Attempt(ok, backend.requests) == TryAdmit(rateLimits, old(backend.requests), key, now, oldestLookup)
    {
      var sleepTime := GetSleepTime(key, now);
      if sleepTime > 0.0 {
        return false;
      }
      if key in rateLimits {
        backend.AddRequest(key, now);
      }
      return true;
    }

    /** `get_current_usage`: the in-window count against the ceiling; reads only. */
    method GetCurrentUsage(key: string, now: real) returns (u: Usage)
      requires Valid()
      ensures u == UsageOf(rateLimits, backend.requests, key, now)
      ensures key !in rateLimits ==> u == Usage(0, 0)
      ensures key in rateLimits ==>
        u.limit == rateLimits[key].maxRequests &&
        u.current == |Since(History(backend.requests, key), now - rateLimits[key].timeWindow)|
    {
      if key !in rateLimits {
        return Usage(0, 0);
      }
      var rateLimit := rateLimits[key];
      var windowStart := now - rateLimit.timeWindow;
      var currentCount := backend.GetRequestCount(key, windowStart);
      return Usage(currentCount, rateLimit.maxRequests);
    }
  }
}
