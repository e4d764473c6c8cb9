/**
 * The management layer: per-resource configuration expanded into engine
 * ceilings, and the resource-level wait, try and scoped-acquire operations
 * that fan out over a resource's applicable tracked keys.
 */
module Manager {
  import opened Wrappers
  import opened SortedLog
  import opened MemoryBackend
  import opened Engine
  import opened Coordination

  /** Every ceiling supplied for a configured resource has its tracked key in the engine's table. */
  ghost predicate Covers(configs: map<string, ResourceConfig>, limits: Limits) {
    forall name, d :: name in configs && Ceiling(configs[name], d).Some? ==> TrackedKey(name, d) in limits
  }

  /** Configuring a resource keeps every configured ceiling's key in the table. */
  lemma ConfigureKeepsCover(configs: map<string, ResourceConfig>, limits: Limits, resourceName: string, cfg: ResourceConfig)
    requires Covers(configs, limits)
    ensures Covers(configs[resourceName := cfg], ApplyEntries(limits, LimitEntries(resourceName, cfg)))
  {
    var r := ApplyEntries(limits, LimitEntries(resourceName, cfg));
    ConfigureSetsSuppliedCeilings(limits, resourceName, cfg);
    forall name, d | name in configs[resourceName := cfg] && Ceiling(configs[resourceName := cfg][name], d).Some?
      ensures TrackedKey(name, d) in r
    {
      if name != resourceName {
        assert TrackedKey(name, d) in limits;
      }
    }
  }

  /**
   * For a configured resource whose ceilings are all in the table, the
   * usage report lists each truthy ceiling against the ceiling the table
   * holds for its tracked key.
   */
  lemma CoveredUsageReportsTableLimit(configs: map<string, ResourceConfig>, limits: Limits, store: Store,
                                      resourceName: string, now: real)
    requires Covers(configs, limits) && resourceName in configs
    ensures var m := UsageMap(limits, store, resourceName, configs[resourceName], now);
      forall d :: d != Custom && Truthy(Ceiling(configs[resourceName], d)) ==>
        && TrackedKey(resourceName, d) in limits
        && Label(d) in m
        && m[Label(d)].limit == limits[TrackedKey(resourceName, d)].maxRequests
        && m[Label(d)].current == InWindowCount(limits[TrackedKey(resourceName, d)], History(store, TrackedKey(resourceName, d)), now)
  {
    UsageListsTruthyCeilings(limits, store, resourceName, configs[resourceName], now);
  }

  class RateLimiterManager {
    /** The engine; the source never replaces it. */
    const rateLimiter: SlidingWindowRateLimiter
    /** The `resource_configs` dictionary. */
    var resourceConfigs: map<string, ResourceConfig>

    /**
     * The store keeps every list sorted, the store offers the oldest
     * timestamp lookup, and every ceiling supplied for a configured
     * resource has its tracked key in the engine's table.
     */
    ghost predicate Valid()
      reads this, rateLimiter, rateLimiter.backend
    {
      && rateLimiter.Valid()
      && rateLimiter.oldestLookup
      && Covers(resourceConfigs, rateLimiter.rateLimits)
    }

    /** `RateLimiterManager(backend)`: a fresh in-memory store when none is given. */
    constructor (backend: Option<InMemoryBackend>)
      requires backend.Some? ==> backend.value.Valid()
      ensures Valid()
      ensures fresh(rateLimiter)
      ensures backend.Some? ==> rateLimiter.backend == backend.value
      ensures backend.None? ==> fresh(rateLimiter.backend) && rateLimiter.backend.requests == map[]
      ensures resourceConfigs == map[] && rateLimiter.rateLimits == map[]
    {
      var store: InMemoryBackend;
      if backend.None? {
        store := new InMemoryBackend();
      } else {
        store := backend.value;
      }
      rateLimiter := new SlidingWindowRateLimiter(store, true);
      resourceConfigs := map[];
    }

    /** The `configs` list of `configure_resource`: one entry per supplied ceiling, in order. */
    static method LimitList(resourceName: string, cfg: ResourceConfig) returns (configs: seq<LimitEntry>)
      ensures configs == LimitEntries(resourceName, cfg)
    {
      configs := [];
      if cfg.requestsPerSecond.Some? {
        configs := configs + [LimitEntry(TrackedKey(resourceName, Rps), Trunc(cfg.requestsPerSecond.value), 1.0)];
      }
      ghost var afterRps := EntryFor(resourceName, cfg, Rps);
      assert configs == afterRps;
      if cfg.requestsPerMinute.Some? {
        configs := configs + [LimitEntry(TrackedKey(resourceName, Rpm), Trunc(cfg.requestsPerMinute.value), 60.0)];
      }
      ghost var afterRpm := afterRps + EntryFor(resourceName, cfg, Rpm);
      assert configs == afterRpm;
      if cfg.requestsPerHour.Some? {
        configs := configs + [LimitEntry(TrackedKey(resourceName, Rph), Trunc(cfg.requestsPerHour.value), 3600.0)];
      }
      ghost var afterRph := afterRpm + EntryFor(resourceName, cfg, Rph);
      assert configs == afterRph;
      if cfg.tokensPerSecond.Some? {
        configs := configs + [LimitEntry(TrackedKey(resourceName, Tps), Trunc(cfg.tokensPerSecond.value), 1.0)];
      }
      ghost var afterTps := afterRph + EntryFor(resourceName, cfg, Tps);
      assert configs == afterTps;
      if cfg.tokensPerMinute.Some? {
        configs := configs + [LimitEntry(TrackedKey(resourceName, Tpm), Trunc(cfg.tokensPerMinute.value), 60.0)];
      }
      ghost var afterTpm := afterTps + EntryFor(resourceName, cfg, Tpm);
      assert configs == afterTpm;
    }

    /**
     * `configure_resource`: build the `(key, int(ceiling), window)` list of
     * the supplied ceilings, reject an empty one, otherwise store the
     * configuration and set each ceiling in the engine in list order.
     */
    method ConfigureResource(resourceName: string, requestsPerSecond: Option<real>, requestsPerMinute: Option<real>,
                             requestsPerHour: Option<real>, tokensPerSecond: Option<real>,
                             tokensPerMinute: Option<real>) returns (r: Outcome<Error>)
      requires Valid()
      modifies this, rateLimiter
      ensures Valid()
      ensures unchanged(rateLimiter.backend)
      ensures var cfg := ResourceConfig(requestsPerSecond, requestsPerMinute, requestsPerHour, tokensPerSecond, tokensPerMinute);
        && (r.Fail? <==> LimitEntries(resourceName, cfg) == [])
        && (r.Fail? ==>
              r.error == NoRateLimitSpecified &&
              resourceConfigs == old(resourceConfigs) && rateLimiter.rateLimits == old(rateLimiter.rateLimits))
        && (r.Pass? ==>
              resourceConfigs == old(resourceConfigs)[resourceName := cfg] &&
              rateLimiter.rateLimits == ApplyEntries(old(rateLimiter.rateLimits), LimitEntries(resourceName, cfg)))
    {
      var cfg := ResourceConfig(requestsPerSecond, requestsPerMinute, requestsPerHour, tokensPerSecond, tokensPerMinute);
      ghost var configs0, limits0 := resourceConfigs, rateLimiter.rateLimits;
      var configs := LimitList(resourceName, cfg);
      if configs == [] {
        return Fail(NoRateLimitSpecified);
      }
      resourceConfigs := resourceConfigs[resourceName := cfg];
      for i := 0 to |configs|
        invariant rateLimiter.Valid()
        invariant resourceConfigs == configs0[resourceName := cfg]
        invariant rateLimiter.rateLimits == ApplyEntries(limits0, configs[..i])
      {
        assert configs[..i + 1][..i] == configs[..i];
        var e := configs[i];
        rateLimiter.SetRateLimit(e.key, e.maxRequests, e.timeWindow);
      }
      assert configs[..|configs|] == configs;
      ConfigureKeepsCover(configs0, limits0, resourceName, cfg);
      r := Pass;
    }

    /** The tracked keys the source lists for a request type, or `None` when it raises. */
    static method KeysToCheck(resourceName: string, requestType: string) returns (keys: Option<seq<string>>)
      ensures keys.None? <==> Applicable(requestType).None?
      ensures keys.Some? ==> keys.value == KeysFor(resourceName, Applicable(requestType).value)
    {
      if requestType == "requests" {
        keys := Some([TrackedKey(resourceName, Rps), TrackedKey(resourceName, Rpm),
                      TrackedKey(resourceName, Rph), TrackedKey(resourceName, Custom)]);
      } else if requestType == "tokens" {
        keys := Some([TrackedKey(resourceName, Tps), TrackedKey(resourceName, Tpm), TrackedKey(resourceName, Custom)]);
      } else {
        keys := None;
      }
    }

    /**
     * `get_sleep_time(resource, request_type)`: 0 for an unknown resource,
     * an error for an unknown request type, otherwise the largest wait of
     * the configured applicable keys, deciding them in order.
     */
    method GetSleepTime(resourceName: string, requestType: string, now: real) returns (r: Result<real, Error>)
      requires Valid()
      modifies rateLimiter.backend
      ensures Valid()
      ensures var d := DecideResource(resourceConfigs, rateLimiter.rateLimits, old(rateLimiter.backend.requests),
                                      resourceName, requestType, now, rateLimiter.oldestLookup);
        && (r.Failure? ==> d == Failure(r.error) && rateLimiter.backend.requests == old(rateLimiter.backend.requests))
        && (r.Success? ==> d == Success(Decision(r.value, rateLimiter.backend.requests)))
    {
      if resourceName !in resourceConfigs {
        return Success(0.0);
      }
      var keysToCheck := KeysToCheck(resourceName, requestType);
      if keysToCheck.None? {
        return Failure(InvalidRequestType);
      }
      var keys := keysToCheck.value;
      var sleepTimes: seq<real> := [];
      for i := 0 to |keys|
        invariant rateLimiter.Valid()
        invariant Sweep(sleepTimes, rateLimiter.backend.requests) ==
                  DecideKeys(rateLimiter.rateLimits, old(rateLimiter.backend.requests), keys[..i], now, rateLimiter.oldestLookup)
      {
        assert keys[..i + 1][..i] == keys[..i];
        var key := keys[i];
        if key in rateLimiter.rateLimits {
          var sleepTime := rateLimiter.GetSleepTime(key, now);
          sleepTimes := sleepTimes + [sleepTime];
        }
      }
      assert keys[..|keys|] == keys;
      return Success(MaxOrZero(sleepTimes));
    }

    /** `acquire_lock(resource, request_type)`: a scoped context over the resource. */
    method AcquireLock(resourceName: string, requestType: string) returns (lock: MultiResourceLock)
      ensures fresh(lock)
      ensures lock.manager == this && lock.resourceName == resourceName && lock.requestType == requestType
    {
      lock := new MultiResourceLock(this, resourceName, requestType);
    }

    /**
     * `try_acquire(resource, request_type)`: true for an unknown resource,
     * an error for an unknown request type, otherwise try each configured
     * applicable key in order and answer false at the first refusal.
     */
    method TryAcquire(resourceName: string, requestType: string, now: real) returns (r: Result<bool, Error>)
      requires Valid()
      modifies rateLimiter.backend
      ensures Valid()
      ensures var t := TryResource(resourceConfigs, rateLimiter.rateLimits, old(rateLimiter.backend.requests),
                                   resourceName, requestType, now, rateLimiter.oldestLookup);
        && (r.Failure? ==> t == Failure(r.error) && rateLimiter.backend.requests == old(rateLimiter.backend.requests))
        && (r.Success? ==> t == Success(Attempt(r.value, rateLimiter.backend.requests)))
    {
      if resourceName !in resourceConfigs {
        return Success(true);
      }
      var keysToCheck := KeysToCheck(resourceName, requestType);
      if keysToCheck.None? {
        return Failure(InvalidRequestType);
      }
      var keys := keysToCheck.value;
      ghost var store := rateLimiter.backend.requests;
      for i := 0 to |keys|
        invariant rateLimiter.Valid()
        invariant TryKeys(rateLimiter.rateLimits, store, keys[..i], now, rateLimiter.oldestLookup) ==
                  Attempt(true, rateLimiter.backend.requests)
      {
        assert keys[..i + 1][..i] == keys[..i];
        var key := keys[i];
        if key in rateLimiter.rateLimits {
          var ok := rateLimiter.TryAcquire(key, now);
          if !ok {
            TryKeysStopsAtRefusal(rateLimiter.rateLimits, store, keys, i + 1, now, rateLimiter.oldestLookup);
            return Success(false);
          }
        }
      }
      assert keys[..|keys|] == keys;
      return Success(true);
    }

    /**
     * `get_resource_status(resource)`: `None` (the empty dictionary) for an
     * unknown resource; otherwise the configuration, the two waits (each
     * kept only when computing it does not raise) and the usage of every
     * truthy ceiling, present only when there is one.
     */
    method GetResourceStatus(resourceName: string, now: real) returns (status: Option<Status>)
      requires Valid()
      modifies rateLimiter.backend
      ensures Valid()
      ensures Report(status, rateLimiter.backend.requests) ==
              StatusOf(resourceConfigs, rateLimiter.rateLimits, old(rateLimiter.backend.requests),
                       resourceName, now, rateLimiter.oldestLookup)
    {
      if resourceName !in resourceConfigs {
        return None;
      }
      var config := resourceConfigs[resourceName];
      ghost var limits, s0 := rateLimiter.rateLimits, rateLimiter.backend.requests;
      var requests := GetSleepTime(resourceName, "requests", now);
      var sleepTimeRequests := if requests.Success? then Some(requests.value) else None;
      ghost var s1 := rateLimiter.backend.requests;
      var tokens := GetSleepTime(resourceName, "tokens", now);
      var sleepTimeTokens := if tokens.Success? then Some(tokens.value) else None;
      ghost var s2 := rateLimiter.backend.requests;
      var usage := CurrentUsage(resourceName, config, now);
      var currentUsage := if usage == map[] then None else Some(usage);
      status := Some(Status(resourceName, config, sleepTimeRequests, sleepTimeTokens, currentUsage));
      StatusOfParts(resourceConfigs, limits, s0, s1, s2, resourceName, now, rateLimiter.oldestLookup,
                    sleepTimeRequests, sleepTimeTokens);
    }

    /** The usage part of `get_resource_status`: the usage of each truthy ceiling, keyed by label; reads only. */
    method CurrentUsage(resourceName: string, config: ResourceConfig, now: real) returns (usage: map<string, Usage>)
      requires Valid()
      ensures usage == UsageMap(rateLimiter.rateLimits, rateLimiter.backend.requests, resourceName, config, now)
    {
      usage := map[];
      if Truthy(config.requestsPerSecond) {
        var u := rateLimiter.GetCurrentUsage(TrackedKey(resourceName, Rps), now);
        usage := usage["requests_per_second" := u];
      }
      ghost var u1 := UsageEntry(map[], rateLimiter.rateLimits, rateLimiter.backend.requests, resourceName, config, Rps, now);
      assert usage == u1;
      if Truthy(config.requestsPerMinute) {
        var u := rateLimiter.GetCurrentUsage(TrackedKey(resourceName, Rpm), now);
        usage := usage["requests_per_minute" := u];
      }
      ghost var u2 := UsageEntry(u1, rateLimiter.rateLimits, rateLimiter.backend.requests, resourceName, config, Rpm, now);
      assert usage == u2;
      if Truthy(config.requestsPerHour) {
        var u := rateLimiter.GetCurrentUsage(TrackedKey(resourceName, Rph), now);
        usage := usage["requests_per_hour" := u];
      }
      ghost var u3 := UsageEntry(u2, rateLimiter.rateLimits, rateLimiter.backend.requests, resourceName, config, Rph, now);
      assert usage == u3;
      if Truthy(config.tokensPerSecond) {
        var u := rateLimiter.GetCurrentUsage(TrackedKey(resourceName, Tps), now);
        usage := usage["tokens_per_second" := u];
      }
      ghost var u4 := UsageEntry(u3, rateLimiter.rateLimits, rateLimiter.backend.requests, resourceName, config, Tps, now);
      assert usage == u4;
      if Truthy(config.tokensPerMinute) {
        var u := rateLimiter.GetCurrentUsage(TrackedKey(resourceName, Tpm), now);
        usage := usage["tokens_per_minute" := u];
      }
      ghost var u5 := UsageEntry(u4, rateLimiter.rateLimits, rateLimiter.backend.requests, resourceName, config, Tpm, now);
      assert usage == u5;
    }
  }

  /** The scoped context `acquire_lock` hands out for one resource and request type. */
  class MultiResourceLock {
    const manager: RateLimiterManager
    const resourceName: string
    const requestType: string

    constructor (manager: RateLimiterManager, resourceName: string, requestType: string)
      ensures this.manager == manager && this.resourceName == resourceName && this.requestType == requestType
    {
      this.manager := manager;
      this.resourceName := resourceName;
      this.requestType := requestType;
    }

    /**
     * `__enter__` at `now`: wait as long as the resource's wait (the clock
     * advances by it), then, for a configured resource, record the clock
     * reading into every configured applicable key. Answers that reading.
     */
    method Enter(now: real) returns (r: Result<real, Error>)
      requires manager.Valid()
      modifies manager.rateLimiter.backend
      ensures manager.Valid()
      ensures var e := EnterResource(manager.resourceConfigs, manager.rateLimiter.rateLimits,
                                     old(manager.rateLimiter.backend.requests), resourceName, requestType,
                                     now, manager.rateLimiter.oldestLookup);
        && (r.Failure? ==>
              e == Failure(r.error) && manager.rateLimiter.backend.requests == old(manager.rateLimiter.backend.requests))
        && (r.Success? ==> e == Success(Admission(r.value, manager.rateLimiter.backend.requests)))
    {
      ghost var configs, limits, s0 := manager.resourceConfigs, manager.rateLimiter.rateLimits, manager.rateLimiter.backend.requests;
      var sleepTime := manager.GetSleepTime(resourceName, requestType, now);
      if sleepTime.Failure? {
        return Failure(sleepTime.error);
      }
      var currentTime := now;
      if sleepTime.value > 0.0 {
        currentTime := now + sleepTime.value;
      }
      if resourceName !in manager.resourceConfigs {
        return Success(currentTime);
      }
      var keysToUpdate := RateLimiterManager.KeysToCheck(resourceName, requestType);
      var keys := if keysToUpdate.Some? then keysToUpdate.value else [];
      ghost var store := manager.rateLimiter.backend.requests;
      EnterAfterDecision(configs, limits, s0, resourceName, requestType, now, manager.rateLimiter.oldestLookup,
                         sleepTime.value, store);
      assert keys == KeysFor(resourceName, Applicable(requestType).value);
      RecordEach(keys, currentTime);
      return Success(currentTime);
    }

    /** The record loop of `__enter__`: add `t` to each configured key in turn. */
    method RecordEach(keys: seq<string>, t: real)
      requires manager.Valid()
      modifies manager.rateLimiter.backend
      ensures manager.Valid()
      ensures manager.rateLimiter.backend.requests
              == RecordKeys(manager.rateLimiter.rateLimits, old(manager.rateLimiter.backend.requests), keys, t)
    {
      ghost var store := manager.rateLimiter.backend.requests;
      for i := 0 to |keys|
        invariant manager.Valid()
        invariant manager.rateLimiter.backend.requests == RecordKeys(manager.rateLimiter.rateLimits, store, keys[..i], t)
      {
        assert keys[..i + 1][..i] == keys[..i];
        var key := keys[i];
        if key in manager.rateLimiter.rateLimits {
          manager.rateLimiter.backend.AddRequest(key, t);
        }
      }
      assert keys[..|keys|] == keys;
    }

    /** `__exit__`: does nothing and never suppresses the exception in flight. */
    method Exit() returns (suppress: bool)
      ensures !suppress
    {
      suppress := false;
    }
  }
}
