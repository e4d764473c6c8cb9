/**
 * What the resource-level coordinator computes, as functions over the
 * engine's table and the store: the tracked keys of a resource, the
 * ceilings a configuration expands to, and the sequential sweeps that
 * decide, try or record over a resource's applicable keys, with the
 * lemmas that say what those sweeps amount to.
 */
module Coordination {
  import opened Wrappers
  import opened SortedLog
  import opened MemoryBackend
  import opened Engine

  /** The ceiling dimensions a resource can have. */
  datatype Dimension = Rps | Rpm | Rph | Tps | Tpm | Custom

  datatype Error = NoRateLimitSpecified | InvalidRequestType

  function Suffix(d: Dimension): string {
    match d
    case Rps => "rps"
    case Rpm => "rpm"
    case Rph => "rph"
    case Tps => "tps"
    case Tpm => "tpm"
    case Custom => "custom"
  }

  /** The tracked key `<resource>:<suffix>`. */
  function TrackedKey(resourceName: string, d: Dimension): string {
    resourceName + ":" + Suffix(d)
  }

  /** Two dimensions of one resource never share a tracked key. */
  lemma TrackedKeyInjective(resourceName: string, d1: Dimension, d2: Dimension)
    ensures TrackedKey(resourceName, d1) == TrackedKey(resourceName, d2) <==> d1 == d2
  {
    var n := |resourceName| + 1;
    assert TrackedKey(resourceName, d1)[n..] == Suffix(d1);
    assert TrackedKey(resourceName, d2)[n..] == Suffix(d2);
  }

  /** The dimensions checked for a request type, in the order they are checked. */
  function Applicable(requestType: string): Option<seq<Dimension>> {
    if requestType == "requests" then Some([Rps, Rpm, Rph, Custom])
    else if requestType == "tokens" then Some([Tps, Tpm, Custom])
    else None
  }

  predicate Distinct<T(==)>(s: seq<T>) {
    forall i, j :: 0 <= i < j < |s| ==> s[i] != s[j]
  }

  /** The tracked keys of `resourceName` for the given dimensions, in order. */
  function KeysFor(resourceName: string, dims: seq<Dimension>): (keys: seq<string>)
    ensures |keys| == |dims|
    ensures forall i :: 0 <= i < |dims| ==> keys[i] == TrackedKey(resourceName, dims[i])
    ensures Distinct(dims) ==> Distinct(keys)
  {
    var keys := seq(|dims|, i requires 0 <= i < |dims| => TrackedKey(resourceName, dims[i]));
    TrackedKeysDistinct(resourceName, dims, keys);
    keys
  }

  /** Distinct dimensions give distinct tracked keys, position by position. */
  lemma TrackedKeysDistinct(resourceName: string, dims: seq<Dimension>, keys: seq<string>)
    requires |keys| == |dims|
    requires forall i :: 0 <= i < |dims| ==> keys[i] == TrackedKey(resourceName, dims[i])
    ensures Distinct(dims) ==> Distinct(keys)
  {
    if Distinct(dims) {
      forall i, j | 0 <= i < j < |keys| ensures keys[i] != keys[j] {
        TrackedKeyInjective(resourceName, dims[i], dims[j]);
      }
    }
  }

  /** The applicable keys of a request type are pairwise distinct. */
  lemma ApplicableKeysDistinct(resourceName: string, requestType: string)
    requires Applicable(requestType).Some?
    ensures Distinct(KeysFor(resourceName, Applicable(requestType).value))
  {
    var dims := Applicable(requestType).value;
    assert Distinct(dims);
  }

  /** The ceilings supplied to `configure_resource`; `None` is an absent argument. */
  datatype ResourceConfig = ResourceConfig(
    requestsPerSecond: Option<real>,
    requestsPerMinute: Option<real>,
    requestsPerHour: Option<real>,
    tokensPerSecond: Option<real>,
    tokensPerMinute: Option<real>)

  /** The supplied ceiling of a dimension; `custom` is never supplied. */
  function Ceiling(cfg: ResourceConfig, d: Dimension): Option<real> {
    match d
    case Rps => cfg.requestsPerSecond
    case Rpm => cfg.requestsPerMinute
    case Rph => cfg.requestsPerHour
    case Tps => cfg.tokensPerSecond
    case Tpm => cfg.tokensPerMinute
    case Custom => None
  }

  /** The fixed window, in seconds, of each configurable dimension. */
  function WindowSeconds(d: Dimension): real
    requires d != Custom
  {
    match d
    case Rps => 1.0
    case Rpm => 60.0
    case Rph => 3600.0
    case Tps => 1.0
    case Tpm => 60.0
  }

  /** The status label of each configurable dimension. */
  function Label(d: Dimension): string
    requires d != Custom
  {
    match d
    case Rps => "requests_per_second"
    case Rpm => "requests_per_minute"
    case Rph => "requests_per_hour"
    case Tps => "tokens_per_second"
    case Tpm => "tokens_per_minute"
  }

  /** Python's `int(v)` on a float: truncation toward zero. */
  function Trunc(v: real): (n: int)
    ensures 0.0 <= v ==> n as real <= v < n as real + 1.0
    ensures v < 0.0 ==> n as real - 1.0 < v <= n as real
  {
    if v >= 0.0 then v.Floor else -((-v).Floor)
  }

  /** Python's truthiness of a stored ceiling: present and nonzero. */
  predicate Truthy(v: Option<real>) {
    v.Some? && v.value != 0.0
  }

  /** One `(key, max_requests, time_window)` tuple of the `configs` list. */
  datatype LimitEntry = LimitEntry(key: string, maxRequests: int, timeWindow: real)

  /** The tuple `configure_resource` adds for dimension `d`, or none when the ceiling is absent. */
  function EntryFor(resourceName: string, cfg: ResourceConfig, d: Dimension): (r: seq<LimitEntry>)
    requires d != Custom
    ensures |r| <= 1
    ensures forall e :: e in r ==> resourceName + ":" <= e.key && e.timeWindow == WindowSeconds(d)
  {
    var v := Ceiling(cfg, d);
    if v.Some? then [LimitEntry(TrackedKey(resourceName, d), Trunc(v.value), WindowSeconds(d))] else []
  }

  /** The `configs` list `configure_resource` builds, in the order rps, rpm, rph, tps, tpm. */
  function LimitEntries(resourceName: string, cfg: ResourceConfig): (r: seq<LimitEntry>)
    ensures |r| <= 5
    ensures forall e :: e in r ==> resourceName + ":" <= e.key
    ensures forall e :: e in r ==> e.timeWindow == 1.0 || e.timeWindow == 60.0 || e.timeWindow == 3600.0
  {
    EntryFor(resourceName, cfg, Rps) + EntryFor(resourceName, cfg, Rpm) + EntryFor(resourceName, cfg, Rph)
    + EntryFor(resourceName, cfg, Tps) + EntryFor(resourceName, cfg, Tpm)
  }

  /** The engine table after `set_rate_limit` on each entry in turn. */
  function ApplyEntries(limits: Limits, entries: seq<LimitEntry>): Limits
    decreases |entries|
  {
    if entries == [] then limits
    else
      var e := entries[|entries| - 1];
      ApplyEntries(limits, entries[..|entries| - 1])[e.key := RateLimit(e.maxRequests, e.timeWindow)]
  }

  /** Whether `key` is the tracked key of a ceiling `cfg` supplies. */
  ghost predicate Supplies(resourceName: string, cfg: ResourceConfig, key: string) {
    exists d :: Ceiling(cfg, d).Some? && key == TrackedKey(resourceName, d)
  }

  lemma {:induction false} ApplyEntriesConcat(limits: Limits, a: seq<LimitEntry>, b: seq<LimitEntry>)
    ensures ApplyEntries(limits, a + b) == ApplyEntries(ApplyEntries(limits, a), b)
    decreases |b|
  {
    if b == [] {
      assert a + b == a;
    } else {
      ApplyEntriesConcat(limits, a, b[..|b| - 1]);
      assert (a + b)[..|a + b| - 1] == a + b[..|b| - 1];
    }
  }

  lemma ApplyEntryFor(limits: Limits, resourceName: string, cfg: ResourceConfig, d: Dimension)
    requires d != Custom
    ensures var v := Ceiling(cfg, d);
      ApplyEntries(limits, EntryFor(resourceName, cfg, d)) ==
      if v.Some? then limits[TrackedKey(resourceName, d) := RateLimit(Trunc(v.value), WindowSeconds(d))] else limits
  {
    var es := EntryFor(resourceName, cfg, d);
    if es != [] {
      assert es[..0] == [];
    }
  }

  /** `configure_resource` is rejected exactly when no ceiling is supplied. */
  lemma NoEntriesIffNoCeiling(resourceName: string, cfg: ResourceConfig)
    ensures LimitEntries(resourceName, cfg) == [] <==> forall d :: Ceiling(cfg, d).None?
  {
    if LimitEntries(resourceName, cfg) == [] {
      forall d ensures Ceiling(cfg, d).None? {
        if d != Custom {
          assert |EntryFor(resourceName, cfg, d)| == 0;
        }
      }
    } else {
      var d :| d in [Rps, Rpm, Rph, Tps, Tpm] && EntryFor(resourceName, cfg, d) != [];
    }
  }

  /** The engine table after the `set_rate_limit` call for one dimension, if it is supplied. */
  function Upsert(limits: Limits, resourceName: string, cfg: ResourceConfig, d: Dimension): Limits
    requires d != Custom
  {
    var v := Ceiling(cfg, d);
    if v.Some? then limits[TrackedKey(resourceName, d) := RateLimit(Trunc(v.value), WindowSeconds(d))] else limits
  }

  lemma ApplyLimitEntries(limits: Limits, resourceName: string, cfg: ResourceConfig)
    ensures ApplyEntries(limits, LimitEntries(resourceName, cfg)) ==
      Upsert(Upsert(Upsert(Upsert(Upsert(limits, resourceName, cfg, Rps), resourceName, cfg, Rpm),
        resourceName, cfg, Rph), resourceName, cfg, Tps), resourceName, cfg, Tpm)
  {
    var e1, e2, e3 := EntryFor(resourceName, cfg, Rps), EntryFor(resourceName, cfg, Rpm), EntryFor(resourceName, cfg, Rph);
    var e4, e5 := EntryFor(resourceName, cfg, Tps), EntryFor(resourceName, cfg, Tpm);
    ApplyEntriesConcat(limits, e1 + e2 + e3 + e4, e5);
    ApplyEntriesConcat(limits, e1 + e2 + e3, e4);
    ApplyEntriesConcat(limits, e1 + e2, e3);
    ApplyEntriesConcat(limits, e1, e2);
    var m1 := ApplyEntries(limits, e1);
    var m2 := ApplyEntries(m1, e2);
    var m3 := ApplyEntries(m2, e3);
    var m4 := ApplyEntries(m3, e4);
    ApplyEntryFor(limits, resourceName, cfg, Rps);
    ApplyEntryFor(m1, resourceName, cfg, Rpm);
    ApplyEntryFor(m2, resourceName, cfg, Rph);
    ApplyEntryFor(m3, resourceName, cfg, Tps);
    ApplyEntryFor(m4, resourceName, cfg, Tpm);
  }

  /** An upsert for one dimension leaves every key but that dimension's supplied key alone. */
  lemma UpsertElsewhere(limits: Limits, resourceName: string, cfg: ResourceConfig, d: Dimension, k: string)
    requires d != Custom
    requires Ceiling(cfg, d).None? || k != TrackedKey(resourceName, d)
    ensures (k in Upsert(limits, resourceName, cfg, d) <==> k in limits)
    ensures k in limits ==> Upsert(limits, resourceName, cfg, d)[k] == limits[k]
  {
  }

  /**
   * Configuring a resource sets each supplied ceiling's key to
   * `RateLimit(int(value), window)` with the dimension's fixed window and
   * leaves every other key of the table (including the keys of absent
   * ceilings) as it was.
   */
  lemma ConfigureSetsSuppliedCeilings(limits: Limits, resourceName: string, cfg: ResourceConfig)
    ensures var r := ApplyEntries(limits, LimitEntries(resourceName, cfg));
      && (forall d :: d != Custom && Ceiling(cfg, d).Some? ==>
            TrackedKey(resourceName, d) in r &&
            r[TrackedKey(resourceName, d)] == RateLimit(Trunc(Ceiling(cfg, d).value), WindowSeconds(d)))
      && (forall k :: !Supplies(resourceName, cfg, k) ==> (k in r <==> k in limits) && (k in r ==> r[k] == limits[k]))
      && limits.Keys <= r.Keys
  {
    ApplyLimitEntries(limits, resourceName, cfg);
    var m1 := Upsert(limits, resourceName, cfg, Rps);
    var m2 := Upsert(m1, resourceName, cfg, Rpm);
    var m3 := Upsert(m2, resourceName, cfg, Rph);
    var m4 := Upsert(m3, resourceName, cfg, Tps);
    var r := Upsert(m4, resourceName, cfg, Tpm);
    forall d | d != Custom && Ceiling(cfg, d).Some?
      ensures TrackedKey(resourceName, d) in r
      ensures r[TrackedKey(resourceName, d)] == RateLimit(Trunc(Ceiling(cfg, d).value), WindowSeconds(d))
    {
      var k := TrackedKey(resourceName, d);
      TrackedKeyInjective(resourceName, d, Rpm);
      TrackedKeyInjective(resourceName, d, Rph);
      TrackedKeyInjective(resourceName, d, Tps);
      TrackedKeyInjective(resourceName, d, Tpm);
      if d == Rps {
        UpsertElsewhere(m1, resourceName, cfg, Rpm, k);
        UpsertElsewhere(m2, resourceName, cfg, Rph, k);
        UpsertElsewhere(m3, resourceName, cfg, Tps, k);
        UpsertElsewhere(m4, resourceName, cfg, Tpm, k);
      } else if d == Rpm {
        UpsertElsewhere(m2, resourceName, cfg, Rph, k);
        UpsertElsewhere(m3, resourceName, cfg, Tps, k);
        UpsertElsewhere(m4, resourceName, cfg, Tpm, k);
      } else if d == Rph {
        UpsertElsewhere(m3, resourceName, cfg, Tps, k);
        UpsertElsewhere(m4, resourceName, cfg, Tpm, k);
      } else if d == Tps {
        UpsertElsewhere(m4, resourceName, cfg, Tpm, k);
      }
    }
    forall k | !Supplies(resourceName, cfg, k)
      ensures (k in r <==> k in limits) && (k in r ==> r[k] == limits[k])
    {
      UpsertElsewhere(limits, resourceName, cfg, Rps, k);
      UpsertElsewhere(m1, resourceName, cfg, Rpm, k);
      UpsertElsewhere(m2, resourceName, cfg, Rph, k);
      UpsertElsewhere(m3, resourceName, cfg, Tps, k);
      UpsertElsewhere(m4, resourceName, cfg, Tpm, k);
    }
  }

  /** The largest of a nonempty list, Python's `max`. */
  function MaxOf(s: seq<real>): (m: real)
    requires s != []
    ensures m in s
    ensures forall x :: x in s ==> x <= m
  {
    assert s == [s[0]] + s[1..];
    if |s| == 1 then s[0] else Max(s[0], MaxOf(s[1..]))
  }

  /** `max(sleep_times) if sleep_times else 0.0`. */
  function MaxOrZero(s: seq<real>): real {
    if s == [] then 0.0 else MaxOf(s)
  }

  /** The waits collected so far and the store after the decisions taken so far. */
  datatype Sweep = Sweep(waits: seq<real>, store: Store)

  /** The loop of `get_sleep_time`: decide each configured key in turn, collecting waits. */
  function DecideKeys(limits: Limits, store: Store, keys: seq<string>, now: real, oldestLookup: bool): (r: Sweep)
    ensures |r.waits| <= |keys|
    ensures oldestLookup ==> forall w :: w in r.waits ==> w >= 0.0
    decreases |keys|
  {
    if keys == [] then Sweep([], store)
    else
      var prior := DecideKeys(limits, store, keys[..|keys| - 1], now, oldestLookup);
      var key := keys[|keys| - 1];
      if key in limits then
        var d := Decide(limits, prior.store, key, now, oldestLookup);
        Sweep(prior.waits + [d.wait], d.store)
      else prior
  }

  /** The waits of the configured keys, each decided against the same starting store. */
  function IndependentWaits(limits: Limits, store: Store, keys: seq<string>, now: real, oldestLookup: bool): seq<real>
    decreases |keys|
  {
    if keys == [] then []
    else
      var key := keys[|keys| - 1];
      IndependentWaits(limits, store, keys[..|keys| - 1], now, oldestLookup)
      + (if key in limits then [Decide(limits, store, key, now, oldestLookup).wait] else [])
  }

  /** `RateLimiterManager.get_sleep_time(resource, request_type)` at `now`. */
  function DecideResource(configs: map<string, ResourceConfig>, limits: Limits, store: Store,
                          resourceName: string, requestType: string, now: real, oldestLookup: bool): (r: Result<Decision, Error>)
    ensures r.Failure? <==> resourceName in configs && Applicable(requestType).None?
    ensures r.Success? && oldestLookup ==> r.value.wait >= 0.0
  {
    if resourceName !in configs then Success(Decision(0.0, store))
    else match Applicable(requestType)
      case None => Failure(InvalidRequestType)
      case Some(dims) =>
        var sweep := DecideKeys(limits, store, KeysFor(resourceName, dims), now, oldestLookup);
        Success(Decision(MaxOrZero(sweep.waits), sweep.store))
  }

  /** The loop of `try_acquire`: try each configured key in turn, stopping at the first refusal. */
  function TryKeys(limits: Limits, store: Store, keys: seq<string>, now: real, oldestLookup: bool): (r: Attempt)
    decreases |keys|
  {
    if keys == [] then Attempt(true, store)
    else
      var prior := TryKeys(limits, store, keys[..|keys| - 1], now, oldestLookup);
      var key := keys[|keys| - 1];
      if !prior.ok || key !in limits then prior
      else TryAdmit(limits, prior.store, key, now, oldestLookup)
  }

  /** `RateLimiterManager.try_acquire(resource, request_type)` at `now`. */
  function TryResource(configs: map<string, ResourceConfig>, limits: Limits, store: Store,
                       resourceName: string, requestType: string, now: real, oldestLookup: bool): (r: Result<Attempt, Error>)
    ensures r.Failure? <==> resourceName in configs && Applicable(requestType).None?
  {
    if resourceName !in configs then Success(Attempt(true, store))
    else match Applicable(requestType)
      case None => Failure(InvalidRequestType)
      case Some(dims) => Success(TryKeys(limits, store, KeysFor(resourceName, dims), now, oldestLookup))
  }

  /** The loop of `MultiResourceLock.__enter__`: record `t` into each configured key. */
  function RecordKeys(limits: Limits, store: Store, keys: seq<string>, t: real): (r: Store)
    decreases |keys|
  {
    if keys == [] then store
    else
      var prior := RecordKeys(limits, store, keys[..|keys| - 1], t);
      var key := keys[|keys| - 1];
      if key in limits then Recorded(prior, key, t) else prior
  }

  /** `MultiResourceLock.__enter__` at `now`: wait for the resource, then record everywhere. */
  function EnterResource(configs: map<string, ResourceConfig>, limits: Limits, store: Store,
                         resourceName: string, requestType: string, now: real, oldestLookup: bool): (r: Result<Admission, Error>)
    ensures r.Failure? <==> resourceName in configs && Applicable(requestType).None?
    ensures r.Success? ==> r.value.at >= now
  {
    match DecideResource(configs, limits, store, resourceName, requestType, now, oldestLookup)
    case Failure(e) => Failure(e)
    case Success(d) =>
      var at := if d.wait > 0.0 then now + d.wait else now;
      if resourceName !in configs then Success(Admission(at, d.store))
      else match Applicable(requestType)
        case None => Failure(InvalidRequestType)
        case Some(dims) => Success(Admission(at, RecordKeys(limits, d.store, KeysFor(resourceName, dims), at)))
  }

  /** Entering a configured resource whose wait is known records at the clock reading after that wait. */
  lemma EnterAfterDecision(configs: map<string, ResourceConfig>, limits: Limits, store: Store,
                           resourceName: string, requestType: string, now: real, oldestLookup: bool, wait: real, after: Store)
    requires resourceName in configs
    requires DecideResource(configs, limits, store, resourceName, requestType, now, oldestLookup) == Success(Decision(wait, after))
    ensures Applicable(requestType).Some?
    ensures var at := if wait > 0.0 then now + wait else now;
      EnterResource(configs, limits, store, resourceName, requestType, now, oldestLookup)
      == Success(Admission(at, RecordKeys(limits, after, KeysFor(resourceName, Applicable(requestType).value), at)))
  {
  }

  /** The per-dimension usage report of `get_resource_status`, keyed by label. */
  function UsageMap(limits: Limits, store: Store, resourceName: string, cfg: ResourceConfig, now: real): (r: map<string, Usage>)
    ensures (forall d :: d != Custom ==> !Truthy(Ceiling(cfg, d))) ==> r == map[]
    ensures forall l :: l in r ==> r[l].current >= 0
  {
    var m1 := UsageEntry(map[], limits, store, resourceName, cfg, Rps, now);
    var m2 := UsageEntry(m1, limits, store, resourceName, cfg, Rpm, now);
    var m3 := UsageEntry(m2, limits, store, resourceName, cfg, Rph, now);
    var m4 := UsageEntry(m3, limits, store, resourceName, cfg, Tps, now);
    UsageEntry(m4, limits, store, resourceName, cfg, Tpm, now)
  }

  function UsageEntry(m: map<string, Usage>, limits: Limits, store: Store, resourceName: string,
                      cfg: ResourceConfig, d: Dimension, now: real): (r: map<string, Usage>)
    requires d != Custom
  {
    if Truthy(Ceiling(cfg, d)) then m[Label(d) := UsageOf(limits, store, TrackedKey(resourceName, d), now)] else m
  }

  /** A sweep over distinct keys touches only the configured keys it visits. */
  lemma {:induction false} DecideKeysHistories(limits: Limits, store: Store, keys: seq<string>, now: real, oldestLookup: bool)
    requires Distinct(keys)
    ensures forall k :: History(DecideKeys(limits, store, keys, now, oldestLookup).store, k) ==
                        if k in keys && k in limits then History(Decide(limits, store, k, now, oldestLookup).store, k)
                        else History(store, k)
    decreases |keys|
  {
    if keys != [] {
      var prefix := keys[..|keys| - 1];
      var key := keys[|keys| - 1];
      DecideKeysHistories(limits, store, prefix, now, oldestLookup);
      var prior := DecideKeys(limits, store, prefix, now, oldestLookup);
      assert key !in prefix;
      assert forall k :: k in keys <==> k in prefix || k == key;
      if key in limits {
        DecideIsLocal(limits, prior.store, store, key, now, oldestLookup);
      }
    }
  }

  /** A sweep over distinct keys collects the waits each key would get on its own. */
  lemma {:induction false} DecideKeysWaits(limits: Limits, store: Store, keys: seq<string>, now: real, oldestLookup: bool)
    requires Distinct(keys)
    ensures DecideKeys(limits, store, keys, now, oldestLookup).waits == IndependentWaits(limits, store, keys, now, oldestLookup)
    decreases |keys|
  {
    if keys != [] {
      var prefix := keys[..|keys| - 1];
      var key := keys[|keys| - 1];
      DecideKeysWaits(limits, store, prefix, now, oldestLookup);
      DecideKeysHistories(limits, store, prefix, now, oldestLookup);
      var prior := DecideKeys(limits, store, prefix, now, oldestLookup);
      assert key !in prefix;
      if key in limits {
        DecideIsLocal(limits, prior.store, store, key, now, oldestLookup);
      }
    }
  }

  /**
   * Deciding distinct keys one after another is deciding each against the
   * starting store: the same waits, and only the configured visited keys change.
   */
  lemma DecideKeysIndependent(limits: Limits, store: Store, keys: seq<string>, now: real, oldestLookup: bool)
    requires Distinct(keys)
    ensures DecideKeys(limits, store, keys, now, oldestLookup).waits == IndependentWaits(limits, store, keys, now, oldestLookup)
    ensures forall k :: History(DecideKeys(limits, store, keys, now, oldestLookup).store, k) ==
                        if k in keys && k in limits then History(Decide(limits, store, k, now, oldestLookup).store, k)
                        else History(store, k)
  {
    DecideKeysWaits(limits, store, keys, now, oldestLookup);
    DecideKeysHistories(limits, store, keys, now, oldestLookup);
  }

  lemma {:induction false} IndependentWaitsMembers(limits: Limits, store: Store, keys: seq<string>, now: real, oldestLookup: bool)
    ensures forall i :: 0 <= i < |keys| && keys[i] in limits ==>
      Decide(limits, store, keys[i], now, oldestLookup).wait in IndependentWaits(limits, store, keys, now, oldestLookup)
    ensures forall w :: w in IndependentWaits(limits, store, keys, now, oldestLookup) ==>
      exists i :: 0 <= i < |keys| && keys[i] in limits && w == Decide(limits, store, keys[i], now, oldestLookup).wait
    decreases |keys|
  {
    if keys != [] {
      var prefix := keys[..|keys| - 1];
      IndependentWaitsMembers(limits, store, prefix, now, oldestLookup);
      forall w | w in IndependentWaits(limits, store, keys, now, oldestLookup)
        ensures exists i :: 0 <= i < |keys| && keys[i] in limits && w == Decide(limits, store, keys[i], now, oldestLookup).wait
      {
        if w in IndependentWaits(limits, store, prefix, now, oldestLookup) {
          var i :| 0 <= i < |prefix| && prefix[i] in limits && w == Decide(limits, store, prefix[i], now, oldestLookup).wait;
          assert keys[i] == prefix[i];
        } else {
          assert keys[|keys| - 1] in limits && w == Decide(limits, store, keys[|keys| - 1], now, oldestLookup).wait;
        }
      }
    }
  }

  /** Decisions keep every list sorted. */
  lemma {:induction false} DecideKeysSorted(limits: Limits, store: Store, keys: seq<string>, now: real, oldestLookup: bool)
    requires AllSorted(store)
    ensures AllSorted(DecideKeys(limits, store, keys, now, oldestLookup).store)
    decreases |keys|
  {
    if keys != [] {
      var prefix := keys[..|keys| - 1];
      DecideKeysSorted(limits, store, prefix, now, oldestLookup);
      var key := keys[|keys| - 1];
      if key in limits {
        DecideEffect(limits, DecideKeys(limits, store, prefix, now, oldestLookup).store, key, now, oldestLookup);
      }
    }
  }

  /**
   * For a configured resource and a valid request type, the resource's
   * wait is the largest of the waits its configured applicable keys would
   * each report on their own (0 when none is configured), so it is at least
   * each of them; each such key is pruned or left alone exactly as its own
   * decision would, and every other key is untouched. With an
   * oldest-timestamp lookup the wait is never negative.
   */
  lemma ResourceWaitIsMaxOfKeyWaits(configs: map<string, ResourceConfig>, limits: Limits, store: Store,
                                    resourceName: string, requestType: string, now: real, oldestLookup: bool)
    requires resourceName in configs && Applicable(requestType).Some?
    ensures var r := DecideResource(configs, limits, store, resourceName, requestType, now, oldestLookup);
      var keys := KeysFor(resourceName, Applicable(requestType).value);
      && r.Success?
      && (forall i :: 0 <= i < |keys| && keys[i] in limits ==>
            Decide(limits, store, keys[i], now, oldestLookup).wait <= r.value.wait)
      && (r.value.wait == 0.0 ||
          exists i :: 0 <= i < |keys| && keys[i] in limits && r.value.wait == Decide(limits, store, keys[i], now, oldestLookup).wait)
      && (forall k :: History(r.value.store, k) ==
            if k in keys && k in limits then History(Decide(limits, store, k, now, oldestLookup).store, k) else History(store, k))
      && (oldestLookup && AllSorted(store) ==> r.value.wait >= 0.0)
  {
    var keys := KeysFor(resourceName, Applicable(requestType).value);
    ApplicableKeysDistinct(resourceName, requestType);
    DecideKeysIndependent(limits, store, keys, now, oldestLookup);
    IndependentWaitsMembers(limits, store, keys, now, oldestLookup);
    var waits := IndependentWaits(limits, store, keys, now, oldestLookup);
    assert DecideResource(configs, limits, store, resourceName, requestType, now, oldestLookup).value.wait == MaxOrZero(waits);
    if oldestLookup && AllSorted(store) && waits != [] {
      assert MaxOf(waits) in waits;
      var i :| 0 <= i < |keys| && keys[i] in limits && MaxOf(waits) == Decide(limits, store, keys[i], now, oldestLookup).wait;
    }
  }

  /** Once a key refuses, the rest of the sweep changes nothing. */
  lemma {:induction false} TryKeysStopsAtRefusal(limits: Limits, store: Store, keys: seq<string>, j: nat, now: real, oldestLookup: bool)
    requires j <= |keys|
    requires !TryKeys(limits, store, keys[..j], now, oldestLookup).ok
    ensures TryKeys(limits, store, keys, now, oldestLookup) == TryKeys(limits, store, keys[..j], now, oldestLookup)
    decreases |keys|
  {
    if j < |keys| {
      var prefix := keys[..|keys| - 1];
      assert prefix[..j] == keys[..j];
      TryKeysStopsAtRefusal(limits, store, prefix, j, now, oldestLookup);
    } else {
      assert keys[..j] == keys;
    }
  }

  /**
   * Key `b` is the first refusing key of the sweep: every configured key
   * before it was admitted and recorded as on its own, and `b` and every
   * later key are untouched.
   */
  ghost predicate RefusedAt(limits: Limits, store: Store, keys: seq<string>, now: real, oldestLookup: bool, b: int, after: Store) {
    && 0 <= b < |keys|
    && keys[b] in limits
    && !TryAdmit(limits, store, keys[b], now, oldestLookup).ok
    && (forall i :: 0 <= i < b && keys[i] in limits ==>
          TryAdmit(limits, store, keys[i], now, oldestLookup).ok &&
          History(after, keys[i]) == History(TryAdmit(limits, store, keys[i], now, oldestLookup).store, keys[i]))
    && (forall i :: b <= i < |keys| ==> History(after, keys[i]) == History(store, keys[i]))
  }

  /** The sweep of `try_acquire` never touches a key outside the sweep or an unconfigured key. */
  lemma {:induction false} TryKeysFrame(limits: Limits, store: Store, keys: seq<string>, now: real, oldestLookup: bool)
    ensures forall k :: k !in keys || k !in limits ==>
      History(TryKeys(limits, store, keys, now, oldestLookup).store, k) == History(store, k)
    decreases |keys|
  {
    if keys != [] {
      var prefix := keys[..|keys| - 1];
      var key := keys[|keys| - 1];
      TryKeysFrame(limits, store, prefix, now, oldestLookup);
      assert forall k :: k in prefix ==> k in keys;
      var prior := TryKeys(limits, store, prefix, now, oldestLookup);
      TryAdmitIsLocal(limits, prior.store, prior.store, key, now, oldestLookup);
    }
  }

  /** A refusal found in a prefix of the sweep stays the first refusal when a key untouched so far follows. */
  lemma RefusedAtExtends(limits: Limits, store: Store, prefix: seq<string>, key: string, now: real, oldestLookup: bool,
                         b: int, after: Store)
    requires RefusedAt(limits, store, prefix, now, oldestLookup, b, after)
    requires History(after, key) == History(store, key)
    ensures RefusedAt(limits, store, prefix + [key], now, oldestLookup, b, after)
  {
    var keys := prefix + [key];
    assert forall i :: 0 <= i < |prefix| ==> keys[i] == prefix[i];
  }

  /**
   * One more configured key after a successful prefix: either it is
   * admitted as on its own, or it is the first refusal.
   */
  lemma AdmittedExtends(limits: Limits, store: Store, prefix: seq<string>, key: string, now: real, oldestLookup: bool,
                        after: Store)
    requires key in limits && key !in prefix
    requires History(after, key) == History(store, key)
    requires forall i :: 0 <= i < |prefix| && prefix[i] in limits ==>
      TryAdmit(limits, store, prefix[i], now, oldestLookup).ok &&
      History(after, prefix[i]) == History(TryAdmit(limits, store, prefix[i], now, oldestLookup).store, prefix[i])
    ensures var a := TryAdmit(limits, after, key, now, oldestLookup); var keys := prefix + [key];
      && (a.ok ==> forall i :: 0 <= i < |keys| && keys[i] in limits ==>
            TryAdmit(limits, store, keys[i], now, oldestLookup).ok &&
            History(a.store, keys[i]) == History(TryAdmit(limits, store, keys[i], now, oldestLookup).store, keys[i]))
      && (!a.ok ==> RefusedAt(limits, store, keys, now, oldestLookup, |prefix|, a.store))
  {
    var keys := prefix + [key];
    assert forall i :: 0 <= i < |prefix| ==> keys[i] == prefix[i] && prefix[i] != key;
    TryAdmitIsLocal(limits, after, store, key, now, oldestLookup);
    TryAdmitIsLocal(limits, store, after, key, now, oldestLookup);
  }

  /** A successful sweep admitted and recorded every configured key as on its own. */
  lemma {:induction false} TryKeysSuccess(limits: Limits, store: Store, keys: seq<string>, now: real, oldestLookup: bool)
    requires Distinct(keys)
    ensures var a := TryKeys(limits, store, keys, now, oldestLookup);
      a.ok ==> forall i :: 0 <= i < |keys| && keys[i] in limits ==>
        TryAdmit(limits, store, keys[i], now, oldestLookup).ok &&
        History(a.store, keys[i]) == History(TryAdmit(limits, store, keys[i], now, oldestLookup).store, keys[i])
    decreases |keys|
  {
    if keys != [] {
      var prefix := keys[..|keys| - 1];
      var key := keys[|keys| - 1];
      assert keys == prefix + [key];
      assert key !in prefix;
      TryKeysFrame(limits, store, prefix, now, oldestLookup);
      TryKeysSuccess(limits, store, prefix, now, oldestLookup);
      var prior := TryKeys(limits, store, prefix, now, oldestLookup);
      if prior.ok && key in limits {
        AdmittedExtends(limits, store, prefix, key, now, oldestLookup, prior.store);
      } else {
        assert forall i :: 0 <= i < |prefix| ==> keys[i] == prefix[i];
      }
    }
  }

  /** A failed sweep has a first refusing key. */
  lemma {:induction false} TryKeysFailure(limits: Limits, store: Store, keys: seq<string>, now: real, oldestLookup: bool)
    requires Distinct(keys)
    ensures var a := TryKeys(limits, store, keys, now, oldestLookup);
      !a.ok ==> exists b :: RefusedAt(limits, store, keys, now, oldestLookup, b, a.store)
    decreases |keys|
  {
    if keys != [] {
      var prefix := keys[..|keys| - 1];
      var key := keys[|keys| - 1];
      assert keys == prefix + [key];
      assert key !in prefix;
      TryKeysFrame(limits, store, prefix, now, oldestLookup);
      var prior := TryKeys(limits, store, prefix, now, oldestLookup);
      if !prior.ok {
        TryKeysFailure(limits, store, prefix, now, oldestLookup);
        var b :| RefusedAt(limits, store, prefix, now, oldestLookup, b, prior.store);
        RefusedAtExtends(limits, store, prefix, key, now, oldestLookup, b, prior.store);
      } else if key in limits {
        TryKeysSuccess(limits, store, prefix, now, oldestLookup);
        AdmittedExtends(limits, store, prefix, key, now, oldestLookup, prior.store);
      }
    }
  }

  /**
   * The sweep of `try_acquire` over distinct keys: when it succeeds every
   * configured key was admitted and recorded as on its own; when it fails
   * there is a first refusing key, the keys before it keep their records,
   * and it and the later keys are untouched. Keys outside the sweep and
   * unconfigured keys are never touched.
   */
  lemma TryKeysPartialRecords(limits: Limits, store: Store, keys: seq<string>, now: real, oldestLookup: bool)
    requires Distinct(keys)
    ensures var a := TryKeys(limits, store, keys, now, oldestLookup);
      && (forall k :: k !in keys || k !in limits ==> History(a.store, k) == History(store, k))
      && (a.ok ==> forall i :: 0 <= i < |keys| && keys[i] in limits ==>
            TryAdmit(limits, store, keys[i], now, oldestLookup).ok &&
            History(a.store, keys[i]) == History(TryAdmit(limits, store, keys[i], now, oldestLookup).store, keys[i]))
      && (!a.ok ==> exists b :: RefusedAt(limits, store, keys, now, oldestLookup, b, a.store))
  {
    TryKeysFrame(limits, store, keys, now, oldestLookup);
    TryKeysSuccess(limits, store, keys, now, oldestLookup);
    TryKeysFailure(limits, store, keys, now, oldestLookup);
  }

  /** Recording over distinct keys adds `t` once to each configured key and nothing elsewhere. */
  lemma {:induction false} RecordKeysEach(limits: Limits, store: Store, keys: seq<string>, t: real)
    requires Distinct(keys) && AllSorted(store)
    ensures AllSorted(RecordKeys(limits, store, keys, t))
    ensures forall k :: History(RecordKeys(limits, store, keys, t), k) ==
                        if k in keys && k in limits then InsertSorted(History(store, k), t) else History(store, k)
    decreases |keys|
  {
    if keys != [] {
      var prefix := keys[..|keys| - 1];
      var key := keys[|keys| - 1];
      RecordKeysEach(limits, store, prefix, t);
      assert key !in prefix;
      assert forall k :: k in keys <==> k in prefix || k == key;
      if key in limits {
        RecordedAddsOne(RecordKeys(limits, store, prefix, t), key, t);
      }
    }
  }

  /**
   * Entering the scoped context of a configured resource records the same
   * clock reading, taken after the wait, exactly once into every
   * configured applicable key, whichever key produced the wait, and
   * nothing elsewhere.
   */
  lemma EnterRecordsEveryApplicableKey(configs: map<string, ResourceConfig>, limits: Limits, store: Store,
                                       resourceName: string, requestType: string, now: real, oldestLookup: bool)
    requires AllSorted(store)
    requires resourceName in configs && Applicable(requestType).Some?
    ensures var d := DecideResource(configs, limits, store, resourceName, requestType, now, oldestLookup);
      var e := EnterResource(configs, limits, store, resourceName, requestType, now, oldestLookup);
      var keys := KeysFor(resourceName, Applicable(requestType).value);
      && d.Success? && e.Success?
      && e.value.at == (if d.value.wait > 0.0 then now + d.value.wait else now)
      && e.value.at >= now
      && AllSorted(e.value.store)
      && (forall k :: History(e.value.store, k) ==
            if k in keys && k in limits then InsertSorted(History(d.value.store, k), e.value.at) else History(d.value.store, k))
  {
    var keys := KeysFor(resourceName, Applicable(requestType).value);
    ApplicableKeysDistinct(resourceName, requestType);
    DecideKeysSorted(limits, store, keys, now, oldestLookup);
    var d := DecideResource(configs, limits, store, resourceName, requestType, now, oldestLookup);
    var at := if d.value.wait > 0.0 then now + d.value.wait else now;
    RecordKeysEach(limits, d.value.store, keys, at);
  }

  /** The five status labels are pairwise distinct. */
  lemma LabelsDistinct(d1: Dimension, d2: Dimension)
    requires d1 != Custom && d2 != Custom && d1 != d2
    ensures Label(d1) != Label(d2)
  {
    if Label(d1)[0] == Label(d2)[0] {
      if Label(d1)[0] == 'r' {
        assert Label(d1)[13] != Label(d2)[13];
      } else {
        assert Label(d1)[11] != Label(d2)[11];
      }
    }
  }

  /**
   * The usage report lists exactly the dimensions whose stored ceiling is
   * truthy, each with the usage of that dimension's key.
   */
  lemma UsageListsTruthyCeilings(limits: Limits, store: Store, resourceName: string, cfg: ResourceConfig, now: real)
    ensures var m := UsageMap(limits, store, resourceName, cfg, now);
      && (forall d :: d != Custom ==> (Label(d) in m <==> Truthy(Ceiling(cfg, d))))
      && (forall d :: d != Custom && Label(d) in m ==> m[Label(d)] == UsageOf(limits, store, TrackedKey(resourceName, d), now))
      && (forall l :: l in m ==> exists d :: d != Custom && l == Label(d))
  {
    var m := UsageMap(limits, store, resourceName, cfg, now);
    var m1 := UsageEntry(map[], limits, store, resourceName, cfg, Rps, now);
    var m2 := UsageEntry(m1, limits, store, resourceName, cfg, Rpm, now);
    var m3 := UsageEntry(m2, limits, store, resourceName, cfg, Rph, now);
    var m4 := UsageEntry(m3, limits, store, resourceName, cfg, Tps, now);
    assert m == UsageEntry(m4, limits, store, resourceName, cfg, Tpm, now);
    forall d | d != Custom
      ensures Label(d) in m <==> Truthy(Ceiling(cfg, d))
      ensures Label(d) in m ==> m[Label(d)] == UsageOf(limits, store, TrackedKey(resourceName, d), now)
    {
      forall e | e != Custom && e != d ensures Label(e) != Label(d) {
        LabelsDistinct(e, d);
      }
    }
    forall l | l in m ensures exists d :: d != Custom && l == Label(d) {
      if l == Label(Rps) {} else if l == Label(Rpm) {} else if l == Label(Rph) {} else if l == Label(Tps) {} else {
        assert l == Label(Tpm);
      }
    }
  }

  /**
   * A resource that was never configured is unlimited whatever the request
   * type, even one that is neither "requests" nor "tokens": the waits are 0,
   * attempts succeed and nothing is recorded.
   */
  lemma UnknownResourceIsUnlimited(configs: map<string, ResourceConfig>, limits: Limits, store: Store,
                                   resourceName: string, requestType: string, now: real, oldestLookup: bool)
    requires resourceName !in configs
    ensures DecideResource(configs, limits, store, resourceName, requestType, now, oldestLookup) == Success(Decision(0.0, store))
    ensures TryResource(configs, limits, store, resourceName, requestType, now, oldestLookup) == Success(Attempt(true, store))
    ensures EnterResource(configs, limits, store, resourceName, requestType, now, oldestLookup) == Success(Admission(now, store))
  {
  }

  /**
   * A configured resource with a request type other than "requests" and
   * "tokens" is rejected by every operation, and nothing is changed.
   */
  lemma InvalidRequestTypeRejected(configs: map<string, ResourceConfig>, limits: Limits, store: Store,
                                   resourceName: string, requestType: string, now: real, oldestLookup: bool)
    requires resourceName in configs
    ensures Applicable(requestType).None? <==> requestType != "requests" && requestType != "tokens"
    ensures requestType != "requests" && requestType != "tokens" ==>
      && DecideResource(configs, limits, store, resourceName, requestType, now, oldestLookup) == Failure(InvalidRequestType)
      && TryResource(configs, limits, store, resourceName, requestType, now, oldestLookup) == Failure(InvalidRequestType)
      && EnterResource(configs, limits, store, resourceName, requestType, now, oldestLookup) == Failure(InvalidRequestType)
  {
  }

  /** A decision sweep never changes any key's usage: pruning keeps the window count. */
  lemma {:induction false} DecideKeysKeepsUsage(limits: Limits, store: Store, keys: seq<string>, now: real, oldestLookup: bool)
    requires AllSorted(store)
    ensures forall k :: UsageOf(limits, DecideKeys(limits, store, keys, now, oldestLookup).store, k, now) == UsageOf(limits, store, k, now)
    decreases |keys|
  {
    if keys != [] {
      var prefix := keys[..|keys| - 1];
      var key := keys[|keys| - 1];
      DecideKeysKeepsUsage(limits, store, prefix, now, oldestLookup);
      DecideKeysSorted(limits, store, prefix, now, oldestLookup);
      if key in limits {
        DecideEffect(limits, DecideKeys(limits, store, prefix, now, oldestLookup).store, key, now, oldestLookup);
      }
    }
  }

  /** The status dictionary of a configured resource; `None` fields are keys the dictionary lacks. */
  datatype Status = Status(
    resourceName: string,
    configuration: ResourceConfig,
    sleepTimeRequests: Option<real>,
    sleepTimeTokens: Option<real>,
    currentUsage: Option<map<string, Usage>>)

  /** The answer of `get_resource_status` (`None` for `{}`) and the store it leaves. */
  datatype Report = Report(status: Option<Status>, store: Store)

  /**
   * `get_resource_status(resource)` at `now`: the "requests" wait, then the
   * "tokens" wait on the store the first left, each kept only when it does
   * not raise, then the usage of every truthy ceiling.
   */
  function StatusOf(configs: map<string, ResourceConfig>, limits: Limits, store: Store,
                    resourceName: string, now: real, oldestLookup: bool): (r: Report)
    ensures r.status.Some? <==> resourceName in configs
    ensures r.status.Some? ==> r.status.value.resourceName == resourceName
    ensures r.status.Some? ==> r.status.value.sleepTimeRequests.Some? && r.status.value.sleepTimeTokens.Some?
  {
    if resourceName !in configs then Report(None, store)
    else
      var req := DecideResource(configs, limits, store, resourceName, "requests", now, oldestLookup);
      var s1 := if req.Success? then req.value.store else store;
      var tok := DecideResource(configs, limits, s1, resourceName, "tokens", now, oldestLookup);
      var s2 := if tok.Success? then tok.value.store else s1;
      var usage := UsageMap(limits, s2, resourceName, configs[resourceName], now);
      Report(Some(Status(resourceName, configs[resourceName],
                         if req.Success? then Some(req.value.wait) else None,
                         if tok.Success? then Some(tok.value.wait) else None,
                         if usage == map[] then None else Some(usage))), s2)
  }

  /** The usage report reads the store through `UsageOf` only. */
  lemma UsageMapReadsUsage(limits: Limits, s1: Store, s2: Store, resourceName: string, cfg: ResourceConfig, now: real)
    requires forall k :: UsageOf(limits, s1, k, now) == UsageOf(limits, s2, k, now)
    ensures UsageMap(limits, s1, resourceName, cfg, now) == UsageMap(limits, s2, resourceName, cfg, now)
  {
  }

  /** Both status sweeps keep every list sorted and every key's usage. */
  lemma StatusSweepsKeepUsage(configs: map<string, ResourceConfig>, limits: Limits, store: Store,
                              resourceName: string, now: real, oldestLookup: bool)
    requires AllSorted(store) && resourceName in configs
    ensures var req := DecideResource(configs, limits, store, resourceName, "requests", now, oldestLookup);
      var tok := DecideResource(configs, limits, req.value.store, resourceName, "tokens", now, oldestLookup);
      && req.Success? && tok.Success?
      && AllSorted(tok.value.store)
      && forall k :: UsageOf(limits, tok.value.store, k, now) == UsageOf(limits, store, k, now)
  {
    var reqKeys := KeysFor(resourceName, [Rps, Rpm, Rph, Custom]);
    var tokKeys := KeysFor(resourceName, [Tps, Tpm, Custom]);
    DecideKeysSorted(limits, store, reqKeys, now, oldestLookup);
    DecideKeysKeepsUsage(limits, store, reqKeys, now, oldestLookup);
    var s1 := DecideKeys(limits, store, reqKeys, now, oldestLookup).store;
    DecideKeysSorted(limits, s1, tokKeys, now, oldestLookup);
    DecideKeysKeepsUsage(limits, s1, tokKeys, now, oldestLookup);
  }

  /** `StatusOf` assembled from the two sweeps' outcomes, the shape of the status method. */
  lemma StatusOfParts(configs: map<string, ResourceConfig>, limits: Limits, s0: Store, s1: Store, s2: Store,
                      resourceName: string, now: real, oldestLookup: bool, req: Option<real>, tok: Option<real>)
    requires resourceName in configs
    requires var d := DecideResource(configs, limits, s0, resourceName, "requests", now, oldestLookup);
      (d.Success? ==> req == Some(d.value.wait) && s1 == d.value.store) && (d.Failure? ==> req == None && s1 == s0)
    requires var d := DecideResource(configs, limits, s1, resourceName, "tokens", now, oldestLookup);
      (d.Success? ==> tok == Some(d.value.wait) && s2 == d.value.store) && (d.Failure? ==> tok == None && s2 == s1)
    ensures var usage := UsageMap(limits, s2, resourceName, configs[resourceName], now);
      StatusOf(configs, limits, s0, resourceName, now, oldestLookup) ==
      Report(Some(Status(resourceName, configs[resourceName], req, tok, if usage == map[] then None else Some(usage))), s2)
  {
  }

  /** Keys whose decisions wait alike give the same list of waits. */
  lemma {:induction false} IndependentWaitsAgree(limits: Limits, s1: Store, s2: Store, keys: seq<string>, now: real, oldestLookup: bool)
    requires forall k :: k in keys && k in limits ==>
      Decide(limits, s1, k, now, oldestLookup).wait == Decide(limits, s2, k, now, oldestLookup).wait
    ensures IndependentWaits(limits, s1, keys, now, oldestLookup) == IndependentWaits(limits, s2, keys, now, oldestLookup)
    decreases |keys|
  {
    if keys != [] {
      var prefix := keys[..|keys| - 1];
      assert forall k :: k in prefix ==> k in keys;
      assert keys[|keys| - 1] in keys;
      IndependentWaitsAgree(limits, s1, s2, prefix, now, oldestLookup);
    }
  }

  /**
   * The "requests" sweep leaves every "tokens" key deciding the same wait:
   * a key the sweep did not decide keeps its list, and a key it decided
   * (`custom`, shared by both request types) holds the list its own
   * decision left, which decides the same wait again.
   */
  lemma RequestSweepKeepsTokenWaits(limits: Limits, store: Store, resourceName: string, now: real, oldestLookup: bool)
    requires AllSorted(store)
    ensures var s1 := DecideKeys(limits, store, KeysFor(resourceName, [Rps, Rpm, Rph, Custom]), now, oldestLookup).store;
      forall k :: k in KeysFor(resourceName, [Tps, Tpm, Custom]) && k in limits ==>
        Decide(limits, s1, k, now, oldestLookup).wait == Decide(limits, store, k, now, oldestLookup).wait
  {
    var reqKeys := KeysFor(resourceName, [Rps, Rpm, Rph, Custom]);
    var tokKeys := KeysFor(resourceName, [Tps, Tpm, Custom]);
    ApplicableKeysDistinct(resourceName, "requests");
    DecideKeysHistories(limits, store, reqKeys, now, oldestLookup);
    var s1 := DecideKeys(limits, store, reqKeys, now, oldestLookup).store;
    forall k | k in tokKeys && k in limits
      ensures Decide(limits, s1, k, now, oldestLookup).wait == Decide(limits, store, k, now, oldestLookup).wait
    {
      SweptKeyKeepsWait(limits, store, s1, k, now, oldestLookup);
    }
  }

  /**
   * A key's wait is the same on a store where its list is untouched and on
   * one where its own decision already pruned it.
   */
  lemma SweptKeyKeepsWait(limits: Limits, store: Store, swept: Store, key: string, now: real, oldestLookup: bool)
    requires AllSorted(store)
    requires History(swept, key) == History(store, key) ||
             History(swept, key) == History(Decide(limits, store, key, now, oldestLookup).store, key)
    ensures Decide(limits, swept, key, now, oldestLookup).wait == Decide(limits, store, key, now, oldestLookup).wait
  {
    if History(swept, key) == History(store, key) {
      DecideIsLocal(limits, swept, store, key, now, oldestLookup);
    } else {
      var d := Decide(limits, store, key, now, oldestLookup);
      DecideIdempotent(limits, store, key, now, oldestLookup);
      DecideIsLocal(limits, swept, d.store, key, now, oldestLookup);
    }
  }

  /**
   * The "tokens" wait taken after the "requests" sweep is the wait the
   * resource would report for "tokens" on the store as it was.
   */
  lemma TokensWaitAfterRequests(configs: map<string, ResourceConfig>, limits: Limits, store: Store,
                                resourceName: string, now: real, oldestLookup: bool)
    requires AllSorted(store) && resourceName in configs
    ensures var req := DecideResource(configs, limits, store, resourceName, "requests", now, oldestLookup);
      DecideResource(configs, limits, req.value.store, resourceName, "tokens", now, oldestLookup).value.wait
      == DecideResource(configs, limits, store, resourceName, "tokens", now, oldestLookup).value.wait
  {
    var reqKeys := KeysFor(resourceName, [Rps, Rpm, Rph, Custom]);
    var tokKeys := KeysFor(resourceName, [Tps, Tpm, Custom]);
    var s1 := DecideKeys(limits, store, reqKeys, now, oldestLookup).store;
    assert DecideResource(configs, limits, store, resourceName, "requests", now, oldestLookup).value.store == s1;
    RequestSweepKeepsTokenWaits(limits, store, resourceName, now, oldestLookup);
    ApplicableKeysDistinct(resourceName, "tokens");
    DecideKeysIndependent(limits, s1, tokKeys, now, oldestLookup);
    DecideKeysIndependent(limits, store, tokKeys, now, oldestLookup);
    IndependentWaitsAgree(limits, s1, store, tokKeys, now, oldestLookup);
    assert DecideResource(configs, limits, s1, resourceName, "tokens", now, oldestLookup).value.wait
        == MaxOrZero(IndependentWaits(limits, s1, tokKeys, now, oldestLookup));
    assert DecideResource(configs, limits, store, resourceName, "tokens", now, oldestLookup).value.wait
        == MaxOrZero(IndependentWaits(limits, store, tokKeys, now, oldestLookup));
  }

  /**
   * The status of an unknown resource is empty and changes nothing. The
   * status of a configured resource always carries both waits (the guarded
   * calls never raise), the "requests" one being the resource's own wait;
   * it carries a usage entry exactly for each truthy ceiling, holding that
   * key's usage as it was before the call (the pruning the waits do never
   * changes a count), and no usage at all when no ceiling is truthy.
   */
  lemma StatusReportsCurrentUsage(configs: map<string, ResourceConfig>, limits: Limits, store: Store,
                                  resourceName: string, now: real, oldestLookup: bool)
    requires AllSorted(store)
    ensures var rep := StatusOf(configs, limits, store, resourceName, now, oldestLookup);
      && (rep.status.None? <==> resourceName !in configs)
      && (resourceName !in configs ==> rep.store == store)
      && AllSorted(rep.store)
      && (resourceName in configs ==>
            var st := rep.status.value;
            var cfg := configs[resourceName];
            && st.resourceName == resourceName && st.configuration == cfg
            && st.sleepTimeRequests == Some(DecideResource(configs, limits, store, resourceName, "requests", now, oldestLookup).value.wait)
            && st.sleepTimeTokens == Some(DecideResource(configs, limits, store, resourceName, "tokens", now, oldestLookup).value.wait)
            && (var u := UsageMap(limits, store, resourceName, cfg, now);
                st.currentUsage == if u == map[] then None else Some(u))
            && (st.currentUsage.None? <==> forall d :: d != Custom ==> !Truthy(Ceiling(cfg, d)))
            && (forall d :: d != Custom && Truthy(Ceiling(cfg, d)) ==>
                  st.currentUsage.Some? && Label(d) in st.currentUsage.value &&
                  st.currentUsage.value[Label(d)] == UsageOf(limits, store, TrackedKey(resourceName, d), now)))
  {
    if resourceName in configs {
      var cfg := configs[resourceName];
      StatusSweepsKeepUsage(configs, limits, store, resourceName, now, oldestLookup);
      var req := DecideResource(configs, limits, store, resourceName, "requests", now, oldestLookup);
      var tok := DecideResource(configs, limits, req.value.store, resourceName, "tokens", now, oldestLookup);
      UsageMapReadsUsage(limits, tok.value.store, store, resourceName, cfg, now);
      TokensWaitAfterRequests(configs, limits, store, resourceName, now, oldestLookup);
      UsageListsTruthyCeilings(limits, store, resourceName, cfg, now);
      var usage := UsageMap(limits, store, resourceName, cfg, now);
      var rep := StatusOf(configs, limits, store, resourceName, now, oldestLookup);
      assert rep == Report(Some(Status(resourceName, cfg, Some(req.value.wait), Some(tok.value.wait),
                                       if usage == map[] then None else Some(usage))), tok.value.store);
      if forall d :: d != Custom ==> !Truthy(Ceiling(cfg, d)) {
        assert usage == map[];
      } else {
        var d :| d != Custom && Truthy(Ceiling(cfg, d));
        assert Label(d) in usage;
      }
    }
  }
}
