/**
 The distributed circuit breaker. Its state is a Redis hash whose fields may each be absent, with one expiry for
 the whole hash. The class below works command by command on that hash; the specification is a machine with four
 states, in which only the fields that can still influence an answer survive.
 */
module CircuitBreaker {
  import opened Wrappers

  datatype Mode = CLOSED | OPEN | HALF_OPEN

  datatype Config = Config(
    enabled: bool, timeoutThreshold: int, timeoutWindowSeconds: int, openSeconds: int, halfOpenSuccessThreshold: int)

  function TtlMs(c: Config): int {
    Max(Max(c.timeoutWindowSeconds, c.openSeconds), 1) * 2 * 1000
  }

  /** The number of failures, or of probe successes, that a threshold asks for: never less than one. */
  function AtLeastOne(threshold: int): int {
    Max(threshold, 1)
  }

  datatype Decision = Decision(allowed: bool, mode: Mode)

  // ---------------------------------------------------------------- the four-state machine

  datatype Breaker =
    | Absent
    | Closed(failures: int, lastMs: int, expiresAt: int)
    | Open(failures: int, lastMs: int, untilMs: int, expiresAt: int)
    | HalfOpen(requests: int, successes: int, expiresAt: int)

  /** What Redis still shows of `b` at `now`. */
  function Live(b: Breaker, now: int): Breaker {
    if b.Absent? || now < b.expiresAt then b else Absent
  }

  /** `failures or timeout_threshold`. */
  function OrThreshold(c: Config, failures: int): int {
    if failures == 0 then c.timeoutThreshold else failures
  }

  function Opened(c: Config, failures: int, now: int): Breaker {
    Open(OrThreshold(c, failures), now, now + c.openSeconds * 1000, now + TtlMs(c))
  }

  function Allow(c: Config, b: Breaker, now: int): (Breaker, Decision) {
    if !c.enabled then (b, Decision(true, CLOSED))
    else
      match Live(b, now)
      case Absent => (Absent, Decision(true, CLOSED))
      case Closed(_, _, _) => (b, Decision(true, CLOSED))
      case Open(_, _, until, _) =>
        if now < until then (b, Decision(false, OPEN))
        else (HalfOpen(1, 0, now + TtlMs(c)), Decision(true, HALF_OPEN))
      case HalfOpen(requests, successes, expiresAt) =>
        (HalfOpen(requests + 1, successes, expiresAt), Decision((requests + 1) % 2 == 1, HALF_OPEN))
  }

  function Counted(c: Config, failures: int, lastMs: int, now: int): Breaker {
    var count := if now - lastMs > c.timeoutWindowSeconds * 1000 then 1 else failures + 1;
    if count >= c.timeoutThreshold then Opened(c, count, now) else Closed(count, now, now + TtlMs(c))
  }

  function Failure(c: Config, b: Breaker, now: int): Breaker {
    if !c.enabled then b
    else
      match Live(b, now)
      case Absent => Absent
      case Closed(failures, lastMs, _) => Counted(c, failures, lastMs, now)
      case Open(failures, lastMs, _, _) => Counted(c, failures, lastMs, now)
      case HalfOpen(_, _, _) => Opened(c, c.timeoutThreshold, now)
  }

  function Success(c: Config, b: Breaker, now: int): Breaker {
    if !c.enabled then b
    else
      var live := Live(b, now);
      if live.HalfOpen? && live.successes + 1 < c.halfOpenSuccessThreshold
      then live.(successes := live.successes + 1)
      else Closed(0, 0, now + TtlMs(c))
  }

  // ---------------------------------------------------------------- the hash

  datatype Fields = Fields(
    mode: Option<Mode>,
    failureCount: Option<int>,
    lastTimeoutMs: Option<int>,
    openUntilMs: Option<int>,
    halfOpenRequests: Option<int>,
    halfOpenSuccesses: Option<int>)

  const NOTHING := Fields(None, None, None, None, None, None)

  function Merged<T>(current: Option<T>, written: Option<T>): Option<T> {
    if written.Some? then written else current
  }

  function Written(f: Fields, update: Fields): Fields {
    Fields(Merged(f.mode, update.mode),
           Merged(f.failureCount, update.failureCount),
           Merged(f.lastTimeoutMs, update.lastTimeoutMs),
           Merged(f.openUntilMs, update.openUntilMs),
           Merged(f.halfOpenRequests, update.halfOpenRequests),
           Merged(f.halfOpenSuccesses, update.halfOpenSuccesses))
  }

  /**
   Whole calls keep the hash in this shape: it is empty, or it has a mode, a failure count and a last-timeout
   time, OPEN has its deadline, and HALF_OPEN its two counters.
   */
  predicate WellFormed(f: Fields, expiresAt: Option<int>) {
    || (f == NOTHING && expiresAt.None?)
    || (&& f.mode.Some? && f.failureCount.Some? && f.lastTimeoutMs.Some? && expiresAt.Some?
        && (f.mode.value.OPEN? ==> f.openUntilMs.Some?)
        && (f.mode.value.HALF_OPEN? ==>
              f.halfOpenRequests.Some? && f.halfOpenSuccesses.Some?))
  }

  /** What a well-formed hash means. */
  function Meaning(f: Fields, expiresAt: Option<int>): Breaker
    requires WellFormed(f, expiresAt)
  {
    if f.mode.None? then Absent
    else
      match f.mode.value
      case CLOSED => Closed(f.failureCount.value, f.lastTimeoutMs.value, expiresAt.value)
      case OPEN => Open(f.failureCount.value, f.lastTimeoutMs.value, f.openUntilMs.value, expiresAt.value)
      case HALF_OPEN => HalfOpen(f.halfOpenRequests.value, f.halfOpenSuccesses.value, expiresAt.value)
  }

  /** One hash on the Redis server, with the shared clock in milliseconds. */
  class RedisHash {
    var now: int
    var fields: Fields
    var expiresAt: Option<int>

    constructor (now: int)
      ensures this.now == now && fields == NOTHING && expiresAt == None
    {
      this.now, fields, expiresAt := now, NOTHING, None;
    }

    ghost predicate Valid()
      reads this
    {
      WellFormed(fields, expiresAt)
    }

    ghost function State(): Breaker
      reads this
      requires Valid()
    {
      Meaning(fields, expiresAt)
    }

    /** Redis removes a key whose time has come before it serves any command on it. */
    method Touch()
      modifies this`fields, this`expiresAt
      ensures if old(expiresAt.Some? && expiresAt.value <= now) then fields == NOTHING && expiresAt == None
              else fields == old(fields) && expiresAt == old(expiresAt)
    {
      if expiresAt.Some? && expiresAt.value <= now {
        fields, expiresAt := NOTHING, None;
      }
    }

    method HSet(update: Fields)
      modifies this`fields, this`expiresAt
      ensures if old(expiresAt.Some? && expiresAt.value <= now) then fields == update && expiresAt == None
              else fields == Written(old(fields), update) && expiresAt == old(expiresAt)
    {
      Touch();
      fields := Written(fields, update);
    }

    method Expire(ttlMs: int)
      requires expiresAt.Some? ==> now < expiresAt.value
      modifies this`expiresAt
      ensures expiresAt == Some(now + ttlMs)
    {
      expiresAt := Some(now + ttlMs);
    }

    method HIncrRequests() returns (value: int)
      requires expiresAt.Some? ==> now < expiresAt.value
      modifies this`fields
      ensures value == (if old(fields).halfOpenRequests.None? then 0 else old(fields).halfOpenRequests.value) + 1
      ensures fields == old(fields).(halfOpenRequests := Some(value))
    {
      value := (if fields.halfOpenRequests.None? then 0 else fields.halfOpenRequests.value) + 1;
      fields := fields.(halfOpenRequests := Some(value));
    }

    method HIncrSuccesses() returns (value: int)
      requires expiresAt.Some? ==> now < expiresAt.value
      modifies this`fields
      ensures value == (if old(fields).halfOpenSuccesses.None? then 0 else old(fields).halfOpenSuccesses.value) + 1
      ensures fields == old(fields).(halfOpenSuccesses := Some(value))
    {
      value := (if fields.halfOpenSuccesses.None? then 0 else fields.halfOpenSuccesses.value) + 1;
      fields := fields.(halfOpenSuccesses := Some(value));
    }
  }

  class RedisCircuitBreaker {
    const config: Config
    const redis: RedisHash

    constructor (config: Config, redis: RedisHash)
      ensures this.config == config && this.redis == redis
    {
      this.config, this.redis := config, redis;
    }

    method HSetState(update: Fields)
      requires redis.expiresAt.Some? ==> redis.now < redis.expiresAt.value
      modifies redis`fields, redis`expiresAt
      ensures redis.fields == Written(old(redis.fields), update)
      ensures redis.expiresAt == Some(redis.now + TtlMs(config))
    {
      redis.HSet(update);
      redis.Expire(TtlMs(config));
    }

    /** `int(str(None))` raises, so an absent deadline would end in the handler; a well-formed hash has it. */
    method AllowRequest() returns (decision: Decision, swallowed: bool)
      requires redis.Valid()
      modifies redis`fields, redis`expiresAt
      ensures redis.Valid() && !swallowed
      ensures Live(redis.State(), redis.now) == Live(Allow(config, old(redis.State()), redis.now).0, redis.now)
      ensures decision == Allow(config, old(redis.State()), redis.now).1
    {
      swallowed := false;
      if !config.enabled {
        return Decision(true, CLOSED), false;
      }
      redis.Touch();
      var mode := if redis.fields.mode.Some? then redis.fields.mode.value else CLOSED;
      if mode == CLOSED {
        return Decision(true, CLOSED), false;
      }
      if mode == OPEN {
        if redis.fields.openUntilMs.None? {
          return Decision(true, CLOSED), true;
        }
        if redis.now < redis.fields.openUntilMs.value {
          return Decision(false, OPEN), false;
        }
        HSetState(NOTHING.(mode := Some(HALF_OPEN), halfOpenSuccesses := Some(0), halfOpenRequests := Some(0)));
        mode := HALF_OPEN;
      }
      var requestNumber := redis.HIncrRequests();
      decision := Decision(requestNumber % 2 == 1, mode);
    }

    method OpenFor(failures: Option<int>)
      requires redis.expiresAt.Some? ==> redis.now < redis.expiresAt.value
      modifies redis`fields, redis`expiresAt
      ensures redis.fields == Fields(
                Some(OPEN),
                Some(if failures.None? then config.timeoutThreshold else OrThreshold(config, failures.value)),
                Some(redis.now), Some(redis.now + config.openSeconds * 1000), Some(0), Some(0))
      ensures redis.expiresAt == Some(redis.now + TtlMs(config))
    {
      var count := if failures.None? then config.timeoutThreshold else OrThreshold(config, failures.value);
      HSetState(Fields(Some(OPEN), Some(count), Some(redis.now),
                       Some(redis.now + config.openSeconds * 1000), Some(0), Some(0)));
    }

    /** The update is lost, its parse error swallowed, exactly when the hash is absent. */
    method RecordFailure() returns (swallowed: bool)
      requires redis.Valid()
      modifies redis`fields, redis`expiresAt
      ensures redis.Valid()
      ensures Live(redis.State(), redis.now) == Live(Failure(config, old(redis.State()), redis.now), redis.now)
      ensures swallowed <==> config.enabled && Live(old(redis.State()), redis.now).Absent?
    {
      swallowed := false;
      if !config.enabled {
        return;
      }
      redis.Touch();
      var mode := if redis.fields.mode.Some? then redis.fields.mode.value else CLOSED;
      if mode == HALF_OPEN {
        OpenFor(None);
        return;
      }
      if redis.fields.lastTimeoutMs.None? || redis.fields.failureCount.None? {
        return true;
      }
      var failures := redis.fields.failureCount.value;
      if redis.now - redis.fields.lastTimeoutMs.value > config.timeoutWindowSeconds * 1000 {
        failures := 1;
      } else {
        failures := failures + 1;
      }
      if failures >= config.timeoutThreshold {
        OpenFor(Some(failures));
        return;
      }
      HSetState(NOTHING.(mode := Some(CLOSED), failureCount := Some(failures), lastTimeoutMs := Some(redis.now)));
    }

    method RecordSuccess()
      requires redis.Valid()
      modifies redis`fields, redis`expiresAt
      ensures redis.Valid()
      ensures Live(redis.State(), redis.now) == Live(Success(config, old(redis.State()), redis.now), redis.now)
    {
      if !config.enabled {
        return;
      }
      redis.Touch();
      var mode := if redis.fields.mode.Some? then redis.fields.mode.value else CLOSED;
      if mode == HALF_OPEN {
        var successes := redis.HIncrSuccesses();
        if successes < config.halfOpenSuccessThreshold {
          return;
        }
      }
      HSetState(Fields(Some(CLOSED), Some(0), Some(0), None, Some(0), Some(0)));
    }
  }
}
