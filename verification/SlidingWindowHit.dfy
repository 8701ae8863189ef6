/**
 `RedisSlidingWindowRateLimiter.hit` itself: a retry loop over a Redis key that other workers also use. What
 they, the clock and expiry do before each of the loop's commands comes from an arbitrary schedule, and the
 history of the key is a run of the state machine, so every result about its runs is a result about this code.
 */
module SlidingWindowHit {
  import opened Wrappers
  import opened SlidingWindow

  /** The clock readings, that is the attempts, of `w` in a run. */
  function Attempts(es: seq<Event>, w: Worker): nat {
    if es == [] then 0
    else
      var e := es[|es| - 1];
      Attempts(es[..|es| - 1], w) + (if e.ReadClock? && e.w == w then 1 else 0)
  }

  /** The members that `w` ever added. */
  function Added(log: map<Id, Admission>, w: Worker): set<Id> {
    set id | id in log && log[id].owner == w
  }

  predicate Resting(pc: Pc) {
    pc.Idle? || pc.Finished?
  }

  ghost function Above(used: set<Id>): (id: Id)
    ensures forall u :: u in used ==> u < id
  {
    if used == {} then 0
    else
      var some :| some in used;
      assert used == (used - {some}) + {some};
      Max(Above(used - {some}), some + 1)
  }

  /** A run grew, by `last` at its end. */
  ghost predicate Extends(before: seq<Event>, after: seq<Event>, last: Event) {
    before < after && after[|after| - 1] == last
  }

  lemma OthersStep(c: Config, s: State, e: Event, w: Worker)
    requires Enabled(c, s, e) && !By(e, w)
    ensures PcOf(Next(c, s, e), w) == PcOf(s, w) && Added(Next(c, s, e).log, w) == Added(s.log, w)
  {
  }

  class SharedRedis {
    const c: Config
    var state: State
    var schedule: seq<seq<Event>>
    ghost var history: seq<Event>

    ghost predicate Valid()
      reads this
    {
      Reaches(c, history, state)
    }

    constructor (c: Config, schedule: seq<seq<Event>>)
      ensures Valid() && this.c == c && this.schedule == schedule && state == INITIAL && history == []
    {
      this.c, this.schedule := c, schedule;
      state, history := INITIAL, [];
    }

    method Perform(e: Event)
      requires Valid() && Enabled(c, state, e)
      modifies this`state, this`history
      ensures Valid() && state == Next(c, old(state), e) && history == old(history) + [e]
    {
      state, history := Next(c, state, e), history + [e];
      assert history[..|history| - 1] == old(history);
    }

    /** Steps of others that come in before the next command of `w`. */
    method Interleave(w: Worker)
      requires Valid()
      modifies this`state, this`history, this`schedule
      ensures Valid() && old(history) <= history
      ensures PcOf(state, w) == old(PcOf(state, w)) && Added(state.log, w) == old(Added(state.log, w))
      ensures Attempts(history, w) == old(Attempts(history, w))
    {
      if schedule != [] {
        var batch := schedule[0];
        schedule := schedule[1..];
        for i := 0 to |batch|
          invariant Valid() && old(history) <= history
          invariant PcOf(state, w) == old(PcOf(state, w)) && Added(state.log, w) == old(Added(state.log, w))
          invariant Attempts(history, w) == old(Attempts(history, w))
        {
          if !By(batch[i], w) && Enabled(c, state, batch[i]) {
            OthersStep(c, state, batch[i], w);
            Perform(batch[i]);
          }
        }
      }
    }

    /** `command`, after whatever else the schedule lets happen before it. */
    method Command(w: Worker, command: Event)
      requires Valid() && By(command, w) && !command.ReadClock? && !command.Exec? && Enabled(c, state, command)
      modifies this`state, this`history, this`schedule
      ensures Valid() && Extends(old(history), history, command)
      ensures Added(state.log, w) == old(Added(state.log, w)) && Attempts(history, w) == old(Attempts(history, w))
      ensures exists s :: PcOf(s, w) == old(PcOf(state, w)) && Enabled(c, s, command) && state == Next(c, s, command)
    {
      Interleave(w);
      Perform(command);
    }

    method NowMs(w: Worker) returns (now: nat)
      requires Valid() && Enabled(c, state, ReadClock(w, state.clock))
      modifies this`state, this`history, this`schedule
      ensures Valid() && Extends(old(history), history, ReadClock(w, now))
      ensures PcOf(state, w).Clocked? && PcOf(state, w).now == now
      ensures PcOf(state, w).attempt == if old(PcOf(state, w)).Sleeping? then old(PcOf(state, w)).attempt + 1 else 0
      ensures Added(state.log, w) == old(Added(state.log, w))
      ensures Attempts(history, w) == old(Attempts(history, w)) + 1
    {
      Interleave(w);
      now := state.clock;
      Perform(ReadClock(w, now));
    }

    method ZRemRangeByScore(w: Worker, cutoff: int)
      requires Valid() && PcOf(state, w).Clocked? && cutoff == PcOf(state, w).now - WindowMs(c)
      modifies this`state, this`history, this`schedule
      ensures Valid() && Extends(old(history), history, Trim(w))
      ensures PcOf(state, w) == Trimmed(old(PcOf(state, w)).attempt, old(PcOf(state, w)).now)
      ensures Added(state.log, w) == old(Added(state.log, w)) && Attempts(history, w) == old(Attempts(history, w))
    {
      Command(w, Trim(w));
    }

    method WatchKey(w: Worker)
      requires Valid() && PcOf(state, w).Trimmed?
      modifies this`state, this`history, this`schedule
      ensures Valid() && Extends(old(history), history, Watch(w))
      ensures PcOf(state, w) == Watching(old(PcOf(state, w)).attempt, old(PcOf(state, w)).now, |state.changes|)
      ensures Added(state.log, w) == old(Added(state.log, w)) && Attempts(history, w) == old(Attempts(history, w))
    {
      Command(w, Watch(w));
    }

    method ZCard(w: Worker) returns (count: nat)
      requires Valid() && PcOf(state, w).Watching?
      modifies this`state, this`history, this`schedule
      ensures Valid() && Extends(old(history), history, Count(w)) && count == |state.members|
      ensures PcOf(state, w) == var pc := old(PcOf(state, w)); Counted(pc.attempt, pc.now, pc.seen, count)
      ensures Added(state.log, w) == old(Added(state.log, w)) && Attempts(history, w) == old(Attempts(history, w))
    {
      Command(w, Count(w));
      count := |state.members|;
    }

    method ZRangeFirst(w: Worker) returns (oldest: Option<int>)
      requires Valid() && PcOf(state, w).Counted?
      modifies this`state, this`history, this`schedule
      ensures Valid() && Extends(old(history), history, Oldest(w)) && oldest == OldestScore(state.members)
      ensures PcOf(state, w) == var pc := old(PcOf(state, w));
                                if pc.count >= c.limit then Finished(Answer(Refusal(c, pc.now, pc.count, oldest)))
                                else Ready(pc.attempt, pc.now, pc.seen, pc.count, oldest)
      ensures Added(state.log, w) == old(Added(state.log, w)) && Attempts(history, w) == old(Attempts(history, w))
    {
      Command(w, Oldest(w));
      oldest := OldestScore(state.members);
    }

    /**
     MULTI, ZADD under a fresh member id, EXPIRE, EXEC; `false` stands for the WatchError. The EXEC commits exactly
     if in the state `before` it the watched version is current.
     */
    method Execute(w: Worker) returns (committed: bool, id: Id, ghost before: State)
      requires Valid() && PcOf(state, w).Ready?
      modifies this`state, this`history, this`schedule
      ensures Valid() && Extends(old(history), history, Exec(w, id)) && id !in old(Added(state.log, w))
      ensures PcOf(state, w) == var pc := old(PcOf(state, w));
                                if committed then Finished(Answer(Admittance(c, pc.now, pc.count, pc.oldest)))
                                else if pc.attempt + 1 >= c.retries then Finished(WatchFailed)
                                else Sleeping(pc.attempt)
      ensures Play(c, INITIAL, history[..|history| - 1]) == Some(before)
      ensures committed <==> old(PcOf(state, w)).seen == |before.changes|
      ensures Added(state.log, w) == old(Added(state.log, w)) + if committed then {id} else {}
      ensures Attempts(history, w) == old(Attempts(history, w))
    {
      Interleave(w);
      before := state;
      assert Above(state.log.Keys) !in state.log;
      id :| id !in state.log;
      committed := PcOf(state, w).seen == |state.changes|;
      ghost var es := history;
      Perform(Exec(w, id));
      assert history[..|history| - 1] == es;
    }
  }

  datatype HitResult =
    | ValueError
    | Returned(result: RateLimitResult)
    | WatchError
    | RuntimeError

  /** The first half of an attempt: trim, WATCH, and read the count and the oldest score. */
  method Observe(redis: SharedRedis, w: Worker) returns (now: nat, requestCount: nat, oldestScore: Option<int>)
    requires redis.Valid() && (Resting(PcOf(redis.state, w)) || PcOf(redis.state, w).Sleeping?)
    modifies redis
    ensures redis.Valid() && old(redis.history) <= redis.history
    ensures Added(redis.state.log, w) == old(Added(redis.state.log, w))
    ensures Attempts(redis.history, w) == old(Attempts(redis.history, w)) + 1
    ensures requestCount >= redis.c.limit ==>
              PcOf(redis.state, w) == Finished(Answer(Refusal(redis.c, now, requestCount, oldestScore)))
    ensures requestCount < redis.c.limit ==>
              && PcOf(redis.state, w).Ready?
              && PcOf(redis.state, w).attempt
                 == (if old(PcOf(redis.state, w)).Sleeping? then old(PcOf(redis.state, w)).attempt + 1 else 0)
              && PcOf(redis.state, w).now == now && PcOf(redis.state, w).count == requestCount
              && PcOf(redis.state, w).oldest == oldestScore
  {
    var windowMs := WindowMs(redis.c);
    now := redis.NowMs(w);
    redis.ZRemRangeByScore(w, now - windowMs);
    redis.WatchKey(w);
    requestCount := redis.ZCard(w);
    oldestScore := redis.ZRangeFirst(w);
  }

  /** The members that `w` added between `before` and `after`: one if it was admitted, else none. */
  ghost predicate AddedOne(before: set<Id>, after: set<Id>, admitted: bool) {
    if admitted then exists id :: id !in before && after == before + {id} else after == before
  }

  /** What every answer keeps, races or not. */
  predicate InRange(r: RateLimitResult, limit: int, windowSeconds: int) {
    && r.limit == limit && r.windowSeconds == windowSeconds
    && (if r.exceeded then r.remaining == 0 && r.retryAfterSeconds >= 1
        else 0 <= r.remaining < limit && r.retryAfterSeconds == 0)
    && r.resetAfterSeconds >= 0
  }

  /** One turn of the retry loop; `None` means that the next turn may follow after the back-off. */
  method Attempt(redis: SharedRedis, w: Worker, attempt: nat) returns (r: Option<HitResult>)
    requires redis.Valid() && Accepted(redis.c) && attempt < Max(redis.c.retries, 1)
    requires if attempt == 0 then Resting(PcOf(redis.state, w)) else PcOf(redis.state, w) == Sleeping(attempt - 1)
    modifies redis
    ensures redis.Valid() && old(redis.history) <= redis.history
    ensures Attempts(redis.history, w) == old(Attempts(redis.history, w)) + 1
    ensures AddedOne(old(Added(redis.state.log, w)), Added(redis.state.log, w),
                     r.Some? && r.value.Returned? && !r.value.result.exceeded)
    ensures match r
            case None => PcOf(redis.state, w) == Sleeping(attempt) && attempt + 1 < Max(redis.c.retries, 1)
            case Some(Returned(result)) =>
              PcOf(redis.state, w) == Finished(Answer(result)) && InRange(result, redis.c.limit, redis.c.windowSeconds)
            case Some(WatchError) =>
              PcOf(redis.state, w) == Finished(WatchFailed) && attempt + 1 == Max(redis.c.retries, 1)
            case Some(_) => false
  {
    var c := redis.c;
    var windowMs := WindowMs(c);
    var now, requestCount, oldestScore := Observe(redis, w);
    if requestCount >= c.limit {
      var retryAfter := RetryAfterSeconds(oldestScore, now, windowMs);
      var resetAfter := ResetAfterSeconds(oldestScore, now, windowMs);
      return Some(Returned(BuildResult(c, retryAfter, requestCount, resetAfter, true)));
    }
    var committed, _, _ := redis.Execute(w);
    if committed {
      requestCount := requestCount + 1;
      if oldestScore.None? {
        oldestScore := Some(now);
      }
      var resetAfter := ResetAfterSeconds(oldestScore, now, windowMs);
      return Some(Returned(BuildResult(c, 0, requestCount, resetAfter, false)));
    }
    r := if attempt + 1 >= c.retries then Some(WatchError) else None;
  }

  /**
   One `hit`. It makes between 1 and max(retries, 1) attempts, sleeping the doubling back-off after each but the
   last; it adds exactly one member if it answers "not exceeded" and none otherwise; its answer is the outcome
   the state machine gives to `w`; and it never falls through to the RuntimeError.
   */
  method Hit(redis: SharedRedis, w: Worker) returns (r: HitResult, attempts: nat, sleptMs: nat)
    requires redis.Valid() && Resting(PcOf(redis.state, w))
    modifies redis
    ensures redis.Valid() && old(redis.history) <= redis.history
    ensures r.ValueError? <==> redis.c.limit <= 0 || redis.c.windowSeconds <= 0
    ensures r.ValueError? ==> redis.state == old(redis.state) && attempts == 0
    ensures !r.RuntimeError?
    ensures Accepted(redis.c) ==> 1 <= attempts <= Max(redis.c.retries, 1) && sleptMs == SleptMs(attempts - 1)
    ensures Attempts(redis.history, w) == old(Attempts(redis.history, w)) + attempts
    ensures r.Returned? ==> PcOf(redis.state, w) == Finished(Answer(r.result))
    ensures r.Returned? ==> InRange(r.result, redis.c.limit, redis.c.windowSeconds)
    ensures r.WatchError? ==> PcOf(redis.state, w) == Finished(WatchFailed) && attempts == Max(redis.c.retries, 1)
    ensures AddedOne(old(Added(redis.state.log, w)), Added(redis.state.log, w), r.Returned? && !r.result.exceeded)
  {
    if !Accepted(redis.c) {
      return ValueError, 0, 0;
    }
    var attempt := 0;
    sleptMs := 0;
    while attempt < Max(redis.c.retries, 1)
      invariant redis.Valid() && old(redis.history) <= redis.history
      invariant attempt < Max(redis.c.retries, 1)
      invariant if attempt == 0 then Resting(PcOf(redis.state, w)) else PcOf(redis.state, w) == Sleeping(attempt - 1)
      invariant Added(redis.state.log, w) == old(Added(redis.state.log, w))
      invariant Attempts(redis.history, w) == old(Attempts(redis.history, w)) + attempt
      invariant sleptMs == SleptMs(attempt)
      decreases Max(redis.c.retries, 1) - attempt
    {
      var turn := Attempt(redis, w, attempt);
      if turn.Some? {
        return turn.value, attempt + 1, sleptMs;
      }
      sleptMs := sleptMs + SleepMs(attempt);
      attempt := attempt + 1;
    }
    assert false;
  }
}
