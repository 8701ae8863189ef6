/**
 The sliding-window rate limiter as a state machine over one shared Redis key.

 Every Redis command is one atomic step, and steps of any number of workers interleave freely. A worker is a
 program counter walking through one `hit`: read the clock, trim, WATCH, ZCARD, ZRANGE, EXEC. The clock and the
 expiry of the key are steps of the environment. The state also carries history that no step ever reads: who
 changed the key, which attempts were aborted, every admission ever made, and whether some worker read a time
 other than the shared clock.
 */
module SlidingWindow {
  import opened Wrappers

  type Worker = nat
  type Id = nat

  /** `retries` is `rate_limit_watch_retries`, which the settings do not restrict. */
  datatype Config = Config(limit: int, windowSeconds: int, retries: int)

  predicate Accepted(c: Config) {
    c.limit > 0 && c.windowSeconds > 0
  }

  function WindowMs(c: Config): int {
    c.windowSeconds * 1000
  }

  function TtlSeconds(windowSeconds: int): int {
    Max(windowSeconds * 2, 1)
  }

  /** `math.ceil(ms / 1000)`, exactly. */
  function CeilSeconds(ms: int): (k: int)
    ensures 1000 * (k - 1) < ms <= 1000 * k
  {
    (ms + 999) / 1000
  }

  function RetryAfterSeconds(oldest: Option<int>, now: int, windowMs: int): int {
    if oldest.None? then 1 else Max(CeilSeconds(oldest.value + windowMs - now), 1)
  }

  function ResetAfterSeconds(oldest: Option<int>, now: int, windowMs: int): int {
    if oldest.None? then 0 else Max(CeilSeconds(oldest.value + windowMs - now), 0)
  }

  /**
   Both are the least whole number of seconds in which the oldest admission leaves the window: Retry-After from 1
   on, the reset from 0 on. Without an oldest admission, which expiry between ZCARD and ZRANGE can bring about,
   they are 1 and 0.
   */
  lemma SecondsAreLeast(oldest: Option<int>, now: int, windowMs: int, k: int)
    ensures k >= 1 ==> (RetryAfterSeconds(oldest, now, windowMs) <= k
                        <==> oldest.None? || oldest.value + windowMs <= now + 1000 * k)
    ensures k >= 0 ==> (ResetAfterSeconds(oldest, now, windowMs) <= k
                        <==> oldest.None? || oldest.value + windowMs <= now + 1000 * k)
    ensures RetryAfterSeconds(oldest, now, windowMs) >= 1 && ResetAfterSeconds(oldest, now, windowMs) >= 0
  {
  }

  datatype RateLimitResult = RateLimitResult(
    limit: int, windowSeconds: int, retryAfterSeconds: int, remaining: int, resetAfterSeconds: int, exceeded: bool)

  function BuildResult(c: Config, retryAfter: int, count: int, resetAfter: int, exceeded: bool): RateLimitResult {
    RateLimitResult(c.limit, c.windowSeconds, retryAfter, Max(c.limit - count, 0), resetAfter, exceeded)
  }

  function Refusal(c: Config, now: int, count: int, oldest: Option<int>): RateLimitResult {
    BuildResult(c, RetryAfterSeconds(oldest, now, WindowMs(c)), count,
                ResetAfterSeconds(oldest, now, WindowMs(c)), true)
  }

  function Admittance(c: Config, now: int, count: int, oldest: Option<int>): RateLimitResult {
    var first := if oldest.None? then Some(now) else oldest;
    BuildResult(c, 0, count + 1, ResetAfterSeconds(first, now, WindowMs(c)), false)
  }

  datatype Outcome = Answer(result: RateLimitResult) | WatchFailed

  datatype Pc =
    | Idle
    | Clocked(attempt: nat, now: nat)
    | Trimmed(attempt: nat, now: nat)
    | Watching(attempt: nat, now: nat, seen: nat)
    | Counted(attempt: nat, now: nat, seen: nat, count: nat)
    | Ready(attempt: nat, now: nat, seen: nat, count: nat, oldest: Option<int>)
    | Sleeping(attempt: nat)
    | Finished(outcome: Outcome)

  /** Who changed the key; the number of changes is the version that EXEC compares. */
  datatype Actor = ByWorker(worker: Worker) | ByExpiry

  datatype Admission = Admission(score: int, execAt: int, owner: Worker)

  /** An attempt of `worker` that its EXEC aborted, having watched version `change`. */
  datatype Abort = Abort(worker: Worker, change: nat)

  datatype State = State(
    clock: nat,
    members: map<Id, int>,
    expireAt: Option<int>,
    pcs: map<Worker, Pc>,
    changes: seq<Actor>,
    log: map<Id, Admission>,
    aborts: seq<Abort>,
    skewed: bool)

  datatype Event =
    | Tick(ms: nat)
    | ExpireKey
    | ReadClock(w: Worker, now: nat)
    | Trim(w: Worker)
    | Watch(w: Worker)
    | Count(w: Worker)
    | Oldest(w: Worker)
    | Exec(w: Worker, id: Id)

  predicate By(e: Event, w: Worker) {
    !e.Tick? && !e.ExpireKey? && e.w == w
  }

  const INITIAL := State(0, map[], None, map[], [], map[], [], false)

  function PcOf(s: State, w: Worker): Pc {
    if w in s.pcs then s.pcs[w] else Idle
  }

  predicate IsWatching(pc: Pc) {
    pc.Watching? || pc.Counted? || pc.Ready?
  }

  /** What `zremrangebyscore(key, 0, cutoff)` leaves. */
  function Kept(members: map<Id, int>, cutoff: int): map<Id, int> {
    map id | id in members && !(0 <= members[id] <= cutoff) :: members[id]
  }

  predicate IsLowest(members: map<Id, int>, score: int) {
    && (exists id :: id in members && members[id] == score)
    && (forall id :: id in members ==> score <= members[id])
  }

  lemma {:induction false} LowestExists(members: map<Id, int>)
    requires members != map[]
    ensures exists score :: IsLowest(members, score)
    decreases |members|
  {
    var id :| id in members;
    var rest := members - {id};
    if rest == map[] {
      assert IsLowest(members, members[id]) by {
        assert forall x :: x in members && x != id ==> x in rest;
      }
    } else {
      assert |rest.Keys| < |members.Keys| by { assert rest.Keys == members.Keys - {id}; }
      LowestExists(rest);
      var low :| IsLowest(rest, low);
      assert forall x :: x in members && x != id ==> x in rest;
      if members[id] <= low {
        assert IsLowest(members, members[id]);
      } else {
        assert IsLowest(members, low);
      }
    }
  }

  /** What `zrange(key, 0, 0)` finds: the lowest score. */
  function OldestScore(members: map<Id, int>): (o: Option<int>)
    ensures o.None? <==> members == map[]
    ensures o.Some? ==> IsLowest(members, o.value)
  {
    if members == map[] then None
    else
      LowestExists(members);
      assert exists v :: v in members.Values && IsLowest(members, v) by {
        var v :| IsLowest(members, v);
        var id :| id in members && members[id] == v;
        assert v in members.Values;
      }
      var v :| v in members.Values && IsLowest(members, v);
      Some(v)
  }

  predicate Enabled(c: Config, s: State, e: Event) {
    match e
    case Tick(_) => true
    case ExpireKey => s.members != map[] && s.expireAt.Some? && s.expireAt.value <= s.clock
    case ReadClock(w, _) => PcOf(s, w).Idle? || PcOf(s, w).Sleeping? || PcOf(s, w).Finished?
    case Trim(w) => PcOf(s, w).Clocked?
    case Watch(w) => PcOf(s, w).Trimmed?
    case Count(w) => PcOf(s, w).Watching?
    case Oldest(w) => PcOf(s, w).Counted?
    case Exec(w, id) => PcOf(s, w).Ready? && id !in s.log
  }

  /** Replaces the members of the key on behalf of `who`; Redis drops a key whose set becomes empty. */
  function Change(s: State, members: map<Id, int>, who: Actor): State {
    s.(members := members,
       expireAt := if members == map[] then None else s.expireAt,
       changes := s.changes + [who])
  }

  function AfterTrim(c: Config, s: State, w: Worker, now: int): State {
    var kept := Kept(s.members, now - WindowMs(c));
    if kept == s.members then s else Change(s, kept, ByWorker(w))
  }

  /** The transaction ZADD + EXPIRE, whose watched version is still current. */
  function AfterCommit(c: Config, s: State, w: Worker, now: int, id: Id): State {
    s.(members := s.members[id := now],
       expireAt := Some(s.clock + TtlSeconds(c.windowSeconds) * 1000),
       changes := s.changes + [ByWorker(w)],
       log := s.log[id := Admission(now, s.clock, w)])
  }

  function Next(c: Config, s: State, e: Event): State
    requires Enabled(c, s, e)
  {
    match e
    case Tick(ms) => s.(clock := s.clock + ms)
    case ExpireKey => Change(s, map[], ByExpiry)
    case ReadClock(w, now) =>
      var attempt := if PcOf(s, w).Sleeping? then PcOf(s, w).attempt + 1 else 0;
      s.(pcs := s.pcs[w := Clocked(attempt, now)], skewed := s.skewed || now != s.clock)
    case Trim(w) =>
      var pc := PcOf(s, w);
      AfterTrim(c, s, w, pc.now).(pcs := s.pcs[w := Trimmed(pc.attempt, pc.now)])
    case Watch(w) =>
      var pc := PcOf(s, w);
      s.(pcs := s.pcs[w := Watching(pc.attempt, pc.now, |s.changes|)])
    case Count(w) =>
      var pc := PcOf(s, w);
      s.(pcs := s.pcs[w := Counted(pc.attempt, pc.now, pc.seen, |s.members|)])
    case Oldest(w) =>
      var pc := PcOf(s, w);
      var oldest := OldestScore(s.members);
      if pc.count >= c.limit then
        s.(pcs := s.pcs[w := Finished(Answer(Refusal(c, pc.now, pc.count, oldest)))])
      else
        s.(pcs := s.pcs[w := Ready(pc.attempt, pc.now, pc.seen, pc.count, oldest)])
    case Exec(w, id) =>
      var pc := PcOf(s, w);
      if pc.seen == |s.changes| then
        AfterCommit(c, s, w, pc.now, id).(
          pcs := s.pcs[w := Finished(Answer(Admittance(c, pc.now, pc.count, pc.oldest)))])
      else if pc.attempt + 1 >= c.retries then
        s.(pcs := s.pcs[w := Finished(WatchFailed)], aborts := s.aborts + [Abort(w, pc.seen)])
      else
        s.(pcs := s.pcs[w := Sleeping(pc.attempt)], aborts := s.aborts + [Abort(w, pc.seen)])
  }

  /** The state after the events `es` from `s`, if each of them is enabled in its turn. */
  function Play(c: Config, s: State, es: seq<Event>): Option<State> {
    if es == [] then Some(s)
    else
      var before := Play(c, s, es[..|es| - 1]);
      var e := es[|es| - 1];
      if before.Some? && Enabled(c, before.value, e) then Some(Next(c, before.value, e)) else None
  }

  lemma {:induction false} PlayConcat(c: Config, s: State, es: seq<Event>, fs: seq<Event>)
    requires Play(c, s, es).Some?
    ensures Play(c, s, es + fs) == Play(c, Play(c, s, es).value, fs)
    decreases |fs|
  {
    if fs == [] {
      assert es + fs == es;
    } else {
      PlayConcat(c, s, es, fs[..|fs| - 1]);
      assert (es + fs)[..|es + fs| - 1] == es + fs[..|fs| - 1];
    }
  }

  lemma {:induction false} PrefixPlays(c: Config, s: State, es: seq<Event>, fs: seq<Event>)
    requires Play(c, s, es + fs).Some?
    ensures Play(c, s, es).Some?
    decreases |fs|
  {
    if fs == [] {
      assert es + fs == es;
    } else {
      assert (es + fs)[..|es + fs| - 1] == es + fs[..|fs| - 1];
      PrefixPlays(c, s, es, fs[..|fs| - 1]);
    }
  }

  /** `s` is reached from the empty key by the run `es`. */
  predicate Reaches(c: Config, es: seq<Event>, s: State) {
    Play(c, INITIAL, es) == Some(s)
  }

  /** The admissions still inside the window that ends at time `t`: the untrimmed reference for the key. */
  function InWindow(log: map<Id, Admission>, t: int, windowMs: int): set<Id> {
    set id | id in log && log[id].score > t - windowMs
  }

  // ---------------------------------------------------------------- back-off between attempts

  function Pow2(n: nat): nat {
    if n == 0 then 1 else 2 * Pow2(n - 1)
  }

  /** The sleep after attempt `attempt` was aborted: `min(0.01 * 2**attempt, 0.1)` seconds. */
  function SleepMs(attempt: nat): nat {
    Min(10 * Pow2(attempt), 100)
  }

  function SleptMs(sleeps: nat): nat {
    if sleeps == 0 then 0 else SleptMs(sleeps - 1) + SleepMs(sleeps - 1)
  }

  lemma {:induction false} BackoffClosedForm(m: nat)
    ensures m <= 4 ==> SleptMs(m) == 10 * (Pow2(m) - 1)
    ensures m >= 4 ==> SleptMs(m) == 150 + 100 * (m - 4)
  {
    if m > 0 {
      BackoffClosedForm(m - 1);
      if m > 4 {
        Pow2AtLeast16(m - 1);
      }
    }
    assert Pow2(4) == 16 by { assert Pow2(2) == 4; }
  }

  lemma {:induction false} Pow2AtLeast16(n: nat)
    requires n >= 4
    ensures Pow2(n) >= 16
  {
    if n > 4 {
      Pow2AtLeast16(n - 1);
    } else {
      assert Pow2(2) == 4;
    }
  }
}
