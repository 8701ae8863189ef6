/**
 Hits that run one after another: the trimmed and expiring set answers exactly like an unbounded log of
 admissions, and Retry-After is the least whole number of seconds after which a hit is admitted.
 */
module SlidingWindowSolo {
  import opened Collections
  import opened Wrappers
  import opened SlidingWindow
  import opened SlidingWindowInvariants

  // ---------------------------------------------------------------- the reference limiter

  function Scores(log: map<Id, Admission>, ids: set<Id>): map<Id, int> {
    map id | id in log && id in ids :: log[id].score
  }

  /** The answer of a limiter that keeps every admission forever and counts those inside the window. */
  function LogAnswer(c: Config, log: map<Id, Admission>, now: int): RateLimitResult {
    var inside := InWindow(log, now, 1000 * c.windowSeconds);
    var oldest := OldestScore(Scores(log, inside));
    if |inside| >= c.limit then Refusal(c, now, |inside|, oldest) else Admittance(c, now, |inside|, oldest)
  }

  // ---------------------------------------------------------------- one hit, undisturbed

  /** Time passes, the key may expire, and `w` goes on with the hit it has begun; no other worker moves. */
  predicate Alone(w: Worker, e: Event) {
    match e
    case Tick(_) => true
    case ExpireKey => true
    case ReadClock(_, _) => false
    case Trim(v) => v == w
    case Watch(v) => v == w
    case Count(v) => v == w
    case Oldest(v) => v == w
    case Exec(v, _) => v == w
  }

  ghost predicate AllAlone(w: Worker, es: seq<Event>) {
    forall i :: 0 <= i < |es| ==> Alone(w, es[i])
  }

  ghost predicate Logged(c: Config, log: map<Id, Admission>, now: int, w: Worker, after: map<Id, Admission>) {
    if LogAnswer(c, log, now).exceeded then after == log
    else exists id: Id, at: int :: id !in log && after == log[id := Admission(now, at, w)]
  }

  /** How far `w` has come with the hit that read `now` when the admissions were `log`. */
  ghost predicate SoloOk(c: Config, log: map<Id, Admission>, now: nat, w: Worker, s: State) {
    var pc := PcOf(s, w);
    var inside := Scores(log, InWindow(log, now, 1000 * c.windowSeconds));
    match pc
    case Clocked(_, t) =>
      && t == now && s.log == log
      && (forall id :: id in InWindow(log, now, 1000 * c.windowSeconds) ==> id in s.members)
    case Trimmed(_, t) => t == now && s.log == log && s.members == inside
    case Watching(_, t, seen) => t == now && s.log == log && s.members == inside && seen == |s.changes|
    case Counted(_, t, seen, count) =>
      t == now && s.log == log && s.members == inside && seen == |s.changes| && count == |inside|
    case Ready(_, t, seen, count, oldest) =>
      && t == now && s.log == log && s.members == inside && seen == |s.changes|
      && count == |inside| < c.limit && oldest == OldestScore(inside)
    case Finished(outcome) => outcome == Answer(LogAnswer(c, log, now)) && Logged(c, log, now, w, s.log)
    case _ => false
  }

  lemma ScoresSize(log: map<Id, Admission>, ids: set<Id>)
    requires ids <= log.Keys
    ensures |Scores(log, ids)| == |ids|
  {
    assert Scores(log, ids).Keys == ids;
  }

  lemma ExpiryKeepsSolo(c: Config, log: map<Id, Admission>, now: nat, w: Worker, s: State)
    requires Accepted(c) && MembersOk(c, s) && Clock(c, s) && SoloOk(c, log, now, w, s)
    requires Enabled(c, s, ExpireKey) && s.clock < now + 1000 * c.windowSeconds
    ensures SoloOk(c, log, now, w, Next(c, s, ExpireKey))
  {
  }

  lemma TrimKeepsSolo(c: Config, log: map<Id, Admission>, now: nat, w: Worker, s: State)
    requires Accepted(c) && MembersOk(c, s) && Clock(c, s) && SoloOk(c, log, now, w, s) && Enabled(c, s, Trim(w))
    ensures SoloOk(c, log, now, w, Next(c, s, Trim(w)))
  {
  }

  lemma ExecKeepsSolo(c: Config, log: map<Id, Admission>, now: nat, w: Worker, s: State, id: Id)
    requires SoloOk(c, log, now, w, s) && Enabled(c, s, Exec(w, id))
    ensures SoloOk(c, log, now, w, Next(c, s, Exec(w, id)))
  {
    ScoresSize(log, InWindow(log, now, 1000 * c.windowSeconds));
    assert Next(c, s, Exec(w, id)).log == log[id := Admission(now, s.clock, w)];
  }

  lemma ReadKeepsSolo(c: Config, log: map<Id, Admission>, now: nat, w: Worker, s: State, e: Event)
    requires SoloOk(c, log, now, w, s) && Enabled(c, s, e)
    requires e == Watch(w) || e == Count(w) || e == Oldest(w)
    ensures SoloOk(c, log, now, w, Next(c, s, e))
  {
    ScoresSize(log, InWindow(log, now, 1000 * c.windowSeconds));
  }

  lemma StepKeepsSolo(c: Config, log: map<Id, Admission>, now: nat, w: Worker, s: State, e: Event)
    requires Accepted(c) && MembersOk(c, s) && Clock(c, s) && SoloOk(c, log, now, w, s)
    requires Alone(w, e) && Enabled(c, s, e) && s.clock < now + 1000 * c.windowSeconds
    ensures SoloOk(c, log, now, w, Next(c, s, e))
  {
    match e {
      case Tick(_) =>
      case ExpireKey => ExpiryKeepsSolo(c, log, now, w, s);
      case Trim(_) => TrimKeepsSolo(c, log, now, w, s);
      case Exec(_, id) => ExecKeepsSolo(c, log, now, w, s, id);
      case _ => ReadKeepsSolo(c, log, now, w, s, e);
    }
  }

  lemma {:induction false} RunKeepsSolo(
    c: Config, log: map<Id, Admission>, now: nat, w: Worker, s: State, es: seq<Event>)
    requires Accepted(c) && Inv(c, s) && Clock(c, s) && !s.skewed && SoloOk(c, log, now, w, s)
    requires AllAlone(w, es) && Play(c, s, es).Some? && Play(c, s, es).value.clock < now + 1000 * c.windowSeconds
    ensures SoloOk(c, log, now, w, Play(c, s, es).value)
    ensures !Play(c, s, es).value.skewed
  {
    if es != [] {
      var p := Play(c, s, es[..|es| - 1]).value;
      StepSkew(c, p, es[|es| - 1]);
      RunKeepsSolo(c, log, now, w, s, es[..|es| - 1]);
      RunKeepsInv(c, s, es[..|es| - 1]);
      RunKeepsClock(c, s, es[..|es| - 1]);
      StepKeepsSolo(c, log, now, w, p, es[|es| - 1]);
    }
  }

  /** `w` reads the clock in `s` and its hit, undisturbed and shorter than the window, is finished in `n`. */
  ghost predicate UndisturbedHit(c: Config, s: State, w: Worker, es: seq<Event>, n: State) {
    && AllAlone(w, es)
    && Play(c, s, [ReadClock(w, s.clock)] + es) == Some(n)
    && n.clock < s.clock + 1000 * c.windowSeconds
    && PcOf(n, w).Finished?
  }

  lemma UndisturbedAnswer(c: Config, run: seq<Event>, s: State, w: Worker, es: seq<Event>, n: State)
    requires Accepted(c) && Reaches(c, run, s) && !s.skewed && UndisturbedHit(c, s, w, es, n)
    ensures PcOf(n, w).outcome == Answer(LogAnswer(c, s.log, s.clock))
    ensures Logged(c, s.log, s.clock, w, n.log)
    ensures !n.skewed && Reaches(c, run + [ReadClock(w, s.clock)] + es, n)
  {
    var first := [ReadClock(w, s.clock)];
    assert PlayHead(c, s, first, es, n) by { PlayHeadHolds(c, s, ReadClock(w, s.clock), es, n); }
    var r := Next(c, s, ReadClock(w, s.clock));
    ReachableInv(c, run, s);
    ReachableClock(c, run, s);
    StepKeepsInv(c, s, ReadClock(w, s.clock));
    StepKeepsClock(c, s, ReadClock(w, s.clock));
    RunKeepsSolo(c, s.log, s.clock, w, r, es);
    PlayConcat(c, INITIAL, run, first + es);
    assert run + (first + es) == run + first + es;
  }

  ghost predicate PlayHead(c: Config, s: State, first: seq<Event>, es: seq<Event>, n: State) {
    && |first| == 1 && Enabled(c, s, first[0])
    && Play(c, Next(c, s, first[0]), es) == Some(n)
  }

  lemma PlayHeadHolds(c: Config, s: State, e: Event, es: seq<Event>, n: State)
    requires Play(c, s, [e] + es) == Some(n)
    ensures PlayHead(c, s, [e], es, n)
  {
    PrefixPlays(c, s, [e], es);
    PlayConcat(c, s, [e], es);
    assert [e][..0] == [];
    assert Play(c, s, [e]) == (if Enabled(c, s, e) then Some(Next(c, s, e)) else None);
  }

  /**
   In any state that synchronised workers can reach, an undisturbed hit is refused exactly when `limit` admissions
   of the unbounded log lie in the last window, answers with what then remains, and is logged exactly when it is
   admitted; trimming and expiry are invisible.
   */
  lemma HitAnswersLikeTheLog(c: Config, run: seq<Event>, s: State, w: Worker, es: seq<Event>, n: State)
    requires Accepted(c) && Reaches(c, run, s) && !s.skewed && UndisturbedHit(c, s, w, es, n)
    ensures PcOf(n, w).outcome.Answer?
    ensures var inside := set id | id in s.log && s.log[id].score > s.clock - 1000 * c.windowSeconds;
            var r := PcOf(n, w).outcome.result;
            && r.limit == c.limit && r.windowSeconds == c.windowSeconds
            && (r.exceeded <==> |inside| >= c.limit)
            && r.remaining == (if r.exceeded then 0 else c.limit - |inside| - 1)
            && (!r.exceeded ==> r.retryAfterSeconds == 0)
            && (r.exceeded ==> n.log == s.log)
            && (!r.exceeded ==>
                  exists id: Id, at: int :: id !in s.log && n.log == s.log[id := Admission(s.clock, at, w)])
  {
    UndisturbedAnswer(c, run, s, w, es, n);
    assert InWindow(s.log, s.clock, 1000 * c.windowSeconds)
           == set id | id in s.log && s.log[id].score > s.clock - 1000 * c.windowSeconds;
  }

  // ---------------------------------------------------------------- Retry-After

  /** After a refusal at `now`, the window at a later `t` has room exactly from oldest + window on. */
  lemma RoomOpensWithTheOldest(c: Config, log: map<Id, Admission>, now: int, t: int)
    requires Accepted(c) && now <= t
    requires |InWindow(log, now, 1000 * c.windowSeconds)| == c.limit
    ensures var oldest := OldestScore(Scores(log, InWindow(log, now, 1000 * c.windowSeconds)));
            && oldest.Some?
            && (|InWindow(log, t, 1000 * c.windowSeconds)| < c.limit <==> t >= oldest.value + 1000 * c.windowSeconds)
  {
    var inside := InWindow(log, now, 1000 * c.windowSeconds);
    var later := InWindow(log, t, 1000 * c.windowSeconds);
    ScoresSize(log, inside);
    var oldest := OldestScore(Scores(log, inside)).value;
    SubsetSize(later, inside);
    if t >= oldest + 1000 * c.windowSeconds {
      var id :| id in Scores(log, inside) && Scores(log, inside)[id] == oldest;
      assert id in inside && id !in later;
    } else {
      assert forall id :: id in inside ==> Scores(log, inside)[id] >= oldest;
      assert later == inside;
    }
  }

  /** A refusal found the window full and no fuller. */
  lemma RefusedAtTheLimit(c: Config, run: seq<Event>, s: State)
    requires Accepted(c) && Reaches(c, run, s) && !s.skewed && LogAnswer(c, s.log, s.clock).exceeded
    ensures |InWindow(s.log, s.clock, 1000 * c.windowSeconds)| == c.limit
  {
    ReachableInv(c, run, s);
    ReachableClock(c, run, s);
    SubsetSize(InWindow(s.log, s.clock, 1000 * c.windowSeconds), s.members.Keys);
  }

  /** The window as a refusal at `now` sees it, as long as its oldest admission has not left. */
  lemma RefusedUntilTheOldestLeaves(c: Config, run: seq<Event>, s: State, t: int) returns (oldest: int)
    requires Accepted(c) && Reaches(c, run, s) && !s.skewed && s.clock <= t
    requires LogAnswer(c, s.log, s.clock).exceeded
    ensures LogAnswer(c, s.log, t).exceeded <==> t < oldest + 1000 * c.windowSeconds
    ensures LogAnswer(c, s.log, s.clock).retryAfterSeconds
            == RetryAfterSeconds(Some(oldest), s.clock, 1000 * c.windowSeconds)
    ensures s.clock - 1000 * c.windowSeconds < oldest <= s.clock
    ensures IsLowest(Scores(s.log, InWindow(s.log, s.clock, 1000 * c.windowSeconds)), oldest)
  {
    RefusedAtTheLimit(c, run, s);
    ReachableClock(c, run, s);
    RoomOpensWithTheOldest(c, s.log, s.clock, t);
    oldest := OldestScore(Scores(s.log, InWindow(s.log, s.clock, 1000 * c.windowSeconds))).value;
  }

  lemma RetryDecides(oldest: int, now: int, windowSeconds: int, k: nat)
    requires now - 1000 * windowSeconds < oldest <= now
    ensures 1 <= RetryAfterSeconds(Some(oldest), now, 1000 * windowSeconds) <= windowSeconds
    ensures now + 1000 * k < oldest + 1000 * windowSeconds
            <==> k < RetryAfterSeconds(Some(oldest), now, 1000 * windowSeconds)
  {
    SecondsAreLeast(Some(oldest), now, 1000 * windowSeconds, k);
    SecondsAreLeast(Some(oldest), now, 1000 * windowSeconds, windowSeconds);
  }

  /** Retry-After lies in 1..window_seconds and is the least whole number of seconds that makes room. */
  lemma RetryAfterIsLeast(c: Config, run: seq<Event>, s: State, k: nat)
    requires Accepted(c) && Reaches(c, run, s) && !s.skewed && LogAnswer(c, s.log, s.clock).exceeded
    ensures 1 <= LogAnswer(c, s.log, s.clock).retryAfterSeconds <= c.windowSeconds
    ensures LogAnswer(c, s.log, s.clock + 1000 * k).exceeded <==> k < LogAnswer(c, s.log, s.clock).retryAfterSeconds
  {
    var oldest := RefusedUntilTheOldestLeaves(c, run, s, s.clock + 1000 * k);
    RetryDecides(oldest, s.clock, c.windowSeconds, k);
  }

  /** An undisturbed hit of `w` in a run on one clock, and its answer. */
  ghost predicate Answered(
    c: Config, run: seq<Event>, s: State, w: Worker, es: seq<Event>, n: State, answer: RateLimitResult) {
    && Reaches(c, run, s) && !s.skewed && UndisturbedHit(c, s, w, es, n)
    && PcOf(n, w).outcome == Answer(answer)
  }

  lemma AnswerIsTheLogs(
    c: Config, run: seq<Event>, s: State, w: Worker, es: seq<Event>, n: State, answer: RateLimitResult)
    requires Accepted(c) && Answered(c, run, s, w, es, n, answer)
    ensures answer == LogAnswer(c, s.log, s.clock)
  {
    UndisturbedAnswer(c, run, s, w, es, n);
  }

  lemma LowestDecides(log: map<Id, Admission>, now: int, t: int, windowMs: int, oldest: int)
    requires IsLowest(Scores(log, InWindow(log, now, windowMs)), oldest)
    ensures t < oldest + windowMs
            <==> forall id :: id in log && log[id].score > now - windowMs ==> t < log[id].score + windowMs
  {
    var inside := Scores(log, InWindow(log, now, windowMs));
    var id :| id in inside && inside[id] == oldest;
    assert forall x :: x in log && log[x].score > now - windowMs ==> x in inside && inside[x] >= oldest;
  }

  /**
   Two undisturbed hits, the first refused, with nothing admitted in between: the second is refused if and only
   if it reads the clock before the oldest admission that the first one saw leaves the window. In whole seconds
   after the first that is exactly if it comes before the first one's Retry-After.
   */
  lemma RetryAfterIsExact(
    c: Config,
    run1: seq<Event>, s1: State, w1: Worker, es1: seq<Event>, n1: State, answer1: RateLimitResult,
    run2: seq<Event>, s2: State, w2: Worker, es2: seq<Event>, n2: State, answer2: RateLimitResult)
    requires Accepted(c) && Answered(c, run1, s1, w1, es1, n1, answer1) && answer1.exceeded
    requires Answered(c, run2, s2, w2, es2, n2, answer2)
    requires s2.log == s1.log && s2.clock >= s1.clock
    ensures answer2.exceeded <==>
            forall id :: id in s1.log && s1.log[id].score > s1.clock - 1000 * c.windowSeconds ==>
              s2.clock < s1.log[id].score + 1000 * c.windowSeconds
    ensures 1 <= answer1.retryAfterSeconds <= c.windowSeconds
    ensures forall k: nat :: s2.clock == s1.clock + 1000 * k ==>
              (answer2.exceeded <==> k < answer1.retryAfterSeconds)
  {
    AnswerIsTheLogs(c, run1, s1, w1, es1, n1, answer1);
    AnswerIsTheLogs(c, run2, s2, w2, es2, n2, answer2);
    var oldest := RefusedUntilTheOldestLeaves(c, run1, s1, s2.clock);
    LowestDecides(s1.log, s1.clock, s2.clock, 1000 * c.windowSeconds, oldest);
    RetryAfterIsLeast(c, run1, s1, (s2.clock - s1.clock) / 1000);
  }

  // ---------------------------------------------------------------- the reset

  /** The reset is counted from the oldest admission in the window, the new one included. */
  lemma OldestAfterTheHit(c: Config, log: map<Id, Admission>, now: nat, w: Worker, after: map<Id, Admission>)
    returns (first: int)
    requires Accepted(c) && Logged(c, log, now, w, after)
    requires forall id :: id in log ==> log[id].score <= now
    ensures IsLowest(Scores(after, InWindow(after, now, 1000 * c.windowSeconds)), first)
    ensures now - 1000 * c.windowSeconds < first <= now
    ensures LogAnswer(c, log, now).resetAfterSeconds == CeilSeconds(first + 1000 * c.windowSeconds - now)
  {
    var inside := Scores(log, InWindow(log, now, 1000 * c.windowSeconds));
    var scores := Scores(after, InWindow(after, now, 1000 * c.windowSeconds));
    ScoresSize(log, InWindow(log, now, 1000 * c.windowSeconds));
    var oldest := OldestScore(inside);
    first := if oldest.None? then now else oldest.value;
    if !LogAnswer(c, log, now).exceeded {
      var id, at :| id !in log && after == log[id := Admission(now, at, w)];
      assert scores == inside[id := now];
      if oldest.Some? {
        var x :| x in inside && inside[x] == first;
        assert scores[x] == first;
      } else {
        assert scores[id] == first;
      }
    }
  }

  /** After an undisturbed hit, the reset is the least whole number of seconds until an admission leaves the window. */
  lemma ResetIsLeast(c: Config, run: seq<Event>, s: State, w: Worker, es: seq<Event>, n: State, k: nat)
    requires Accepted(c) && Reaches(c, run, s) && !s.skewed && UndisturbedHit(c, s, w, es, n)
    ensures PcOf(n, w).outcome.Answer? && 1 <= PcOf(n, w).outcome.result.resetAfterSeconds <= c.windowSeconds
    ensures k < PcOf(n, w).outcome.result.resetAfterSeconds <==>
            forall id :: id in n.log && n.log[id].score > s.clock - 1000 * c.windowSeconds ==>
              s.clock + 1000 * k < n.log[id].score + 1000 * c.windowSeconds
  {
    UndisturbedAnswer(c, run, s, w, es, n);
    ReachableInv(c, run, s);
    ReachableClock(c, run, s);
    var first := OldestAfterTheHit(c, s.log, s.clock, w, n.log);
    LowestDecides(n.log, s.clock, s.clock + 1000 * k, 1000 * c.windowSeconds, first);
  }
}
