/** What the breaker guarantees over whole runs of calls, made by any number of clients. */
module CircuitBreakerRuns {
  import opened Wrappers
  import opened CircuitBreaker

  datatype Call = AllowAt(at: int) | FailureAt(at: int) | SuccessAt(at: int)

  function Called(c: Config, b: Breaker, call: Call): Breaker {
    match call
    case AllowAt(now) => Allow(c, b, now).0
    case FailureAt(now) => Failure(c, b, now)
    case SuccessAt(now) => Success(c, b, now)
  }

  function CalledAll(c: Config, b: Breaker, calls: seq<Call>): Breaker {
    if calls == [] then b else Called(c, CalledAll(c, b, calls[..|calls| - 1]), calls[|calls| - 1])
  }

  // ---------------------------------------------------------------- runs with their history

  /** What happened since HALF_OPEN was last entered. */
  datatype Episode = Episode(asked: nat, admitted: nat, succeeded: nat)

  /**
   The breaker and its history: the current or last half-open episode; the time of the failure that opened the
   breaker, as long as it is open; and the time of the last call that renewed the expiry of the hash.
   */
  datatype World = World(breaker: Breaker, episode: Episode, openedAt: Option<int>, renewedAt: Option<int>)

  /** Failures on a present hash, successes but those that leave HALF_OPEN as it is, and the end of a cooldown. */
  predicate Renews(c: Config, w: World, call: Call) {
    var live := Live(w.breaker, call.at);
    match call
    case AllowAt(now) => live.Open? && w.openedAt.Some? && w.openedAt.value + 1000 * c.openSeconds <= now
    case FailureAt(_) => !live.Absent?
    case SuccessAt(_) => live.HalfOpen? ==> w.episode.succeeded + 1 >= c.halfOpenSuccessThreshold
  }

  function Step(c: Config, w: World, call: Call): World {
    var live, next := Live(w.breaker, call.at), Called(c, w.breaker, call);
    var probed := if call.AllowAt? && Allow(c, w.breaker, call.at).1.allowed then 1 else 0;
    var episode :=
      if live.HalfOpen? then
        Episode(w.episode.asked + (if call.AllowAt? then 1 else 0),
                w.episode.admitted + probed,
                w.episode.succeeded + (if call.SuccessAt? then 1 else 0))
      else if next.HalfOpen? then Episode(1, probed, 0)
      else w.episode;
    var openedAt := if !next.Open? then None else if call.FailureAt? then Some(call.at) else w.openedAt;
    var renewedAt :=
      if Renews(c, w, call) then Some(call.at) else if live.Absent? then None else w.renewedAt;
    World(next, episode, openedAt, renewedAt)
  }

  function Run(c: Config, w: World, calls: seq<Call>): World {
    if calls == [] then w else Step(c, Run(c, w, calls[..|calls| - 1]), calls[|calls| - 1])
  }

  const FRESH := World(Absent, Episode(0, 0, 0), None, None)

  // ---------------------------------------------------------------- what is refused, and how long the hash lives

  /** The deadline and the expiry are those that the history gives. */
  ghost predicate HistoryOk(c: Config, w: World) {
    && (w.breaker.Open? <==> w.openedAt.Some?)
    && (w.breaker.Open? ==>
          w.breaker.untilMs == w.openedAt.value + 1000 * c.openSeconds && w.openedAt == w.renewedAt)
    && (w.breaker.Absent? <==> w.renewedAt.None?)
    && (!w.breaker.Absent? ==>
          w.breaker.expiresAt == w.renewedAt.value + 2000 * Max(Max(c.timeoutWindowSeconds, c.openSeconds), 1))
  }

  lemma StepKeepsHistory(c: Config, w: World, call: Call)
    requires c.enabled && HistoryOk(c, w) && EpisodeOk(c, w)
    ensures HistoryOk(c, Step(c, w, call))
  {
  }

  lemma {:induction false} RunKeepsHistory(c: Config, calls: seq<Call>)
    requires c.enabled
    ensures HistoryOk(c, Run(c, FRESH, calls)) && EpisodeOk(c, Run(c, FRESH, calls))
  {
    if calls != [] {
      var front := calls[..|calls| - 1];
      RunKeepsHistory(c, front);
      StepKeepsHistory(c, Run(c, FRESH, front), calls[|calls| - 1]);
      StepKeepsEpisode(c, Run(c, FRESH, front), calls[|calls| - 1]);
    }
  }

  /**
   In every run of whole calls from an empty hash, a request is refused exactly if it falls into the cooldown of
   the failure that opened the breaker, or is an even probe of a half-open episode. The hash is there exactly
   until two of the longer of window and cooldown (and at least two seconds) after the last call that renewed it.
   */
  lemma RefusedOnlyInCooldownOrAsEvenProbe(c: Config, calls: seq<Call>, now: int)
    requires c.enabled
    ensures var w := Run(c, FRESH, calls);
            var (next, decision) := Allow(c, w.breaker, now);
            && (!decision.allowed <==>
                  || (w.openedAt.Some? && now < w.openedAt.value + 1000 * c.openSeconds)
                  || (Live(w.breaker, now).HalfOpen? && w.episode.asked % 2 == 1))
            && (decision.mode.OPEN? <==> w.openedAt.Some? && now < w.openedAt.value + 1000 * c.openSeconds)
            && (decision.mode.HALF_OPEN? <==> next.HalfOpen?)
    ensures var w := Run(c, FRESH, calls);
            !Live(w.breaker, now).Absent? <==>
            && w.renewedAt.Some?
            && now < w.renewedAt.value + 2000 * Max(Max(c.timeoutWindowSeconds, c.openSeconds), 1)
  {
    RunKeepsHistory(c, calls);
  }

  /** A success closes the breaker and clears its failures, unless HALF_OPEN needs more; it seeds an empty hash. */
  lemma SuccessCloses(c: Config, calls: seq<Call>, now: int)
    requires c.enabled
    ensures var w := Run(c, FRESH, calls);
            var n := Step(c, w, SuccessAt(now));
            if Live(w.breaker, now).HalfOpen? && w.episode.succeeded + 1 < c.halfOpenSuccessThreshold
            then n.breaker.HalfOpen? && n.episode.succeeded == w.episode.succeeded + 1
            else n.breaker.Closed? && n.breaker.failures == 0 && n.breaker.lastMs == 0 && n.renewedAt == Some(now)
  {
    RunKeepsHistory(c, calls);
  }

  /** In a state that is neither OPEN nor HALF_OPEN, no request is refused until a failure opens the breaker. */
  lemma {:induction false} NoRefusalUntilOpening(c: Config, b: Breaker, calls: seq<Call>, now: int)
    requires c.enabled && (b.Closed? || b.Absent?)
    requires forall i :: 0 <= i <= |calls| ==> !CalledAll(c, b, calls[..i]).Open?
    ensures CalledAll(c, b, calls).Closed? || CalledAll(c, b, calls).Absent?
    ensures Allow(c, CalledAll(c, b, calls), now).1 == Decision(true, CLOSED)
  {
    if calls != [] {
      var front := calls[..|calls| - 1];
      forall i | 0 <= i <= |front| ensures !CalledAll(c, b, front[..i]).Open? {
        assert front[..i] == calls[..i];
      }
      NoRefusalUntilOpening(c, b, front, now);
      assert calls[..|calls|] == calls;
    }
  }

  /** Switched off, the breaker never refuses, and never writes anything. */
  lemma {:induction false} DisabledNeverRefuses(c: Config, b: Breaker, calls: seq<Call>, now: int)
    requires !c.enabled
    ensures CalledAll(c, b, calls) == b && Allow(c, CalledAll(c, b, calls), now).1.allowed
  {
    if calls != [] {
      DisabledNeverRefuses(c, b, calls[..|calls| - 1], now);
    }
  }

  // ---------------------------------------------------------------- half-open episodes

  ghost predicate EpisodeOk(c: Config, w: World) {
    w.breaker.HalfOpen? ==>
      && w.breaker.requests == w.episode.asked
      && w.episode.admitted == (w.episode.asked + 1) / 2
      && w.breaker.successes == w.episode.succeeded < AtLeastOne(c.halfOpenSuccessThreshold)
  }

  lemma StepKeepsEpisode(c: Config, w: World, call: Call)
    requires c.enabled && EpisodeOk(c, w)
    ensures EpisodeOk(c, Step(c, w, call))
  {
  }

  /**
   In every run of whole calls from an empty hash, by any clients and at any times: in HALF_OPEN the number of
   admitted probes is half of those that asked, rounded up, and the success counter is the number of successes
   of this episode and below the threshold. A live HALF_OPEN becomes CLOSED exactly on the success that reaches
   the threshold and OPEN exactly on a failure.
   */
  lemma {:induction false} HalfOpenEpisodes(c: Config, calls: seq<Call>, call: Call)
    requires c.enabled
    ensures EpisodeOk(c, Run(c, FRESH, calls))
    ensures var w := Run(c, FRESH, calls);
            Live(w.breaker, call.at).HalfOpen? ==>
              && (Step(c, w, call).breaker.Closed? <==>
                    call.SuccessAt? && w.episode.succeeded + 1 == AtLeastOne(c.halfOpenSuccessThreshold))
              && (Step(c, w, call).breaker.Open? <==> call.FailureAt?)
              && (call.FailureAt? ==> Step(c, w, call).breaker.failures == c.timeoutThreshold)
              && !Step(c, w, call).breaker.Absent?
  {
    if calls != [] {
      HalfOpenEpisodes(c, calls[..|calls| - 1], call);
      StepKeepsEpisode(c, Run(c, FRESH, calls[..|calls| - 1]), calls[|calls| - 1]);
    }
  }

  // ---------------------------------------------------------------- the first success seeds the breaker

  /**
   Until the first recorded success an empty hash stays empty: every request is allowed as in CLOSED and every
   failure is lost, however many there are. After one it is never empty again, except by expiry.
   */
  lemma {:induction false} OnlySuccessSeeds(c: Config, calls: seq<Call>)
    requires c.enabled
    ensures (forall i :: 0 <= i < |calls| ==> !calls[i].SuccessAt?) ==>
              Run(c, FRESH, calls).breaker == Absent
              && forall now :: Allow(c, Run(c, FRESH, calls).breaker, now).1 == Decision(true, CLOSED)
  {
    if calls != [] {
      OnlySuccessSeeds(c, calls[..|calls| - 1]);
    }
  }

  /** Failures recorded at the given times, with nothing between them. */
  function FailuresAt(c: Config, b: Breaker, times: seq<int>): Breaker {
    if times == [] then b else Failure(c, FailuresAt(c, b, times[..|times| - 1]), times[|times| - 1])
  }

  /** The times do not decrease, and no gap is longer than the window. */
  ghost predicate Dense(times: seq<int>, windowMs: int) {
    forall i :: 0 < i < |times| ==> times[i - 1] <= times[i] <= times[i - 1] + windowMs
  }

  /**
   The documented promise, that `timeout_threshold` consecutive failures within the window of each other open
   the breaker, holds exactly when the hash is present at the first of them: for a breaker that is CLOSED or
   absent, whatever failures it has counted already.
   */
  lemma ThresholdFailuresOpenIffSeeded(c: Config, b: Breaker, times: seq<int>)
    requires c.enabled && (b.Absent? || (b.Closed? && b.failures >= 0))
    requires |times| == AtLeastOne(c.timeoutThreshold) && Dense(times, c.timeoutWindowSeconds * 1000)
    ensures FailuresAt(c, b, times).Open? <==> !Live(b, times[0]).Absent?
  {
    FailuresAddUp(c, b, times);
  }

  lemma {:induction false} FailuresAddUp(c: Config, b: Breaker, times: seq<int>)
    requires c.enabled && (b.Absent? || (b.Closed? && b.failures >= 0))
    requires times != [] && Dense(times, c.timeoutWindowSeconds * 1000)
    ensures Live(b, times[0]).Absent? ==> FailuresAt(c, b, times) == Absent
    ensures !Live(b, times[0]).Absent? ==>
              var f, last := FailuresAt(c, b, times), times[|times| - 1];
              && (f.Open? || f.Closed?) && f.lastMs == last && f.expiresAt == last + TtlMs(c)
              && f.failures == |times| + (if times[0] - b.lastMs > c.timeoutWindowSeconds * 1000 then 0 else b.failures)
              && (f.Closed? ==> f.failures < c.timeoutThreshold)
              && (f.Open? ==> f.failures >= AtLeastOne(c.timeoutThreshold))
  {
    var front := times[..|times| - 1];
    if front == [] {
      assert FailuresAt(c, b, times) == Failure(c, b, times[0]);
    } else {
      FailuresAddUp(c, b, front);
    }
  }

  // ---------------------------------------------------------------- cooldown

  /** Clients sharing one breaker: how many admitted calls have not been recorded, how many were admitted. */
  datatype Clients = Clients(breaker: Breaker, outstanding: nat, admitted: nat)

  datatype Outcome = Good | Bad | Raised

  datatype Move = Request(at: int) | Finish(at: int, outcome: Outcome)

  function Record(c: Config, b: Breaker, now: int, outcome: Outcome): Breaker {
    match outcome
    case Good => Success(c, b, now)
    case Bad => Failure(c, b, now)
    case Raised => b
  }

  /** A request that is refused stops there; one that is admitted finishes in a later move. */
  function Moved(c: Config, s: Clients, m: Move): Clients {
    match m
    case Request(now) =>
      var (next, decision) := Allow(c, s.breaker, now);
      if decision.allowed then Clients(next, s.outstanding + 1, s.admitted + 1) else s.(breaker := next)
    case Finish(now, outcome) =>
      if s.outstanding == 0 then s
      else Clients(Record(c, s.breaker, now, outcome), s.outstanding - 1, s.admitted)
  }

  function MovedAll(c: Config, s: Clients, moves: seq<Move>): Clients {
    if moves == [] then s else Moved(c, MovedAll(c, s, moves[..|moves| - 1]), moves[|moves| - 1])
  }

  /** The breaker as it is right after it opened at `since`. */
  predicate OpenedAt(c: Config, b: Breaker, since: int) {
    b.Open? && b.untilMs == since + c.openSeconds * 1000 && b.expiresAt == since + TtlMs(c)
  }

  /** A failure is the only call that opens, and it opens for the whole cooldown. */
  lemma OnlyFailureOpens(c: Config, b: Breaker, call: Call)
    requires c.enabled && !Live(b, call.at).Open?
    ensures Called(c, b, call).Open? ==>
              Live(b, call.at) == b && call.FailureAt? && OpenedAt(c, Called(c, b, call), call.at)
  {
  }

  ghost predicate Within(moves: seq<Move>, from: int, to: int) {
    forall i :: 0 <= i < |moves| ==> from <= moves[i].at < to
  }

  /** Nothing is admitted before the cooldown ends. */
  ghost predicate CoolsDown(c: Config, s: Clients, since: int) {
    forall moves :: Within(moves, since, since + c.openSeconds * 1000)
                    ==> MovedAll(c, s, moves).admitted == s.admitted
  }

  lemma {:induction false} NoMoveInCooldown(c: Config, s: Clients, since: int, moves: seq<Move>)
    requires c.enabled && OpenedAt(c, s.breaker, since) && s.outstanding == 0
    requires Within(moves, since, since + c.openSeconds * 1000)
    ensures MovedAll(c, s, moves) == s
  {
    if moves != [] {
      NoMoveInCooldown(c, s, since, moves[..|moves| - 1]);
    }
  }

  /**
   A breaker that has just opened refuses every request of every client until the cooldown ends, its hash never
   expiring first, if and only if no admitted call was outstanding: a late success would close it again.
   */
  lemma CooldownIffNothingOutstanding(c: Config, s: Clients, since: int)
    requires c.enabled && OpenedAt(c, s.breaker, since) && c.openSeconds > 0
    ensures CoolsDown(c, s, since) <==> s.outstanding == 0
  {
    if s.outstanding == 0 {
      forall moves | Within(moves, since, since + c.openSeconds * 1000)
        ensures MovedAll(c, s, moves).admitted == s.admitted
      {
        NoMoveInCooldown(c, s, since, moves);
      }
    } else {
      var moves := [Finish(since, Good), Request(since)];
      assert moves[..1] == [Finish(since, Good)] && moves[..1][..0] == [];
      assert MovedAll(c, s, moves[..1]).breaker.Closed?;
      assert Within(moves, since, since + c.openSeconds * 1000);
      assert MovedAll(c, s, moves).admitted == s.admitted + 1;
    }
  }

  /** While the hash lives, the first request is refused exactly before the end of the cooldown. */
  lemma CooldownEndsOnTime(c: Config, b: Breaker, since: int, now: int)
    requires c.enabled && OpenedAt(c, b, since) && now < b.expiresAt
    ensures Allow(c, b, now).1.allowed <==> now >= since + c.openSeconds * 1000
    ensures since + c.openSeconds * 1000 < b.expiresAt
    ensures Allow(c, b, now).1.allowed ==> Allow(c, b, now).0 == HalfOpen(1, 0, now + TtlMs(c))
  {
  }

  // ---------------------------------------------------------------- the failure chain

  /** One connector call after another: asked at `start`, and if admitted recorded at `finish`. */
  datatype Exchange = Exchange(start: int, finish: int, outcome: Outcome)

  /** `recorded` lists the times of the failures recorded since the last success or the last lost hash. */
  datatype Caller = Caller(breaker: Breaker, recorded: seq<int>)

  function BreakerAfter(c: Config, b: Breaker, x: Exchange): Breaker {
    var (asked, decision) := Allow(c, b, x.start);
    if decision.allowed then Record(c, asked, x.finish, x.outcome) else asked
  }

  function Exchanged(c: Config, s: Caller, x: Exchange): Caller {
    var (asked, decision) := Allow(c, s.breaker, x.start);
    Caller(BreakerAfter(c, s.breaker, x),
           if !decision.allowed || x.outcome.Raised? then s.recorded
           else if x.outcome.Good? || Live(asked, x.finish).Absent? then []
           else s.recorded + [x.finish])
  }

  function ExchangedAll(c: Config, s: Caller, xs: seq<Exchange>): Caller {
    if xs == [] then s else Exchanged(c, ExchangedAll(c, s, xs[..|xs| - 1]), xs[|xs| - 1])
  }

  /** The length of the longest chain of failures at the end with no gap longer than `windowMs`. */
  function Chain(times: seq<int>, windowMs: int): nat {
    if times == [] then 0
    else if |times| == 1 || times[|times| - 1] - times[|times| - 2] > windowMs then 1
    else Chain(times[..|times| - 1], windowMs) + 1
  }

  lemma ChainGrows(times: seq<int>, now: int, windowMs: int)
    ensures times == [] ==> Chain(times + [now], windowMs) == 1
    ensures times != [] ==> Chain(times + [now], windowMs)
                            == if now - times[|times| - 1] > windowMs then 1 else Chain(times, windowMs) + 1
  {
  }

  ghost predicate ChainOk(c: Config, s: Caller) {
    s.breaker.Closed? ==>
      && s.breaker.failures == Chain(s.recorded, c.timeoutWindowSeconds * 1000) < AtLeastOne(c.timeoutThreshold)
      && s.breaker.lastMs == (if s.recorded == [] then 0 else s.recorded[|s.recorded| - 1])
  }

  /** A failure that is recorded at `now` continues the chain, and opens exactly if it completes it. */
  lemma FailureKeepsChain(c: Config, s: Caller, now: int)
    requires c.enabled && ChainOk(c, s) && !s.breaker.Open?
    ensures var n := Caller(Failure(c, s.breaker, now),
                            if Live(s.breaker, now).Absent? then [] else s.recorded + [now]);
            && ChainOk(c, n)
            && (Live(s.breaker, now).Closed? ==>
                  (n.breaker.Open?
                   <==> Chain(n.recorded, c.timeoutWindowSeconds * 1000) == AtLeastOne(c.timeoutThreshold)))
  {
    var windowMs, live := c.timeoutWindowSeconds * 1000, Live(s.breaker, now);
    ChainGrows(s.recorded, now, windowMs);
    if live.Closed? {
      assert Chain(s.recorded + [now], windowMs) == if now - live.lastMs > windowMs then 1 else live.failures + 1;
    }
  }

  lemma ExchangeKeepsChain(c: Config, s: Caller, x: Exchange)
    requires c.enabled && ChainOk(c, s)
    ensures ChainOk(c, Exchanged(c, s, x))
    ensures Live(s.breaker, x.start).Closed? && Live(s.breaker, x.finish).Closed? ==>
              (Exchanged(c, s, x).breaker.Open? <==>
                 x.outcome.Bad? && Chain(Exchanged(c, s, x).recorded, c.timeoutWindowSeconds * 1000)
                                   == AtLeastOne(c.timeoutThreshold))
  {
    var (asked, decision) := Allow(c, s.breaker, x.start);
    if decision.allowed && x.outcome.Bad? {
      FailureKeepsChain(c, s.(breaker := asked), x.finish);
    }
  }

  /**
   Calls made one at a time: in CLOSED the failure count is the length of the current chain of recorded
   failures, and a live CLOSED breaker opens exactly on the failure that brings the chain to the threshold.
   */
  lemma {:induction false} FailureCountIsTheChain(c: Config, xs: seq<Exchange>, x: Exchange)
    requires c.enabled
    ensures ChainOk(c, ExchangedAll(c, Caller(Absent, []), xs))
    ensures var s := ExchangedAll(c, Caller(Absent, []), xs);
            Live(s.breaker, x.start).Closed? && Live(s.breaker, x.finish).Closed? ==>
              (Exchanged(c, s, x).breaker.Open? <==>
                 x.outcome.Bad? && Chain(Exchanged(c, s, x).recorded, c.timeoutWindowSeconds * 1000)
                                   == AtLeastOne(c.timeoutThreshold))
  {
    if xs != [] {
      FailureCountIsTheChain(c, xs[..|xs| - 1], x);
      ExchangeKeepsChain(c, ExchangedAll(c, Caller(Absent, []), xs[..|xs| - 1]), xs[|xs| - 1]);
    }
    ExchangeKeepsChain(c, ExchangedAll(c, Caller(Absent, []), xs), x);
  }

  // ---------------------------------------------------------------- the cooldown of one caller

  /** The exchanges of `xs` that reach the HTTP client. */
  function Reaching(c: Config, s: Caller, xs: seq<Exchange>): nat {
    if xs == [] then 0
    else
      var front := xs[..|xs| - 1];
      Reaching(c, s, front)
      + (if Allow(c, ExchangedAll(c, s, front).breaker, xs[|xs| - 1].start).1.allowed then 1 else 0)
  }

  /**
   Calls made one at a time: once an admitted call has opened the breaker at its `finish`, no call that starts
   before the cooldown ends reaches the HTTP client or moves the breaker, and the first one after that, while the
   hash lives, does reach it.
   */
  lemma {:induction false} NothingReachedInCooldown(c: Config, s: Caller, x: Exchange, xs: seq<Exchange>, later: int)
    requires c.enabled && Allow(c, s.breaker, x.start).1.allowed && Exchanged(c, s, x).breaker.Open?
    requires forall i :: 0 <= i < |xs| ==> xs[i].start < x.finish + c.openSeconds * 1000
    ensures Reaching(c, Exchanged(c, s, x), xs) == 0
    ensures ExchangedAll(c, Exchanged(c, s, x), xs) == Exchanged(c, s, x)
    ensures x.finish + c.openSeconds * 1000 <= later < x.finish + TtlMs(c) ==>
              Allow(c, ExchangedAll(c, Exchanged(c, s, x), xs).breaker, later).1.allowed
  {
    var start := Exchanged(c, s, x);
    OnlyFailureOpens(c, Allow(c, s.breaker, x.start).0, FailureAt(x.finish));
    assert OpenedAt(c, start.breaker, x.finish);
    if later < x.finish + TtlMs(c) {
      CooldownEndsOnTime(c, start.breaker, x.finish, later);
    }
    if xs != [] {
      NothingReachedInCooldown(c, s, x, xs[..|xs| - 1], later);
    }
  }
}
