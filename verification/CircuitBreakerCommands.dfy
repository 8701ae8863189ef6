/**
 The breaker per Redis command: clients interleave inside their calls, so two of them may both see an elapsed
 OPEN and both reset the probe counter. Each program counter names the command its client issues next.
 */
module CircuitBreakerCommands {
  import opened Wrappers
  import opened CircuitBreaker

  type Client = nat

  datatype Pc =
    | Idle
    | AllowMode | AllowDeadline | AllowReset | AllowCount
    | FailureMode
    | FailureTime(now: int)
    | FailureCount(now: int, lastMs: int)
    | FailureOpen(now: int, failures: int)
    | FailureKeep(now: int, failures: int)
    | SuccessMode | SuccessCount | SuccessClear
    | SetTtl(next: Pc)

  /**
   `counted`, `admitted` and `zeroed` are history: HINCRBYs of the probe counter, odd answers, and zeroings; so are
   the last `answers` of `allow_request`.
   */
  datatype State = State(
    clock: int, fields: Fields, expiresAt: Option<int>, pcs: map<Client, Pc>,
    counted: nat, admitted: nat, zeroed: nat, answers: map<Client, Decision>)

  datatype Event =
    | Tick(ms: nat)
    | ExpireKey
    | Call(client: Client, pc: Pc)
    | Step(client: Client)

  function PcOf(s: State, client: Client): Pc {
    if client in s.pcs then s.pcs[client] else Idle
  }

  predicate Enabled(s: State, e: Event) {
    match e
    case Tick(_) => true
    case ExpireKey => s.expiresAt.Some? && s.expiresAt.value <= s.clock
    case Call(client, pc) => PcOf(s, client).Idle? && (pc.AllowMode? || pc.FailureMode? || pc.SuccessMode?)
    case Step(client) => !PcOf(s, client).Idle?
  }

  function At(s: State, client: Client, pc: Pc): State {
    s.(pcs := s.pcs[client := pc])
  }

  /** `allow_request` returns. */
  function Answered(s: State, client: Client, decision: Decision): State {
    At(s, client, Idle).(answers := s.answers[client := decision])
  }

  function HSet(s: State, update: Fields): State {
    s.(fields := Written(s.fields, update), zeroed := s.zeroed + (if update.halfOpenRequests == Some(0) then 1 else 0))
  }

  function Counter(f: Option<int>): int {
    if f.None? then 0 else f.value
  }

  function ModeOf(s: State): Mode {
    if s.fields.mode.None? then CLOSED else s.fields.mode.value
  }

  function Command(c: Config, s: State, client: Client): State
    requires !PcOf(s, client).Idle?
  {
    match PcOf(s, client)
    case AllowMode =>
      if ModeOf(s) == CLOSED then Answered(s, client, Decision(true, CLOSED))
      else At(s, client, if ModeOf(s) == OPEN then AllowDeadline else AllowCount)
    case AllowDeadline =>
      var until := s.fields.openUntilMs;
      // A missing deadline raises, and the handler lets the request pass.
      if until.None? then Answered(s, client, Decision(true, CLOSED))
      else if s.clock < until.value then Answered(s, client, Decision(false, OPEN))
      else At(s, client, AllowReset)
    case AllowReset =>
      At(HSet(s, NOTHING.(mode := Some(HALF_OPEN), halfOpenSuccesses := Some(0), halfOpenRequests := Some(0))),
         client, SetTtl(AllowCount))
    case AllowCount =>
      var number := Counter(s.fields.halfOpenRequests) + 1;
      Answered(s.(fields := s.fields.(halfOpenRequests := Some(number)), counted := s.counted + 1,
                  admitted := s.admitted + (if number % 2 == 1 then 1 else 0)),
               client, Decision(number % 2 == 1, HALF_OPEN))
    case FailureMode =>
      At(s, client, if ModeOf(s) == HALF_OPEN then FailureOpen(s.clock, c.timeoutThreshold) else FailureTime(s.clock))
    case FailureTime(now) =>
      At(s, client, if s.fields.lastTimeoutMs.None? then Idle else FailureCount(now, s.fields.lastTimeoutMs.value))
    case FailureCount(now, lastMs) =>
      if s.fields.failureCount.None? then At(s, client, Idle)
      else
        var failures := if now - lastMs > c.timeoutWindowSeconds * 1000 then 1 else s.fields.failureCount.value + 1;
        At(s, client, if failures >= c.timeoutThreshold then FailureOpen(now, failures) else FailureKeep(now, failures))
    case FailureOpen(now, failures) =>
      At(HSet(s, Fields(Some(OPEN), Some(OrThreshold(c, failures)), Some(now),
                        Some(now + c.openSeconds * 1000), Some(0), Some(0))),
         client, SetTtl(Idle))
    case FailureKeep(now, failures) =>
      At(HSet(s, NOTHING.(mode := Some(CLOSED), failureCount := Some(failures), lastTimeoutMs := Some(now))),
         client, SetTtl(Idle))
    case SuccessMode =>
      At(s, client, if ModeOf(s) == HALF_OPEN then SuccessCount else SuccessClear)
    case SuccessCount =>
      var successes := Counter(s.fields.halfOpenSuccesses) + 1;
      At(s.(fields := s.fields.(halfOpenSuccesses := Some(successes))), client,
         if successes < c.halfOpenSuccessThreshold then Idle else SuccessClear)
    case SuccessClear =>
      At(HSet(s, Fields(Some(CLOSED), Some(0), Some(0), None, Some(0), Some(0))), client, SetTtl(Idle))
    case SetTtl(next) =>
      // EXPIRE on a key that is already gone does nothing.
      At(s.(expiresAt := if s.fields == NOTHING then s.expiresAt else Some(s.clock + TtlMs(c))), client, next)
  }

  function Next(c: Config, s: State, e: Event): State
    requires Enabled(s, e)
  {
    match e
    case Tick(ms) => s.(clock := s.clock + ms)
    case ExpireKey => s.(fields := NOTHING, expiresAt := None, zeroed := s.zeroed + 1)
    case Call(client, pc) => At(s, client, pc)
    case Step(client) => Command(c, s, client)
  }

  function Play(c: Config, s: State, es: seq<Event>): Option<State> {
    if es == [] then Some(s)
    else
      var before := Play(c, s, es[..|es| - 1]);
      var e := es[|es| - 1];
      if before.Some? && Enabled(before.value, e) then Some(Next(c, before.value, e)) else None
  }

  /** Since the last zeroing the odd answers lead the even ones by at most one. */
  ghost predicate HalfAdmitted(s: State) {
    && 0 <= Counter(s.fields.halfOpenRequests)
    && 2 * s.admitted + (if Counter(s.fields.halfOpenRequests) % 2 == 0 then 1 else 0) <= s.counted + s.zeroed
  }

  lemma StepKeepsHalf(c: Config, s: State, e: Event)
    requires Enabled(s, e) && HalfAdmitted(s)
    ensures HalfAdmitted(Next(c, s, e))
  {
  }

  lemma {:induction false} RunKeepsHalf(c: Config, s: State, es: seq<Event>)
    requires Play(c, s, es).Some? && HalfAdmitted(s)
    ensures HalfAdmitted(Play(c, s, es).value)
  {
    if es != [] {
      RunKeepsHalf(c, s, es[..|es| - 1]);
      StepKeepsHalf(c, Play(c, s, es[..|es| - 1]).value, es[|es| - 1]);
    }
  }

  /**
   From any state of the clients, a zeroing step followed by any interleaving: if the counter is zeroed `r` times
   in all and incremented `n` times, at most (n + r) / 2 of the increments admit.
   */
  lemma AdmittedPerCommand(c: Config, s: State, first: Event, es: seq<Event>)
    requires s.counted == s.admitted == s.zeroed == 0
    requires Enabled(s, first) && Next(c, s, first).zeroed == 1
    requires Play(c, Next(c, s, first), es).Some?
    ensures var t := Play(c, Next(c, s, first), es).value; t.admitted <= (t.counted + t.zeroed) / 2
  {
    assert HalfAdmitted(Next(c, s, first));
    RunKeepsHalf(c, Next(c, s, first), es);
  }

  /**
   In any state of the hash and of the other clients, the command that ends an `allow_request` refuses exactly if it
   finds a deadline still to come, or counts an even probe; a deadline that has meanwhile gone lets it pass.
   */
  lemma AnswerPerCommand(c: Config, s: State, client: Client)
    requires PcOf(s, client).AllowMode? || PcOf(s, client).AllowDeadline? || PcOf(s, client).AllowCount?
    requires PcOf(Command(c, s, client), client).Idle?
    ensures var n := Command(c, s, client);
            && client in n.answers
            && (!n.answers[client].allowed <==>
                  || (PcOf(s, client).AllowDeadline? && s.fields.openUntilMs.Some?
                      && s.clock < s.fields.openUntilMs.value)
                  || (PcOf(s, client).AllowCount? && Counter(s.fields.halfOpenRequests) % 2 == 1))
            && (forall other :: other != client && other in s.answers ==>
                  other in n.answers && n.answers[other] == s.answers[other])
  {
  }

  // ---------------------------------------------------------------- calls that nobody interrupts

  /** At most `n` commands of `client` in a row, up to the end of its call. */
  function Drive(c: Config, s: State, client: Client, n: nat): State
    decreases n
  {
    if n == 0 || PcOf(s, client).Idle? then s else Drive(c, Command(c, s, client), client, n - 1)
  }

  /** The hash holds no expired key, and what it holds means `b`. */
  ghost predicate Shows(s: State, b: Breaker) {
    && (s.expiresAt.Some? ==> s.clock < s.expiresAt.value)
    && WellFormed(s.fields, s.expiresAt) && Meaning(s.fields, s.expiresAt) == b
  }

  lemma DriveOne(c: Config, s: State, client: Client, n: nat)
    requires n > 0 && !PcOf(s, client).Idle?
    ensures Drive(c, s, client, n) == Drive(c, Command(c, s, client), client, n - 1)
  {
  }

  /** One probe of a half-open breaker. */
  lemma DriveProbe(c: Config, s: State, client: Client, b: Breaker, n: nat)
    requires Shows(s, b) && b.HalfOpen? && PcOf(s, client).AllowCount? && n > 0
    ensures var t := Drive(c, s, client, n);
            && PcOf(t, client).Idle? && Shows(t, b.(requests := b.requests + 1))
            && client in t.answers && t.answers[client] == Decision((b.requests + 1) % 2 == 1, HALF_OPEN)
            && t.counted == s.counted + 1
            && t.admitted == s.admitted + if (b.requests + 1) % 2 == 1 then 1 else 0
  {
    DriveOne(c, s, client, n);
  }

  /** The end of a cooldown: the reset and its new expiry. */
  lemma DriveReset(c: Config, s: State, client: Client, b: Breaker, n: nat)
    requires Shows(s, b) && b.Open? && PcOf(s, client).AllowReset? && n >= 2
    ensures var t := Command(c, Command(c, s, client), client);
            && Drive(c, s, client, n) == Drive(c, t, client, n - 2)
            && PcOf(t, client).AllowCount? && Shows(t, HalfOpen(0, 0, s.clock + TtlMs(c)))
            && t.counted == s.counted && t.admitted == s.admitted
  {
    DriveOne(c, s, client, n);
    DriveOne(c, Command(c, s, client), client, n - 1);
  }

  /** Run without interruption, `allow_request` is the whole-call step, with its answer, and it counts its probes. */
  lemma UninterruptedAllow(c: Config, s: State, client: Client, b: Breaker)
    requires c.enabled && Shows(s, b)
    ensures var t := Drive(c, At(s, client, AllowMode), client, 5);
            var (next, decision) := Allow(c, b, s.clock);
            && PcOf(t, client).Idle? && Shows(t, next) && client in t.answers && t.answers[client] == decision
            && t.counted - s.counted == (if decision.mode == HALF_OPEN then 1 else 0)
            && t.admitted - s.admitted == (if decision.mode == HALF_OPEN && decision.allowed then 1 else 0)
  {
    var t := At(s, client, AllowMode);
    DriveOne(c, t, client, 5);
    t := Command(c, t, client);
    if b.Open? {
      DriveOne(c, t, client, 4);
      t := Command(c, t, client);
      if s.clock >= b.untilMs {
        DriveReset(c, t, client, b, 3);
        DriveProbe(c, Command(c, Command(c, t, client), client), client, HalfOpen(0, 0, s.clock + TtlMs(c)), 1);
      }
    } else if b.HalfOpen? {
      DriveProbe(c, t, client, b, 4);
    }
  }

  /** `_open` and its expiry. */
  lemma DriveOpen(c: Config, s: State, client: Client, b: Breaker, failures: int, n: nat)
    requires Shows(s, b) && PcOf(s, client) == FailureOpen(s.clock, failures) && n >= 2
    ensures var t := Drive(c, s, client, n); PcOf(t, client).Idle? && Shows(t, Opened(c, failures, s.clock))
  {
    DriveOne(c, s, client, n);
    DriveOne(c, Command(c, s, client), client, n - 1);
  }

  /** The failure count is written back, below the threshold. */
  lemma DriveKeep(c: Config, s: State, client: Client, b: Breaker, failures: int, n: nat)
    requires Shows(s, b) && PcOf(s, client) == FailureKeep(s.clock, failures) && n >= 2
    ensures var t := Drive(c, s, client, n);
            PcOf(t, client).Idle? && Shows(t, Closed(failures, s.clock, s.clock + TtlMs(c)))
  {
    DriveOne(c, s, client, n);
    DriveOne(c, Command(c, s, client), client, n - 1);
  }

  lemma DriveCount(c: Config, s: State, client: Client, b: Breaker)
    requires Shows(s, b) && (b.Closed? || b.Open?) && PcOf(s, client) == FailureCount(s.clock, b.lastMs)
    ensures var t := Drive(c, s, client, 3);
            PcOf(t, client).Idle? && Shows(t, Counted(c, b.failures, b.lastMs, s.clock))
  {
    DriveOne(c, s, client, 3);
    var t := Command(c, s, client);
    var failures := if s.clock - b.lastMs > c.timeoutWindowSeconds * 1000 then 1 else b.failures + 1;
    if failures >= c.timeoutThreshold {
      DriveOpen(c, t, client, b, failures, 2);
    } else {
      DriveKeep(c, t, client, b, failures, 2);
    }
  }

  /** Run without interruption, `record_failure` is the whole-call step. */
  lemma UninterruptedFailure(c: Config, s: State, client: Client, b: Breaker)
    requires c.enabled && Shows(s, b)
    ensures var t := Drive(c, At(s, client, FailureMode), client, 5);
            PcOf(t, client).Idle? && Shows(t, Failure(c, b, s.clock))
  {
    var t := At(s, client, FailureMode);
    DriveOne(c, t, client, 5);
    t := Command(c, t, client);
    if b.HalfOpen? {
      DriveOpen(c, t, client, b, c.timeoutThreshold, 4);
    } else {
      DriveOne(c, t, client, 4);
      t := Command(c, t, client);
      if !b.Absent? {
        DriveCount(c, t, client, b);
      }
    }
  }

  /** The success clears the hash, or seeds it. */
  lemma DriveClear(c: Config, s: State, client: Client, b: Breaker, n: nat)
    requires Shows(s, b) && PcOf(s, client).SuccessClear? && n >= 2
    ensures var t := Drive(c, s, client, n);
            PcOf(t, client).Idle? && Shows(t, Closed(0, 0, s.clock + TtlMs(c)))
  {
    DriveOne(c, s, client, n);
    DriveOne(c, Command(c, s, client), client, n - 1);
  }

  /** Run without interruption, `record_success` is the whole-call step. */
  lemma UninterruptedSuccess(c: Config, s: State, client: Client, b: Breaker)
    requires c.enabled && Shows(s, b)
    ensures var t := Drive(c, At(s, client, SuccessMode), client, 4);
            PcOf(t, client).Idle? && Shows(t, Success(c, b, s.clock))
  {
    var t := At(s, client, SuccessMode);
    DriveOne(c, t, client, 4);
    t := Command(c, t, client);
    if b.HalfOpen? {
      DriveOne(c, t, client, 3);
      t := Command(c, t, client);
      if b.successes + 1 >= c.halfOpenSuccessThreshold {
        DriveClear(c, t, client, b.(successes := b.successes + 1), 2);
      }
    } else {
      DriveClear(c, t, client, b, 3);
    }
  }
}
