/** `BaseAsyncHttpConnector.request`, reduced to its use of the breaker: allow, call, record. */
module Connector {
  import opened CircuitBreaker
  import opened CircuitBreakerRuns

  /** How the HTTP client ends: a response, one of the timeout exceptions, or any other exception. */
  datatype Reply = Response(status: int) | TimedOut | Failed

  datatype Result = Responded(status: int) | CircuitOpen | TimeoutResult | Reraised

  function OutcomeOf(reply: Reply): Outcome {
    match reply
    case Response(status) => if status >= 500 || status == 429 then Bad else Good
    case TimedOut => Bad
    case Failed => Raised
  }

  /** Timeouts, 429 and 5xx count towards OPEN; any other response clears the count; other exceptions do nothing. */
  lemma WhatCounts(c: Config, b: Breaker, start: int, finish: int, reply: Reply)
    requires c.enabled && b.Closed? && b.failures >= 0 && start <= finish < b.expiresAt
    ensures var after := BreakerAfter(c, b, Exchange(start, finish, OutcomeOf(reply)));
            var counts := reply.TimedOut? || (reply.Response? && (reply.status == 429 || 500 <= reply.status));
            && (counts ==> (after.Open? || after.Closed?) && after.failures >= 1 && after.lastMs == finish)
            && (reply.Response? && !counts ==> after.Closed? && after.failures == 0)
            && (reply.Failed? ==> after == b)
  {
  }

  /** The calls take place one after another between `from` and `to`. */
  ghost predicate InOrder(calls: seq<Call>, from: int, to: int) {
    && from <= to
    && (forall i :: 0 <= i < |calls| ==> from <= calls[i].at <= to)
    && (forall i, j :: 0 <= i < j < |calls| ==> calls[i].at <= calls[j].at)
  }

  /** Two states that Redis shows alike stay alike. */
  lemma LiveStays(a: Breaker, b: Breaker, now: int, later: int)
    requires now <= later && Live(a, now) == Live(b, now)
    ensures Live(a, later) == Live(b, later)
  {
  }

  lemma CalledSeesLive(c: Config, a: Breaker, b: Breaker, call: Call)
    requires Live(a, call.at) == Live(b, call.at)
    ensures Live(Called(c, a, call), call.at) == Live(Called(c, b, call), call.at)
  {
  }

  lemma RecordSeesLive(c: Config, a: Breaker, b: Breaker, now: int, outcome: Outcome)
    requires Live(a, now) == Live(b, now)
    ensures Live(Record(c, a, now, outcome), now) == Live(Record(c, b, now, outcome), now)
  {
  }

  class BaseAsyncHttpConnector {
    const breaker: RedisCircuitBreaker
    var httpCalls: nat

    constructor (breaker: RedisCircuitBreaker)
      ensures this.breaker == breaker && httpCalls == 0
    {
      this.breaker, httpCalls := breaker, 0;
    }

    /** A whole call that some other client of the breaker makes. */
    method OtherClient(call: Call)
      requires breaker.redis.Valid() && breaker.redis.now <= call.at
      modifies breaker.redis
      ensures breaker.redis.Valid() && breaker.redis.now == call.at
      ensures Live(breaker.redis.State(), call.at)
              == Live(Called(breaker.config, old(breaker.redis.State()), call), call.at)
    {
      breaker.redis.now := call.at;
      match call {
        case AllowAt(_) =>
          var _, _ := breaker.AllowRequest();
        case FailureAt(_) =>
          var _ := breaker.RecordFailure();
        case SuccessAt(_) =>
          breaker.RecordSuccess();
      }
    }

    /** Waits `duration` ms for the HTTP client, while other clients call the breaker, which shows as `b`. */
    method Await(duration: nat, others: seq<Call>, ghost b: Breaker)
      requires breaker.redis.Valid() && InOrder(others, breaker.redis.now, breaker.redis.now + duration)
      requires Live(breaker.redis.State(), breaker.redis.now) == Live(b, breaker.redis.now)
      modifies breaker.redis
      ensures breaker.redis.Valid() && breaker.redis.now == old(breaker.redis.now) + duration
      ensures Live(breaker.redis.State(), breaker.redis.now)
              == Live(CalledAll(breaker.config, b, others), breaker.redis.now)
    {
      var start := breaker.redis.now;
      for i := 0 to |others|
        invariant breaker.redis.Valid() && breaker.redis.now == if i == 0 then start else others[i - 1].at
        invariant Live(breaker.redis.State(), breaker.redis.now)
                  == Live(CalledAll(breaker.config, b, others[..i]), breaker.redis.now)
      {
        ghost var state, expected := breaker.redis.State(), CalledAll(breaker.config, b, others[..i]);
        LiveStays(state, expected, breaker.redis.now, others[i].at);
        CalledSeesLive(breaker.config, state, expected, others[i]);
        assert others[..i + 1][..i] == others[..i];
        OtherClient(others[i]);
      }
      assert others[..|others|] == others;
      LiveStays(breaker.redis.State(), CalledAll(breaker.config, b, others), breaker.redis.now, start + duration);
      breaker.redis.now := start + duration;
    }

    /**
     One call that takes `duration` ms, during which other clients make the calls `others`: the HTTP client is
     reached exactly if the breaker admits, and the outcome is recorded on whatever the others have left. With no
     others the breaker moves as in one exchange of `CircuitBreakerRuns`.
     */
    method Request(reply: Reply, duration: nat, others: seq<Call>) returns (result: Result)
      requires breaker.redis.Valid() && InOrder(others, breaker.redis.now, breaker.redis.now + duration)
      modifies this`httpCalls, breaker.redis
      ensures breaker.redis.Valid()
      ensures var c, b, start := breaker.config, old(breaker.redis.State()), old(breaker.redis.now);
              var x := Exchange(start, start + duration, OutcomeOf(reply));
              var (asked, decision) := Allow(c, b, start);
              && httpCalls == old(httpCalls) + (if decision.allowed then 1 else 0)
              && (result.CircuitOpen? <==> !decision.allowed)
              && (decision.allowed ==> result == match reply
                                                 case Response(status) => Responded(status)
                                                 case TimedOut => TimeoutResult
                                                 case Failed => Reraised)
              && breaker.redis.now == (if decision.allowed then x.finish else start)
              && var after := if decision.allowed then Record(c, CalledAll(c, asked, others), x.finish, x.outcome)
                              else asked;
              && Live(breaker.redis.State(), breaker.redis.now) == Live(after, breaker.redis.now)
              && (others == [] ==> after == BreakerAfter(c, b, x))
    {
      var decision, _ := breaker.AllowRequest();
      if !decision.allowed {
        return CircuitOpen;
      }
      httpCalls := httpCalls + 1;
      ghost var asked := Allow(breaker.config, old(breaker.redis.State()), breaker.redis.now).0;
      Await(duration, others, asked);
      RecordSeesLive(breaker.config, breaker.redis.State(), CalledAll(breaker.config, asked, others),
                     breaker.redis.now, OutcomeOf(reply));
      match reply {
        case TimedOut =>
          var _ := breaker.RecordFailure();
          return TimeoutResult;
        case Failed =>
          return Reraised;
        case Response(status) =>
          result := Responded(status);
          if status >= 500 || status == 429 {
            var _ := breaker.RecordFailure();
          } else {
            breaker.RecordSuccess();
          }
      }
    }
  }
}
