/**
 The duplicate-request lock: SET NX with an expiry before the handler, and after it a DELETE that does not say
 whose lock it removes. The digest of a body is taken to be injective, so bodies themselves are the keys.
 */
module BodyLock {
  import opened Wrappers

  type Body = seq<bv8>
  type RequestId = nat

  /** 600 seconds. */
  const TTL_MS := 10 * 60 * 1000

  /** Redis stores the value "1"; the owner is history. */
  datatype Lock = Lock(owner: RequestId, expiresAt: int)

  datatype Active = Active(body: Body, setAt: int)

  /**
   `active` are the handlers between SET and DELETE. History: the requests that ever ran SET, the longest delay
   of a DELETE after its SET, and how many DELETEs removed a live lock of another request.
   */
  datatype State = State(
    clock: int, locks: map<Body, Lock>, active: map<RequestId, Active>,
    begun: set<RequestId>, slowest: int, stolen: nat)

  datatype Event = Tick(ms: nat) | Enter(id: RequestId, body: Body) | Leave(id: RequestId) | Raise(id: RequestId)

  const INITIAL := State(0, map[], map[], {}, 0, 0)

  predicate Locked(s: State, body: Body) {
    body in s.locks && s.clock < s.locks[body].expiresAt
  }

  predicate Enabled(s: State, e: Event) {
    match e
    case Tick(_) => true
    case Enter(id, _) => id !in s.begun
    case Leave(id) => id in s.active
    case Raise(id) => id in s.active
  }

  function Next(s: State, e: Event): State
    requires Enabled(s, e)
  {
    match e
    case Tick(ms) => s.(clock := s.clock + ms)
    case Enter(id, body) =>
      if Locked(s, body) then s.(begun := s.begun + {id})
      else s.(begun := s.begun + {id},
              locks := s.locks[body := Lock(id, s.clock + TTL_MS)],
              active := s.active[id := Active(body, s.clock)])
    case Leave(id) =>
      var body := s.active[id].body;
      s.(locks := s.locks - {body},
         active := s.active - {id},
         slowest := Max(s.slowest, s.clock - s.active[id].setAt),
         stolen := s.stolen + (if Locked(s, body) && s.locks[body].owner != id then 1 else 0))
    case Raise(id) => s.(active := s.active - {id})
  }

  function Play(es: seq<Event>): Option<State> {
    if es == [] then Some(INITIAL)
    else
      var before := Play(es[..|es| - 1]);
      var e := es[|es| - 1];
      if before.Some? && Enabled(before.value, e) then Some(Next(before.value, e)) else None
  }

  // ---------------------------------------------------------------- mutual exclusion

  /** A handler whose lock cannot have expired yet: less than 600 seconds after its SET. */
  predicate Young(s: State, id: RequestId) {
    id in s.active && s.clock < s.active[id].setAt + 600000
  }

  /** Every young handler owns the lock of its body. */
  ghost predicate Owned(s: State) {
    && (forall id :: id in s.active ==> id in s.begun)
    && (forall id :: Young(s, id) ==>
          s.active[id].body in s.locks
          && s.locks[s.active[id].body] == Lock(id, s.active[id].setAt + 600000))
  }

  lemma StepKeepsOwned(s: State, e: Event)
    requires Owned(s) && s.stolen == 0 && Enabled(s, e) && Next(s, e).slowest < 600000
    ensures Owned(Next(s, e)) && Next(s, e).stolen == 0
  {
  }

  lemma {:induction false} RunKeepsOwned(es: seq<Event>)
    requires Play(es).Some? && Play(es).value.slowest < 600000
    ensures Owned(Play(es).value) && Play(es).value.stolen == 0
  {
    if es != [] {
      assert Play(es[..|es| - 1]).value.slowest <= Play(es).value.slowest;
      RunKeepsOwned(es[..|es| - 1]);
      StepKeepsOwned(Play(es[..|es| - 1]).value, es[|es| - 1]);
    }
  }

  /** At most one young handler per body, and no DELETE ever removed another request's lock. */
  ghost predicate Exclusive(s: State) {
    && s.stolen == 0
    && (forall i, j :: Young(s, i) && Young(s, j) && s.active[i].body == s.active[j].body ==> i == j)
  }

  /** Every run whose DELETEs come at most `delay` ms after their SET is exclusive; handlers that raise are free. */
  ghost predicate SafeFor(delay: int) {
    forall es :: Play(es).Some? && Play(es).value.slowest <= delay ==> Exclusive(Play(es).value)
  }

  /** The lock works for exactly those delays that are shorter than its expiry. */
  lemma ExclusiveIffDeleteBeforeExpiry(delay: nat)
    ensures SafeFor(delay) <==> delay < 600000
  {
    if delay < 600000 {
      forall es | Play(es).Some? && Play(es).value.slowest <= delay
        ensures Exclusive(Play(es).value)
      {
        RunKeepsOwned(es);
      }
    } else {
      var es, s := LateDelete(delay);
      assert !Exclusive(s);
    }
  }

  lemma Then(es: seq<Event>, s: State, e: Event) returns (run: seq<Event>, n: State)
    requires Play(es) == Some(s) && Enabled(s, e)
    ensures Play(run) == Some(n) && n == Next(s, e)
  {
    run, n := es + [e], Next(s, e);
    assert run[..|es|] == es;
  }

  /**
   A duplicate is turned away exactly while the lock of its body lives: from a SET for 600 seconds, but for a DELETE
   by whoever finished a request with that body. A handler that raises leaves the lock alone.
   */
  lemma LockLifetime(s: State, id: RequestId, body: Body, later: int)
    requires Enabled(s, Enter(id, body)) && s.clock <= later
    ensures var n := Next(s, Enter(id, body));
            && (Locked(s, body) ==> n.locks == s.locks && n.active == s.active)
            && (!Locked(s, body) ==>
                  && n.active == s.active[id := Active(body, s.clock)]
                  && (Locked(n.(clock := later), body) <==> later < s.clock + 600000)
                  && (forall other :: other != body ==>
                        (Locked(n.(clock := later), other) <==> Locked(s.(clock := later), other)))
                  && Next(n, Raise(id)).locks == n.locks
                  && (forall other :: Locked(Next(n, Leave(id)), other) <==> Locked(n, other) && other != body))
  {
  }

  /** The late DELETE of request 0 removes the lock of request 1, and request 2 enters beside it. */
  lemma LateDelete(delay: nat) returns (es: seq<Event>, s: State)
    requires delay >= 600000
    ensures Play(es) == Some(s) && s.slowest == delay && s.stolen == 1
    ensures Young(s, 1) && Young(s, 2) && s.active[1].body == s.active[2].body
  {
    es, s := Then([], INITIAL, Enter(0, [1]));
    es, s := Then(es, s, Tick(delay));
    es, s := Then(es, s, Enter(1, [1]));
    es, s := Then(es, s, Leave(0));
    es, s := Then(es, s, Enter(2, [1]));
  }

  // ---------------------------------------------------------------- the middleware

  datatype Request = Request(id: RequestId, method_: string, body: Body)

  datatype Handler = Responds(status: int) | Raises

  datatype Reply = FromHandler(status: int) | Conflict(status: int) | Propagated

  predicate IsWrite(method_: string) {
    method_ in {"PUT", "POST", "PATCH", "DELETE"}
  }

  predicate About(e: Event, id: RequestId) {
    !e.Tick? && e.id == id
  }

  class LockServer {
    var state: State
    var schedule: seq<seq<Event>>
    ghost var history: seq<Event>

    ghost predicate Valid()
      reads this
    {
      Play(history) == Some(state)
    }

    constructor (schedule: seq<seq<Event>>)
      ensures Valid() && state == INITIAL && history == [] && this.schedule == schedule
    {
      state, this.schedule, history := INITIAL, schedule, [];
    }

    method Perform(e: Event)
      requires Valid() && Enabled(state, e)
      modifies this`state, this`history
      ensures Valid() && state == Next(old(state), e) && history == old(history) + [e]
    {
      state, history := Next(state, e), history + [e];
      assert history[..|history| - 1] == old(history);
    }

    /** What time and other requests do meanwhile, from an arbitrary schedule. */
    method Interleave(id: RequestId)
      requires Valid()
      modifies this
      ensures Valid() && old(history) <= history
      ensures id in state.begun <==> old(id in state.begun)
      ensures id in state.active <==> old(id in state.active)
      ensures id in state.active ==> state.active[id] == old(state).active[id]
    {
      if schedule != [] {
        var batch := schedule[0];
        schedule := schedule[1..];
        for i := 0 to |batch|
          invariant Valid() && old(history) <= history
          invariant id in state.begun <==> old(id in state.begun)
          invariant id in state.active <==> old(id in state.active)
          invariant id in state.active ==> state.active[id] == old(state).active[id]
        {
          if !About(batch[i], id) && Enabled(state, batch[i]) {
            Perform(batch[i]);
          }
        }
      }
    }
  }

  /**
   One request through the middleware. A read or an empty body never touches the lock. Otherwise the request runs
   exactly one SET; it is answered 409 exactly if that found the lock taken; and a handler that responds is
   followed by the DELETE, while one that raises leaves the lock to expire.
   */
  method Dispatch(server: LockServer, request: Request, handler: Handler)
    returns (reply: Reply, ghost atSet: State, ghost atEnd: State)
    requires server.Valid() && request.id !in server.state.begun && request.id !in server.state.active
    modifies server
    ensures server.Valid() && old(server.history) <= server.history && request.id !in server.state.active
    ensures request.id in server.state.begun
            <==> request.method_ in ["POST", "PUT", "PATCH", "DELETE"] && |request.body| > 0
    ensures request.id !in server.state.begun ==>
              reply == match handler case Responds(status) => FromHandler(status) case Raises => Propagated
    ensures request.id in server.state.begun ==>
              && (exists n :: |old(server.history)| <= n < |server.history|
                              && server.history[n] == Enter(request.id, request.body)
                              && Play(server.history[..n]) == Some(atSet))
              && Enabled(atSet, Enter(request.id, request.body))
              && (reply.Conflict? <==> Locked(atSet, request.body)) && (reply.Conflict? ==> reply.status == 409)
              && (reply.Conflict? ==> server.state == Next(atSet, Enter(request.id, request.body)))
              && (!reply.Conflict? ==>
                    && request.id in atEnd.active && atEnd.active[request.id] == Active(request.body, atSet.clock)
                    && (handler.Responds? ==>
                          reply == FromHandler(handler.status) && server.state == Next(atEnd, Leave(request.id)))
                    && (handler.Raises? ==> reply == Propagated && server.state == Next(atEnd, Raise(request.id))))
  {
    server.Interleave(request.id);
    atSet, atEnd := server.state, server.state;
    if !IsWrite(request.method_) || request.body == [] {
      match handler {
        case Responds(status) => return FromHandler(status), atSet, atEnd;
        case Raises => return Propagated, atSet, atEnd;
      }
    }
    ghost var n := |server.history|;
    ghost var before := server.history;
    var locked := !Locked(server.state, request.body);
    server.Perform(Enter(request.id, request.body));
    assert server.history[n] == Enter(request.id, request.body) && server.history[..n] == before;
    if !locked {
      return Conflict(409), atSet, atEnd;
    }
    server.Interleave(request.id);
    assert server.history[n] == Enter(request.id, request.body) && server.history[..n] == before;
    atEnd := server.state;
    match handler {
      case Responds(status) =>
        server.Perform(Leave(request.id));
        reply := FromHandler(status);
      case Raises =>
        server.Perform(Raise(request.id));
        reply := Propagated;
    }
    assert server.history[n] == Enter(request.id, request.body) && server.history[..n] == before;
  }
}
