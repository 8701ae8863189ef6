/**
 `managed_session` and the callbacks it runs after a commit. Callbacks are registered on a list that the session's
 info dictionary and every handle share; after the commit the list is popped from the dictionary and iterated
 live, so a callback that registers another one through an older handle extends the loop that is running it.
 */
module ManagedSession {
  import opened Collections

  /** How a piece of user code or a session operation ends; `RaisesBase` is not caught by `except Exception`. */
  datatype Ending = Returns | RaisesException | RaisesBase

  /** A callback, with what it registers while it runs: through an older handle, or through a new one. */
  datatype Callback = Callback(id: nat, registers: seq<Registration>, ending: Ending)

  datatype Registration = Registration(olderHandle: bool, callback: Callback)

  datatype Mode = READ | WRITE | AUTO

  datatype Action = Commit | Rollback | Ran(callback: Callback) | Close

  /** What the caller does with the session, and how the session's own operations end. */
  datatype Script = Script(registers: seq<Callback>, body: Ending, commit: Ending, rollback: Ending, close: Ending)

  // ---------------------------------------------------------------- the live list

  /** The callbacks that `rs` puts at the end of the running list. */
  function Appended(rs: seq<Registration>): seq<Callback> {
    if rs == [] then []
    else (if rs[0].olderHandle then [rs[0].callback] else []) + Appended(rs[1..])
  }

  /** Just what is registered through an older handle, in the order of registration. */
  lemma {:induction false} AppendedGrows(rs: seq<Registration>, r: Registration)
    ensures Appended([]) == []
    ensures Appended(rs + [r]) == if r.olderHandle then Appended(rs) + [r.callback] else Appended(rs)
  {
    if rs == [] {
      assert [] + [r] == [r];
    } else {
      assert (rs + [r])[1..] == rs[1..] + [r];
      AppendedGrows(rs[1..], r);
    }
  }

  function Size(cb: Callback): nat
    decreases cb
  {
    1 + SizeOf(cb.registers)
  }

  function SizeOf(rs: seq<Registration>): nat
    decreases rs
  {
    if rs == [] then 0 else SizeOfOne(rs[0]) + SizeOf(rs[1..])
  }

  function SizeOfOne(r: Registration): nat
    decreases r
  {
    if r.olderHandle then Size(r.callback) else 0
  }

  function Pending(queue: seq<Callback>): nat {
    if queue == [] then 0 else Size(queue[0]) + Pending(queue[1..])
  }

  lemma {:induction false} PendingConcat(a: seq<Callback>, b: seq<Callback>)
    ensures Pending(a + b) == Pending(a) + Pending(b)
  {
    if a == [] {
      assert a + b == b;
    } else {
      assert (a + b)[1..] == a[1..] + b;
      PendingConcat(a[1..], b);
    }
  }

  lemma {:induction false} PendingAppended(rs: seq<Registration>)
    ensures Pending(Appended(rs)) == SizeOf(rs)
  {
    if rs != [] {
      PendingAppended(rs[1..]);
      PendingConcat(if rs[0].olderHandle then [rs[0].callback] else [], Appended(rs[1..]));
    }
  }

  lemma QueueShrinks(queue: seq<Callback>)
    requires queue != []
    ensures Pending(queue[1..] + Appended(queue[0].registers)) == Pending(queue) - 1
  {
    PendingConcat(queue[1..], Appended(queue[0].registers));
    PendingAppended(queue[0].registers);
  }

  /** What runs when the list starts as `queue`: first in, first out, up to one that raises past Exception. */
  function Drained(queue: seq<Callback>): seq<Callback>
    decreases Pending(queue)
  {
    if queue == [] then []
    else if queue[0].ending.RaisesBase? then [queue[0]]
    else
      QueueShrinks(queue);
      [queue[0]] + Drained(queue[1..] + Appended(queue[0].registers))
  }

  function Runs(callbacks: seq<Callback>): seq<Action> {
    seq(|callbacks|, i requires 0 <= i < |callbacks| => Ran(callbacks[i]))
  }

  predicate EndsInBase(callbacks: seq<Callback>) {
    callbacks != [] && callbacks[|callbacks| - 1].ending.RaisesBase?
  }

  /** One turn of the loop: the callback at `i` runs, and what it registers joins at the end. */
  lemma TurnKeeps(total: seq<Callback>, before: seq<Callback>, i: nat, after: seq<Callback>)
    requires i < |before| && after == before + Appended(before[i].registers)
    requires total == before[..i] + Drained(before[i..])
    ensures before[..i] + [before[i]] == after[..i + 1]
    ensures before[i].ending.RaisesBase? ==> total == after[..i + 1]
    ensures !before[i].ending.RaisesBase? ==> total == after[..i + 1] + Drained(after[i + 1..])
    ensures Pending(after[i + 1..]) < Pending(before[i..])
  {
    var queue := before[i..];
    QueueShrinks(queue);
    assert after[i + 1..] == queue[1..] + Appended(queue[0].registers);
    if !before[i].ending.RaisesBase? {
      Regroup(before[..i], queue[0], Drained(after[i + 1..]));
    }
  }

  lemma RunsAppend(callbacks: seq<Callback>, callback: Callback)
    ensures Runs(callbacks + [callback]) == Runs(callbacks) + [Ran(callback)]
  {
  }

  // ---------------------------------------------------------------- what a managed session does

  /** What the commit branch does, and how it ends. */
  function CommitTrace(mode: Mode, script: Script): seq<Action> {
    if script.body.Returns? && mode != READ
    then [Commit] + (if script.commit.Returns? then Runs(Drained(script.registers)) else [])
    else []
  }

  function CommitEnding(mode: Mode, script: Script): Ending {
    if !script.body.Returns? || mode == READ then script.body
    else if !script.commit.Returns? then script.commit
    else if EndsInBase(Drained(script.registers)) then RaisesBase
    else Returns
  }

  /** Everything the session is asked to do, in order, on every path. */
  function Trace(mode: Mode, script: Script): seq<Action> {
    CommitTrace(mode, script)
    + (if CommitEnding(mode, script).RaisesException? && mode != READ then [Rollback] else [])
    + [Close]
  }

  /** What the `async with` statement raises. */
  function Raised(mode: Mode, script: Script): Ending {
    if script.close.RaisesBase? then RaisesBase
    else if CommitEnding(mode, script).RaisesException? && mode != READ && !script.rollback.Returns?
    then script.rollback
    else CommitEnding(mode, script)
  }

  class CallbackList {
    var items: seq<Callback>

    constructor ()
      ensures items == []
    {
      items := [];
    }
  }

  class Session {
    var afterCommit: CallbackList?
    var actions: seq<Action>

    constructor ()
      ensures afterCommit == null && actions == []
    {
      afterCommit, actions := null, [];
    }

    method Do(action: Action)
      modifies this`actions
      ensures actions == old(actions) + [action]
    {
      actions := actions + [action];
    }
  }

  class CallBackAfterCommit {
    const session: Session
    const callbacks: CallbackList

    /** `info.setdefault("after_commit_callbacks", [])`. */
    constructor (session: Session)
      modifies session`afterCommit
      ensures this.session == session && session.afterCommit == callbacks
      ensures old(session.afterCommit) != null ==> callbacks == old(session.afterCommit)
      ensures old(session.afterCommit) == null ==> fresh(callbacks) && callbacks.items == []
    {
      var list := session.afterCommit;
      if list == null {
        list := new CallbackList();
      }
      this.session, callbacks := session, list;
      new;
      session.afterCommit := callbacks;
    }

    method Register(callback: Callback)
      modifies callbacks
      ensures callbacks.items == old(callbacks.items) + [callback]
    {
      callbacks.items := callbacks.items + [callback];
    }
  }

  /** The body registers its callbacks, each through a handle of its own; any of them will do as an older one. */
  method RunBody(session: Session, registers: seq<Callback>) returns (handle: CallBackAfterCommit?)
    requires session.afterCommit == null
    modifies session`afterCommit
    ensures registers == [] <==> session.afterCommit == null
    ensures session.afterCommit != null ==> fresh(session.afterCommit) && session.afterCommit.items == registers
    ensures session.afterCommit != null ==> handle != null && handle.callbacks == session.afterCommit
  {
    handle := null;
    for i := 0 to |registers|
      invariant i == 0 <==> session.afterCommit == null
      invariant session.afterCommit != null ==>
                  fresh(session.afterCommit) && session.afterCommit.items == registers[..i]
      invariant session.afterCommit != null ==> handle != null && handle.callbacks == session.afterCommit
    {
      handle := new CallBackAfterCommit(session);
      handle.Register(registers[i]);
    }
  }

  /**
   A callback registers others while it runs: those through the older handle go on its list, which is the popped
   list `running`; those through a new handle on a list that nobody will ever run.
   */
  method RunCallback(session: Session, running: CallbackList, older: CallBackAfterCommit, callback: Callback)
    requires session.afterCommit != running && older.callbacks == running
    modifies session, running, session.afterCommit
    ensures running.items == old(running.items) + Appended(callback.registers)
    ensures session.actions == old(session.actions) + [Ran(callback)]
    ensures session.afterCommit != running
    ensures session.afterCommit == old(session.afterCommit) || fresh(session.afterCommit)
  {
    session.Do(Ran(callback));
    var rs := callback.registers;
    for i := 0 to |rs|
      invariant running.items + Appended(rs[i..]) == old(running.items) + Appended(rs)
      invariant session.afterCommit != running
      invariant session.afterCommit == old(session.afterCommit) || fresh(session.afterCommit)
      invariant session.actions == old(session.actions) + [Ran(callback)]
    {
      assert rs[i..][0] == rs[i] && rs[i..][1..] == rs[i + 1..];
      if rs[i].olderHandle {
        older.Register(rs[i].callback);
      } else {
        var handle := new CallBackAfterCommit(session);
        handle.Register(rs[i].callback);
      }
    }
  }

  /**
   The loop over the popped list. What ran is exactly a prefix of the final list, in order, each once; and the
   whole of it, unless a callback raised past Exception.
   */
  method RunAll(session: Session, running: CallbackList, older: CallBackAfterCommit)
    returns (ghost ran: seq<Callback>, escaped: bool)
    requires session.afterCommit == null && older.callbacks == running
    modifies session, running
    ensures ran == Drained(old(running.items)) && ran <= running.items
    ensures session.actions == old(session.actions) + Runs(ran)
    ensures escaped <==> EndsInBase(ran)
    ensures !escaped ==> ran == running.items
  {
    ghost var total := Drained(running.items);
    ran, escaped := [], false;
    var i := 0;
    while i < |running.items|
      invariant 0 <= i <= |running.items| && ran == running.items[..i]
      invariant total == ran + Drained(running.items[i..])
      invariant session.actions == old(session.actions) + Runs(ran)
      invariant !EndsInBase(ran)
      invariant session.afterCommit != running
      invariant session.afterCommit == null || fresh(session.afterCommit)
      decreases Pending(running.items[i..])
    {
      ghost var before := running.items;
      var callback := running.items[i];
      RunCallback(session, running, older, callback);
      TurnKeeps(total, before, i, running.items);
      RunsAppend(ran, callback);
      i := i + 1;
      ran := ran + [callback];
      if callback.ending.RaisesBase? {
        return ran, true;
      }
    }
  }

  /** The `try` part: the body, and outside read mode the commit and the callbacks. */
  method CommitAndCall(session: Session, mode: Mode, script: Script) returns (raised: Ending)
    requires session.afterCommit == null
    modifies session
    ensures session.actions == old(session.actions) + CommitTrace(mode, script)
    ensures raised == CommitEnding(mode, script)
  {
    var handle := RunBody(session, script.registers);
    if !script.body.Returns? || mode == READ {
      return script.body;
    }
    session.Do(Commit);
    if !script.commit.Returns? {
      return script.commit;
    }
    var popped := session.afterCommit;
    session.afterCommit := null;
    raised := Returns;
    if popped != null {
      var ran, escaped := RunAll(session, popped, handle);
      if escaped {
        raised := RaisesBase;
      }
    }
  }

  /** `managed_session` around the caller's body. */
  method Manage(session: Session, mode: Mode, script: Script) returns (raised: Ending)
    requires session.afterCommit == null
    modifies session
    ensures session.actions == old(session.actions) + Trace(mode, script)
    ensures raised == Raised(mode, script)
    ensures mode != READ && script.rollback.Returns?
            && (script.body.RaisesException? || (script.body.Returns? && script.commit.RaisesException?)) ==>
              session.afterCommit == null
  {
    raised := CommitAndCall(session, mode, script);
    if raised.RaisesException? && mode != READ {
      session.Do(Rollback);
      if script.rollback.Returns? {
        session.afterCommit := null;
      } else {
        raised := script.rollback;
      }
    }
    session.Do(Close);
    if script.close.RaisesBase? {
      raised := RaisesBase;
    }
  }

  // ---------------------------------------------------------------- what the trace promises

  /**
   On every path the session is closed exactly once, last. Callbacks run only after a commit that returned, never
   together with a rollback, and only outside read mode; a body or commit that raises an Exception is rolled back.
   */
  lemma SessionPromises(mode: Mode, script: Script)
    ensures var t := Trace(mode, script);
            && t[|t| - 1] == Close && (forall i :: 0 <= i < |t| - 1 ==> t[i] != Close)
            && (forall i :: 0 <= i < |t| && t[i].Ran? ==>
                  mode != READ && script.body.Returns? && script.commit.Returns? && t[0] == Commit && Rollback !in t)
            && (Rollback in t <==> mode != READ && (script.body.RaisesException?
                                                    || (script.body.Returns? && script.commit.RaisesException?)))
            && (mode != READ && script.body.Returns? && script.commit.Returns? ==>
                  t == [Commit] + Runs(Drained(script.registers)) + [Close])
  {
  }

  /** The trace of each path, written out. */
  lemma TraceOnEachPath(mode: Mode, script: Script)
    ensures mode == READ || script.body.RaisesBase? ==> Trace(mode, script) == [Close]
    ensures mode != READ && script.body.RaisesException? ==> Trace(mode, script) == [Rollback, Close]
    ensures mode != READ && script.body.Returns? && script.commit.RaisesException? ==>
              Trace(mode, script) == [Commit, Rollback, Close]
    ensures mode != READ && script.body.Returns? && script.commit.RaisesBase? ==>
              Trace(mode, script) == [Commit, Close]
    ensures mode != READ && script.body.Returns? && script.commit.Returns? ==>
              Trace(mode, script) == [Commit] + Runs(Drained(script.registers)) + [Close]
  {
  }

  /** A callback that the commit leads to raises past Exception. */
  predicate CallbackEscapes(script: Script) {
    exists i :: 0 <= i < |Drained(script.registers)| && Drained(script.registers)[i].ending.RaisesBase?
  }

  lemma {:induction false} EscapingIsLast(queue: seq<Callback>)
    ensures EndsInBase(Drained(queue))
            <==> exists i :: 0 <= i < |Drained(queue)| && Drained(queue)[i].ending.RaisesBase?
    decreases Pending(queue)
  {
    if queue != [] && !queue[0].ending.RaisesBase? {
      QueueShrinks(queue);
      var rest := Drained(queue[1..] + Appended(queue[0].registers));
      EscapingIsLast(queue[1..] + Appended(queue[0].registers));
      assert Drained(queue) == [queue[0]] + rest;
      assert forall i :: 0 <= i < |rest| ==> rest[i] == Drained(queue)[i + 1];
    }
  }

  /**
   Nothing is raised exactly if the body returned, outside read mode the commit returned and no callback went past
   Exception, and close did not either. An Exception of the body or the commit comes out as one if the rollback
   returns, and as what the rollback raises if not; whatever goes past Exception comes out so.
   */
  lemma WhatIsRaised(mode: Mode, script: Script)
    ensures Raised(mode, script) == Returns <==>
            && script.body.Returns? && !script.close.RaisesBase?
            && (mode != READ ==> script.commit.Returns? && !CallbackEscapes(script))
    ensures mode != READ && !script.close.RaisesBase?
            && (script.body.RaisesException? || (script.body.Returns? && script.commit.RaisesException?)) ==>
              Raised(mode, script) == if script.rollback.Returns? then RaisesException else script.rollback
    ensures mode == READ && script.body.RaisesException? && !script.close.RaisesBase? ==>
              Raised(mode, script) == RaisesException
    ensures || script.close.RaisesBase? || script.body.RaisesBase?
            || (mode != READ && script.body.Returns?
                && (script.commit.RaisesBase? || (script.commit.Returns? && CallbackEscapes(script)))) ==>
              Raised(mode, script) == RaisesBase
  {
    EscapingIsLast(script.registers);
  }

  /** The callbacks that `ran` put on the running list. */
  function AllAppended(ran: seq<Callback>): seq<Callback> {
    if ran == [] then [] else AllAppended(ran[..|ran| - 1]) + Appended(ran[|ran| - 1].registers)
  }

  lemma {:induction false} AllAppendedFirst(first: Callback, rest: seq<Callback>)
    ensures AllAppended([first] + rest) == Appended(first.registers) + AllAppended(rest)
  {
    var ran := [first] + rest;
    if rest == [] {
      assert ran == [first] && ran[..0] == [];
    } else {
      AllAppendedFirst(first, rest[..|rest| - 1]);
      assert ran[..|ran| - 1] == [first] + rest[..|rest| - 1];
    }
  }

  /**
   The live list: what runs is the registered callbacks and then, in order, whatever those that ran have added
   through an older handle; all of it, unless one raises past Exception.
   */
  lemma {:induction false} DrainedIsTheLiveList(queue: seq<Callback>)
    ensures Drained(queue) <= queue + AllAppended(Drained(queue))
    ensures !EndsInBase(Drained(queue)) ==> Drained(queue) == queue + AllAppended(Drained(queue))
    decreases Pending(queue)
  {
    if queue != [] {
      var ran := Drained(queue);
      assert queue == [queue[0]] + queue[1..];
      if queue[0].ending.RaisesBase? {
        assert ran == [queue[0]];
      } else {
        QueueShrinks(queue);
        var next := queue[1..] + Appended(queue[0].registers);
        var rest := Drained(next);
        DrainedIsTheLiveList(next);
        assert ran == [queue[0]] + rest;
        AllAppendedFirst(queue[0], rest);
        assert queue + AllAppended(ran) == [queue[0]] + (next + AllAppended(rest));
        assert rest != [] ==> ran[|ran| - 1] == rest[|rest| - 1];
      }
    }
  }

  /** Callbacks that raise ordinary exceptions stop nothing: every registered callback is among those that run. */
  lemma {:induction false} NothingIsSkipped(queue: seq<Callback>)
    requires !EndsInBase(Drained(queue))
    ensures queue <= Drained(queue)
    decreases Pending(queue)
  {
    if queue != [] {
      var d := Drained(queue);
      assert d[0] == queue[0];
      QueueShrinks(queue);
      var next := queue[1..] + Appended(queue[0].registers);
      assert d == [queue[0]] + Drained(next);
      NothingIsSkipped(next);
      assert queue == [queue[0]] + queue[1..];
    }
  }
}
