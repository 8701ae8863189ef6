/** What every step of the limiter keeps, with any interleaving; the second half needs the shared clock. */
module SlidingWindowInvariants {
  import opened SlidingWindow

  /** A worker that still watches the current version knows the current set. */
  ghost predicate WatchOk(c: Config, s: State, w: Worker) {
    var pc := PcOf(s, w);
    IsWatching(pc) ==>
      && pc.seen <= |s.changes|
      && (forall k :: pc.seen <= k < |s.changes| ==> s.changes[k] != ByWorker(w))
      && (forall i :: 0 <= i < |s.aborts| && s.aborts[i].worker == w ==> s.aborts[i].change < pc.seen)
      && (pc.Ready? ==> pc.count < c.limit)
      && (pc.seen == |s.changes| ==>
            && (pc.Counted? || pc.Ready? ==> pc.count == |s.members|)
            && (pc.Ready? ==> pc.oldest == OldestScore(s.members)))
  }

  /** Every abort is charged to the first change after its WATCH: another's change, charged once per worker. */
  ghost predicate AbortsOk(s: State) {
    && (forall i :: 0 <= i < |s.aborts| ==>
          s.aborts[i].change < |s.changes| && s.changes[s.aborts[i].change] != ByWorker(s.aborts[i].worker))
    && (forall i, j :: 0 <= i < j < |s.aborts| ==> s.aborts[i] != s.aborts[j])
  }

  ghost predicate MembersOk(c: Config, s: State) {
    && (forall id :: id in s.members ==> id in s.log && s.log[id].score == s.members[id])
    && |s.members| <= c.limit
    && |s.changes| + |s.members| <= 2 * |s.log|
  }

  ghost predicate Inv(c: Config, s: State) {
    MembersOk(c, s) && AbortsOk(s) && forall w :: WatchOk(c, s, w)
  }

  lemma SubmapSize(small: map<Id, int>, large: map<Id, int>)
    requires small.Keys <= large.Keys
    ensures |small| <= |large|
    ensures small.Keys != large.Keys ==> |small| < |large|
  {
    assert large.Keys == small.Keys + (large.Keys - small.Keys);
    assert |large.Keys| == |small.Keys| + |large.Keys - small.Keys|;
  }

  lemma KeptIsSmaller(members: map<Id, int>, cutoff: int)
    ensures |Kept(members, cutoff)| <= |members|
    ensures Kept(members, cutoff) != members ==> |Kept(members, cutoff)| < |members|
  {
    SubmapSize(Kept(members, cutoff), members);
  }

  lemma TrimKeepsMembers(c: Config, s: State, w: Worker)
    requires MembersOk(c, s) && Enabled(c, s, Trim(w))
    ensures MembersOk(c, Next(c, s, Trim(w)))
  {
    KeptIsSmaller(s.members, PcOf(s, w).now - WindowMs(c));
  }

  lemma ExecKeepsMembers(c: Config, s: State, w: Worker, id: Id)
    requires MembersOk(c, s) && Enabled(c, s, Exec(w, id)) && WatchOk(c, s, w)
    ensures MembersOk(c, Next(c, s, Exec(w, id)))
  {
  }

  lemma MembersKept(c: Config, s: State, e: Event)
    requires MembersOk(c, s) && Enabled(c, s, e) && (e.Exec? ==> WatchOk(c, s, e.w))
    ensures MembersOk(c, Next(c, s, e))
  {
    if e.Trim? {
      TrimKeepsMembers(c, s, e.w);
    } else if e.Exec? {
      ExecKeepsMembers(c, s, e.w, e.id);
    }
  }

  lemma ExecKeepsAborts(s: State, n: State, w: Worker, k: nat)
    requires AbortsOk(s) && n.changes == s.changes && n.aborts == s.aborts + [Abort(w, k)]
    requires k < |s.changes| && s.changes[k] != ByWorker(w)
    requires forall i :: 0 <= i < |s.aborts| && s.aborts[i].worker == w ==> s.aborts[i].change < k
    ensures AbortsOk(n)
  {
  }

  lemma AbortsKept(c: Config, s: State, e: Event)
    requires AbortsOk(s) && Enabled(c, s, e) && (e.Exec? ==> WatchOk(c, s, e.w))
    ensures AbortsOk(Next(c, s, e))
  {
    if e.Exec? && PcOf(s, e.w).seen != |s.changes| {
      ExecKeepsAborts(s, Next(c, s, e), e.w, PcOf(s, e.w).seen);
    }
  }

  /** A step changes the key only together with its version, and aborts only attempts of its own worker. */
  ghost predicate Framed(s: State, n: State, w: Worker) {
    && PcOf(n, w) == PcOf(s, w)
    && ((n.changes == s.changes && n.members == s.members)
        || exists who :: who != ByWorker(w) && n.changes == s.changes + [who])
    && (n.aborts == s.aborts || exists v: Worker, k: nat :: v != w && n.aborts == s.aborts + [Abort(v, k)])
  }

  lemma StepIsFramed(c: Config, s: State, e: Event, w: Worker)
    requires Enabled(c, s, e) && !By(e, w)
    ensures Framed(s, Next(c, s, e), w)
  {
  }

  lemma FrameKeepsWatch(c: Config, s: State, n: State, w: Worker)
    requires WatchOk(c, s, w) && Framed(s, n, w)
    ensures WatchOk(c, n, w)
  {
  }

  lemma OwnStepKeepsWatch(c: Config, s: State, e: Event, w: Worker)
    requires WatchOk(c, s, w) && AbortsOk(s) && Enabled(c, s, e) && By(e, w)
    ensures WatchOk(c, Next(c, s, e), w)
  {
  }

  lemma StepKeepsInv(c: Config, s: State, e: Event)
    requires Inv(c, s) && Enabled(c, s, e)
    ensures Inv(c, Next(c, s, e))
  {
    MembersKept(c, s, e);
    AbortsKept(c, s, e);
    forall w ensures WatchOk(c, Next(c, s, e), w) {
      if By(e, w) {
        OwnStepKeepsWatch(c, s, e, w);
      } else {
        StepIsFramed(c, s, e, w);
        FrameKeepsWatch(c, s, Next(c, s, e), w);
      }
    }
  }

  lemma {:induction false} RunKeepsInv(c: Config, s: State, es: seq<Event>)
    requires Inv(c, s) && Play(c, s, es).Some?
    ensures Inv(c, Play(c, s, es).value)
  {
    if es != [] {
      RunKeepsInv(c, s, es[..|es| - 1]);
      StepKeepsInv(c, Play(c, s, es[..|es| - 1]).value, es[|es| - 1]);
    }
  }

  lemma ReachableInv(c: Config, es: seq<Event>, s: State)
    requires Accepted(c) && Reaches(c, es, s)
    ensures Inv(c, s)
  {
    RunKeepsInv(c, INITIAL, es);
  }

  // ---------------------------------------------------------------- one shared clock

  function NowOf(pc: Pc): int {
    if pc.Clocked? || pc.Trimmed? || IsWatching(pc) then pc.now else 0
  }

  /** No reading is ahead of the clock. */
  ghost predicate NowsOk(s: State) {
    forall w :: NowOf(PcOf(s, w)) <= s.clock
  }

  /** The key outlives every admission in it by two windows, and the last one by no more. */
  ghost predicate DeadlineOk(c: Config, s: State) {
    && (forall id :: id in s.log ==> 0 <= s.log[id].score <= s.log[id].execAt <= s.clock)
    && (s.members != map[] ==> s.expireAt.Some?)
    && (s.expireAt.Some? ==> forall id :: id in s.log ==> s.log[id].execAt + 2000 * c.windowSeconds <= s.expireAt.value)
  }

  ghost predicate DeadlineExact(c: Config, s: State) {
    s.expireAt.Some? ==> exists id :: id in s.log && s.log[id].execAt + 2000 * c.windowSeconds == s.expireAt.value
  }

  /** No admission inside the window has left the set. */
  ghost predicate RecentOk(c: Config, s: State) {
    forall id :: id in s.log && s.log[id].score > s.clock - 1000 * c.windowSeconds ==> id in s.members
  }

  ghost predicate Clock(c: Config, s: State) {
    NowsOk(s) && DeadlineOk(c, s) && DeadlineExact(c, s) && RecentOk(c, s)
  }

  lemma StepKeepsNows(c: Config, s: State, e: Event)
    requires NowsOk(s) && Enabled(c, s, e) && !Next(c, s, e).skewed
    ensures NowsOk(Next(c, s, e))
  {
    var n := Next(c, s, e);
    forall w ensures NowOf(PcOf(n, w)) <= n.clock {
      assert NowOf(PcOf(s, w)) <= s.clock;
    }
  }

  lemma StepKeepsDeadline(c: Config, s: State, e: Event)
    requires Accepted(c) && NowsOk(s) && DeadlineOk(c, s) && Enabled(c, s, e)
    ensures DeadlineOk(c, Next(c, s, e))
  {
  }

  lemma StepKeepsExact(c: Config, s: State, e: Event)
    requires Accepted(c) && DeadlineExact(c, s) && Enabled(c, s, e)
    ensures DeadlineExact(c, Next(c, s, e))
  {
    var n := Next(c, s, e);
    if e.Exec? && PcOf(s, e.w).seen == |s.changes| {
      assert n.log[e.id].execAt + 2000 * c.windowSeconds == n.expireAt.value;
    } else if n.expireAt.Some? {
      var id :| id in s.log && s.log[id].execAt + 2000 * c.windowSeconds == s.expireAt.value;
      assert n.log == s.log;
    }
  }

  lemma StepKeepsRecent(c: Config, s: State, e: Event)
    requires Accepted(c) && MembersOk(c, s) && Clock(c, s) && Enabled(c, s, e)
    ensures RecentOk(c, Next(c, s, e))
  {
  }

  lemma StepKeepsClock(c: Config, s: State, e: Event)
    requires Accepted(c) && MembersOk(c, s) && Clock(c, s) && Enabled(c, s, e) && !Next(c, s, e).skewed
    ensures Clock(c, Next(c, s, e))
  {
    StepKeepsNows(c, s, e);
    StepKeepsDeadline(c, s, e);
    StepKeepsExact(c, s, e);
    StepKeepsRecent(c, s, e);
  }

  lemma {:induction false} RunKeepsClock(c: Config, s: State, es: seq<Event>)
    requires Accepted(c) && Inv(c, s) && Clock(c, s) && Play(c, s, es).Some? && !Play(c, s, es).value.skewed
    ensures !s.skewed && Clock(c, Play(c, s, es).value)
  {
    if es != [] {
      StepSkew(c, Play(c, s, es[..|es| - 1]).value, es[|es| - 1]);
      RunKeepsClock(c, s, es[..|es| - 1]);
      RunKeepsInv(c, s, es[..|es| - 1]);
      StepKeepsClock(c, Play(c, s, es[..|es| - 1]).value, es[|es| - 1]);
    }
  }

  lemma StepSkew(c: Config, s: State, e: Event)
    requires Enabled(c, s, e)
    ensures s.skewed ==> Next(c, s, e).skewed
    ensures !e.ReadClock? ==> Next(c, s, e).skewed == s.skewed
    ensures s.clock <= Next(c, s, e).clock
  {
  }

  /** What `Clock` means for the key, with its numbers. */
  lemma ReachableClock(c: Config, es: seq<Event>, s: State)
    requires Accepted(c) && Reaches(c, es, s) && !s.skewed
    ensures Clock(c, s)
    ensures forall id :: id in s.log && s.log[id].score > s.clock - 1000 * c.windowSeconds ==> id in s.members
    ensures s.members != map[] ==> s.expireAt.Some?
    ensures s.expireAt.Some? ==>
              && (forall id :: id in s.log ==> s.log[id].execAt <= s.expireAt.value - 2000 * c.windowSeconds)
              && (exists id :: id in s.log && s.log[id].execAt == s.expireAt.value - 2000 * c.windowSeconds)
  {
    RunKeepsClock(c, INITIAL, es);
  }
}
