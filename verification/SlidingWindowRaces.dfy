/** What the limiter guarantees when any number of workers race on the key. */
module SlidingWindowRaces {
  import opened Collections
  import opened SlidingWindow
  import opened SlidingWindowInvariants

  // ---------------------------------------------------------------- the window bound

  ghost predicate Close(log: map<Id, Admission>, hits: set<Id>, gap: int) {
    forall g, h :: g in hits && h in hits ==> g in log && h in log && log[g].score - log[h].score < gap
  }

  /** Each of the hits reached its EXEC at most `d` ms after it had read the clock. */
  ghost predicate Timely(log: map<Id, Admission>, hits: set<Id>, d: int) {
    forall h :: h in hits ==> h in log && log[h].execAt - log[h].score <= d
  }

  /**
   Admitted hits that committed within `d` ms of their clock reading, and whose scores pairwise differ by less
   than the window minus `d`, number at most `limit`, whatever was trimmed or expired in between.
   */
  lemma {:induction false} AdmissionsInAWindow(c: Config, es: seq<Event>, s: State, hits: set<Id>, d: int)
    requires Accepted(c) && Reaches(c, es, s) && !s.skewed
    requires Close(s.log, hits, 1000 * c.windowSeconds - d) && Timely(s.log, hits, d)
    ensures |hits| <= c.limit
    decreases |es|
  {
    if hits != {} {
      var some :| some in hits;
      assert es != [] by { assert some in s.log; }
      var p := Play(c, INITIAL, es[..|es| - 1]).value;
      var e := es[|es| - 1];
      assert Reaches(c, es[..|es| - 1], p);
      ReachableInv(c, es[..|es| - 1], p);
      StepSkew(c, p, e);
      if hits <= p.log.Keys {
        AdmissionsInAWindow(c, es[..|es| - 1], p, hits, d);
      } else {
        ReachableClock(c, es[..|es| - 1], p);
        LastAdmission(c, p, e, hits, d);
      }
    }
  }

  /** The last of the hits to commit saw all the others still in the set. */
  lemma LastAdmission(c: Config, p: State, e: Event, hits: set<Id>, d: int)
    requires Accepted(c) && Inv(c, p) && Clock(c, p) && Enabled(c, p, e)
    requires Close(Next(c, p, e).log, hits, 1000 * c.windowSeconds - d) && Timely(Next(c, p, e).log, hits, d)
    requires !(hits <= p.log.Keys)
    ensures |hits| <= c.limit
  {
    assert WatchOk(c, p, e.w);
    assert e.id in hits;
    var others := hits - {e.id};
    forall g | g in others ensures g in p.members {
      assert Next(c, p, e).log[e.id].score - Next(c, p, e).log[g].score < 1000 * c.windowSeconds - d;
      assert p.log[g].score + 1000 * c.windowSeconds > p.clock;
    }
    SubsetSize(others, p.members.Keys);
    assert |hits| == |others| + 1;
  }

  lemma Then(c: Config, es: seq<Event>, s: State, e: Event) returns (run: seq<Event>, n: State)
    requires Reaches(c, es, s) && Enabled(c, s, e)
    ensures Reaches(c, run, n) && n == Next(c, s, e)
  {
    run, n := es + [e], Next(c, s, e);
    assert run[..|es|] == es;
  }

  /** The members `0 .. m - 1`, all with score 0. */
  function Zeros(m: nat): (members: map<Id, int>)
    ensures |members| == m
    ensures forall id: Id :: id in members <==> id < m
    ensures forall id :: id in members ==> members[id] == 0
  {
    if m == 0 then map[] else Zeros(m - 1)[m - 1 := 0]
  }

  lemma TrimZeros(c: Config, s: State, w: Worker, m: nat)
    requires s.members == Zeros(m) && PcOf(s, w).Clocked?
    ensures var now, n := PcOf(s, w).now, Next(c, s, Trim(w));
            && n.members == (if now < 1000 * c.windowSeconds then Zeros(m) else map[])
            && n.pcs == s.pcs[w := Trimmed(PcOf(s, w).attempt, now)]
            && n.log == s.log && n.clock == s.clock && n.skewed == s.skewed
  {
    var now := PcOf(s, w).now;
    assert Kept(s.members, now - 1000 * c.windowSeconds) == if now < 1000 * c.windowSeconds then Zeros(m) else map[];
  }

  predicate AtRest(pc: Pc) {
    pc.Idle? || pc.Finished?
  }

  /** `w` reads the clock and trims; hits at time 0 go exactly if the window has passed. */
  lemma ReadAndTrim(c: Config, es0: seq<Event>, s0: State, w: Worker, m: nat) returns (es: seq<Event>, s: State)
    requires Reaches(c, es0, s0) && !s0.skewed && s0.members == Zeros(m) && AtRest(PcOf(s0, w))
    ensures Reaches(c, es, s) && !s.skewed && s.clock == s0.clock && s.log == s0.log
    ensures s.pcs == s0.pcs[w := Trimmed(0, s0.clock)]
    ensures s.members == if s0.clock < 1000 * c.windowSeconds then Zeros(m) else map[]
  {
    es, s := Then(c, es0, s0, ReadClock(w, s0.clock));
    TrimZeros(c, s, w, m);
    es, s := Then(c, es, s, Trim(w));
  }

  /** With room in the set, `w` goes on from its trim to EXEC and admits its hit under the fresh `id`. */
  lemma Admit(c: Config, es0: seq<Event>, s0: State, w: Worker, id: Id) returns (es: seq<Event>, s: State)
    requires Reaches(c, es0, s0) && PcOf(s0, w).Trimmed? && |s0.members| < c.limit && id !in s0.log
    ensures Reaches(c, es, s) && s.clock == s0.clock && s.skewed == s0.skewed
    ensures s.members == s0.members[id := PcOf(s0, w).now]
    ensures s.log == s0.log[id := Admission(PcOf(s0, w).now, s0.clock, w)]
    ensures s.pcs.Keys == s0.pcs.Keys + {w} && PcOf(s, w).Finished?
  {
    es, s := Then(c, es0, s0, Watch(w));
    es, s := Then(c, es, s, Count(w));
    es, s := Then(c, es, s, Oldest(w));
    es, s := Then(c, es, s, Exec(w, id));
  }

  /** `m` hits of worker 0 were admitted at time 0, and nothing else has happened. */
  ghost predicate OpenedWith(m: nat, s: State) {
    && s.members == Zeros(m) && s.clock == 0 && !s.skewed
    && s.log.Keys == Zeros(m).Keys && (forall id :: id in s.log ==> s.log[id] == Admission(0, 0, 0))
    && s.pcs.Keys <= {0} && AtRest(PcOf(s, 0))
  }

  lemma {:induction false} HitsAtZero(c: Config, m: nat) returns (es: seq<Event>, s: State)
    requires Accepted(c) && m <= c.limit
    ensures Reaches(c, es, s) && OpenedWith(m, s)
  {
    if m == 0 {
      es, s := [], INITIAL;
    } else {
      es, s := HitsAtZero(c, m - 1);
      es, s := ReadAndTrim(c, es, s, 0, m - 1);
      es, s := Admit(c, es, s, 0, m - 1);
    }
  }

  /**
   The bound cannot be improved: for every limit, every window and every delay `d` up to the window there is a run
   on one shared clock that admits one timely hit more than the limit, with scores that differ by at most the
   window minus `d`.
   */
  lemma TheBoundIsTight(c: Config, d: nat) returns (es: seq<Event>, s: State, hits: set<Id>)
    requires Accepted(c) && d <= 1000 * c.windowSeconds
    ensures Reaches(c, es, s) && !s.skewed
    ensures Close(s.log, hits, 1000 * c.windowSeconds - d + 1) && Timely(s.log, hits, d) && |hits| == c.limit + 1
  {
    es, s := HitsAtZero(c, c.limit);
    es, s := Then(c, es, s, Tick(1000 * c.windowSeconds - d));
    es, s := ReadAndTrim(c, es, s, 1, c.limit);
    es, s := Then(c, es, s, Tick(d));
    es, s := ReadAndTrim(c, es, s, 2, if d == 0 then 0 else c.limit);
    es, s := Admit(c, es, s, 1, c.limit);
    hits := Zeros(c.limit + 1).Keys;
  }

  // ---------------------------------------------------------------- linearisation at EXEC

  /**
   With any interleaving and any clocks: a commit used the count and the oldest score of the set as it is at
   that instant, the set stays within `limit`, and `remaining` is the limit minus the size it then has.
   */
  lemma CommitIsLinearised(c: Config, es: seq<Event>, s: State, w: Worker, id: Id)
    requires Accepted(c) && Reaches(c, es, s) && Enabled(c, s, Exec(w, id))
    ensures |s.members| <= c.limit
    ensures PcOf(s, w).seen == |s.changes| ==>
              var n := Next(c, s, Exec(w, id));
              && PcOf(s, w).count == |s.members| < c.limit && PcOf(s, w).oldest == OldestScore(s.members)
              && n.members == s.members[id := PcOf(s, w).now] && |n.members| == |s.members| + 1
              && PcOf(n, w).Finished? && PcOf(n, w).outcome.Answer?
              && PcOf(n, w).outcome.result.remaining == c.limit - |n.members|
              && !PcOf(n, w).outcome.result.exceeded
    ensures PcOf(s, w).seen != |s.changes| ==>
              var n := Next(c, s, Exec(w, id));
              && n.members == s.members && n.log == s.log
              && PcOf(s, w).seen < |s.changes| && s.changes[PcOf(s, w).seen] != ByWorker(w)
  {
    ReachableInv(c, es, s);
    assert WatchOk(c, s, w);
    assert id !in s.members;
  }

  /**
   A refusal reports nothing remaining, and the least whole seconds until the oldest admission of the set at the
   instant of its ZRANGE leaves the window; if the set has gone since ZCARD, one second to retry and none to reset.
   */
  lemma RefusalIsLinearised(c: Config, es: seq<Event>, s: State, w: Worker, k: nat)
    requires Accepted(c) && Reaches(c, es, s) && PcOf(s, w).Counted? && PcOf(s, w).count >= c.limit
    ensures var n, now := Next(c, s, Oldest(w)), PcOf(s, w).now;
            && n.members == s.members && PcOf(n, w).Finished? && PcOf(n, w).outcome.Answer?
            && var r := PcOf(n, w).outcome.result;
            && r.exceeded && r.remaining == 0 && r.retryAfterSeconds >= 1 && r.resetAfterSeconds >= 0
            && var left := s.members == map[] || exists id :: id in s.members
                                                   && s.members[id] + 1000 * c.windowSeconds <= now + 1000 * k;
            (k >= 1 ==> (r.retryAfterSeconds <= k <==> left)) && (r.resetAfterSeconds <= k <==> left)
  {
    var oldest, now := OldestScore(s.members), PcOf(s, w).now;
    SecondsAreLeast(oldest, now, 1000 * c.windowSeconds, k);
    if oldest.Some? {
      var id :| id in s.members && s.members[id] == oldest.value;
      assert IsLowest(s.members, s.members[id]);
    }
  }

  // ---------------------------------------------------------------- aborts

  /** Every worker charged to change `k`. */
  function Column(workers: set<Worker>, k: nat): set<Abort> {
    set w | w in workers :: Abort(w, k)
  }

  /** Every worker charged to every one of the changes `ks`. */
  function Grid(workers: set<Worker>, ks: set<nat>): set<Abort> {
    set w, k | w in workers && k in ks :: Abort(w, k)
  }

  lemma {:induction false} ColumnSize(workers: set<Worker>, k: nat)
    ensures |Column(workers, k)| == |workers|
  {
    if workers != {} {
      var w :| w in workers;
      ColumnSize(workers - {w}, k);
      assert workers == (workers - {w}) + {w};
      assert Column(workers, k) == Column(workers - {w}, k) + {Abort(w, k)};
    }
  }

  lemma DisjointSize<T>(a: set<T>, b: set<T>, both: set<T>)
    requires a !! b && both == a + b
    ensures |both| == |a| + |b|
  {
  }

  lemma OneTimesMore(n: nat, k: nat)
    ensures (n + 1) * k == n * k + k
  {
  }

  lemma {:induction false} GridSize(workers: set<Worker>, ks: set<nat>)
    ensures |Grid(workers, ks)| == |ks| * |workers|
  {
    if ks == {} {
      assert Grid(workers, ks) == {};
    } else {
      var k :| k in ks;
      var others := ks - {k};
      GridSize(workers, others);
      ColumnSize(workers, k);
      assert Grid(workers, ks) == Grid(workers, others) + Column(workers, k);
      DisjointSize(Grid(workers, others), Column(workers, k), Grid(workers, ks));
      DisjointSize(others, {k}, ks);
      OneTimesMore(|others|, |workers|);
    }
  }

  lemma AbortsFit(aborts: seq<Abort>, workers: set<Worker>, n: nat)
    requires forall i :: 0 <= i < |aborts| ==> aborts[i].worker in workers && aborts[i].change < n
    requires forall i, j :: 0 <= i < j < |aborts| ==> aborts[i] != aborts[j]
    ensures |aborts| <= |workers| * n
  {
    var ks := Zeros(n).Keys;
    GridSize(workers, ks);
    forall i | 0 <= i < |aborts| ensures aborts[i] in Grid(workers, ks) {
      assert aborts[i] == Abort(aborts[i].worker, aborts[i].change);
    }
    DistinctSize(aborts, Grid(workers, ks));
  }

  /**
   Each aborted EXEC is charged to a change that another worker, or expiry, made after its WATCH, and no worker
   is charged to one change twice. So `n` workers see at most `n` aborts per change; and since every change
   either admits a hit or removes one, at most `2n` aborts per admission.
   */
  lemma AbortsAreCharged(c: Config, es: seq<Event>, s: State, workers: set<Worker>)
    requires Accepted(c) && Reaches(c, es, s)
    requires forall i :: 0 <= i < |s.aborts| ==> s.aborts[i].worker in workers
    ensures forall i :: 0 <= i < |s.aborts| ==>
              s.aborts[i].change < |s.changes| && s.changes[s.aborts[i].change] != ByWorker(s.aborts[i].worker)
    ensures forall i, j :: 0 <= i < j < |s.aborts| ==> s.aborts[i] != s.aborts[j]
    ensures |s.aborts| <= |workers| * |s.changes|
    ensures |s.changes| <= 2 * |s.log|
    ensures |s.aborts| <= |workers| * (2 * |s.log|)
  {
    ReachableInv(c, es, s);
    AbortsFit(s.aborts, workers, |s.changes|);
    Scale(|workers|, |s.changes|, 2 * |s.log|);
  }

  lemma Scale(n: nat, a: nat, b: nat)
    requires a <= b
    ensures n * a <= n * b
  {
  }
}
