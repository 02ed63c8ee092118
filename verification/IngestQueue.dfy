/**
 The ingest queue of the graph service as graphiti/patch-resilient-worker.py ships it: an unbounded
 FIFO of accepted episodes and worker loops that take one job at a time, drop a job that fails and
 never re-queue.  graphiti/verify-single-worker.py pins the shape to one worker; the model keeps the
 number of workers as a parameter so that what the pin is for can be stated.
 */
module IngestQueue {

  type Episode = string

  /** The worker loop before and after the patch. */
  datatype Loop = Original | Patched
  datatype Config = Config(loop: Loop, workers: nat)

  /** How awaiting a job ends; `RaisesOther` is an exception outside Python's `Exception`. */
  datatype JobEnd = Returns | RaisesException | RaisesOther | Cancelled

  /**
   `accepted` is the accept log and a ticket is a position in it.  `resolved` holds the tickets whose
   job has ended, in that order; `landed` those whose episode is in the graph; `alive` counts the
   worker loops still running, idle or with a job in flight.
   */
  datatype State = State(
    accepted: seq<Episode>,
    queued: seq<nat>,
    inFlight: seq<nat>,
    resolved: seq<nat>,
    landed: set<nat>,
    alive: nat)

  datatype Event =
    | Accept(episode: Episode)
    | Take
    | Land(ticket: nat)
    | Finish(ticket: nat, end: JobEnd)
    | CancelIdle

  function Init(c: Config): State {
    State([], [], [], [], {}, c.workers)
  }

  /** Which endings of a job end the loop around it. */
  predicate EndsLoop(loop: Loop, end: JobEnd) {
    end.Cancelled? || end.RaisesOther? || (end.RaisesException? && loop.Original?)
  }

  predicate Enabled(s: State, e: Event) {
    match e
    case Accept(_) => true
    case Take => |s.inFlight| < s.alive && s.queued != []
    case Land(t) => t in s.inFlight
    case Finish(t, _) => t in s.inFlight && s.alive > 0
    case CancelIdle => |s.inFlight| < s.alive
  }

  function Without(ts: seq<nat>, t: nat): seq<nat> {
    if ts == [] then [] else if ts[0] == t then ts[1..] else [ts[0]] + Without(ts[1..], t)
  }

  function Apply(c: Config, s: State, e: Event): State
    requires Enabled(s, e)
  {
    match e
    case Accept(episode) => s.(accepted := s.accepted + [episode], queued := s.queued + [|s.accepted|])
    case Take => s.(inFlight := s.inFlight + [s.queued[0]], queued := s.queued[1..])
    case Land(t) => s.(landed := s.landed + {t})
    case Finish(t, end) =>
      s.(inFlight := Without(s.inFlight, t), resolved := s.resolved + [t],
         alive := if EndsLoop(c.loop, end) then s.alive - 1 else s.alive)
    case CancelIdle => s.(alive := s.alive - 1)
  }

  ghost predicate ValidRun(c: Config, s: State, run: seq<Event>)
    decreases run
  {
    run != [] ==> Enabled(s, run[0]) && ValidRun(c, Apply(c, s, run[0]), run[1..])
  }

  ghost function Exec(c: Config, s: State, run: seq<Event>): State
    requires ValidRun(c, s, run)
    decreases run
  {
    if run == [] then s else Exec(c, Apply(c, s, run[0]), run[1..])
  }

  // ----- invariants

  /** The tickets `lo`, `lo + 1`, ..., `hi - 1`. */
  function Range(lo: nat, hi: nat): (r: seq<nat>)
    requires lo <= hi
    ensures |r| == hi - lo && forall i | 0 <= i < |r| :: r[i] == lo + i
  {
    seq(hi - lo, i requires 0 <= i => lo + i)
  }

  function Taken(s: State): nat {
    |s.resolved| + |s.inFlight|
  }

  /**
   Conservation, for any number of workers: every accepted ticket is resolved, in flight or queued,
   exactly once, and what is queued is the unbroken end of the accept log.
   */
  ghost predicate Inv(c: Config, s: State) {
    && |s.inFlight| <= s.alive <= c.workers
    && Taken(s) <= |s.accepted|
    && s.queued == Range(Taken(s), |s.accepted|)
    && multiset(s.resolved) + multiset(s.inFlight) == multiset(Range(0, Taken(s)))
    && (forall t | t in s.landed :: t in s.resolved || t in s.inFlight)
  }

  /** With one worker the log is resolved, then in flight, then queued, in accept order. */
  predicate InOrder(s: State) {
    s.resolved + s.inFlight + s.queued == Range(0, |s.accepted|)
  }

  lemma {:induction false} WithoutCounts(ts: seq<nat>, t: nat)
    requires t in ts
    ensures multiset(Without(ts, t)) == multiset(ts) - multiset{t}
    ensures |Without(ts, t)| == |ts| - 1
  {
    assert ts == [ts[0]] + ts[1..];
    if ts[0] != t {
      WithoutCounts(ts[1..], t);
    }
  }

  lemma TakeKeepsInv(c: Config, s: State)
    requires Inv(c, s) && Enabled(s, Take)
    ensures Inv(c, Apply(c, s, Take))
  {
    var n, m := Taken(s), |s.accepted|;
    assert s.queued[0] == n;
    assert Range(n, m)[1..] == Range(n + 1, m);
    assert Range(0, n + 1) == Range(0, n) + [n];
  }

  lemma FinishKeepsInv(c: Config, s: State, t: nat, end: JobEnd)
    requires Inv(c, s) && Enabled(s, Finish(t, end))
    ensures Inv(c, Apply(c, s, Finish(t, end)))
  {
    var s' := Apply(c, s, Finish(t, end));
    WithoutCounts(s.inFlight, t);
    assert multiset(s'.resolved) + multiset(s'.inFlight) == multiset(s.resolved) + multiset(s.inFlight);
    forall u | u in s'.landed ensures u in s'.resolved || u in s'.inFlight {
      if u in s.inFlight && u != t {
        assert multiset(s.inFlight)[u] > 0;
        assert multiset(s'.inFlight)[u] > 0;
      }
    }
  }

  lemma StepKeepsInv(c: Config, s: State, e: Event)
    requires Inv(c, s) && Enabled(s, e)
    ensures Inv(c, Apply(c, s, e))
  {
    match e
    case Accept(_) =>
      assert Range(Taken(s), |s.accepted|) + [|s.accepted|] == Range(Taken(s), |s.accepted| + 1);
    case Take => TakeKeepsInv(c, s);
    case Land(_) =>
    case Finish(t, end) => FinishKeepsInv(c, s, t, end);
    case CancelIdle =>
  }

  lemma TakeKeepsOrder(c: Config, s: State)
    requires InOrder(s) && Enabled(s, Take)
    ensures InOrder(Apply(c, s, Take))
  {
    assert s.queued == [s.queued[0]] + s.queued[1..];
    assert s.resolved + (s.inFlight + [s.queued[0]]) + s.queued[1..] == s.resolved + s.inFlight + s.queued;
  }

  lemma FinishKeepsOrder(c: Config, s: State, t: nat, end: JobEnd)
    requires s.inFlight == [t] && InOrder(s) && Enabled(s, Finish(t, end))
    ensures InOrder(Apply(c, s, Finish(t, end)))
  {
    assert (s.resolved + [t]) + [] + s.queued == s.resolved + [t] + s.queued;
  }

  lemma StepKeepsOrder(c: Config, s: State, e: Event)
    requires c.workers <= 1 && Inv(c, s) && InOrder(s) && Enabled(s, e)
    ensures InOrder(Apply(c, s, e))
  {
    match e
    case Accept(episode) =>
      var n := |s.accepted|;
      assert s.resolved + s.inFlight + (s.queued + [n]) == (s.resolved + s.inFlight + s.queued) + [n];
    case Take => TakeKeepsOrder(c, s);
    case Land(_) =>
    case Finish(t, end) => FinishKeepsOrder(c, s, t, end);
    case CancelIdle =>
  }

  lemma {:induction false} RunKeepsInv(c: Config, s: State, run: seq<Event>)
    requires Inv(c, s) && ValidRun(c, s, run)
    ensures Inv(c, Exec(c, s, run))
    ensures c.workers <= 1 && InOrder(s) ==> InOrder(Exec(c, s, run))
    decreases run
  {
    if run == [] {
    } else {
      StepKeepsInv(c, s, run[0]);
      if c.workers <= 1 && InOrder(s) {
        StepKeepsOrder(c, s, run[0]);
      }
      RunKeepsInv(c, Apply(c, s, run[0]), run[1..]);
    }
  }

  // ----- landed or gone

  /**
   The theorem the single-worker check protects: an episode accepted before one that has landed is
   resolved (landed or gone), never still queued or in flight.
   */
  lemma LandedOrGone(c: Config, s: State, earlier: nat, later: nat)
    requires c.workers <= 1 && Inv(c, s) && InOrder(s)
    requires later in s.landed && earlier < later
    ensures earlier in s.resolved && earlier !in s.inFlight && earlier !in s.queued
  {
    var log := s.resolved + s.inFlight + s.queued;
    assert forall i | 0 <= i < |log| :: log[i] == i;
    forall i | 0 <= i < |s.resolved| ensures s.resolved[i] == i {
      assert log[i] == s.resolved[i];
    }
    forall i | 0 <= i < |s.inFlight| ensures s.inFlight[i] == |s.resolved| + i {
      assert log[|s.resolved| + i] == s.inFlight[i];
    }
    assert later <= |s.resolved|;
    assert s.resolved[earlier] == earlier;
  }

  predicate Live(s: State, t: nat) {
    t in s.queued || t in s.inFlight
  }

  /** Each episode has at most one queued or in-flight entry. */
  ghost predicate AtMostOneLive(s: State) {
    forall t: nat, u: nat
      | Live(s, t) && Live(s, u) && t < |s.accepted| && u < |s.accepted| && s.accepted[t] == s.accepted[u]
      :: t == u
  }

  /**
   The brain's re-push rule: push an episode for the first time, or again once something accepted
   after its last push has landed.
   */
  ghost predicate PushAllowed(s: State, episode: Episode) {
    || episode !in s.accepted
    || exists u | u in s.landed :: forall t | 0 <= t < |s.accepted| && s.accepted[t] == episode :: t < u
  }

  ghost predicate Guarded(c: Config, s: State, run: seq<Event>)
    requires ValidRun(c, s, run)
    decreases run
  {
    run != [] ==>
      && (run[0].Accept? ==> PushAllowed(s, run[0].episode))
      && Guarded(c, Apply(c, s, run[0]), run[1..])
  }

  /** What the rule buys in one state: nothing of that episode is live any more. */
  lemma AllowedMeansNotLive(c: Config, s: State, episode: Episode)
    requires c.workers <= 1 && Inv(c, s) && InOrder(s) && PushAllowed(s, episode)
    ensures forall t | 0 <= t < |s.accepted| && s.accepted[t] == episode :: !Live(s, t)
  {
    if episode in s.accepted {
      var u :| u in s.landed && forall t | 0 <= t < |s.accepted| && s.accepted[t] == episode :: t < u;
      forall t | 0 <= t < |s.accepted| && s.accepted[t] == episode ensures !Live(s, t) {
        LandedOrGone(c, s, t, u);
      }
    }
  }

  lemma StepKeepsOneLive(c: Config, s: State, e: Event)
    requires c.workers <= 1 && Inv(c, s) && InOrder(s) && AtMostOneLive(s) && Enabled(s, e)
    requires e.Accept? ==> PushAllowed(s, e.episode)
    ensures AtMostOneLive(Apply(c, s, e))
  {
    var s' := Apply(c, s, e);
    match e
    case Accept(episode) =>
      AllowedMeansNotLive(c, s, episode);
      assert forall t: nat | Live(s', t) && t < |s.accepted| :: Live(s, t);
    case Take =>
      assert forall t: nat | Live(s', t) :: Live(s, t);
    case Land(_) =>
      assert forall t: nat | Live(s', t) :: Live(s, t);
    case Finish(t, _) =>
      assert s.inFlight == [t];
      assert forall u: nat | Live(s', u) :: Live(s, u);
    case CancelIdle =>
      assert forall t: nat | Live(s', t) :: Live(s, t);
  }

  lemma {:induction false} GuardedRunsKeepOneLive(c: Config, s: State, run: seq<Event>)
    requires c.workers <= 1 && Inv(c, s) && InOrder(s) && AtMostOneLive(s)
    requires ValidRun(c, s, run) && Guarded(c, s, run)
    ensures AtMostOneLive(Exec(c, s, run))
    decreases run
  {
    if run == [] {
    } else {
      StepKeepsInv(c, s, run[0]);
      StepKeepsOrder(c, s, run[0]);
      StepKeepsOneLive(c, s, run[0]);
      GuardedRunsKeepOneLive(c, Apply(c, s, run[0]), run[1..]);
    }
  }

  ghost predicate RePushIsSafe(c: Config) {
    forall run: seq<Event> | ValidRun(c, Init(c), run) && Guarded(c, Init(c), run) ::
      AtMostOneLive(Exec(c, Init(c), run))
  }

  /**
   Re-pushing by the rule never duplicates queued work if and only if there is at most one worker:
   the single-worker check is what the rule stands on.
   */
  lemma RePushSafeIffSingleWorker(c: Config)
    ensures RePushIsSafe(c) <==> c.workers <= 1
  {
    if c.workers <= 1 {
      forall run: seq<Event> | ValidRun(c, Init(c), run) && Guarded(c, Init(c), run)
        ensures AtMostOneLive(Exec(c, Init(c), run))
      {
        GuardedRunsKeepOneLive(c, Init(c), run);
      }
    } else {
      TwoWorkersDuplicate(c);
    }
  }

  /** Two jobs in flight, the later lands first, and the earlier is pushed again while still running. */
  const DUPLICATING_RUN := [Accept("a"), Accept("b"), Take, Take, Land(1), Accept("a")]

  function DuplicatingState(workers: nat, i: nat): State {
    if i == 0 then State([], [], [], [], {}, workers)
    else if i == 1 then State(["a"], [0], [], [], {}, workers)
    else if i == 2 then State(["a", "b"], [0, 1], [], [], {}, workers)
    else if i == 3 then State(["a", "b"], [1], [0], [], {}, workers)
    else if i == 4 then State(["a", "b"], [], [0, 1], [], {}, workers)
    else if i == 5 then State(["a", "b"], [], [0, 1], [], {1}, workers)
    else State(["a", "b", "a"], [2], [0, 1], [], {1}, workers)
  }

  lemma DuplicatingStep(c: Config, i: nat)
    requires c.workers >= 2 && i < 6
    ensures var s, e := DuplicatingState(c.workers, i), DUPLICATING_RUN[i];
            && Enabled(s, e)
            && Apply(c, s, e) == DuplicatingState(c.workers, i + 1)
            && (e.Accept? ==> PushAllowed(s, e.episode))
  {
    var s := DuplicatingState(c.workers, i);
    if i == 5 {
      assert 1 in s.landed && forall t | 0 <= t < |s.accepted| && s.accepted[t] == "a" :: t < 1;
    } else {
      assert [0, 1][1..] == [1] && [1][1..] == [] && [0] + [1] == [0, 1];
      assert "b"[0] != "a"[0];
    }
  }

  lemma {:induction false} DuplicatingSuffix(c: Config, i: nat)
    requires c.workers >= 2 && i <= 6
    ensures var s := DuplicatingState(c.workers, i);
            && ValidRun(c, s, DUPLICATING_RUN[i..]) && Guarded(c, s, DUPLICATING_RUN[i..])
            && Exec(c, s, DUPLICATING_RUN[i..]) == DuplicatingState(c.workers, 6)
    decreases 6 - i
  {
    if i < 6 {
      DuplicatingStep(c, i);
      DuplicatingSuffix(c, i + 1);
      assert DUPLICATING_RUN[i..][0] == DUPLICATING_RUN[i];
      assert DUPLICATING_RUN[i..][1..] == DUPLICATING_RUN[i + 1..];
      Unroll(c, DuplicatingState(c.workers, i), DUPLICATING_RUN[i..]);
    }
  }

  lemma TwoWorkersDuplicate(c: Config)
    requires c.workers >= 2
    ensures !RePushIsSafe(c)
  {
    DuplicatingSuffix(c, 0);
    assert DUPLICATING_RUN[0..] == DUPLICATING_RUN;
    var s := DuplicatingState(c.workers, 6);
    assert Live(s, 0) && Live(s, 2) && s.accepted[0] == s.accepted[2];
    assert Init(c) == DuplicatingState(c.workers, 0);
    assert !AtMostOneLive(Exec(c, Init(c), DUPLICATING_RUN));
  }

  /** One unrolling of a run, written for a run whose first event and rest are known. */
  lemma Unroll(c: Config, s: State, run: seq<Event>)
    requires run != [] && Enabled(s, run[0]) && ValidRun(c, Apply(c, s, run[0]), run[1..])
    requires Guarded(c, Apply(c, s, run[0]), run[1..])
    requires run[0].Accept? ==> PushAllowed(s, run[0].episode)
    ensures ValidRun(c, s, run) && Guarded(c, s, run)
    ensures Exec(c, s, run) == Exec(c, Apply(c, s, run[0]), run[1..])
  {
  }

  // ----- progress

  /** The events that cost a worker: any cancellation, and what the loop around the job does not catch. */
  predicate StopsALoop(c: Config, e: Event) {
    match e
    case CancelIdle => true
    case Finish(_, Cancelled) => true
    case Finish(_, RaisesOther) => true
    case Finish(_, RaisesException) => c.loop.Original?
    case _ => false
  }

  /**
   A worker is lost at the end of a job exactly by what its loop does not catch: the patched one by
   cancellation and by an exception outside `Exception`, the original one by whatever is raised.
   */
  lemma FinishLosesWorkerIff(c: Config, s: State, t: nat, end: JobEnd)
    requires Enabled(s, Finish(t, end))
    ensures var alive := Apply(c, s, Finish(t, end)).alive;
            && (c.loop.Patched? ==> alive == if end.Cancelled? || end.RaisesOther? then s.alive - 1 else s.alive)
            && (c.loop.Original? ==> alive == if end.Returns? then s.alive else s.alive - 1)
  {
  }

  function JobsEnded(run: seq<Event>): nat {
    if run == [] then 0 else (if run[0].Finish? then 1 else 0) + JobsEnded(run[1..])
  }

  function LoopsStopped(c: Config, run: seq<Event>): nat {
    if run == [] then 0 else (if StopsALoop(c, run[0]) then 1 else 0) + LoopsStopped(c, run[1..])
  }

  lemma StepCounts(c: Config, s: State, e: Event)
    requires Enabled(s, e)
    ensures var s' := Apply(c, s, e);
            && |s'.resolved| == |s.resolved| + (if e.Finish? then 1 else 0)
            && s'.alive + (if StopsALoop(c, e) then 1 else 0) == s.alive
  {
  }

  lemma {:induction false} RunCounts(c: Config, s: State, run: seq<Event>)
    requires ValidRun(c, s, run)
    ensures |Exec(c, s, run).resolved| == |s.resolved| + JobsEnded(run)
    ensures Exec(c, s, run).alive + LoopsStopped(c, run) == s.alive
    decreases run
  {
    if run == [] {
    } else {
      StepCounts(c, s, run[0]);
      RunCounts(c, Apply(c, s, run[0]), run[1..]);
    }
  }

  lemma ResolvedIsPrefix(c: Config, s: State)
    requires Inv(c, s) && InOrder(s)
    ensures s.resolved == Range(0, |s.resolved|)
  {
    assert s.resolved == (s.resolved + s.inFlight + s.queued)[..|s.resolved|];
  }

  /**
   With one worker, `n` jobs ended means the first `n` accepted episodes are the resolved ones,
   whatever the jobs raised; and only the events that stop a loop cost a worker.
   */
  lemma ProgressInOrder(c: Config, s: State, run: seq<Event>)
    requires Inv(c, s) && ValidRun(c, s, run)
    ensures var s' := Exec(c, s, run);
            && |s'.resolved| == |s.resolved| + JobsEnded(run)
            && s'.alive + LoopsStopped(c, run) == s.alive
            && (c.workers <= 1 && InOrder(s) ==> s'.resolved == Range(0, |s'.resolved|))
  {
    RunKeepsInv(c, s, run);
    RunCounts(c, s, run);
    if c.workers <= 1 && InOrder(s) {
      ResolvedIsPrefix(c, Exec(c, s, run));
    }
  }

  /** The patched loop is stopped only by cancellation or an exception outside `Exception`. */
  lemma {:induction false} PatchedSurvives(c: Config, s: State, run: seq<Event>)
    requires c.loop.Patched? && Inv(c, s) && ValidRun(c, s, run)
    requires forall e | e in run :: !e.CancelIdle? && (e.Finish? ==> e.end.Returns? || e.end.RaisesException?)
    ensures Exec(c, s, run).alive == s.alive
    decreases run
  {
    if run == [] {
    } else {
      StepKeepsInv(c, s, run[0]);
      PatchedSurvives(c, Apply(c, s, run[0]), run[1..]);
    }
  }

  /** While a loop is alive, pending work can always move: there is no state it is stuck in. */
  lemma NoDeadlock(c: Config, s: State)
    requires Inv(c, s) && s.alive > 0 && s.queued + s.inFlight != []
    ensures exists e: Event :: Enabled(s, e) && (e.Take? || e.Finish?)
  {
    if s.inFlight != [] {
      assert Enabled(s, Finish(s.inFlight[0], Returns));
    } else {
      assert Enabled(s, Take);
    }
  }

  /**
   Once no loop is left, the service still accepts every push, the queue only grows, and nothing is
   resolved or lands again: the pipeline is dead behind a healthy accept path.
   */
  lemma {:induction false} DeadForever(c: Config, s: State, run: seq<Event>)
    requires Inv(c, s) && s.alive == 0 && ValidRun(c, s, run)
    ensures forall e | e in run :: e.Accept?
    ensures var s' := Exec(c, s, run);
            s'.resolved == s.resolved && s'.landed == s.landed && |s'.queued| == |s.queued| + |run|
    decreases run
  {
    if run == [] {
    } else {
      StepKeepsInv(c, s, run[0]);
      DeadForever(c, Apply(c, s, run[0]), run[1..]);
    }
  }

  /** In the original loop with one worker, the first job that raises is the last one ever resolved. */
  lemma OriginalDiesOnFirstException(c: Config, s: State, ticket: nat, after: seq<Event>)
    requires c.loop.Original? && c.workers == 1 && Inv(c, s)
    requires Enabled(s, Finish(ticket, RaisesException))
    requires ValidRun(c, Apply(c, s, Finish(ticket, RaisesException)), after)
    ensures forall e | e in after :: e.Accept?
    ensures var s' := Exec(c, Apply(c, s, Finish(ticket, RaisesException)), after);
            s'.resolved == s.resolved + [ticket] && |s'.queued| == |s.queued| + |after|
  {
    var dead := Apply(c, s, Finish(ticket, RaisesException));
    StepKeepsInv(c, s, Finish(ticket, RaisesException));
    DeadForever(c, dead, after);
  }
}
