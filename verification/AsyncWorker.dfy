/**
 The worker loop itself, taking jobs from the queue it shares with the accept path.  Each turn of the
 loop is proved to be a run of the step system of IngestQueue.dfy, so everything proved there about
 runs holds of the loop.
 */
module AsyncWorker {
  import opened IngestQueue

  /** What happens while the loop awaits a job, and how the await ends. */
  datatype Await = WaitCancelled | Job(lands: bool, end: JobEnd)

  /** One turn: the episodes accepted before a job is handed out, and the await. */
  datatype Turn = Turn(arrivals: seq<Episode>, await: Await)

  lemma {:induction false} ExecAppend(c: Config, s: State, a: seq<Event>, b: seq<Event>)
    requires ValidRun(c, s, a) && ValidRun(c, Exec(c, s, a), b)
    ensures ValidRun(c, s, a + b) && Exec(c, s, a + b) == Exec(c, Exec(c, s, a), b)
    decreases a
  {
    if a == [] {
      assert a + b == b;
    } else {
      assert (a + b)[1..] == a[1..] + b;
      ExecAppend(c, Apply(c, s, a[0]), a[1..], b);
    }
  }

  lemma ExecSnoc(c: Config, s: State, a: seq<Event>, e: Event)
    requires ValidRun(c, s, a) && Enabled(Exec(c, s, a), e)
    ensures ValidRun(c, s, a + [e]) && Exec(c, s, a + [e]) == Apply(c, Exec(c, s, a), e)
  {
    assert [e][1..] == [];
    var t := Exec(c, s, a);
    assert Exec(c, t, [e]) == Exec(c, Apply(c, t, e), []);
    ExecAppend(c, s, a, [e]);
  }

  // ----- what a turn does to the state

  function AfterPut(s: State, messages: seq<Episode>): State {
    s.(accepted := s.accepted + messages, queued := s.queued + Range(|s.accepted|, |s.accepted| + |messages|))
  }

  /** The oldest queued job is handed out and is over, landed or not; the loop goes on or ends. */
  function AfterJob(loop: Loop, s: State, lands: bool, end: JobEnd): State
    requires s.queued != []
  {
    var job := s.queued[0];
    s.(queued := s.queued[1..], resolved := s.resolved + [job],
       landed := if lands then s.landed + {job} else s.landed,
       alive := if EndsLoop(loop, end) then 0 else s.alive)
  }

  /** A loop that has ended takes nothing, and one that finds the queue empty keeps waiting. */
  function AfterAwait(loop: Loop, s: State, await: Await): State {
    if s.alive == 0 then s
    else
      match await
      case WaitCancelled => s.(alive := 0)
      case Job(lands, end) => if s.queued == [] then s else AfterJob(loop, s, lands, end)
  }

  function AfterTurns(loop: Loop, s: State, turns: seq<Turn>): State {
    if turns == [] then s
    else
      var last := turns[|turns| - 1];
      AfterAwait(loop, AfterPut(AfterTurns(loop, s, turns[..|turns| - 1]), last.arrivals), last.await)
  }

  lemma PutOne(s: State, messages: seq<Episode>, i: nat)
    requires i < |messages|
    ensures var t := AfterPut(s, messages[..i]);
            AfterPut(s, messages[..i + 1]) ==
            t.(accepted := t.accepted + [messages[i]], queued := t.queued + [|t.accepted|])
  {
    var n := |s.accepted|;
    assert messages[..i + 1] == messages[..i] + [messages[i]];
    assert Range(n, n + i + 1) == Range(n, n + i) + [n + i];
  }

  class AsyncWorker {
    const loop: Loop
    var accepted: seq<Episode>
    var queue: seq<nat>
    var inFlight: seq<nat>
    var resolved: seq<nat>
    var landed: set<nat>
    var running: bool

    ghost function Shape(): Config {
      Config(loop, 1)
    }

    ghost function View(): State
      reads this
    {
      State(accepted, queue, inFlight, resolved, landed, if running then 1 else 0)
    }

    constructor (loop: Loop)
      ensures this.loop == loop && View() == Init(Shape())
    {
      this.loop := loop;
      accepted, queue, inFlight, resolved, landed, running := [], [], [], [], {}, true;
    }

    /** The accept path: one queued job per message, with no bound on the queue. */
    method Put(messages: seq<Episode>, ghost start: State, ghost trace: seq<Event>) returns (ghost trace': seq<Event>)
      requires ValidRun(Shape(), start, trace) && View() == Exec(Shape(), start, trace)
      modifies this`accepted, this`queue
      ensures ValidRun(Shape(), start, trace') && View() == Exec(Shape(), start, trace')
      ensures View() == AfterPut(old(View()), messages)
    {
      trace' := trace;
      ghost var before := View();
      for i := 0 to |messages|
        invariant ValidRun(Shape(), start, trace') && View() == Exec(Shape(), start, trace')
        invariant View() == AfterPut(before, messages[..i])
      {
        PutOne(before, messages, i);
        ExecSnoc(Shape(), start, trace', Accept(messages[i]));
        trace' := trace' + [Accept(messages[i])];
        queue := queue + [|accepted|];
        accepted := accepted + [messages[i]];
      }
      assert messages[..|messages|] == messages;
    }

    /** Run the loop for the given turns. */
    method Work(turns: seq<Turn>) returns (ghost trace: seq<Event>)
      requires Inv(Shape(), View()) && InOrder(View()) && inFlight == []
      modifies this
      ensures View() == AfterTurns(loop, old(View()), turns)
      ensures ValidRun(Shape(), old(View()), trace) && View() == Exec(Shape(), old(View()), trace)
      ensures Inv(Shape(), View()) && InOrder(View()) && inFlight == []
      ensures resolved == Range(0, |resolved|)
      ensures |resolved| == |old(resolved)| + JobsEnded(trace)
    {
      trace := [];
      ghost var start := View();
      for i := 0 to |turns|
        invariant ValidRun(Shape(), start, trace) && View() == Exec(Shape(), start, trace)
        invariant inFlight == [] && View() == AfterTurns(loop, start, turns[..i])
      {
        assert turns[..i + 1][..i] == turns[..i];
        trace := Put(turns[i].arrivals, start, trace);
        if running {
          trace := TakeTurn(turns[i].await, start, trace);
        }
      }
      assert turns[..|turns|] == turns;
      RunKeepsInv(Shape(), start, trace);
      ProgressInOrder(Shape(), start, trace);
    }

    /** The loop body: get a job, await it, and leave the loop on the exceptions it does not catch. */
    method TakeTurn(await: Await, ghost start: State, ghost trace: seq<Event>) returns (ghost trace': seq<Event>)
      requires ValidRun(Shape(), start, trace) && View() == Exec(Shape(), start, trace)
      requires inFlight == [] && running
      modifies this
      ensures View() == AfterAwait(loop, old(View()), await)
      ensures ValidRun(Shape(), start, trace') && View() == Exec(Shape(), start, trace')
      // cancelled while it waits, the loop ends; with nothing to hand out it goes on
      ensures await.WaitCancelled? ==> !running && queue == old(queue) && resolved == old(resolved)
      ensures await.Job? && old(queue) == [] ==> running && resolved == old(resolved)
      // the oldest job is over, and the loop goes on after it only if it catches how the job ended
      ensures await.Job? && old(queue) != [] ==>
                && queue == old(queue)[1..] && resolved == old(resolved) + [old(queue)[0]]
                && landed == (if await.lands then old(landed) + {old(queue)[0]} else old(landed))
                && (running <==> await.end.Returns? || (await.end.RaisesException? && loop.Patched?))
    {
      trace' := trace;
      if await.WaitCancelled? {
        ExecSnoc(Shape(), start, trace', CancelIdle);
        trace' := trace' + [CancelIdle];
        running := false;
      } else if queue != [] {
        trace' := TakeJob(await.lands, await.end, start, trace);
      }
    }

    method TakeJob(lands: bool, end: JobEnd, ghost start: State, ghost trace: seq<Event>)
      returns (ghost trace': seq<Event>)
      requires ValidRun(Shape(), start, trace) && View() == Exec(Shape(), start, trace)
      requires inFlight == [] && running && queue != []
      modifies this
      ensures View() == AfterJob(loop, old(View()), lands, end)
      ensures ValidRun(Shape(), start, trace') && View() == Exec(Shape(), start, trace')
    {
      ExecSnoc(Shape(), start, trace, Take);
      trace' := trace + [Take];
      var job := queue[0];
      queue, inFlight := queue[1..], [job];
      if lands {
        ExecSnoc(Shape(), start, trace', Land(job));
        trace' := trace' + [Land(job)];
        landed := landed + {job};
      }
      ExecSnoc(Shape(), start, trace', Finish(job, end));
      trace' := trace' + [Finish(job, end)];
      inFlight, resolved := [], resolved + [job];
      match end {
        case Returns =>
        case Cancelled => running := false;
        case RaisesException => running := loop.Patched?;
        case RaisesOther => running := false;
      }
    }
  }

  // ----- the loop before and after the patch

  /** Every turn hands out a job that returns or raises an `Exception`. */
  predicate Survivable(turns: seq<Turn>) {
    forall t | t in turns :: t.await.Job? && (t.await.end.Returns? || t.await.end.RaisesException?)
  }

  /** Under such turns the patched loop stays alive. */
  lemma {:induction false} PatchedStaysAlive(s: State, turns: seq<Turn>)
    requires Survivable(turns)
    ensures AfterTurns(Patched, s, turns).alive == s.alive
  {
    if turns == [] {
    } else {
      var front := turns[..|turns| - 1];
      assert forall t | t in front :: t in turns;
      PatchedStaysAlive(s, front);
      assert turns[|turns| - 1] in turns;
    }
  }

  // ----- a whole list of turns

  lemma {:induction false} TurnsAppend(loop: Loop, s: State, a: seq<Turn>, b: seq<Turn>)
    ensures AfterTurns(loop, s, a + b) == AfterTurns(loop, AfterTurns(loop, s, a), b)
  {
    if b == [] {
      assert a + b == a;
    } else {
      TurnsAppend(loop, s, a, b[..|b| - 1]);
      assert (a + b)[..|a + b| - 1] == a + b[..|b| - 1];
    }
  }

  lemma OneTurn(loop: Loop, s: State, t: Turn)
    ensures AfterTurns(loop, s, [t]) == AfterAwait(loop, AfterPut(s, t.arrivals), t.await)
  {
    assert [t][..0] == [];
    assert AfterTurns(loop, s, []) == s;
  }

  /** A turn that hands out no job: the loop has ended, is cancelled while it waits, or finds nothing. */
  lemma IdleTurn(loop: Loop, s: State, t: Turn, q: seq<nat>)
    requires q == s.queued + Range(|s.accepted|, |s.accepted| + |t.arrivals|)
    requires s.alive == 0 || t.await.WaitCancelled? || q == []
    ensures var s' := AfterTurns(loop, s, [t]);
            && s'.accepted == s.accepted + t.arrivals && s'.queued == q
            && s'.resolved == s.resolved && s'.landed == s.landed
            && s'.alive == if t.await.WaitCancelled? then 0 else s.alive
  {
    OneTurn(loop, s, t);
  }

  /** A turn that hands out the oldest job. */
  lemma ServedTurn(loop: Loop, s: State, t: Turn, q: seq<nat>)
    requires q == s.queued + Range(|s.accepted|, |s.accepted| + |t.arrivals|)
    requires s.alive > 0 && t.await.Job? && q != []
    ensures var s' := AfterTurns(loop, s, [t]);
            && s'.accepted == s.accepted + t.arrivals && s'.queued == q[1..]
            && s'.resolved == s.resolved + [q[0]]
            && s'.landed == (if t.await.lands then s.landed + {q[0]} else s.landed)
            && s'.alive == if t.await.end.Returns? || (t.await.end.RaisesException? && loop.Patched?)
                           then s.alive else 0
  {
    OneTurn(loop, s, t);
  }

  lemma {:induction false} EndedLoopRests(loop: Loop, s: State, turns: seq<Turn>)
    requires s.alive == 0
    ensures var s' := AfterTurns(loop, s, turns);
            s'.alive == 0 && s'.resolved == s.resolved && s'.landed == s.landed && s.queued <= s'.queued
  {
    if turns == [] {
    } else {
      EndedLoopRests(loop, s, turns[..|turns| - 1]);
    }
  }

  /**
   What ends the loop ends it for good: after a job that is cancelled or raises what the loop does not catch,
   no later turn resolves or lands anything, and what was queued stays queued.
   */
  lemma UncaughtIsTheEnd(loop: Loop, s: State, t: Turn, q: seq<nat>, after: seq<Turn>)
    requires q == s.queued + Range(|s.accepted|, |s.accepted| + |t.arrivals|)
    requires s.alive > 0 && t.await.Job? && q != []
    requires t.await.end.Cancelled? || t.await.end.RaisesOther? || (t.await.end.RaisesException? && loop.Original?)
    ensures var s' := AfterTurns(loop, s, [t] + after);
            s'.alive == 0 && s'.resolved == s.resolved + [q[0]] && q[1..] <= s'.queued
            && s'.landed == if t.await.lands then s.landed + {q[0]} else s.landed
  {
    ServedTurn(loop, s, t, q);
    TurnsAppend(loop, s, [t], after);
    EndedLoopRests(loop, AfterTurns(loop, s, [t]), after);
  }

  /** A loop cancelled while it waits is over too. */
  lemma WaitCancelledIsTheEnd(loop: Loop, s: State, arrivals: seq<Episode>, after: seq<Turn>)
    ensures var s' := AfterTurns(loop, s, [Turn(arrivals, WaitCancelled)] + after);
            s'.alive == 0 && s'.resolved == s.resolved && s'.landed == s.landed && s.queued <= s'.queued
  {
    var t := Turn(arrivals, WaitCancelled);
    IdleTurn(loop, s, t, s.queued + Range(|s.accepted|, |s.accepted| + |arrivals|));
    TurnsAppend(loop, s, [t], after);
    EndedLoopRests(loop, AfterTurns(loop, s, [t]), after);
  }
}
