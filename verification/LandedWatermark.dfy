/**
 The landed watermark of lib/graph/reconcile.ts: from two clocks per ledger row, decide which pushed
 episodes the queue has already passed over.  The verdict is connected to the accept-order rule of
 IngestQueue.dfy, whose proof needs the order in which pushes were accepted and never a clock.
 */
module LandedWatermark {
  import opened Text
  import opened IngestQueue

  const MARGIN_MS := 600000
  const SLACK_MS := 60000

  /**
   A ledger row.  `firstSeen` is on the database clock, `projectedAt` on the application clock;
   `parked` is the empty content hash, `pendingDelete` an outstanding clean-up of another group.
   */
  datatype Row = Row(episode: Episode, firstSeen: int, projectedAt: int, parked: bool, pendingDelete: bool)

  /** A present first push: its stamp follows its creation by no more than the slack. */
  predicate Anchors(r: Row, present: set<Episode>, skew: int, slack: int) {
    r.episode in present && !r.parked && !r.pendingDelete
    && 0 <= r.projectedAt - (r.firstSeen - skew) <= slack
  }

  /** `w` is the newest stamp among the anchoring rows; no anchor, no watermark. */
  predicate IsWatermark(rows: seq<Row>, present: set<Episode>, skew: int, slack: int, w: Option<int>) {
    && (w.None? ==> forall r | r in rows :: !Anchors(r, present, skew, slack))
    && (w.Some? ==>
          && (exists r | r in rows :: Anchors(r, present, skew, slack) && r.projectedAt == w.value)
          && (forall r | r in rows && Anchors(r, present, skew, slack) :: r.projectedAt <= w.value))
  }

  function AnchorCount(rows: seq<Row>, present: set<Episode>, skew: int, slack: int): nat {
    if rows == [] then 0
    else
      AnchorCount(rows[..|rows| - 1], present, skew, slack)
      + if Anchors(rows[|rows| - 1], present, skew, slack) then 1 else 0
  }

  /** The collection loop; an unknown clock skew yields no anchors. */
  method Watermark(rows: seq<Row>, present: set<Episode>, skew: Option<int>, slack: int)
    returns (w: Option<int>, anchors: nat)
    ensures skew.None? ==> w.None? && anchors == 0
    ensures skew.Some? ==> IsWatermark(rows, present, skew.value, slack, w)
                           && anchors == AnchorCount(rows, present, skew.value, slack)
    // a watermark is the newest stamp of a present row, neither parked nor pending, stamped within the slack
    ensures w.Some? ==>
              exists r | r in rows ::
                && r.projectedAt == w.value && r.episode in present && !r.parked && !r.pendingDelete && skew.Some?
                && r.firstSeen - skew.value <= r.projectedAt <= r.firstSeen - skew.value + slack
    ensures skew.Some? ==>
              forall r | r in rows && r.episode in present && !r.parked && !r.pendingDelete
                         && r.firstSeen - skew.value <= r.projectedAt <= r.firstSeen - skew.value + slack ::
                w.Some? && r.projectedAt <= w.value
  {
    w, anchors := None, 0;
    for i := 0 to |rows|
      invariant skew.None? ==> w.None? && anchors == 0
      invariant skew.Some? ==> IsWatermark(rows[..i], present, skew.value, slack, w)
                               && anchors == AnchorCount(rows[..i], present, skew.value, slack)
    {
      assert rows[..i + 1][..|rows[..i + 1]| - 1] == rows[..i];
      assert forall r | r in rows[..i + 1] :: r in rows[..i] || r == rows[i];
      assert rows[i] in rows[..i + 1];
      var r := rows[i];
      if r.episode in present && !r.parked && !r.pendingDelete && skew.Some? {
        var delta := r.projectedAt - (r.firstSeen - skew.value);
        if 0 <= delta <= slack {
          anchors := anchors + 1;
          w := Some(if w.Some? && w.value > r.projectedAt then w.value else r.projectedAt);
        }
      }
    }
    assert rows[..|rows|] == rows;
  }

  predicate Lost(r: Row, w: Option<int>, margin: int) {
    w.Some? && r.projectedAt + margin < w.value
  }

  /**
   What ties the ledger to the accept log when nothing is being pushed: accept times (on the
   application clock) follow accept order, a stamp is written after the push it records, and a
   present row has some landed push.
   */
  ghost predicate LedgerMatchesLog(s: State, at: seq<int>, rows: seq<Row>, present: set<Episode>) {
    && |at| == |s.accepted|
    && (forall t, u | 0 <= t < u < |at| :: at[t] <= at[u])
    && (forall r, t | r in rows && 0 <= t < |at| && s.accepted[t] == r.episode :: at[t] <= r.projectedAt)
    && (forall r | r in rows && r.episode in present ::
          exists t | 0 <= t < |at| :: t in s.landed && s.accepted[t] == r.episode)
  }

  /** No anchoring row's creation stamp is later than any of its pushes by more than the lag. */
  ghost predicate AnchorsLagAtMost(s: State, at: seq<int>, rows: seq<Row>, present: set<Episode>, skew: int, slack: int,
                                   lag: nat)
    requires |at| == |s.accepted|
  {
    forall r, t | r in rows && Anchors(r, present, skew, slack) && 0 <= t < |at| && s.accepted[t] == r.episode ::
      r.firstSeen - skew <= at[t] + lag
  }

  /** The shipped queue: the patched loop and one worker. */
  const SHIPPED := Config(Patched, 1)

  /** What some run of the shipped queue leads to. */
  ghost predicate Reachable(s: State) {
    exists run: seq<Event> :: ValidRun(SHIPPED, Init(SHIPPED), run) && Exec(SHIPPED, Init(SHIPPED), run) == s
  }

  lemma ReachableKeepsInv(s: State)
    requires Reachable(s)
    ensures Inv(SHIPPED, s) && InOrder(s)
  {
    var run: seq<Event> :| ValidRun(SHIPPED, Init(SHIPPED), run) && Exec(SHIPPED, Init(SHIPPED), run) == s;
    RunKeepsInv(SHIPPED, Init(SHIPPED), run);
  }

  /** One pass: a reachable single-worker queue, the ledger beside it, and a row judged lost. */
  ghost predicate LostVerdict(s: State, at: seq<int>, rows: seq<Row>, present: set<Episode>, skew: int, slack: int,
                              margin: int, w: Option<int>, c: Row)
  {
    && Reachable(s)
    && LedgerMatchesLog(s, at, rows, present)
    && IsWatermark(rows, present, skew, slack, w)
    && c in rows && Lost(c, w, margin)
  }

  /**
   The bound behind the verdict.  The anchor's landed push was accepted no earlier than its stamp
   less the slack and the lag, the lost row's pushes no later than its stamp; a margin that covers both
   puts every push of the lost row before a landed one, so the rule allows pushing it again and nothing
   of it is queued or in flight.
   */
  lemma LostMeansGone(s: State, at: seq<int>, rows: seq<Row>, present: set<Episode>, skew: int, slack: int, lag: nat,
                      margin: int, w: Option<int>, c: Row)
    requires LostVerdict(s, at, rows, present, skew, slack, margin, w, c)
    requires AnchorsLagAtMost(s, at, rows, present, skew, slack, lag)
    requires margin >= slack + lag
    ensures PushAllowed(s, c.episode)
    ensures forall t | 0 <= t < |s.accepted| && s.accepted[t] == c.episode :: !Live(s, t)
  {
    var r :| r in rows && Anchors(r, present, skew, slack) && r.projectedAt == w.value;
    var u :| 0 <= u < |at| && u in s.landed && s.accepted[u] == r.episode;
    assert r.firstSeen - skew <= at[u] + lag;
    forall t | 0 <= t < |s.accepted| && s.accepted[t] == c.episode ensures t < u {
      assert at[t] <= c.projectedAt;
    }
    ReachableKeepsInv(s);
    AllowedMeansNotLive(SHIPPED, s, c.episode);
  }

  /** The verdict never calls a live episode lost, in any pass whose anchors lag at most so much. */
  ghost predicate VerdictIsSafe(margin: int, slack: int, lag: nat) {
    forall s, at, rows, present, skew, w, c
      | LostVerdict(s, at, rows, present, skew, slack, margin, w, c)
        && AnchorsLagAtMost(s, at, rows, present, skew, slack, lag)
      :: forall t | 0 <= t < |s.accepted| && s.accepted[t] == c.episode :: !Live(s, t)
  }

  /** Exactly how large the margin must be: it has to cover the slack and the lag together. */
  lemma SafeIffMarginCoversSlackAndLag(margin: int, slack: nat, lag: nat)
    ensures VerdictIsSafe(margin, slack, lag) <==> margin >= slack + lag
  {
    if margin >= slack + lag {
      forall s, at, rows, present, skew, w, c
        | LostVerdict(s, at, rows, present, skew, slack, margin, w, c)
          && AnchorsLagAtMost(s, at, rows, present, skew, slack, lag)
        ensures forall t | 0 <= t < |s.accepted| && s.accepted[t] == c.episode :: !Live(s, t)
      {
        LostMeansGone(s, at, rows, present, skew, slack, lag, margin, w, c);
      }
    } else {
      SmallMarginMisjudges(margin, slack, lag);
    }
  }

  /**
   For rows created before their first push.  The source insists on a margin strictly above the slack;
   a margin equal to it would already do, and anything smaller re-pushes queued work.
   */
  lemma SafeIffMarginCoversSlack(margin: int, slack: nat)
    ensures VerdictIsSafe(margin, slack, 0) <==> margin >= slack
  {
    SafeIffMarginCoversSlackAndLag(margin, slack, 0);
  }

  /** The shipped constants stand a back-filled stamp that is up to nine minutes late. */
  lemma ShippedMarginStandsLag(lag: nat)
    ensures VerdictIsSafe(MARGIN_MS, SLACK_MS, lag) <==> lag <= 540000
  {
    SafeIffMarginCoversSlackAndLag(MARGIN_MS, SLACK_MS, lag);
  }

  /** One episode landed and was pushed again; another was accepted in between and still waits. */
  function WaitingState(x: Episode, y: Episode): State {
    State([x, y, x], [1, 2], [], [0], {0}, 1)
  }

  lemma WaitingLedger(x: Episode, y: Episode, at: seq<int>, rows: seq<Row>, a: Row, c: Row)
    requires x != y && rows == [a, c] && a.episode == x && c.episode == y
    requires |at| == 3 && at[0] <= at[1] <= at[2] <= a.projectedAt && at[1] <= c.projectedAt
    ensures LedgerMatchesLog(WaitingState(x, y), at, rows, {x})
  {
    assert 0 in WaitingState(x, y).landed && WaitingState(x, y).accepted[0] == a.episode;
  }

  lemma FirstStep(s: State, e: Event, s': State, rest: seq<Event>, end: State)
    requires Enabled(s, e) && Apply(SHIPPED, s, e) == s'
    requires ValidRun(SHIPPED, s', rest) && Exec(SHIPPED, s', rest) == end
    ensures ValidRun(SHIPPED, s, [e] + rest) && Exec(SHIPPED, s, [e] + rest) == end
  {
    assert ([e] + rest)[1..] == rest;
  }

  /** A run that gets there: both accepted, the first taken, landed and ended, and accepted again. */
  lemma WaitingIsReachable(x: Episode, y: Episode)
    ensures Reachable(WaitingState(x, y)) && Live(WaitingState(x, y), 1)
  {
    var end := WaitingState(x, y);
    var s1 := State([x], [0], [], [], {}, 1);
    var s2 := State([x, y], [0, 1], [], [], {}, 1);
    var s3 := State([x, y], [1], [0], [], {}, 1);
    var s4 := State([x, y], [1], [0], [], {0}, 1);
    var s5 := State([x, y], [1], [], [0], {0}, 1);
    FirstStep(s5, Accept(x), end, [], end);
    FirstStep(s4, Finish(0, Returns), s5, [Accept(x)] + [], end);
    FirstStep(s3, Land(0), s4, [Finish(0, Returns)] + ([Accept(x)] + []), end);
    var run := [Land(0)] + ([Finish(0, Returns)] + ([Accept(x)] + []));
    FirstStep(s2, Take, s3, run, end);
    FirstStep(s1, Accept(y), s2, [Take] + run, end);
    FirstStep(Init(SHIPPED), Accept(x), s1, [Accept(y)] + ([Take] + run), end);
  }

  lemma OnlyAnchor(rows: seq<Row>, a: Row, c: Row, present: set<Episode>, slack: int)
    requires rows == [a, c] && c.episode !in present && Anchors(a, present, 0, slack)
    ensures IsWatermark(rows, present, 0, slack, Some(a.projectedAt))
  {
    assert a in rows;
  }

  /** Such a pass judges the waiting row lost as soon as its stamp and the margin leave room. */
  lemma WaitingRowIsJudgedLost(x: Episode, y: Episode, at: seq<int>, rows: seq<Row>, a: Row, c: Row, slack: int,
                               margin: int)
    requires x != y && rows == [a, c] && a.episode == x && c.episode == y
    requires |at| == 3 && at[0] <= at[1] <= at[2] <= a.projectedAt && at[1] <= c.projectedAt
    requires Anchors(a, {x}, 0, slack) && c.projectedAt + margin < a.projectedAt
    ensures LostVerdict(WaitingState(x, y), at, rows, {x}, 0, slack, margin, Some(a.projectedAt), c)
  {
    WaitingLedger(x, y, at, rows, a, c);
    WaitingIsReachable(x, y);
    OnlyAnchor(rows, a, c, {x}, slack);
    assert c in rows;
  }

  /**
   A row whose stamp was written `lag` after its first push landed and was edited inside the slack; the
   other was accepted with the first push.
   */
  lemma SmallMarginMisjudges(margin: int, slack: nat, lag: nat)
    requires margin < slack + lag
    ensures !VerdictIsSafe(margin, slack, lag)
  {
    var x, y := "", "c";
    var at := [0, 0, slack + lag];
    var a, c := Row(x, lag, slack + lag, false, false), Row(y, 0, 0, false, false);
    WaitingRowIsJudgedLost(x, y, at, [a, c], a, c, slack, margin);
    LagsAtStart(x, y, at, [a, c], a, c, slack, lag);
    WaitingIsReachable(x, y);
    Misjudged(WaitingState(x, y), at, [a, c], {x}, 0, slack, lag, margin, Some(a.projectedAt), c, 1);
  }

  lemma LagsAtStart(x: Episode, y: Episode, at: seq<int>, rows: seq<Row>, a: Row, c: Row, slack: int, lag: nat)
    requires rows == [a, c] && a.firstSeen == lag && c.firstSeen == 0
    requires |at| == 3 && forall t | 0 <= t < 3 :: 0 <= at[t]
    ensures AnchorsLagAtMost(WaitingState(x, y), at, rows, {x}, 0, slack, lag)
  {
  }

  lemma Misjudged(s: State, at: seq<int>, rows: seq<Row>, present: set<Episode>, skew: int, slack: int, lag: nat,
                  margin: int, w: Option<int>, c: Row, t: nat)
    requires LostVerdict(s, at, rows, present, skew, slack, margin, w, c)
    requires |at| == |s.accepted| && AnchorsLagAtMost(s, at, rows, present, skew, slack, lag)
    requires t < |s.accepted| && s.accepted[t] == c.episode && Live(s, t)
    ensures !VerdictIsSafe(margin, slack, lag)
  {
  }

  /**
   With the shipped constants: a stamp back-filled any later than that anchors when its row is pushed
   again within the slack of it, and a waiting row is then called lost.
   */
  lemma BackfilledRowMisjudges(lag: nat)
    requires lag > 540000
    ensures exists s, at, rows, present, skew, w, c ::
              && LostVerdict(s, at, rows, present, skew, SLACK_MS, MARGIN_MS, w, c)
              && AnchorsLagAtMost(s, at, rows, present, skew, SLACK_MS, lag)
              && exists t | 0 <= t < |s.accepted| :: s.accepted[t] == c.episode && Live(s, t)
  {
    ShippedMarginStandsLag(lag);
  }
}
