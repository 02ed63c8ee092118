/**
 Creating a project from the dashboard (app/actions/projects.ts): insert the row, grant it to its
 creator, record its graph pointer.  Any number of requests run interleaved, each database call may
 fail before or after taking effect, and a request may stop after any step.  A request arrives with the
 name and slug it will insert; how they are made is in CreateProjectAction.dfy.
 */
module ProjectCreation {
  import opened Text

  type ProjectId = string
  type Member = string
  type Request = nat

  datatype Project = Project(team: string, slug: string, name: string)

  /** Where a request is: the next database call it will make, or how it ended. */
  datatype Stage =
    | ToInsert
    | ToGrant(id: ProjectId)
    | ToPoint(id: ProjectId)
    | ToFindExisting
    | ToHeal(id: ProjectId)
    | Refused
    | Created(id: ProjectId)

  datatype Caller = Caller(member: Member, team: string, name: string, slug: string, stage: Stage)

  /**
   The database, the requests, and for every row inserted by this action the request that inserted
   it.  `grants` are the grants this action has made.
   */
  datatype World = World(
    rows: map<ProjectId, Project>,
    grants: set<(ProjectId, Member)>,
    pointers: set<ProjectId>,
    insertedBy: map<ProjectId, Request>,
    callers: seq<Caller>)

  /** How one database call ends: whether it took effect, and what the request is told. */
  datatype Call = Call(effect: bool, ok: bool)

  datatype Event =
    | Arrive(member: Member, team: string, name: string, slug: string)
    | Insert(r: Request, id: ProjectId, call: Call)
    | Clash(r: Request)
    | FindExisting(r: Request, found: Option<ProjectId>)
    | Heal(r: Request, call: Call)
    | Grant(r: Request, call: Call)
    | Point(r: Request, call: Call)
    | Stop(r: Request)

  predicate SlugTaken(rows: map<ProjectId, Project>, team: string, slug: string) {
    exists id | id in rows :: rows[id].team == team && rows[id].slug == slug
  }

  predicate At(w: World, r: Request) {
    r < |w.callers|
  }

  /** A call that reports success has its effect in place, now or from before. */
  predicate Truthful(call: Call, already: bool) {
    call.ok ==> call.effect || already
  }

  predicate Enabled(w: World, e: Event) {
    match e
    case Arrive(_, _, _, _) => true
    // the unique constraint on (team, slug) lets an insert take effect only where the slug is free
    case Insert(r, id, call) =>
      && At(w, r) && w.callers[r].stage.ToInsert? && id !in w.rows && Truthful(call, false)
      && (call.effect ==> !SlugTaken(w.rows, w.callers[r].team, w.callers[r].slug))
    case Clash(r) => At(w, r) && w.callers[r].stage.ToInsert? && SlugTaken(w.rows, w.callers[r].team, w.callers[r].slug)
    case FindExisting(r, found) =>
      && At(w, r) && w.callers[r].stage.ToFindExisting?
      && (found.Some? ==> found.value in w.rows && w.rows[found.value].team == w.callers[r].team
                          && w.rows[found.value].slug == w.callers[r].slug)
    case Heal(r, call) =>
      At(w, r) && w.callers[r].stage.ToHeal? && Truthful(call, w.callers[r].stage.id in w.pointers)
    case Grant(r, call) =>
      && At(w, r) && w.callers[r].stage.ToGrant?
      && Truthful(call, (w.callers[r].stage.id, w.callers[r].member) in w.grants)
    case Point(r, call) =>
      At(w, r) && w.callers[r].stage.ToPoint? && Truthful(call, w.callers[r].stage.id in w.pointers)
    case Stop(r) => At(w, r) && !w.callers[r].stage.Created?
  }

  function Move(w: World, r: Request, stage: Stage): World
    requires At(w, r)
  {
    w.(callers := w.callers[r := w.callers[r].(stage := stage)])
  }

  function Apply(w: World, e: Event): World
    requires Enabled(w, e)
  {
    match e
    case Arrive(member, team, name, slug) => w.(callers := w.callers + [Caller(member, team, name, slug, ToInsert)])
    case Insert(r, id, call) =>
      var c := w.callers[r];
      var w' :=
        if call.effect then
          w.(rows := w.rows[id := Project(c.team, c.slug, c.name)], insertedBy := w.insertedBy[id := r])
        else w;
      Move(w', r, if call.ok then ToGrant(id) else Refused)
    case Clash(r) => Move(w, r, ToFindExisting)
    case FindExisting(r, found) => Move(w, r, if found.Some? then ToHeal(found.value) else Refused)
    case Heal(r, call) =>
      var id := w.callers[r].stage.id;
      Move(if call.effect then w.(pointers := w.pointers + {id}) else w, r, Refused)
    case Grant(r, call) =>
      var id := w.callers[r].stage.id;
      Move(if call.effect then w.(grants := w.grants + {(id, w.callers[r].member)}) else w, r,
           if call.ok then ToPoint(id) else Refused)
    case Point(r, call) =>
      var id := w.callers[r].stage.id;
      Move(if call.effect then w.(pointers := w.pointers + {id}) else w, r, if call.ok then Created(id) else Refused)
    case Stop(r) => Move(w, r, Refused)
  }

  ghost predicate ValidRun(w: World, run: seq<Event>)
    decreases run
  {
    run != [] ==> Enabled(w, run[0]) && ValidRun(Apply(w, run[0]), run[1..])
  }

  ghost function Exec(w: World, run: seq<Event>): World
    requires ValidRun(w, run)
    decreases run
  {
    if run == [] then w else Exec(Apply(w, run[0]), run[1..])
  }

  // ----- safety

  predicate SameSlug(p: Project, q: Project) {
    p.team == q.team && p.slug == q.slug
  }

  /** At most one row per (team, slug). */
  ghost predicate UniqueSlugs(rows: map<ProjectId, Project>) {
    forall i, j {:trigger SameSlug(rows[i], rows[j])} | i in rows && j in rows && SameSlug(rows[i], rows[j]) :: i == j
  }

  /** Request `r` inserted row `id`, under its own team and slug. */
  predicate Own(w: World, r: Request, id: ProjectId) {
    && At(w, r) && id in w.rows && id in w.insertedBy && w.insertedBy[id] == r
    && w.rows[id].team == w.callers[r].team && w.rows[id].slug == w.callers[r].slug
  }

  /** What a request's stage says about the database. */
  predicate StageIsTrue(w: World, r: Request)
    requires At(w, r)
  {
    match w.callers[r].stage
    case ToGrant(id) => Own(w, r, id)
    case ToPoint(id) => Own(w, r, id) && (id, w.callers[r].member) in w.grants
    case ToHeal(id) => id in w.rows && w.rows[id].team == w.callers[r].team && w.rows[id].slug == w.callers[r].slug
    case Created(id) => Own(w, r, id) && (id, w.callers[r].member) in w.grants && id in w.pointers
    case _ => true
  }

  /** Every grant this action made is to the member whose own insert made the row. */
  ghost predicate GrantsAreOwn(w: World) {
    forall g | g in w.grants ::
      g.0 in w.insertedBy && Own(w, w.insertedBy[g.0], g.0) && w.callers[w.insertedBy[g.0]].member == g.1
  }

  ghost predicate Inv(w: World) {
    && UniqueSlugs(w.rows)
    && (forall id | id in w.insertedBy :: id in w.rows)
    && GrantsAreOwn(w)
    && (forall r | 0 <= r < |w.callers| :: StageIsTrue(w, r))
  }

  lemma InsertKeepsInv(w: World, r: Request, id: ProjectId, call: Call)
    requires Inv(w) && Enabled(w, Insert(r, id, call))
    ensures Inv(Apply(w, Insert(r, id, call)))
  {
    var w' := Apply(w, Insert(r, id, call));
    forall i, j | i in w'.rows && j in w'.rows && SameSlug(w'.rows[i], w'.rows[j]) ensures i == j {
      if i in w.rows && j in w.rows {
        assert SameSlug(w.rows[i], w.rows[j]);
      }
    }
    forall q | 0 <= q < |w'.callers| ensures StageIsTrue(w', q) {
      assert q != r ==> StageIsTrue(w, q);
    }
  }

  /** A step that changes no row and no grant only has to keep its own request's stage true. */
  lemma MoveKeepsInv(w: World, w': World, r: Request)
    requires Inv(w) && At(w, r)
    requires w'.rows == w.rows && w'.grants == w.grants && w'.insertedBy == w.insertedBy && w.pointers <= w'.pointers
    requires |w'.callers| == |w.callers|
    requires forall q | 0 <= q < |w.callers| :: w'.callers[q] == w.callers[q].(stage := w'.callers[q].stage)
    requires forall q | 0 <= q < |w.callers| && q != r :: w'.callers[q] == w.callers[q]
    requires StageIsTrue(w', r)
    ensures Inv(w')
  {
    forall q | 0 <= q < |w.callers| ensures StageIsTrue(w', q) {
      assert StageIsTrue(w, q);
    }
  }

  lemma NewCallerKeepsInv(w: World, c: Caller)
    requires Inv(w) && c.stage.ToInsert?
    ensures Inv(w.(callers := w.callers + [c]))
  {
    var w' := w.(callers := w.callers + [c]);
    forall q | 0 <= q < |w.callers| ensures StageIsTrue(w', q) {
      assert StageIsTrue(w, q);
    }
    forall g | g in w'.grants ensures Own(w', w'.insertedBy[g.0], g.0) {
      assert Own(w, w.insertedBy[g.0], g.0);
    }
  }

  lemma StepKeepsInv(w: World, e: Event)
    requires Inv(w) && Enabled(w, e)
    ensures Inv(Apply(w, e))
  {
    match e
    case Arrive(_, _, _, _) => NewCallerKeepsInv(w, Apply(w, e).callers[|w.callers|]);
    case Insert(r, id, call) => InsertKeepsInv(w, r, id, call);
    case Grant(r, call) => GrantKeepsInv(w, r, call);
    case _ =>
      assert StageIsTrue(w, e.r);
      MoveKeepsInv(w, Apply(w, e), e.r);
  }

  lemma GrantKeepsInv(w: World, r: Request, call: Call)
    requires Inv(w) && Enabled(w, Grant(r, call))
    ensures Inv(Apply(w, Grant(r, call)))
  {
    var w' := Apply(w, Grant(r, call));
    assert StageIsTrue(w, r);
    forall q | 0 <= q < |w.callers| ensures StageIsTrue(w', q) {
      assert StageIsTrue(w, q);
    }
  }

  /**
   Safety of every run, under any interleaving and any failures: one row per slug, grants only to the
   request's own inserts, and success only with row, grant and pointer all in place.
   */
  lemma {:induction false} RunsKeepInv(w: World, run: seq<Event>)
    requires Inv(w) && ValidRun(w, run)
    ensures Inv(Exec(w, run))
    decreases run
  {
    if run == [] {
    } else {
      StepKeepsInv(w, run[0]);
      RunsKeepInv(Apply(w, run[0]), run[1..]);
    }
  }

  /** The state before any request: whatever rows and pointers earlier pushes left. */
  ghost predicate Fresh(w: World) {
    UniqueSlugs(w.rows) && w.grants == {} && w.insertedBy == map[] && w.callers == []
  }

  lemma CreatedMeansComplete(w: World, run: seq<Event>, r: Request)
    requires Fresh(w) && ValidRun(w, run)
    requires At(Exec(w, run), r) && Exec(w, run).callers[r].stage.Created?
    ensures var w' := Exec(w, run); var c := w'.callers[r]; var id := c.stage.id;
            && id in w'.rows && w'.rows[id].team == c.team && w'.rows[id].slug == c.slug
            && (id, c.member) in w'.grants && id in w'.pointers && id !in w.rows
  {
    RunsKeepInv(w, run);
    assert StageIsTrue(Exec(w, run), r);
    InsertedRowsAreNew(w, run, Exec(w, run).callers[r].stage.id);
  }

  lemma {:induction false} InsertedRowsAreNew(w: World, run: seq<Event>, id: ProjectId)
    requires ValidRun(w, run) && (id in w.rows ==> id !in w.insertedBy)
    ensures id in w.rows ==> id in Exec(w, run).rows && id !in Exec(w, run).insertedBy
    decreases run
  {
    if run != [] && id in w.rows {
      InsertedRowsAreNew(Apply(w, run[0]), run[1..], id);
    }
  }

  /** Of all requests for one slug of a team, at most one is ever told it created the project. */
  lemma OneWinnerPerSlug(w: World, q: Request, r: Request)
    requires Inv(w) && At(w, q) && At(w, r)
    requires w.callers[q].stage.Created? && w.callers[r].stage.Created?
    requires w.callers[q].team == w.callers[r].team && w.callers[q].slug == w.callers[r].slug
    ensures q == r
  {
    assert StageIsTrue(w, q) && StageIsTrue(w, r);
    var i, j := w.callers[q].stage.id, w.callers[r].stage.id;
    assert SameSlug(w.rows[i], w.rows[j]);
  }

  /** Every new grant comes from a request that is past its own insert, and is to its own member. */
  lemma GrantsOnlyAfterOwnInsert(w: World, e: Event, g: (ProjectId, Member))
    requires Inv(w) && Enabled(w, e) && g in Apply(w, e).grants && g !in w.grants
    ensures e.Grant? && w.callers[e.r].stage == ToGrant(g.0) && w.callers[e.r].member == g.1 && Own(w, e.r, g.0)
  {
    assert e.Grant? ==> StageIsTrue(w, e.r);
  }

  /** The stages from which a request can never grant again. */
  predicate PastGranting(s: Stage) {
    !s.ToInsert? && !s.ToGrant?
  }

  /** The duplicate arm grants nothing: a request that clashed adds no row and no grant, ever. */
  lemma {:induction false} DuplicateArmGrantsNothing(w: World, run: seq<Event>, r: Request)
    requires ValidRun(w, run) && At(w, r) && PastGranting(w.callers[r].stage)
    ensures At(Exec(w, run), r) && PastGranting(Exec(w, run).callers[r].stage)
    ensures forall e | e in run :: !(e.Grant? && e.r == r) && !(e.Insert? && e.r == r)
    decreases run
  {
    if run == [] {
    } else {
      DuplicateArmGrantsNothing(Apply(w, run[0]), run[1..], r);
    }
  }

  /** No request can still grant `id`. */
  ghost predicate NobodyGrants(w: World, id: ProjectId) {
    id in w.rows && forall r | 0 <= r < |w.callers| :: w.callers[r].stage != ToGrant(id)
  }

  lemma StrandedStep(w: World, e: Event, id: ProjectId)
    requires Enabled(w, e) && NobodyGrants(w, id)
    ensures NobodyGrants(Apply(w, e), id)
    ensures forall m :: (id, m) in Apply(w, e).grants <==> (id, m) in w.grants
  {
  }

  /**
   A row whose creator stopped before the grant stays ungranted by this action for ever: no retry, by
   its creator or by anyone else, reaches a grant.
   */
  lemma {:induction false} StrandedStaysStranded(w: World, run: seq<Event>, id: ProjectId)
    requires ValidRun(w, run) && NobodyGrants(w, id)
    ensures NobodyGrants(Exec(w, run), id)
    ensures forall m :: (id, m) in Exec(w, run).grants <==> (id, m) in w.grants
    decreases run
  {
    if run == [] {
    } else {
      StrandedStep(w, run[0], id);
      StrandedStaysStranded(Apply(w, run[0]), run[1..], id);
    }
  }

  /** The other stranding heals: a clash whose heal succeeds leaves the existing row with its pointer. */
  lemma ClashHealsPointer(w: World, r: Request, id: ProjectId, call: Call)
    requires Inv(w) && At(w, r) && w.callers[r].stage.ToInsert?
    requires id in w.rows && w.rows[id].team == w.callers[r].team && w.rows[id].slug == w.callers[r].slug
    requires Truthful(call, id in w.pointers) && call.ok
    ensures ValidRun(w, [Clash(r), FindExisting(r, Some(id)), Heal(r, call)])
    ensures var w' := Exec(w, [Clash(r), FindExisting(r, Some(id)), Heal(r, call)]);
            && id in w'.pointers && w'.grants == w.grants && w'.rows == w.rows
            && At(w', r) && w'.callers[r].stage == Refused
  {
    var e0, e1, e2 := Clash(r), FindExisting(r, Some(id)), Heal(r, call);
    assert Enabled(w, e0);
    var w1 := Apply(w, e0);
    assert Enabled(w1, e1);
    var w2 := Apply(w1, e1);
    assert Enabled(w2, e2);
    var w3 := Apply(w2, e2);
    assert [e0, e1, e2][1..] == [e1, e2] && [e1, e2][1..] == [e2] && [e2][1..] == [];
    assert ValidRun(w3, []) && Exec(w3, []) == w3;
    assert ValidRun(w2, [e2]) && Exec(w2, [e2]) == w3;
    assert ValidRun(w1, [e1, e2]) && Exec(w1, [e1, e2]) == w3;
  }
}
