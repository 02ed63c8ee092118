/**
 The action itself, from the first database call to the last: one request run without interruption.
 Whatever fails, its writes are a run of the interleaved system in ProjectCreation.dfy.
 */
module CreateProjectAction {
  import opened Text
  import opened Slug
  import opened ProjectCreation
  import opened Writes

  function AsCall(f: Fate): Call {
    Call(!f.FailsBefore?, f.Works?)
  }

  datatype Faults = Faults(insert: Fate, found: bool, heal: Fate, singleton: bool, grant: Fate, pointer: Fate)

  datatype Reply =
    | Made(id: ProjectId)
    | NameRequired
    | NotAMember
    | InsertFailed
    | AlreadyExists
    | AlreadyExistsUnhealed
    | GrantFailed
    | PointerFailed

  /** The reply to a named request, decided by the slugs in use and the calls that fail. */
  function ReplyNamed(rows: map<ProjectId, Project>, team: string, slug: string, id: ProjectId, f: Faults): Reply {
    if f.insert.FailsBefore? then InsertFailed
    else if SlugTaken(rows, team, slug) then
      if f.found && !f.heal.Works? then AlreadyExistsUnhealed else AlreadyExists
    else if !f.insert.Works? then InsertFailed
    else if !f.singleton || !f.grant.Works? then GrantFailed
    else if !f.pointer.Works? then PointerFailed
    else Made(id)
  }

  /** A name that is blank or has no slug, or a caller without a membership, ends the request first. */
  function ReplyTo(rows: map<ProjectId, Project>, team: string, name: string, slug: string, me: Option<Member>,
                   id: ProjectId, f: Faults): Reply {
    if name == "" || slug == "" then NameRequired
    else if me.None? then NotAMember
    else ReplyNamed(rows, team, slug, id, f)
  }

  /** What each request is told, reply by reply. */
  lemma ReplySays(rows: map<ProjectId, Project>, team: string, name: string, slug: string, me: Option<Member>,
                  id: ProjectId, f: Faults)
    ensures var reply := ReplyTo(rows, team, name, slug, me, id, f);
            var taken := exists i | i in rows :: rows[i].team == team && rows[i].slug == slug;
            && (reply == NameRequired <==> name == "" || slug == "")
            && (reply == NotAMember <==> name != "" && slug != "" && me.None?)
            && (name != "" && slug != "" && me.Some? ==>
                  && (reply == InsertFailed <==> f.insert.FailsBefore? || (!taken && f.insert.FailsAfter?))
                  && (reply == AlreadyExistsUnhealed <==>
                        taken && !f.insert.FailsBefore? && f.found && !f.heal.Works?)
                  && (reply == AlreadyExists <==> taken && !f.insert.FailsBefore? && (!f.found || f.heal.Works?))
                  && (reply == GrantFailed <==> !taken && f.insert.Works? && (!f.singleton || !f.grant.Works?))
                  && (reply == PointerFailed <==>
                        !taken && f.insert.Works? && f.singleton && f.grant.Works? && !f.pointer.Works?)
                  && (reply.Made? <==>
                        !taken && f.insert.Works? && f.singleton && f.grant.Works? && f.pointer.Works?)
                  && (reply.Made? ==> reply == Made(id)))
  {
    assert SlugTaken(rows, team, slug) <==> exists i | i in rows :: rows[i].team == team && rows[i].slug == slug;
  }

  // ----- which writes take effect

  predicate Inserts(rows: map<ProjectId, Project>, team: string, slug: string, f: Faults) {
    !f.insert.FailsBefore? && !SlugTaken(rows, team, slug)
  }

  /** Only a request whose own insert is known to have worked gets as far as a grant. */
  predicate Grants(rows: map<ProjectId, Project>, team: string, slug: string, f: Faults) {
    Inserts(rows, team, slug, f) && f.insert.Works? && f.singleton && !f.grant.FailsBefore?
  }

  predicate Points(rows: map<ProjectId, Project>, team: string, slug: string, f: Faults) {
    Grants(rows, team, slug, f) && f.grant.Works? && !f.pointer.FailsBefore?
  }

  predicate Heals(rows: map<ProjectId, Project>, team: string, slug: string, f: Faults) {
    !f.insert.FailsBefore? && SlugTaken(rows, team, slug) && f.found && !f.heal.FailsBefore?
  }

  /** The pointer of the row that already has the slug, and nothing else. */
  ghost predicate HealedPointer(before: World, after: World, team: string, slug: string) {
    exists e | e in before.rows ::
      before.rows[e].team == team && before.rows[e].slug == slug && after.pointers == before.pointers + {e}
  }

  /** Everything one named request leaves in the database. */
  ghost predicate WrittenBy(before: World, after: World, c: Caller, id: ProjectId, f: Faults) {
    && after.rows == (if Inserts(before.rows, c.team, c.slug, f) then before.rows[id := Project(c.team, c.slug, c.name)]
                      else before.rows)
    && after.insertedBy == (if Inserts(before.rows, c.team, c.slug, f) then before.insertedBy[id := |before.callers|]
                            else before.insertedBy)
    && after.grants == (if Grants(before.rows, c.team, c.slug, f) then before.grants + {(id, c.member)}
                        else before.grants)
    && (if Heals(before.rows, c.team, c.slug, f) then HealedPointer(before, after, c.team, c.slug)
        else after.pointers == if Points(before.rows, c.team, c.slug, f) then before.pointers + {id}
                               else before.pointers)
    && after.callers == before.callers + [c]
  }

  /** A request that is told it created the project has left exactly that: the row, its grant and its pointer. */
  lemma MadeLeaves(before: World, after: World, c: Caller, name: string, me: Option<Member>, id: ProjectId, f: Faults)
    requires WrittenBy(before, after, c, id, f) && me == Some(c.member)
    requires ReplyTo(before.rows, c.team, name, c.slug, me, id, f).Made?
    ensures after.rows == before.rows[id := Project(c.team, c.slug, c.name)]
    ensures after.grants == before.grants + {(id, c.member)}
    ensures after.pointers == before.pointers + {id}
  {
  }

  /** A request that is told the name is in use has added no row and no grant. */
  lemma ClashLeaves(before: World, after: World, c: Caller, name: string, me: Option<Member>, id: ProjectId, f: Faults)
    requires WrittenBy(before, after, c, id, f) && me == Some(c.member)
    requires ReplyTo(before.rows, c.team, name, c.slug, me, id, f) in {AlreadyExists, AlreadyExistsUnhealed}
    ensures after.rows == before.rows && after.grants == before.grants
  {
  }

  function EndStage(reply: Reply): Stage {
    if reply.Made? then Created(reply.id) else Refused
  }

  lemma RunCons(w: World, e: Event, rest: seq<Event>)
    requires Enabled(w, e) && ValidRun(Apply(w, e), rest)
    ensures ValidRun(w, [e] + rest) && Exec(w, [e] + rest) == Exec(Apply(w, e), rest)
  {
    assert ([e] + rest)[1..] == rest;
  }

  lemma RunUncons(w: World, run: seq<Event>)
    requires run != [] && ValidRun(w, run)
    ensures Enabled(w, run[0]) && ValidRun(Apply(w, run[0]), run[1..])
    ensures Exec(w, run) == Exec(Apply(w, run[0]), run[1..])
  {
  }

  lemma {:induction false} ExecAppend(w: World, a: seq<Event>, b: seq<Event>)
    requires ValidRun(w, a) && ValidRun(Exec(w, a), b)
    ensures ValidRun(w, a + b) && Exec(w, a + b) == Exec(Exec(w, a), b)
    decreases a
  {
    if a == [] {
      assert a + b == b;
    } else {
      RunUncons(w, a);
      ExecAppend(Apply(w, a[0]), a[1..], b);
      assert a + b == [a[0]] + (a[1..] + b);
      RunCons(w, a[0], a[1..] + b);
    }
  }

  lemma RunOne(w: World, e: Event)
    requires Enabled(w, e)
    ensures ValidRun(w, [e]) && Exec(w, [e]) == Apply(w, e)
  {
    RunCons(w, e, []);
    assert [e] + [] == [e];
  }

  class Database {
    var world: World

    constructor (world: World)
      ensures this.world == world
    {
      this.world := world;
    }

    /** One database call of a request, appended to its trace. */
    method Do(e: Event, ghost start: World, ghost trace: seq<Event>) returns (ghost trace': seq<Event>)
      requires ValidRun(start, trace) && world == Exec(start, trace) && Enabled(world, e)
      modifies this
      ensures trace' == trace + [e] && ValidRun(start, trace') && world == Exec(start, trace')
      ensures world == Apply(old(world), e)
    {
      RunOne(world, e);
      ExecAppend(start, trace, [e]);
      trace' := trace + [e];
      world := Apply(world, e);
    }

    /**
     Create a project: refuse a bad name or a stranger, insert, grant, point.  The duplicate arm only
     heals the pointer.  `id` is the id the database would give the row.
     */
    method CreateProject(team: string, name: string, me: Option<Member>, id: ProjectId, f: Faults)
      returns (reply: Reply, ghost trace: seq<Event>)
      requires id !in world.rows
      modifies this
      ensures ValidRun(old(world), trace) && world == Exec(old(world), trace)
      ensures reply == ReplyTo(old(world.rows), team, Trim(name), Slugify(Trim(name)), me, id, f)
      ensures reply.NameRequired? || reply.NotAMember? ==> trace == []
      ensures !reply.NameRequired? && !reply.NotAMember? ==>
                WrittenBy(old(world), world,
                          Caller(me.value, team, Trim(name), Slugify(Trim(name)), EndStage(reply)), id, f)
      // a name that is blank or has no slug, or a stranger, leaves everything as it was
      ensures reply == NameRequired <==> Trim(name) == "" || Slugify(Trim(name)) == ""
      ensures reply == NotAMember <==> Trim(name) != "" && Slugify(Trim(name)) != "" && me.None?
      ensures reply == NameRequired || reply == NotAMember ==> world == old(world)
    {
      var trimmed := Trim(name);
      var slug := Slugify(trimmed);
      reply, trace := CreateTrimmed(team, trimmed, slug, me, id, f);
    }

    method CreateTrimmed(team: string, name: string, slug: string, me: Option<Member>, id: ProjectId, f: Faults)
      returns (reply: Reply, ghost trace: seq<Event>)
      requires id !in world.rows
      modifies this
      ensures ValidRun(old(world), trace) && world == Exec(old(world), trace)
      ensures reply == ReplyTo(old(world.rows), team, name, slug, me, id, f)
      ensures reply.NameRequired? || reply.NotAMember? ==> trace == []
      ensures !reply.NameRequired? && !reply.NotAMember? ==>
                WrittenBy(old(world), world, Caller(me.value, team, name, slug, EndStage(reply)), id, f)
      ensures reply == NameRequired <==> name == "" || slug == ""
      ensures reply == NotAMember <==> name != "" && slug != "" && me.None?
      ensures reply == NameRequired || reply == NotAMember ==> world == old(world)
      ensures reply.Made? ==>
                && world.rows == old(world.rows)[id := Project(team, slug, name)]
                && world.grants == old(world.grants) + {(id, me.value)}
                && world.pointers == old(world.pointers) + {id}
      ensures reply == AlreadyExists || reply == AlreadyExistsUnhealed ==>
                world.rows == old(world.rows) && world.grants == old(world.grants)
    {
      trace := [];
      if name == "" || slug == "" {
        reply := NameRequired;
      } else if me.None? {
        reply := NotAMember;
      } else {
        reply, trace := CreateNamed(team, name, slug, me.value, id, f);
        ReplySays(old(world.rows), team, name, slug, me, id, f);
        if reply.Made? {
          MadeLeaves(old(world), world, Caller(me.value, team, name, slug, EndStage(reply)), name, me, id, f);
        } else if reply == AlreadyExists || reply == AlreadyExistsUnhealed {
          ClashLeaves(old(world), world, Caller(me.value, team, name, slug, EndStage(reply)), name, me, id, f);
        }
      }
    }

    method CreateNamed(team: string, name: string, slug: string, me: Member, id: ProjectId, f: Faults)
      returns (reply: Reply, ghost trace: seq<Event>)
      requires id !in world.rows
      modifies this
      ensures ValidRun(old(world), trace) && world == Exec(old(world), trace)
      ensures reply == ReplyNamed(old(world.rows), team, slug, id, f)
      ensures WrittenBy(old(world), world, Caller(me, team, name, slug, EndStage(reply)), id, f)
    {
      trace := [];
      ghost var start := world;
      var r := |world.callers|;
      trace := Do(Arrive(me, team, name, slug), start, trace);
      if f.insert.FailsBefore? {
        trace := Do(Insert(r, id, AsCall(f.insert)), start, trace);
        return InsertFailed, trace;
      }
      if SlugTaken(world.rows, team, slug) {
        reply, trace := HealDuplicate(r, f, start, trace);
        return;
      }
      trace := Do(Insert(r, id, AsCall(f.insert)), start, trace);
      if !f.insert.Works? {
        return InsertFailed, trace;
      }
      reply, trace := GrantAndPoint(r, id, f, start, trace);
    }

    /** The two writes after the request's own insert. */
    method GrantAndPoint(r: Request, id: ProjectId, f: Faults, ghost start: World, ghost trace: seq<Event>)
      returns (reply: Reply, ghost trace': seq<Event>)
      requires ValidRun(start, trace) && world == Exec(start, trace)
      requires At(world, r) && world.callers[r].stage == ToGrant(id)
      modifies this
      ensures ValidRun(start, trace') && world == Exec(start, trace')
      ensures reply == if !f.singleton || !f.grant.Works? then GrantFailed
                       else if !f.pointer.Works? then PointerFailed
                       else Made(id)
      ensures world.rows == old(world.rows) && world.insertedBy == old(world.insertedBy)
      ensures world.grants ==
              if f.singleton && !f.grant.FailsBefore? then old(world.grants) + {(id, old(world.callers[r].member))}
              else old(world.grants)
      ensures world.pointers ==
              if f.singleton && f.grant.Works? && !f.pointer.FailsBefore? then old(world.pointers) + {id}
              else old(world.pointers)
      ensures world.callers == old(world.callers)[r := old(world.callers[r]).(stage := EndStage(reply))]
    {
      var grant := if f.singleton then f.grant else FailsBefore;
      trace' := Do(Grant(r, AsCall(grant)), start, trace);
      if !grant.Works? {
        return GrantFailed, trace';
      }
      trace' := Do(Point(r, AsCall(f.pointer)), start, trace');
      return if f.pointer.Works? then Made(id) else PointerFailed, trace';
    }

    method HealDuplicate(r: Request, f: Faults, ghost start: World, ghost trace: seq<Event>)
      returns (reply: Reply, ghost trace': seq<Event>)
      requires ValidRun(start, trace) && world == Exec(start, trace)
      requires Enabled(world, Clash(r))
      modifies this
      ensures ValidRun(start, trace') && world == Exec(start, trace')
      ensures reply == if f.found && !f.heal.Works? then AlreadyExistsUnhealed else AlreadyExists
      ensures world.grants == old(world.grants) && world.rows == old(world.rows)
      ensures world.insertedBy == old(world.insertedBy)
      ensures if f.found && !f.heal.FailsBefore? then
                HealedPointer(old(world), world, old(world.callers[r].team), old(world.callers[r].slug))
              else world.pointers == old(world.pointers)
      ensures world.callers == old(world.callers)[r := old(world.callers[r]).(stage := Refused)]
    {
      var c := world.callers[r];
      trace' := Do(Clash(r), start, trace);
      if !f.found {
        trace' := Do(FindExisting(r, None), start, trace');
        return AlreadyExists, trace';
      }
      var existing :|
        existing in world.rows && world.rows[existing].team == c.team && world.rows[existing].slug == c.slug;
      trace' := Do(FindExisting(r, Some(existing)), start, trace');
      trace' := Do(Heal(r, AsCall(f.heal)), start, trace');
      return if f.heal.Works? then AlreadyExists else AlreadyExistsUnhealed, trace';
    }
  }
}
