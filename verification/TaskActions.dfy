/**
 The dashboard's task actions (app/actions/tasks.ts) over a store of rows.  Each action is one atomic
 step here; what edits that overlap can do is stated at the end of TaskForest.dfy and in ManyEdits.dfy.
 */
module TaskActions {
  import opened Text
  import opened ParentGraph
  import opened Writes

  type Id = string

  const TASK_STATUSES := ["backlog", "ready", "in_progress", "in_review", "blocked", "done"]

  datatype Row = Row(
    team: string, project: string, rowKey: Option<Key>, parentRowKey: Option<Key>,
    title: string, sprint: string, dueDate: Option<string>, labels: seq<string>, priority: string, body: string,
    assignee: string, status: string, rawStatus: Option<string>)

  type Rows = map<Id, Row>

  /** The fields an edit may carry; an absent field is left alone. */
  datatype Edit = Edit(
    title: Option<string>, sprint: Option<string>, dueDate: Option<Option<string>>,
    parentRowKey: Option<Option<string>>, labels: Option<seq<string>>, priority: Option<string>, body: Option<string>)

  datatype NewTask = NewTask(team: string, project: string, title: string, assignee: string, sprint: string,
                             dueDate: Option<string>)

  datatype Result =
    | Ok
    | InvalidStatus
    | TitleAndProjectRequired
    | TaskIdRequired
    | TaskNotFound
    | ProjectNotFound
    | NotAMember
    | OwnParent
    | ParentNotFound
    | WouldCycle
    | DuplicateKey
    | DbFailed

  /** Who asks: the guards of the action, decided elsewhere. */
  datatype Context = Context(member: bool, mayWrite: bool)

  /** Which of an edit's queries answer.  The error of one that fails is not looked at: it has found nothing. */
  datatype Reads = Reads(task: bool, parent: bool, edges: bool)

  /** One attempt at an insert: the id and key it would use, and how it goes if the key is free. */
  datatype Attempt = Attempt(id: Id, key: Key, write: Fate)

  // ----- the store

  predicate InProject(r: Row, team: string, project: string) {
    r.team == team && r.project == project
  }

  predicate HasKey(r: Row) {
    r.rowKey.Some? && r.rowKey.value != ""
  }

  predicate SameKey(r: Row, r': Row) {
    InProject(r, r'.team, r'.project) && r.rowKey.Some? && r.rowKey == r'.rowKey
  }

  /** The unique index on (team, project, row key); null keys do not collide. */
  ghost predicate UniqueKeys(rows: Rows) {
    forall i, j {:trigger SameKey(rows[i], rows[j])} | i in rows && j in rows && SameKey(rows[i], rows[j]) :: i == j
  }

  predicate KeyTaken(rows: Rows, team: string, project: string, key: Key) {
    exists i | i in rows :: InProject(rows[i], team, project) && rows[i].rowKey == Some(key)
  }

  /** Row `i` is one that gives key `k` of a project its edge. */
  ghost predicate Gives(rows: Rows, team: string, project: string, i: Id, k: Key) {
    i in rows && InProject(rows[i], team, project) && rows[i].rowKey == Some(k) && k != ""
  }

  ghost function Giver(rows: Rows, team: string, project: string, k: Key): (i: Id)
    requires exists i :: Gives(rows, team, project, i, k)
    ensures Gives(rows, team, project, i, k)
  {
    var i :| Gives(rows, team, project, i, k);
    i
  }

  ghost function ProjectKeys(rows: Rows, team: string, project: string): (ks: set<Key>)
    ensures forall k :: k in ks <==> exists i :: Gives(rows, team, project, i, k)
  {
    var ks := set i | i in rows && InProject(rows[i], team, project) && HasKey(rows[i]) :: rows[i].rowKey.value;
    assert forall i, k | Gives(rows, team, project, i, k) :: HasKey(rows[i]) && k == rows[i].rowKey.value;
    assert forall i | i in rows && InProject(rows[i], team, project) && HasKey(rows[i]) ::
        Gives(rows, team, project, i, rows[i].rowKey.value);
    ks
  }

  /** The parent edges of one project, keyed by row key. */
  ghost function Edges(rows: Rows, team: string, project: string): Parents {
    map k | k in ProjectKeys(rows, team, project) :: rows[Giver(rows, team, project, k)].parentRowKey
  }

  lemma EdgeOf(rows: Rows, team: string, project: string, i: Id, k: Key)
    requires UniqueKeys(rows) && Gives(rows, team, project, i, k)
    ensures k in Edges(rows, team, project) && Edges(rows, team, project)[k] == rows[i].parentRowKey
  {
    assert SameKey(rows[i], rows[Giver(rows, team, project, k)]);
  }

  function NonEmpty(o: Option<string>): Option<string> {
    if o == Some("") then None else o
  }

  /** The walk over no edges finds only its own start. */
  lemma NothingLeadsAnywhere(parent: Key, own: Option<Key>)
    requires own != Some(parent)
    ensures own.Some? ==> !Reaches(map[], parent, own.value)
  {
    forall n: nat ensures Up(map[], parent, n) != own || own.None? {
      if n > 0 {
        assert Up(map[], parent, 1) == Next(map[], Up(map[], parent, 0).value) == None;
        UpStaysEmpty(map[], parent, 1, n);
      }
    }
  }

  // ----- what an edit means

  /** Under this parent the row would lie on a cycle. */
  ghost predicate LeadsBack(rows: Rows, own: Row, parent: Key) {
    own.rowKey.Some? && Reaches(Edges(rows, own.team, own.project), parent, own.rowKey.value)
  }

  /**
   The verdict on a proposed parent, said through reachability rather than through the walk.  Where the
   edges could not be read, nothing is found to lead back.
   */
  ghost function ParentVerdict(rows: Rows, own: Row, parent: Key, read: Reads): Result
  {
    if parent == "" then Ok
    else if own.rowKey == Some(parent) then OwnParent
    else if !read.parent || !KeyTaken(rows, own.team, own.project, parent) then ParentNotFound
    else if read.edges && LeadsBack(rows, own, parent) then WouldCycle
    else Ok
  }

  /** The text of the proposed parent, empty for "no parent". */
  function ProposedParent(e: Edit): Key
    requires e.parentRowKey.Some?
  {
    if e.parentRowKey.value.Some? then Trim(e.parentRowKey.value.value) else ""
  }

  function Edited(r: Row, e: Edit, normalize: string -> string): Row {
    r.(title := if e.title.Some? then e.title.value else r.title,
       sprint := if e.sprint.Some? then e.sprint.value else r.sprint,
       dueDate := if e.dueDate.Some? then NonEmpty(e.dueDate.value) else r.dueDate,
       labels := if e.labels.Some? then e.labels.value else r.labels,
       priority := if e.priority.Some? then normalize(e.priority.value) else r.priority,
       body := if e.body.Some? then e.body.value else r.body,
       parentRowKey := if e.parentRowKey.Some? then NonEmpty(Some(ProposedParent(e))) else r.parentRowKey)
  }

  /** Everything `Update` checks before it writes. */
  ghost function UpdateGuard(rows: Rows, id: Id, e: Edit, ctx: Context, read: Reads): Result
  {
    if id == "" then TaskIdRequired
    else if !read.task || id !in rows then TaskNotFound
    else if !ctx.member then NotAMember
    else if !ctx.mayWrite then TaskNotFound
    else if e.parentRowKey.Some? then ParentVerdict(rows, rows[id], ProposedParent(e), read)
    else Ok
  }

  function MoveGuard(rows: Rows, id: Id, status: string, ctx: Context, taskRead: bool): Result {
    if status !in TASK_STATUSES then InvalidStatus
    else if !taskRead || id !in rows then TaskNotFound
    else if !ctx.member then NotAMember
    else if !ctx.mayWrite then TaskNotFound
    else Ok
  }

  function CreateGuard(t: NewTask, ctx: Context): Result {
    if Trim(t.title) == "" || t.project == "" then TitleAndProjectRequired
    else if !ctx.member then NotAMember
    else if !ctx.mayWrite then ProjectNotFound
    else Ok
  }

  /** What the caller is told: a refusal of the guard, or what the database reports. */
  function Told(guard: Result, write: Fate): Result {
    if guard != Ok then guard else if write.Works? then Ok else DbFailed
  }

  /** Whether the write takes effect, whatever is reported. */
  predicate Written(guard: Result, write: Fate) {
    guard == Ok && !write.FailsBefore?
  }

  function Created(t: NewTask, key: Key): Row {
    Row(t.team, t.project, Some(key), None, Trim(t.title), t.sprint, NonEmpty(t.dueDate), [], "none", "",
        t.assignee, "backlog", None)
  }

  /** The unique index refuses the attempt; a call that fails before reaching it is another failure. */
  predicate Clashes(rows: Rows, t: NewTask, a: Attempt) {
    !a.write.FailsBefore? && KeyTaken(rows, t.team, t.project, a.key)
  }

  /** The attempt that decides: the second only after a clash of the first. */
  function Deciding(rows: Rows, t: NewTask, first: Attempt, second: Attempt): Attempt {
    if Clashes(rows, t, first) then second else first
  }

  function InsertVerdict(rows: Rows, t: NewTask, first: Attempt, second: Attempt): Result {
    var a := Deciding(rows, t, first, second);
    if Clashes(rows, t, a) then DuplicateKey else Told(Ok, a.write)
  }

  function AfterInsert(rows: Rows, t: NewTask, first: Attempt, second: Attempt): Rows {
    var a := Deciding(rows, t, first, second);
    if a.write.FailsBefore? || Clashes(rows, t, a) then rows else rows[a.id := Created(t, a.key)]
  }

  function CreateVerdict(rows: Rows, t: NewTask, ctx: Context, first: Attempt, second: Attempt): Result {
    if CreateGuard(t, ctx) != Ok then CreateGuard(t, ctx) else InsertVerdict(rows, t, first, second)
  }

  function AfterCreate(rows: Rows, t: NewTask, ctx: Context, first: Attempt, second: Attempt): Rows {
    if CreateGuard(t, ctx) != Ok then rows else AfterInsert(rows, t, first, second)
  }

  class TaskStore {
    var rows: Rows
    const normalize: string -> string

    constructor (rows: Rows, normalize: string -> string)
      ensures this.rows == rows && this.normalize == normalize
    {
      this.rows, this.normalize := rows, normalize;
    }

    method Move(id: Id, status: string, ctx: Context, taskRead: bool, write: Fate) returns (r: Result)
      modifies this`rows
      ensures r == Told(MoveGuard(old(rows), id, status, ctx, taskRead), write)
      ensures rows == if Written(MoveGuard(old(rows), id, status, ctx, taskRead), write)
                      then old(rows)[id := old(rows)[id].(status := status, rawStatus := None)] else old(rows)
      ensures r == InvalidStatus <==> status !in TASK_STATUSES
      ensures r == NotAMember <==> status in TASK_STATUSES && taskRead && id in old(rows) && !ctx.member
      ensures r == TaskNotFound <==>
              status in TASK_STATUSES && (!taskRead || id !in old(rows) || (ctx.member && !ctx.mayWrite))
      ensures r == Ok || r == DbFailed <==>
              status in TASK_STATUSES && taskRead && id in old(rows) && ctx.member && ctx.mayWrite
      ensures r == Ok ==> write.Works?
      ensures r == DbFailed ==> !write.Works?
      ensures rows != old(rows) ==> (r == Ok || r == DbFailed) && !write.FailsBefore?
      ensures (r == Ok || r == DbFailed) && !write.FailsBefore? ==>
                rows == old(rows)[id := old(rows)[id].(status := status, rawStatus := None)]
    {
      if status !in TASK_STATUSES {
        return InvalidStatus;
      }
      if !taskRead || id !in rows {
        return TaskNotFound;
      }
      if !ctx.member {
        return NotAMember;
      }
      if !ctx.mayWrite {
        return TaskNotFound;
      }
      r := Put(id, rows[id].(status := status, rawStatus := None), write);
    }

    /** Write one row over itself; the reply need not say whether it took effect. */
    method Put(id: Id, row: Row, write: Fate) returns (r: Result)
      modifies this`rows
      ensures rows == (if write.FailsBefore? then old(rows) else old(rows)[id := row])
      ensures r == if write.Works? then Ok else DbFailed
    {
      if !write.FailsBefore? {
        rows := rows[id := row];
      }
      return if write.Works? then Ok else DbFailed;
    }

    /**
     Create a task under a minted key, trying a second key once if the first is taken.  The attempts
     are what the database and the random source would hand out.
     */
    method Create(t: NewTask, ctx: Context, first: Attempt, second: Attempt) returns (r: Result)
      requires first.id !in rows && second.id !in rows
      modifies this`rows
      ensures r == CreateVerdict(old(rows), t, ctx, first, second)
      ensures rows == AfterCreate(old(rows), t, ctx, first, second)
      ensures r == TitleAndProjectRequired <==> Trim(t.title) == "" || t.project == ""
      ensures r == NotAMember <==> Trim(t.title) != "" && t.project != "" && !ctx.member
      ensures r == ProjectNotFound <==> Trim(t.title) != "" && t.project != "" && ctx.member && !ctx.mayWrite
      // a request that passes: the second attempt decides only where the first key was taken
      ensures Trim(t.title) != "" && t.project != "" && ctx.member && ctx.mayWrite ==>
                var clash := !first.write.FailsBefore? && KeyTaken(old(rows), t.team, t.project, first.key);
                var a := if clash then second else first;
                && (r == DuplicateKey <==>
                      clash && !second.write.FailsBefore? && KeyTaken(old(rows), t.team, t.project, second.key))
                && (r == DuplicateKey || r == if a.write.Works? then Ok else DbFailed)
                && (r == DuplicateKey || a.write.FailsBefore? ==> rows == old(rows))
                && (r != DuplicateKey && !a.write.FailsBefore? ==>
                      && !KeyTaken(old(rows), t.team, t.project, a.key)
                      && rows == old(rows)[a.id := Row(t.team, t.project, Some(a.key), None, Trim(t.title), t.sprint,
                                                       if t.dueDate == Some("") then None else t.dueDate, [],
                                                       "none", "", t.assignee, "backlog", None)])
      ensures r in {TitleAndProjectRequired, NotAMember, ProjectNotFound} ==> rows == old(rows)
    {
      r := CheckCreate(t, ctx);
      if r == Ok {
        r := Insert(t, first, second);
      }
    }

    method CheckCreate(t: NewTask, ctx: Context) returns (r: Result)
      ensures r == CreateGuard(t, ctx)
    {
      var title := Trim(t.title);
      if title == "" || t.project == "" {
        return TitleAndProjectRequired;
      }
      if !ctx.member {
        return NotAMember;
      }
      if !ctx.mayWrite {
        return ProjectNotFound;
      }
      return Ok;
    }

    method Insert(t: NewTask, first: Attempt, second: Attempt) returns (r: Result)
      modifies this`rows
      ensures r == InsertVerdict(old(rows), t, first, second)
      ensures rows == AfterInsert(old(rows), t, first, second)
    {
      var attempt := 0;
      while attempt < 2
        invariant 0 <= attempt < 2 && rows == old(rows)
        invariant attempt == 1 ==> Clashes(rows, t, first)
        decreases 2 - attempt
      {
        var a := if attempt == 0 then first else second;
        if !Clashes(rows, t, a) {
          r := Put(a.id, Created(t, a.key), a.write);
          return;
        }
        if attempt == 0 {
          attempt := attempt + 1;
          continue;
        }
        return DuplicateKey;
      }
    }

    /** Edit a task.  Only the fields given change; a refused edit changes nothing. */
    method Update(id: Id, e: Edit, ctx: Context, read: Reads, write: Fate) returns (r: Result)
      requires UniqueKeys(rows)
      modifies this`rows
      ensures r == Told(UpdateGuard(old(rows), id, e, ctx, read), write)
      ensures rows == if Written(UpdateGuard(old(rows), id, e, ctx, read), write)
                      then old(rows)[id := Edited(old(rows)[id], e, normalize)] else old(rows)
      // who is refused before anything about a parent is told
      ensures r == TaskIdRequired <==> id == ""
      ensures r == NotAMember <==> id != "" && read.task && id in old(rows) && !ctx.member
      ensures r == TaskNotFound <==>
              id != "" && (!read.task || id !in old(rows) || (ctx.member && !ctx.mayWrite))
      // why a parent is refused
      ensures id != "" && read.task && id in old(rows) && ctx.member && ctx.mayWrite ==>
                var own := old(rows)[id];
                var parent := if e.parentRowKey.Some? && e.parentRowKey.value.Some?
                              then Trim(e.parentRowKey.value.value) else "";
                && (r == OwnParent <==> parent != "" && own.rowKey == Some(parent))
                && (r == ParentNotFound <==>
                      && parent != "" && own.rowKey != Some(parent)
                      && (!read.parent || !KeyTaken(old(rows), own.team, own.project, parent)))
                && (r == WouldCycle <==>
                      && parent != "" && own.rowKey.Some? && own.rowKey != Some(parent)
                      && read.parent && KeyTaken(old(rows), own.team, own.project, parent) && read.edges
                      && Reaches(Edges(old(rows), own.team, own.project), parent, own.rowKey.value))
                && (r in {OwnParent, ParentNotFound, WouldCycle, Ok, DbFailed})
      ensures r == Ok ==> write.Works?
      ensures r == DbFailed ==> !write.Works?
      // a write that takes effect changes the given fields of the one row and nothing else
      ensures !((r == Ok || r == DbFailed) && !write.FailsBefore?) ==> rows == old(rows)
      ensures (r == Ok || r == DbFailed) && !write.FailsBefore? ==>
                && id in old(rows) && rows == old(rows)[id := rows[id]]
                && var o, n := old(rows)[id], rows[id];
                   && n.title == (if e.title.Some? then e.title.value else o.title)
                   && n.sprint == (if e.sprint.Some? then e.sprint.value else o.sprint)
                   && n.dueDate == (if e.dueDate.None? then o.dueDate
                                    else if e.dueDate.value == Some("") then None else e.dueDate.value)
                   && n.labels == (if e.labels.Some? then e.labels.value else o.labels)
                   && n.priority == (if e.priority.Some? then normalize(e.priority.value) else o.priority)
                   && n.body == (if e.body.Some? then e.body.value else o.body)
                   && n.parentRowKey ==
                      (if e.parentRowKey.None? then o.parentRowKey
                       else if e.parentRowKey.value.None? || Trim(e.parentRowKey.value.value) == "" then None
                       else Some(Trim(e.parentRowKey.value.value)))
                   && n.team == o.team && n.project == o.project && n.rowKey == o.rowKey
                   && n.assignee == o.assignee && n.status == o.status && n.rawStatus == o.rawStatus
    {
      if id == "" {
        return TaskIdRequired;
      }
      if !read.task || id !in rows {
        return TaskNotFound;
      }
      var row := rows[id];
      if !ctx.member {
        return NotAMember;
      }
      if !ctx.mayWrite {
        return TaskNotFound;
      }
      if e.parentRowKey.Some? {
        var verdict := CheckParent(row, ProposedParent(e), read);
        if verdict != Ok {
          return verdict;
        }
      }
      var update := GatherFields(row, e);
      r := Put(id, update, write);
    }

    /** The update record, filled field by field. */
    method GatherFields(row: Row, e: Edit) returns (update: Row)
      ensures update == Edited(row, e, normalize)
    {
      update := row;
      if e.title.Some? {
        update := update.(title := e.title.value);
      }
      if e.sprint.Some? {
        update := update.(sprint := e.sprint.value);
      }
      if e.dueDate.Some? {
        update := update.(dueDate := NonEmpty(e.dueDate.value));
      }
      if e.labels.Some? {
        update := update.(labels := e.labels.value);
      }
      if e.priority.Some? {
        update := update.(priority := normalize(e.priority.value));
      }
      if e.body.Some? {
        update := update.(body := e.body.value);
      }
      if e.parentRowKey.Some? {
        var parent := ProposedParent(e);
        update := update.(parentRowKey := if parent == "" then None else Some(parent));
      }
    }

    /** The checks on a proposed parent: not itself, in the same project, and closing no cycle. */
    method CheckParent(row: Row, parent: Key, read: Reads) returns (r: Result)
      requires UniqueKeys(rows)
      ensures r == ParentVerdict(rows, row, parent, read)
    {
      if parent == "" {
        return Ok;
      }
      if Some(parent) == row.rowKey {
        return OwnParent;
      }
      if !read.parent || !KeyTaken(rows, row.team, row.project, parent) {
        return ParentNotFound;
      }
      var parentOf := ReadEdges(row.team, row.project, read.edges);
      if !read.edges {
        NothingLeadsAnywhere(parent, row.rowKey);
      }
      var cyclic := WalkFinds(parentOf, parent, row.rowKey);
      return if cyclic then WouldCycle else Ok;
    }

    /** Load the project's edges, row by row in whatever order the database returns them; none if it does not. */
    method ReadEdges(team: string, project: string, answered: bool) returns (parentOf: Parents)
      requires UniqueKeys(rows)
      ensures parentOf == if answered then Edges(rows, team, project) else map[]
    {
      parentOf := map[];
      if !answered {
        return;
      }
      var left := rows.Keys;
      while left != {}
        invariant left <= rows.Keys
        invariant forall k | k in parentOf :: exists i :: i !in left && Gives(rows, team, project, i, k)
        invariant forall i, k | i !in left && Gives(rows, team, project, i, k) ::
                    k in parentOf && parentOf[k] == rows[i].parentRowKey
        decreases left
      {
        var i :| i in left;
        left := left - {i};
        if InProject(rows[i], team, project) && HasKey(rows[i]) {
          var key := rows[i].rowKey.value;
          forall j | Gives(rows, team, project, j, key) ensures j == i {
            assert SameKey(rows[i], rows[j]);
          }
          assert Gives(rows, team, project, i, key);
          parentOf := parentOf[key := rows[i].parentRowKey];
        }
      }
      forall i, k | Gives(rows, team, project, i, k)
        ensures k in Edges(rows, team, project) && Edges(rows, team, project)[k] == rows[i].parentRowKey
      {
        EdgeOf(rows, team, project, i, k);
      }
    }
  }
}
