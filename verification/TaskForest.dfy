/** What every run of the task actions keeps: the parent graph stays a forest. */
module TaskForest {
  import opened Text
  import opened ParentGraph
  import opened TaskActions
  import opened Writes

  datatype Action =
    | Move(id: Id, status: string, ctx: Context, taskRead: bool, write: Fate)
    | Create(t: NewTask, ctx: Context, first: Attempt, second: Attempt)
    | Update(id: Id, e: Edit, ctx: Context, read: Reads, write: Fate)

  /** The database hands out fresh ids. */
  predicate Possible(rows: Rows, a: Action) {
    a.Create? ==> a.first.id !in rows && a.second.id !in rows
  }

  /** The rows after one action, as the contracts of the store's methods give them. */
  ghost function Step(rows: Rows, a: Action, normalize: string -> string): Rows
  {
    match a
    case Move(id, status, ctx, taskRead, write) =>
      if Written(MoveGuard(rows, id, status, ctx, taskRead), write) then
        rows[id := rows[id].(status := status, rawStatus := None)]
      else rows
    case Create(t, ctx, first, second) => AfterCreate(rows, t, ctx, first, second)
    case Update(id, e, ctx, read, write) =>
      if Written(UpdateGuard(rows, id, e, ctx, read), write) then rows[id := Edited(rows[id], e, normalize)] else rows
  }

  /** The store's methods take exactly these steps. */
  method Perform(store: TaskStore, a: Action) returns (r: Result)
    requires UniqueKeys(store.rows) && Possible(store.rows, a)
    modifies store`rows
    ensures store.rows == Step(old(store.rows), a, store.normalize)
  {
    match a {
      case Move(id, status, ctx, taskRead, write) => r := store.Move(id, status, ctx, taskRead, write);
      case Create(t, ctx, first, second) => r := store.Create(t, ctx, first, second);
      case Update(id, e, ctx, read, write) => r := store.Update(id, e, ctx, read, write);
    }
  }

  // ----- one write, seen from the graph

  /** A row written over itself with its identity kept, or inserted under a free key. */
  predicate KeepsIdentity(rows: Rows, id: Id, r: Row) {
    if id in rows then
      r.team == rows[id].team && r.project == rows[id].project && r.rowKey == rows[id].rowKey
    else
      r.rowKey.Some? && !KeyTaken(rows, r.team, r.project, r.rowKey.value)
  }

  lemma WriteKeepsUnique(rows: Rows, id: Id, r: Row)
    requires UniqueKeys(rows) && KeepsIdentity(rows, id, r)
    ensures UniqueKeys(rows[id := r])
  {
    var rows' := rows[id := r];
    forall i, j | i in rows' && j in rows' && SameKey(rows'[i], rows'[j]) ensures i == j {
      if i in rows && j in rows {
        assert SameKey(rows[i], rows[j]) || i == j;
      }
    }
  }

  ghost function EdgesWith(m: Parents, r: Row, team: string, project: string): Parents {
    if InProject(r, team, project) && HasKey(r) then m[r.rowKey.value := r.parentRowKey] else m
  }

  lemma EdgesAfterWrite(rows: Rows, id: Id, r: Row, team: string, project: string)
    requires UniqueKeys(rows) && KeepsIdentity(rows, id, r) && UniqueKeys(rows[id := r])
    ensures Edges(rows[id := r], team, project) == EdgesWith(Edges(rows, team, project), r, team, project)
  {
    var want := EdgesWith(Edges(rows, team, project), r, team, project);
    forall k | k in Edges(rows[id := r], team, project)
      ensures k in want && want[k] == Edges(rows[id := r], team, project)[k]
    {
      NewEdgeIsWanted(rows, id, r, team, project, k);
    }
    forall k | k in want ensures k in Edges(rows[id := r], team, project) {
      WantedEdgeIsThere(rows, id, r, team, project, k);
    }
  }

  lemma NewEdgeIsWanted(rows: Rows, id: Id, r: Row, team: string, project: string, k: Key)
    requires UniqueKeys(rows) && KeepsIdentity(rows, id, r) && UniqueKeys(rows[id := r])
    requires k in Edges(rows[id := r], team, project)
    ensures var want := EdgesWith(Edges(rows, team, project), r, team, project);
            k in want && want[k] == Edges(rows[id := r], team, project)[k]
  {
    var i := Giver(rows[id := r], team, project, k);
    EdgeOf(rows[id := r], team, project, i, k);
    if i != id {
      assert !SameKey(rows[id := r][i], rows[id := r][id]);
      assert Gives(rows, team, project, i, k);
      EdgeOf(rows, team, project, i, k);
    }
  }

  lemma WantedEdgeIsThere(rows: Rows, id: Id, r: Row, team: string, project: string, k: Key)
    requires UniqueKeys(rows) && KeepsIdentity(rows, id, r) && UniqueKeys(rows[id := r])
    requires k in EdgesWith(Edges(rows, team, project), r, team, project)
    ensures k in Edges(rows[id := r], team, project)
  {
    if InProject(r, team, project) && HasKey(r) && r.rowKey.value == k {
      EdgeOf(rows[id := r], team, project, id, k);
    } else {
      var i := Giver(rows, team, project, k);
      assert Gives(rows[id := r], team, project, i, k);
      EdgeOf(rows[id := r], team, project, i, k);
    }
  }

  /** The parent the row had, none for a new row, or the one an edit proposes. */
  ghost predicate ParentKeptOrProposed(rows: Rows, a: Action, id: Id, r: Row) {
    || r.parentRowKey == (if id in rows then rows[id].parentRowKey else None)
    || (a.Update? && id in rows && a.e.parentRowKey.Some? && r.parentRowKey == NonEmpty(Some(ProposedParent(a.e))))
  }

  predicate NonNull(parent: Option<Key>) {
    parent.Some? && parent.value != ""
  }

  /** The one kind of action that puts a task on a cycle: an edit let pass whose new parent leads back to it. */
  ghost predicate ClosesLoop(rows: Rows, a: Action) {
    && a.Update? && Written(UpdateGuard(rows, a.id, a.e, a.ctx, a.read), a.write)
    && a.e.parentRowKey.Some? && ProposedParent(a.e) != "" && rows[a.id].parentRowKey != Some(ProposedParent(a.e))
    && HasKey(rows[a.id]) && LeadsBack(rows, rows[a.id], ProposedParent(a.e))
  }

  predicate EdgesRead(a: Action) {
    a.Update? ==> a.read.edges
  }

  /** With the edges read, the guard lets none of these pass. */
  lemma ReadEdgesCloseNoLoop(rows: Rows, a: Action)
    requires EdgesRead(a)
    ensures !ClosesLoop(rows, a)
  {
  }

  /** Every action is at most one write that keeps identities. */
  lemma StepIsAWrite(rows: Rows, a: Action, normalize: string -> string) returns (id: Id, r: Row)
    requires UniqueKeys(rows) && Possible(rows, a) && Step(rows, a, normalize) != rows
    ensures Step(rows, a, normalize) == rows[id := r] && KeepsIdentity(rows, id, r)
    ensures ParentKeptOrProposed(rows, a, id, r)
    ensures a.Update? ==> id == a.id && r == Edited(rows[id], a.e, normalize)
                          && Written(UpdateGuard(rows, id, a.e, a.ctx, a.read), a.write)
  {
    match a
    case Move(i, status, ctx, taskRead, write) =>
      id, r := i, rows[i].(status := status, rawStatus := None);
    case Create(t, ctx, first, second) =>
      var used := Deciding(rows, t, first, second);
      id, r := used.id, Created(t, used.key);
      CreateIsAWrite(rows, t, ctx, first, second);
    case Update(i, e, ctx, read, write) =>
      id, r := i, Edited(rows[i], e, normalize);
      EditIsProposed(rows, i, e, ctx, read, write, normalize);
  }

  lemma CreateIsAWrite(rows: Rows, t: NewTask, ctx: Context, first: Attempt, second: Attempt)
    requires first.id !in rows && second.id !in rows && AfterCreate(rows, t, ctx, first, second) != rows
    ensures var a := Deciding(rows, t, first, second);
            && AfterCreate(rows, t, ctx, first, second) == rows[a.id := Created(t, a.key)]
            && a.id !in rows && KeepsIdentity(rows, a.id, Created(t, a.key))
  {
  }

  lemma EditIsProposed(rows: Rows, id: Id, e: Edit, ctx: Context, read: Reads, write: Fate, normalize: string -> string)
    requires id in rows
    ensures KeepsIdentity(rows, id, Edited(rows[id], e, normalize))
    ensures ParentKeptOrProposed(rows, Update(id, e, ctx, read, write), id, Edited(rows[id], e, normalize))
  {
  }

  lemma StepKeepsUnique(rows: Rows, a: Action, normalize: string -> string)
    requires UniqueKeys(rows) && Possible(rows, a)
    ensures UniqueKeys(Step(rows, a, normalize))
  {
    if Step(rows, a, normalize) != rows {
      var id, r := StepIsAWrite(rows, a, normalize);
      WriteKeepsUnique(rows, id, r);
    }
  }

  /** No parent, the parent it had, or one that does not lead back to the task. */
  ghost predicate SafeEdge(m: Parents, own: Key, parent: Option<Key>) {
    || parent.None? || parent.value == ""
    || (own in m && m[own] == parent)
    || !Reaches(m, parent.value, own)
  }

  lemma SafeEdgeAddsNoCycle(m: Parents, own: Key, parent: Option<Key>, k: Key)
    requires SafeEdge(m, own, parent) && OnCycle(m[own := parent], k)
    ensures OnCycle(m, k)
  {
    if parent.None? || parent.value == "" {
      NoEdgeAddsNoCycle(m, own, parent, k);
    } else if own in m && m[own] == parent {
      assert m[own := parent] == m;
    } else {
      NewEdgeAddsNoOtherCycle(m, own, parent.value, k);
    }
  }

  lemma GuardedEdge(rows: Rows, a: Action, id: Id, r: Row)
    requires UniqueKeys(rows) && KeepsIdentity(rows, id, r) && HasKey(r) && ParentKeptOrProposed(rows, a, id, r)
    requires a.Update? ==> id == a.id && Written(UpdateGuard(rows, id, a.e, a.ctx, a.read), a.write)
    requires !ClosesLoop(rows, a)
    ensures SafeEdge(Edges(rows, r.team, r.project), r.rowKey.value, r.parentRowKey)
  {
    if id in rows {
      EdgeOf(rows, r.team, r.project, id, r.rowKey.value);
    }
  }

  /**
   No other action puts a task on a cycle, whatever cycles and dangling parents the data already holds:
   a key on a cycle after the action was on one before.
   */
  lemma StepAddsNoCycle(rows: Rows, a: Action, normalize: string -> string, team: string, project: string, k: Key)
    requires UniqueKeys(rows) && Possible(rows, a) && UniqueKeys(Step(rows, a, normalize))
    requires !ClosesLoop(rows, a) && OnCycle(Edges(Step(rows, a, normalize), team, project), k)
    ensures OnCycle(Edges(rows, team, project), k)
  {
    if Step(rows, a, normalize) != rows {
      var id, r := StepIsAWrite(rows, a, normalize);
      EdgesAfterWrite(rows, id, r, team, project);
      if InProject(r, team, project) && HasKey(r) {
        GuardedEdge(rows, a, id, r);
        SafeEdgeAddsNoCycle(Edges(rows, team, project), r.rowKey.value, r.parentRowKey, k);
      }
    }
  }

  ghost predicate Forest(rows: Rows)
  {
    forall team, project :: Acyclic(Edges(rows, team, project))
  }

  lemma LoopIsACycle(rows: Rows, a: Action, normalize: string -> string)
    requires UniqueKeys(rows) && ClosesLoop(rows, a)
    ensures !Forest(Step(rows, a, normalize))
  {
    var r := Edited(rows[a.id], a.e, normalize);
    EditIsProposed(rows, a.id, a.e, a.ctx, a.read, a.write, normalize);
    WriteKeepsUnique(rows, a.id, r);
    EdgesAfterWrite(rows, a.id, r, r.team, r.project);
    NewEdgeOnCycleIffReached(Edges(rows, r.team, r.project), r.rowKey.value, ProposedParent(a.e));
    assert !Acyclic(Edges(rows[a.id := r], r.team, r.project));
  }

  /** An action keeps a forest a forest if and only if it does not close a loop. */
  lemma StepKeepsForestIff(rows: Rows, a: Action, normalize: string -> string)
    requires UniqueKeys(rows) && Possible(rows, a) && Forest(rows)
    ensures Forest(Step(rows, a, normalize)) <==> !ClosesLoop(rows, a)
  {
    if ClosesLoop(rows, a) {
      LoopIsACycle(rows, a, normalize);
    } else {
      var rows' := Step(rows, a, normalize);
      StepKeepsUnique(rows, a, normalize);
      forall team, project ensures Acyclic(Edges(rows', team, project)) {
        forall k ensures !OnCycle(Edges(rows', team, project), k) {
          if OnCycle(Edges(rows', team, project), k) {
            StepAddsNoCycle(rows, a, normalize, team, project, k);
          }
        }
      }
    }
  }

  ghost predicate ValidRun(rows: Rows, run: seq<Action>, normalize: string -> string)
    decreases run
  {
    run != [] ==>
      Possible(rows, run[0])
      && ValidRun(Step(rows, run[0], normalize), run[1..], normalize)
  }

  ghost function Exec(rows: Rows, run: seq<Action>, normalize: string -> string): Rows
    requires ValidRun(rows, run, normalize)
    decreases run
  {
    if run == [] then rows else Exec(Step(rows, run[0], normalize), run[1..], normalize)
  }

  ghost predicate NoLoopClosed(rows: Rows, run: seq<Action>, normalize: string -> string)
    decreases run
  {
    run != [] ==> !ClosesLoop(rows, run[0]) && NoLoopClosed(Step(rows, run[0], normalize), run[1..], normalize)
  }

  /** The rows are a forest in every state of the run. */
  ghost predicate ForestThroughout(rows: Rows, run: seq<Action>, normalize: string -> string)
    decreases run
  {
    Forest(rows) && (run != [] ==> ForestThroughout(Step(rows, run[0], normalize), run[1..], normalize))
  }

  /** From a forest, a run of atomic actions stays one if and only if none of its actions closes a loop. */
  lemma {:induction false} RunsStayForestIff(rows: Rows, run: seq<Action>, normalize: string -> string)
    requires UniqueKeys(rows) && Forest(rows) && ValidRun(rows, run, normalize)
    ensures ForestThroughout(rows, run, normalize) <==> NoLoopClosed(rows, run, normalize)
    ensures ForestThroughout(rows, run, normalize) ==> Forest(Exec(rows, run, normalize))
    decreases run
  {
    if run == [] {
    } else {
      StepKeepsUnique(rows, run[0], normalize);
      StepKeepsForestIff(rows, run[0], normalize);
      if !ClosesLoop(rows, run[0]) {
        RunsStayForestIff(Step(rows, run[0], normalize), run[1..], normalize);
      }
    }
  }

  lemma {:induction false} ReadEdgesCloseNone(rows: Rows, run: seq<Action>, normalize: string -> string)
    requires forall a | a in run :: EdgesRead(a)
    ensures NoLoopClosed(rows, run, normalize)
    decreases run
  {
    if run == [] {
    } else {
      ReadEdgesCloseNoLoop(rows, run[0]);
      ReadEdgesCloseNone(Step(rows, run[0], normalize), run[1..], normalize);
    }
  }

  lemma {:induction false} RunsKeepUnique(rows: Rows, run: seq<Action>, normalize: string -> string)
    requires UniqueKeys(rows) && ValidRun(rows, run, normalize)
    ensures UniqueKeys(Exec(rows, run, normalize))
    decreases run
  {
    if run == [] {
    } else {
      StepKeepsUnique(rows, run[0], normalize);
      RunsKeepUnique(Step(rows, run[0], normalize), run[1..], normalize);
    }
  }

  /** Every run of atomic actions keeps row keys unique, and a forest a forest where all edges were read. */
  lemma RunsKeepForest(rows: Rows, run: seq<Action>, normalize: string -> string)
    requires UniqueKeys(rows) && ValidRun(rows, run, normalize)
    ensures UniqueKeys(Exec(rows, run, normalize))
    ensures Forest(rows) && (forall a | a in run :: EdgesRead(a)) ==> Forest(Exec(rows, run, normalize))
  {
    RunsKeepUnique(rows, run, normalize);
    if Forest(rows) && forall a | a in run :: EdgesRead(a) {
      ReadEdgesCloseNone(rows, run, normalize);
      RunsStayForestIff(rows, run, normalize);
    }
  }

  // ----- edges that could not be read

  /** In a forest, an edit accepted with its edges unread keeps it one if and only if its parent does not lead back. */
  lemma UnreadEditKeepsForestIff(rows: Rows, id: Id, e: Edit, ctx: Context, read: Reads, normalize: string -> string)
    requires UniqueKeys(rows) && Forest(rows) && id in rows && HasKey(rows[id])
    requires e.parentRowKey.Some? && ProposedParent(e) != "" && !read.edges && UpdateGuard(rows, id, e, ctx, read) == Ok
    ensures Forest(rows[id := Edited(rows[id], e, normalize)]) <==> !LeadsBack(rows, rows[id], ProposedParent(e))
  {
    var own := rows[id].rowKey.value;
    StepKeepsForestIff(rows, Update(id, e, ctx, read, Works), normalize);
    EdgeOf(rows, rows[id].team, rows[id].project, id, own);
    if rows[id].parentRowKey == Some(ProposedParent(e)) {
      EdgeOnCycle(Edges(rows, rows[id].team, rows[id].project), own, ProposedParent(e));
    }
  }

  /** For instance: with the edges unread, a task is put under its own child, in any forest that has one. */
  lemma UnreadEdgesCloseALoop(rows: Rows, i: Id, j: Id, a: Key, b: Key, ctx: Context, normalize: string -> string)
    requires UniqueKeys(rows) && Forest(rows) && i in rows && j in rows && i != "" && a != "" && b != "" && Trimmed(b)
    requires rows[i].rowKey == Some(a) && rows[j].rowKey == Some(b) && InProject(rows[j], rows[i].team, rows[i].project)
    requires rows[j].parentRowKey == Some(a) && ctx.member && ctx.mayWrite
    ensures UpdateGuard(rows, i, Reparent(b), ctx, Reads(true, true, false)) == Ok
    ensures !Forest(rows[i := Edited(rows[i], Reparent(b), normalize)])
  {
    var m := Edges(rows, rows[i].team, rows[i].project);
    TrimFixed(b);
    EdgeOf(rows, rows[i].team, rows[i].project, j, b);
    EdgeOnCycle(m, b, a);
    assert Up(m, a, 0) == Some(a) && Up(m, b, 0) == Some(b);
    EdgeReaches(m, b, a, a);
    assert KeyTaken(rows, rows[i].team, rows[i].project, b);
    UnreadEditKeepsForestIff(rows, i, Reparent(b), ctx, Reads(true, true, false), normalize);
  }

  // ----- writes outside the guard

  /** Writing a parent with no guard at all, as the command line does (scripts/brain-tasks.ts). */
  function UnguardedWrite(rows: Rows, id: Id, parent: Key): Rows
    requires id in rows
  {
    rows[id := rows[id].(parentRowKey := NonEmpty(Some(parent)))]
  }

  /** In a forest, the unguarded write is harmless exactly when the guard would have let it pass. */
  lemma UnguardedWriteKeepsForestIff(rows: Rows, id: Id, parent: Key)
    requires UniqueKeys(rows) && Forest(rows) && id in rows && HasKey(rows[id]) && parent != ""
    ensures UniqueKeys(UnguardedWrite(rows, id, parent))
    ensures Forest(UnguardedWrite(rows, id, parent)) <==>
            !Reaches(Edges(rows, rows[id].team, rows[id].project), parent, rows[id].rowKey.value)
  {
    var r := rows[id].(parentRowKey := Some(parent));
    var own := r.rowKey.value;
    var rows' := UnguardedWrite(rows, id, parent);
    WriteKeepsUnique(rows, id, r);
    var m := Edges(rows, r.team, r.project);
    EdgesAfterWrite(rows, id, r, r.team, r.project);
    NewEdgeOnCycleIffReached(m, own, parent);
    if Reaches(m, parent, own) {
      assert OnCycle(Edges(rows', r.team, r.project), own);
    } else {
      forall team, project ensures Acyclic(Edges(rows', team, project)) {
        EdgesAfterWrite(rows, id, r, team, project);
        if InProject(r, team, project) {
          forall k ensures !OnCycle(Edges(rows', team, project), k) {
            if OnCycle(Edges(rows', team, project), k) {
              NewEdgeAddsNoOtherCycle(m, own, parent, k);
            }
          }
        }
      }
    }
  }

  // ----- two edits interleaved

  /** Both edits written, each accepted against `rows` and neither looking again. */
  function BothWritten(rows: Rows, i: Id, e: Edit, j: Id, f: Edit, normalize: string -> string): Rows
    requires i in rows && j in rows
  {
    rows[i := Edited(rows[i], e, normalize)][j := Edited(rows[j], f, normalize)]
  }

  /** Each of the two tasks was already above the parent that the other one gets. */
  ghost predicate MeetEachOther(rows: Rows, r: Row, r': Row) {
    && InProject(r', r.team, r.project) && HasKey(r) && HasKey(r')
    && Crossing(Edges(rows, r.team, r.project), r.rowKey.value, r.parentRowKey, r'.rowKey.value, r'.parentRowKey)
  }

  /**
   Where two edits overlap.  Two edits of different tasks, both accepted against one forest and written one
   after the other, keep it a forest if and only if they do not put each task below the other.  For any
   number of edits see ManyEdits.dfy.
   */
  lemma InterleavedEditsKeepForestIff(rows: Rows, i: Id, e: Edit, j: Id, f: Edit, ctx: Context, ctx': Context,
                                      read: Reads, read': Reads, normalize: string -> string)
    requires UniqueKeys(rows) && Forest(rows) && i in rows && j in rows && i != j
    requires UpdateGuard(rows, i, e, ctx, read) == Ok && UpdateGuard(rows, j, f, ctx', read') == Ok
    requires read.edges && read'.edges
    ensures UniqueKeys(BothWritten(rows, i, e, j, f, normalize))
    ensures Forest(BothWritten(rows, i, e, j, f, normalize)) <==>
            !MeetEachOther(rows, Edited(rows[i], e, normalize), Edited(rows[j], f, normalize))
  {
    var r, r' := Edited(rows[i], e, normalize), Edited(rows[j], f, normalize);
    var both := BothWritten(rows, i, e, j, f, normalize);
    var a, b := Update(i, e, ctx, read, Works), Update(j, f, ctx', read', Works);
    EditIsProposed(rows, i, e, ctx, read, Works, normalize);
    EditIsProposed(rows, j, f, ctx', read', Works, normalize);
    ReadEdgesCloseNoLoop(rows, a);
    ReadEdgesCloseNoLoop(rows, b);
    WriteKeepsUnique(rows, i, r);
    WriteKeepsUnique(rows[i := r], j, r');
    forall team, project
      ensures Acyclic(Edges(both, team, project)) <==> !(InProject(r, team, project) && MeetEachOther(rows, r, r'))
    {
      EditsInProject(rows, i, r, j, r', a, b, team, project);
    }
    assert MeetEachOther(rows, r, r') ==> !Acyclic(Edges(both, r.team, r.project));
  }

  lemma EditsInProject(rows: Rows, i: Id, r: Row, j: Id, r': Row, a: Action, b: Action, team: string, project: string)
    requires UniqueKeys(rows) && Forest(rows) && i in rows && j in rows && i != j
    requires KeepsIdentity(rows, i, r) && ParentKeptOrProposed(rows, a, i, r) && !ClosesLoop(rows, a)
    requires KeepsIdentity(rows, j, r') && ParentKeptOrProposed(rows, b, j, r') && !ClosesLoop(rows, b)
    requires a.Update? && a.id == i && Written(UpdateGuard(rows, i, a.e, a.ctx, a.read), a.write)
    requires b.Update? && b.id == j && Written(UpdateGuard(rows, j, b.e, b.ctx, b.read), b.write)
    requires UniqueKeys(rows[i := r]) && UniqueKeys(rows[i := r][j := r'])
    ensures Acyclic(Edges(rows[i := r][j := r'], team, project)) <==>
            !(InProject(r, team, project) && MeetEachOther(rows, r, r'))
  {
    var m := Edges(rows, team, project);
    EdgesAfterWrite(rows, i, r, team, project);
    EdgesAfterWrite(rows[i := r], j, r', team, project);
    var first, second := InProject(r, team, project) && HasKey(r), InProject(r', team, project) && HasKey(r');
    if first {
      GuardedEdge(rows, a, i, r);
    }
    if second {
      GuardedEdge(rows, b, j, r');
    }
    if first && second {
      SecondSafeEdgeIff(m, r.rowKey.value, r.parentRowKey, r'.rowKey.value, r'.parentRowKey);
    } else if first {
      SafeEdgeKeepsAcyclic(m, r.rowKey.value, r.parentRowKey);
    } else if second {
      SafeEdgeKeepsAcyclic(m, r'.rowKey.value, r'.parentRowKey);
    }
  }

  lemma SafeEdgeKeepsAcyclic(m: Parents, own: Key, parent: Option<Key>)
    requires Acyclic(m) && SafeEdge(m, own, parent)
    ensures Acyclic(m[own := parent])
  {
    var m' := m[own := parent];
    forall k ensures !OnCycle(m', k) {
      if OnCycle(m', k) {
        SafeEdgeAddsNoCycle(m, own, parent, k);
      }
    }
  }

  ghost predicate Crossing(m: Parents, own: Key, parent: Option<Key>, own': Key, parent': Option<Key>) {
    NonNull(parent) && NonNull(parent') && Reaches(m, parent'.value, own) && Reaches(m, parent.value, own')
  }

  /** Two edges, each safe in the graph both were checked against. */
  lemma SecondSafeEdgeIff(m: Parents, own: Key, parent: Option<Key>, own': Key, parent': Option<Key>)
    requires Acyclic(m) && SafeEdge(m, own, parent) && SafeEdge(m, own', parent')
    ensures Acyclic(m[own := parent][own' := parent']) <==> !Crossing(m, own, parent, own', parent')
  {
    SafeEdgeKeepsAcyclic(m, own, parent);
    SafeEdgeKeepsAcyclic(m, own', parent');
    if Crossing(m, own, parent, own', parent') {
      CrossingIsNew(m, own, parent.value, own', parent'.value);
      TwoNewEdgesAcyclicIff(m, own, parent.value, own', parent'.value);
    } else if own == own' {
      assert m[own := parent][own' := parent'] == m[own' := parent'];
    } else if !NonNull(parent) {
      NullEdgeFirst(m, own, parent, own', parent');
    } else if !NonNull(parent') {
      NullEdgeFirst(m, own', parent', own, parent);
      assert m[own := parent][own' := parent'] == m[own' := parent'][own := parent];
    } else if own in m && m[own] == parent {
      assert m[own := parent] == m;
    } else if own' in m && m[own'] == parent' {
      assert m[own := parent][own' := parent'] == m[own := parent];
    } else {
      TwoNewEdgesAcyclicIff(m, own, parent.value, own', parent'.value);
    }
  }

  /** If the two edges cross, neither was in the graph and the tasks differ: an old edge would close a cycle. */
  lemma CrossingIsNew(m: Parents, own: Key, p: Key, own': Key, q: Key)
    requires Acyclic(m) && p != "" && q != ""
    requires SafeEdge(m, own, Some(p)) && SafeEdge(m, own', Some(q))
    requires Reaches(m, q, own) && Reaches(m, p, own')
    ensures own != own' && !Reaches(m, p, own) && !Reaches(m, q, own')
  {
    if own in m && m[own] == Some(p) {
      EdgeReaches(m, own, p, own');
      ReachesThrough(m, q, own, own');
      EdgeOnCycle(m, own', q);
      EdgeOnCycle(m, own, p);
    }
    if own' in m && m[own'] == Some(q) {
      EdgeReaches(m, own', q, own);
      ReachesThrough(m, p, own', own);
      EdgeOnCycle(m, own, p);
      EdgeOnCycle(m, own', q);
    }
  }

  /** Dropping an edge first cannot make a safe edge unsafe. */
  lemma NullEdgeFirst(m: Parents, own: Key, none: Option<Key>, own': Key, parent': Option<Key>)
    requires Acyclic(m) && !NonNull(none) && own != own' && SafeEdge(m, own', parent')
    ensures Acyclic(m[own := none][own' := parent'])
  {
    SafeEdgeKeepsAcyclic(m, own', parent');
    var m' := m[own' := parent'];
    assert m[own := none][own' := parent'] == m'[own := none];
    SafeEdgeKeepsAcyclic(m', own, none);
  }

  /**
   For instance: of two tasks without parents in one project, in any forest, the edits that put each under
   the other are both accepted, and together they close a cycle.
   */
  lemma InterleavedEditsCloseACycle(rows: Rows, i: Id, j: Id, a: Key, b: Key, ctx: Context, normalize: string -> string)
    requires UniqueKeys(rows) && Forest(rows) && i in rows && j in rows && i != j && i != "" && j != ""
    requires rows[i].rowKey == Some(a) && rows[j].rowKey == Some(b) && InProject(rows[j], rows[i].team, rows[i].project)
    requires a != "" && b != "" && Trimmed(a) && Trimmed(b)
    requires !NonNull(rows[i].parentRowKey) && !NonNull(rows[j].parentRowKey)
    requires ctx.member && ctx.mayWrite
    ensures UpdateGuard(rows, i, Reparent(b), ctx, ALL_READ) == Ok
    ensures UpdateGuard(rows, j, Reparent(a), ctx, ALL_READ) == Ok
    ensures !Forest(BothWritten(rows, i, Reparent(b), j, Reparent(a), normalize))
  {
    assert a != b by {
      assert SameKey(rows[i], rows[j]) ==> i == j;
    }
    Accepted(rows, i, j, a, b, ctx);
    Accepted(rows, j, i, b, a, ctx);
    EditedParent(rows[i], b, normalize);
    EditedParent(rows[j], a, normalize);
    var m := Edges(rows, rows[i].team, rows[i].project);
    assert Up(m, a, 0) == Some(a) && Up(m, b, 0) == Some(b);
    InterleavedEditsKeepForestIff(rows, i, Reparent(b), j, Reparent(a), ctx, ctx, ALL_READ, ALL_READ, normalize);
  }

  const ALL_READ := Reads(true, true, true)

  function Reparent(parent: Key): Edit {
    Edit(None, None, None, Some(Some(parent)), None, None, None)
  }

  lemma EditedParent(r: Row, parent: Key, normalize: string -> string)
    requires Trimmed(parent) && parent != ""
    ensures Edited(r, Reparent(parent), normalize) == r.(parentRowKey := Some(parent))
  {
    TrimFixed(parent);
  }

  lemma TopLeadsNowhere(rows: Rows, j: Id, key: Key, other: Key)
    requires UniqueKeys(rows) && j in rows && rows[j].rowKey == Some(key) && key != ""
    requires !NonNull(rows[j].parentRowKey) && other != key
    ensures !Reaches(Edges(rows, rows[j].team, rows[j].project), key, other)
  {
    var m := Edges(rows, rows[j].team, rows[j].project);
    EdgeOf(rows, rows[j].team, rows[j].project, j, key);
    if n: nat :| Up(m, key, n) == Some(other) {
      assert n > 0 && Up(m, key, 1) == Next(m, key);
      UpStaysEmpty(m, key, 1, n);
    }
  }

  /** A task without a parent leads nowhere, so any other task of the project may go below it. */
  lemma Accepted(rows: Rows, i: Id, j: Id, own: Key, parent: Key, ctx: Context)
    requires UniqueKeys(rows) && i in rows && j in rows && i != "" && own != parent
    requires rows[i].rowKey == Some(own) && rows[j].rowKey == Some(parent)
    requires InProject(rows[j], rows[i].team, rows[i].project)
    requires own != "" && parent != "" && Trimmed(parent) && !NonNull(rows[j].parentRowKey)
    requires ctx.member && ctx.mayWrite
    ensures UpdateGuard(rows, i, Reparent(parent), ctx, ALL_READ) == Ok
  {
    TrimFixed(parent);
    TopLeadsNowhere(rows, j, parent, own);
    assert KeyTaken(rows, rows[i].team, rows[i].project, parent);
    assert ParentVerdict(rows, rows[i], parent, ALL_READ) == Ok;
  }
}
