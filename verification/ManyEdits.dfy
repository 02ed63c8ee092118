/**
 Any number of dashboard edits (app/actions/tasks.ts) written one after the other, none of them looking again
 at what the others wrote.
 */
module ManyEdits {
  import opened Text
  import opened ParentGraph
  import opened NewEdges
  import opened TaskActions
  import opened TaskForest

  /** An edit that has passed its checks and is about to be written. */
  datatype Pending = Pending(id: Id, e: Edit)

  predicate Known(rows: Rows, ps: seq<Pending>) {
    forall p | p in ps :: p.id in rows
  }

  function AllWritten(rows: Rows, ps: seq<Pending>, normalize: string -> string): (rows': Rows)
    requires Known(rows, ps)
    ensures rows'.Keys == rows.Keys
  {
    if ps == [] then rows
    else
      var front, last := AllWritten(rows, ps[..|ps| - 1], normalize), ps[|ps| - 1];
      front[last.id := Edited(front[last.id], last.e, normalize)]
  }

  predicate SetsParent(rows: Rows, p: Pending, team: string, project: string) {
    p.id in rows && InProject(rows[p.id], team, project) && HasKey(rows[p.id]) && p.e.parentRowKey.Some?
  }

  /** The same tasks under the same keys. */
  ghost predicate SameTasks(rows: Rows, rows': Rows) {
    rows'.Keys == rows.Keys
    && forall id | id in rows ::
         InProject(rows'[id], rows[id].team, rows[id].project) && rows'[id].rowKey == rows[id].rowKey
  }

  /** The new parents with those that one more edit sets. */
  function WithParent(rows: Rows, added: Parents, p: Pending, team: string, project: string): Parents {
    if SetsParent(rows, p, team, project) then
      added[rows[p.id].rowKey.value := NonEmpty(Some(ProposedParent(p.e)))]
    else added
  }

  /** The parents that the edits set in one project; of two for one task the later one stands. */
  function ParentsSet(rows: Rows, ps: seq<Pending>, team: string, project: string): Parents {
    if ps == [] then map[]
    else WithParent(rows, ParentsSet(rows, ps[..|ps| - 1], team, project), ps[|ps| - 1], team, project)
  }

  lemma EditKeepsEdges(rows: Rows, p: Pending, normalize: string -> string, team: string, project: string)
    requires UniqueKeys(rows) && p.id in rows
    ensures var rows' := rows[p.id := Edited(rows[p.id], p.e, normalize)];
            && UniqueKeys(rows') && SameTasks(rows, rows')
            && Edges(rows', team, project) == WithParent(rows, Edges(rows, team, project), p, team, project)
  {
    var r := Edited(rows[p.id], p.e, normalize);
    WriteKeepsUnique(rows, p.id, r);
    EdgesAfterWrite(rows, p.id, r, team, project);
    EdgeSet(rows, p, r, Edges(rows, team, project), team, project);
  }

  lemma EdgeSet(rows: Rows, p: Pending, r: Row, m: Parents, team: string, project: string)
    requires UniqueKeys(rows) && p.id in rows && m == Edges(rows, team, project)
    requires InProject(r, rows[p.id].team, rows[p.id].project) && r.rowKey == rows[p.id].rowKey
    requires r.parentRowKey == if p.e.parentRowKey.Some? then NonEmpty(Some(ProposedParent(p.e)))
                               else rows[p.id].parentRowKey
    ensures EdgesWith(m, r, team, project) == WithParent(rows, m, p, team, project)
  {
    if InProject(r, team, project) && HasKey(r) {
      EdgeOf(rows, team, project, p.id, r.rowKey.value);
    }
  }

  lemma WithParentOf(rows: Rows, rows': Rows, m: Parents, added: Parents, p: Pending, team: string, project: string)
    requires SameTasks(rows, rows') && p.id in rows
    ensures WithParent(rows', m + added, p, team, project) == m + WithParent(rows, added, p, team, project)
  {
  }

  /** The tasks are the same, and the edges are those before with the parents set put in. */
  lemma {:induction false} EdgesAfterEdits(rows: Rows, ps: seq<Pending>, normalize: string -> string, team: string,
                                           project: string)
    requires UniqueKeys(rows) && Known(rows, ps)
    ensures var rows' := AllWritten(rows, ps, normalize);
            && UniqueKeys(rows') && SameTasks(rows, rows')
            && Edges(rows', team, project) == Edges(rows, team, project) + ParentsSet(rows, ps, team, project)
  {
    if ps == [] {
      assert Edges(rows, team, project) + map[] == Edges(rows, team, project);
    } else {
      var before, last := ps[..|ps| - 1], ps[|ps| - 1];
      var front := AllWritten(rows, before, normalize);
      EdgesAfterEdits(rows, before, normalize, team, project);
      EditKeepsEdges(front, last, normalize, team, project);
      WithParentOf(rows, front, Edges(rows, team, project), ParentsSet(rows, before, team, project), last, team,
                   project);
    }
  }

  /** In no project do the edits lead a task back to itself, from one edited task to the next. */
  ghost predicate LeadNoneBack(rows: Rows, ps: seq<Pending>) {
    forall team, project ::
      Acyclic(Contracted(Edges(rows, team, project), ParentsSet(rows, ps, team, project)))
  }

  /**
   However many edits are written one after the other onto a forest, and whatever each was checked against, it
   stays a forest if and only if no edited task is led back to itself: from its new parent up through the
   forest to the first edited task, from that one's new parent on to the next, and so on.
   */
  lemma EditsKeepForestIff(rows: Rows, ps: seq<Pending>, normalize: string -> string)
    requires UniqueKeys(rows) && Forest(rows) && Known(rows, ps)
    ensures UniqueKeys(AllWritten(rows, ps, normalize))
    ensures Forest(AllWritten(rows, ps, normalize)) <==> LeadNoneBack(rows, ps)
  {
    var rows' := AllWritten(rows, ps, normalize);
    EdgesAfterEdits(rows, ps, normalize, "", "");
    forall team, project
      ensures Acyclic(Edges(rows', team, project)) <==>
              Acyclic(Contracted(Edges(rows, team, project), ParentsSet(rows, ps, team, project)))
    {
      EdgesAfterEdits(rows, ps, normalize, team, project);
      NewEdgesAcyclicIff(Edges(rows, team, project), ParentsSet(rows, ps, team, project));
    }
  }

  // ----- three edits

  /** A task of this key in the project of row `i`, without a parent. */
  predicate IsTop(rows: Rows, i: Id, j: Id, key: Key) {
    && i in rows && j in rows && j != "" && key != "" && Trimmed(key) && rows[j].rowKey == Some(key)
    && InProject(rows[j], rows[i].team, rows[i].project) && !NonNull(rows[j].parentRowKey)
  }

  /** Of three such tasks, put `j` under `k` and this one under another: those two edits do not meet. */
  lemma TwoOfThree(rows: Rows, i: Id, j: Id, k: Id, a: Key, b: Key, c: Key, ctx: Context, normalize: string -> string)
    requires UniqueKeys(rows) && IsTop(rows, i, i, a) && IsTop(rows, i, j, b) && IsTop(rows, i, k, c)
    requires a != b && b != c && c != a && ctx.member && ctx.mayWrite
    ensures UpdateGuard(rows, i, Reparent(b), ctx, ALL_READ) == Ok
    ensures !MeetEachOther(rows, Edited(rows[i], Reparent(b), normalize), Edited(rows[j], Reparent(c), normalize))
  {
    Accepted(rows, i, j, a, b, ctx);
    EditedParent(rows[i], b, normalize);
    EditedParent(rows[j], c, normalize);
    TopLeadsNowhere(rows, k, c, a);
  }

  function InARing(i: Id, j: Id, k: Id, a: Key, b: Key, c: Key): seq<Pending> {
    [Pending(i, Reparent(b)), Pending(j, Reparent(c)), Pending(k, Reparent(a))]
  }

  lemma RingParents(rows: Rows, i: Id, j: Id, k: Id, a: Key, b: Key, c: Key)
    requires IsTop(rows, i, i, a) && IsTop(rows, i, j, b) && IsTop(rows, i, k, c)
    ensures ParentsSet(rows, InARing(i, j, k, a, b, c), rows[i].team, rows[i].project) ==
            map[][a := Some(b)][b := Some(c)][c := Some(a)]
  {
    var team, project := rows[i].team, rows[i].project;
    var p, q, r := Pending(i, Reparent(b)), Pending(j, Reparent(c)), Pending(k, Reparent(a));
    assert [p, q, r][..2] == [p, q] && [p, q][..1] == [p] && [p][..0] == [];
    OneParentSet(rows, i, i, a, b, map[]);
    assert ParentsSet(rows, [p], team, project) == map[][a := Some(b)];
    OneParentSet(rows, i, j, b, c, map[][a := Some(b)]);
    assert ParentsSet(rows, [p, q], team, project) == map[][a := Some(b)][b := Some(c)];
    OneParentSet(rows, i, k, c, a, map[][a := Some(b)][b := Some(c)]);
  }

  lemma OneParentSet(rows: Rows, i: Id, j: Id, key: Key, parent: Key, added: Parents)
    requires IsTop(rows, i, j, key) && Trimmed(parent) && parent != ""
    ensures WithParent(rows, added, Pending(j, Reparent(parent)), rows[i].team, rows[i].project) ==
            added[key := Some(parent)]
  {
    TrimFixed(parent);
  }

  /** Three keys, each led on to the next. */
  lemma RingIsACycle(m: Parents, a: Key, b: Key, c: Key)
    requires Next(m, a) == Some(b) && Next(m, b) == Some(c) && Next(m, c) == Some(a)
    ensures OnCycle(m, a)
  {
    assert Up(m, a, 0) == Some(a) && Up(m, a, 1) == Some(b) && Up(m, a, 2) == Some(c) && Up(m, a, 3) == Some(a);
  }

  lemma RingLeadsBack(m: Parents, added: Parents, a: Key, b: Key, c: Key)
    requires added == map[][a := Some(b)][b := Some(c)][c := Some(a)]
    requires a != "" && b != "" && c != "" && a != b && b != c && c != a
    ensures !Acyclic(Contracted(m, added))
  {
    assert Up(m, a, 0) == Some(a) && Up(m, b, 0) == Some(b) && Up(m, c, 0) == Some(c);
    FirstMetIs(m, added.Keys, a, 0, a);
    FirstMetIs(m, added.Keys, b, 0, b);
    FirstMetIs(m, added.Keys, c, 0, c);
    RingIsACycle(Contracted(m, added), a, b, c);
  }

  /**
   Edits that do not meet in pairs may still close a cycle together: in any forest, of three tasks without
   parents in one project, each is put under the next and the last under the first.
   */
  lemma ThreeEditsCloseACycle(rows: Rows, i: Id, j: Id, k: Id, a: Key, b: Key, c: Key, ctx: Context,
                              normalize: string -> string)
    requires UniqueKeys(rows) && Forest(rows)
    requires IsTop(rows, i, i, a) && IsTop(rows, i, j, b) && IsTop(rows, i, k, c)
    requires a != b && b != c && c != a && ctx.member && ctx.mayWrite
    ensures UpdateGuard(rows, i, Reparent(b), ctx, ALL_READ) == Ok
    ensures UpdateGuard(rows, j, Reparent(c), ctx, ALL_READ) == Ok
    ensures UpdateGuard(rows, k, Reparent(a), ctx, ALL_READ) == Ok
    ensures !MeetEachOther(rows, Edited(rows[i], Reparent(b), normalize), Edited(rows[j], Reparent(c), normalize))
    ensures !MeetEachOther(rows, Edited(rows[j], Reparent(c), normalize), Edited(rows[k], Reparent(a), normalize))
    ensures !MeetEachOther(rows, Edited(rows[k], Reparent(a), normalize), Edited(rows[i], Reparent(b), normalize))
    ensures !Forest(AllWritten(rows, InARing(i, j, k, a, b, c), normalize))
  {
    TwoOfThree(rows, i, j, k, a, b, c, ctx, normalize);
    TwoOfThree(rows, j, k, i, b, c, a, ctx, normalize);
    TwoOfThree(rows, k, i, j, c, a, b, ctx, normalize);
    RingParents(rows, i, j, k, a, b, c);
    var ps := InARing(i, j, k, a, b, c);
    RingLeadsBack(Edges(rows, rows[i].team, rows[i].project), ParentsSet(rows, ps, rows[i].team, rows[i].project),
                  a, b, c);
    EditsKeepForestIff(rows, ps, normalize);
  }
}
