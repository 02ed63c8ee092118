/**
 Any number of new parent edges put into one graph: the old graph is contracted to the ways from each
 new parent up to the next task that gets an edge.
 */
module NewEdges {
  import opened Text
  import opened ParentGraph

  /** The walk from `start` is at `own` after n steps, and met no other of these tasks before. */
  ghost predicate Meets(m: Parents, owns: set<Key>, start: Key, n: nat, own: Key) {
    && own in owns && Up(m, start, n) == Some(own)
    && forall i: nat | i < n && Up(m, start, i).Some? :: Up(m, start, i).value !in owns
  }

  /** The first of these tasks on the way up from a parent, if there is a parent and one is met. */
  ghost function FirstMet(m: Parents, owns: set<Key>, parent: Option<Key>): Option<Key> {
    if parent.Some? && parent.value != "" && exists own, n: nat :: Meets(m, owns, parent.value, n, own) then
      var own, n: nat :| Meets(m, owns, parent.value, n, own);
      Some(own)
    else None
  }

  /** The new edges alone, each led on through the old graph to the first task that gets one. */
  ghost function Contracted(m: Parents, added: Parents): Parents {
    map own | own in added :: FirstMet(m, added.Keys, added[own])
  }

  lemma FirstMetIs(m: Parents, owns: set<Key>, parent: Key, n: nat, own: Key)
    requires parent != "" && Meets(m, owns, parent, n, own)
    ensures FirstMet(m, owns, Some(parent)) == Some(own)
  {
    forall other, k: nat | Meets(m, owns, parent, k, other) ensures other == own {
      assert Up(m, parent, k).Some? && Up(m, parent, n).Some?;
    }
  }

  /** Two graphs that differ only in the edges of `owns` agree until a walk meets one of these. */
  lemma {:induction false} SameUntilMet(m: Parents, m': Parents, owns: set<Key>, k: Key, n: nat)
    requires forall x | x !in owns :: Next(m, x) == Next(m', x)
    requires forall i: nat | i < n && Up(m, k, i).Some? :: Up(m, k, i).value !in owns
    ensures Up(m, k, n) == Up(m', k, n)
  {
    if n == 0 {
    } else {
      SameUntilMet(m, m', owns, k, n - 1);
    }
  }

  lemma MeetsInBoth(m: Parents, m': Parents, owns: set<Key>, start: Key, n: nat, own: Key)
    requires forall x | x !in owns :: Next(m, x) == Next(m', x)
    requires Meets(m, owns, start, n, own)
    ensures Meets(m', owns, start, n, own)
  {
    forall i: nat | i <= n ensures Up(m, start, i) == Up(m', start, i) {
      SameUntilMet(m, m', owns, start, i);
    }
  }

  lemma UpFirst(m: Parents, k: Key, n: nat)
    requires n > 0 && Next(m, k).Some?
    ensures Up(m, k, n) == Up(m, Next(m, k).value, n - 1)
  {
    assert Up(m, k, 1) == Next(m, Up(m, k, 0).value);
    UpCompose(m, k, 1, n - 1);
  }

  lemma HasNext(m: Parents, k: Key, n: nat)
    requires n > 0 && Up(m, k, n).Some?
    ensures Next(m, k).Some? && k in m && m[k] == Next(m, k) && m[k].value != ""
  {
    assert Up(m, k, 1) == Next(m, Up(m, k, 0).value);
    if Next(m, k).None? {
      UpStaysEmpty(m, k, 1, n);
    }
  }

  lemma NotEmptyKey(m: Parents, k: Key, n: nat)
    requires k != ""
    ensures Up(m, k, n) != Some("")
  {
  }

  /** One step among the new edges is a way in the graph that has them all. */
  lemma ContractedStep(m: Parents, added: Parents, own: Key, l: Key) returns (n: nat)
    requires Next(Contracted(m, added), own) == Some(l)
    ensures n > 0 && Up(m + added, own, n) == Some(l)
  {
    var parent := added[own].value;
    var i: nat :| Meets(m, added.Keys, parent, i, l);
    SameUntilMet(m, m + added, added.Keys, parent, i);
    assert Next(m + added, own) == Some(parent);
    n := i + 1;
    UpFirst(m + added, own, n);
  }

  lemma {:induction false} ContractedWalk(m: Parents, added: Parents, own: Key, j: nat, l: Key) returns (n: nat)
    requires j > 0 && Up(Contracted(m, added), own, j) == Some(l)
    ensures n > 0 && Up(m + added, own, n) == Some(l)
    decreases j
  {
    var c := Contracted(m, added);
    if j == 1 {
      assert Up(c, own, 1) == Next(c, Up(c, own, 0).value);
      n := ContractedStep(m, added, own, l);
    } else {
      var before := Up(c, own, j - 1).value;
      var a := ContractedWalk(m, added, own, j - 1, before);
      var b := ContractedStep(m, added, before, l);
      UpCompose(m + added, own, a, b);
      n := a + b;
    }
  }

  lemma FirstMeeting(m: Parents, owns: set<Key>, start: Key, far: nat, own: Key) returns (n: nat, first: Key)
    requires own in owns && Up(m, start, far) == Some(own)
    ensures n <= far && Meets(m, owns, start, n, first)
  {
    n := 0;
    while n < far && (Up(m, start, n).None? || Up(m, start, n).value !in owns)
      invariant n <= far
      invariant forall i: nat | i < n && Up(m, start, i).Some? :: Up(m, start, i).value !in owns
    {
      n := n + 1;
    }
    if Up(m, start, n).None? {
      UpStaysEmpty(m, start, n, far);
    }
    first := Up(m, start, n).value;
  }

  /** A way from a task with a new edge to the next such task is one step among the new edges. */
  lemma StepContracts(m: Parents, added: Parents, own: Key, p: Key, i: nat, first: Key)
    requires own in added && added[own] == Some(p) && p != "" && Meets(m + added, added.Keys, p, i, first)
    ensures Next(Contracted(m, added), own) == Some(first)
  {
    MeetsInBoth(m + added, m, added.Keys, p, i, first);
    FirstMetIs(m, added.Keys, p, i, first);
    NotEmptyKey(m, p, i);
  }

  /** A way between two tasks with new edges goes from one such task to the next. */
  lemma {:induction false} WalkContracts(m: Parents, added: Parents, own: Key, n: nat, l: Key) returns (j: nat)
    requires n > 0 && own in added && l in added && Up(m + added, own, n) == Some(l)
    ensures j > 0 && Up(Contracted(m, added), own, j) == Some(l)
    decreases n
  {
    var m', c := m + added, Contracted(m, added);
    HasNext(m', own, n);
    var p := Next(m', own).value;
    UpFirst(m', own, n);
    var i, first := FirstMeeting(m', added.Keys, p, n - 1, l);
    StepContracts(m, added, own, p, i, first);
    if i == n - 1 {
      j := 1;
      assert Up(c, own, 1) == Next(c, Up(c, own, 0).value);
    } else {
      UpCompose(m', p, i, n - 1 - i);
      var rest := WalkContracts(m, added, first, n - 1 - i, l);
      j := 1 + rest;
      UpFirst(c, own, j);
    }
  }

  /** A cycle of the new graph was there before, or passes a task with a new edge. */
  lemma CycleMeets(m: Parents, added: Parents, k: Key)
    requires OnCycle(m + added, k)
    ensures OnCycle(m, k) || exists own :: own in added && OnCycle(m + added, own)
  {
    var m' := m + added;
    var n: nat :| n > 0 && Up(m', k, n) == Some(k);
    if i: nat :| i < n && Up(m', k, i).Some? && Up(m', k, i).value in added {
      var own := Up(m', k, i).value;
      UpCompose(m', k, i, n);
      UpCompose(m', k, n, i);
      assert Up(m', own, n) == Some(own);
    } else {
      SameUntilMet(m', m, added.Keys, k, n);
      assert OnCycle(m, k);
    }
  }

  /**
   New edges put into an acyclic graph keep it acyclic if and only if none of the tasks that get one is led
   back to itself from its new parent, going from each of these tasks to the next through the old graph.
   */
  lemma NewEdgesAcyclicIff(m: Parents, added: Parents)
    requires Acyclic(m)
    ensures Acyclic(m + added) <==> Acyclic(Contracted(m, added))
  {
    var c := Contracted(m, added);
    if k :| OnCycle(c, k) {
      var j: nat :| j > 0 && Up(c, k, j) == Some(k);
      var n := ContractedWalk(m, added, k, j, k);
      assert OnCycle(m + added, k);
    }
    if k :| OnCycle(m + added, k) {
      CycleMeets(m, added, k);
      var own :| own in added && OnCycle(m + added, own);
      var n: nat :| n > 0 && Up(m + added, own, n) == Some(own);
      var j := WalkContracts(m, added, own, n, own);
      assert OnCycle(c, own);
    }
  }
}
