/**
 The parent edges of one project's tasks, and the ancestor walk that guards them
 (app/actions/tasks.ts).  The graph is any finite map: parents may dangle and cycles may already be
 there.
 */
module ParentGraph {
  import opened Text

  type Key = string
  type Parents = map<Key, Option<Key>>

  /** The parent the walk moves to; an absent, null or empty parent ends it. */
  function Next(m: Parents, k: Key): Option<Key> {
    if k in m && m[k].Some? && m[k].value != "" then m[k] else None
  }

  /** The n-th ancestor. */
  function Up(m: Parents, k: Key, n: nat): Option<Key> {
    if n == 0 then Some(k)
    else
      var p := Up(m, k, n - 1);
      if p.Some? then Next(m, p.value) else None
  }

  ghost predicate Reaches(m: Parents, start: Key, target: Key) {
    exists n: nat :: Up(m, start, n) == Some(target)
  }

  ghost predicate OnCycle(m: Parents, k: Key) {
    exists n: nat :: n > 0 && Up(m, k, n) == Some(k)
  }

  ghost predicate Acyclic(m: Parents) {
    forall k :: !OnCycle(m, k)
  }

  // ----- the guard

  /** Walk up from `parent`, at most one step more than there are edges, looking for `own`. */
  method WalkFinds(parentOf: Parents, parent: Key, own: Option<Key>) returns (found: bool)
    requires parent != ""
    ensures found <==> own.Some? && Reaches(parentOf, parent, own.value)
  {
    var cursor := Some(parent);
    var steps := 0;
    while cursor.Some? && steps <= |parentOf|
      invariant cursor == Up(parentOf, parent, steps)
      invariant steps <= |parentOf| + 1
      invariant own.Some? ==> forall i: nat | i < steps :: Up(parentOf, parent, i) != own
      decreases |parentOf| + 1 - steps
    {
      if cursor == own {
        return true;
      }
      cursor := Next(parentOf, cursor.value);
      steps := steps + 1;
    }
    if own.Some? && Reaches(parentOf, parent, own.value) {
      ReachedEarly(parentOf, parent, own.value);
      var n: nat :| n <= |parentOf| && Up(parentOf, parent, n) == own;
      if cursor.None? {
        UpStaysEmpty(parentOf, parent, steps, n);
      }
    }
    return false;
  }

  lemma {:induction false} UpStaysEmpty(m: Parents, k: Key, a: nat, b: nat)
    requires a <= b && Up(m, k, a).None?
    ensures Up(m, k, b).None?
    decreases b - a
  {
    if a < b {
      UpStaysEmpty(m, k, a, b - 1);
    }
  }

  lemma {:induction false} UpCompose(m: Parents, k: Key, a: nat, b: nat)
    requires Up(m, k, a).Some?
    ensures Up(m, k, a + b) == Up(m, Up(m, k, a).value, b)
  {
    if b == 0 {
    } else {
      UpCompose(m, k, a, b - 1);
    }
  }

  /** A key on the way to a non-empty ancestor has an edge of its own. */
  lemma UpIsSome(m: Parents, k: Key, i: nat, n: nat)
    requires i < n && Up(m, k, n).Some?
    ensures Up(m, k, i).Some? && Up(m, k, i).value in m
  {
    if Up(m, k, i).None? {
      UpStaysEmpty(m, k, i, n);
    } else if Up(m, k, i).value !in m {
      UpStaysEmpty(m, k, i + 1, n);
    }
  }

  /** Pigeonhole: what is reachable at all is reachable within as many steps as there are edges. */
  lemma ReachedEarly(m: Parents, start: Key, target: Key)
    requires Reaches(m, start, target)
    ensures exists n: nat :: n <= |m| && Up(m, start, n) == Some(target)
  {
    var far: nat :| Up(m, start, far) == Some(target);
    var n := FirstHit(m, start, target, far);
    var path := seq(n, i requires 0 <= i < n => (UpIsSome(m, start, i, n); Up(m, start, i).value));
    forall i, j | 0 <= i < j < n ensures path[i] != path[j] {
      UpIsSome(m, start, i, n);
      UpIsSome(m, start, j, n);
      if path[i] == path[j] {
        UpCompose(m, start, i, n - j);
        UpCompose(m, start, j, n - j);
      }
    }
    forall i | 0 <= i < n ensures path[i] in m.Keys {
      UpIsSome(m, start, i, n);
    }
    DistinctFits(path, m.Keys);
  }

  lemma FirstHit(m: Parents, start: Key, target: Key, far: nat) returns (n: nat)
    requires Up(m, start, far) == Some(target)
    ensures n <= far && Up(m, start, n) == Some(target)
    ensures forall i: nat | i < n :: Up(m, start, i) != Some(target)
  {
    n := 0;
    while Up(m, start, n) != Some(target)
      invariant n <= far
      invariant forall i: nat | i < n :: Up(m, start, i) != Some(target)
      decreases far - n
    {
      n := n + 1;
    }
  }

  lemma {:induction false} DistinctFits<T>(s: seq<T>, bound: set<T>)
    requires forall i, j | 0 <= i < j < |s| :: s[i] != s[j]
    requires forall i | 0 <= i < |s| :: s[i] in bound
    ensures |s| <= |bound|
  {
    if s == [] {
    } else {
      var last := s[|s| - 1];
      DistinctFits(s[..|s| - 1], bound - {last});
    }
  }

  // ----- what a new edge does

  /** Two graphs that differ only in the edge of `own` agree until a walk passes `own`. */
  lemma {:induction false} SameUntilOwn(m: Parents, m': Parents, own: Key, k: Key, n: nat)
    requires forall x | x != own :: Next(m, x) == Next(m', x)
    requires forall i: nat | i < n :: Up(m, k, i) != Some(own)
    ensures Up(m, k, n) == Up(m', k, n)
  {
    if n == 0 {
    } else {
      SameUntilOwn(m, m', own, k, n - 1);
    }
  }

  /**
   The guard is exact.  After `own` is put under `parent`, `own` lies on a cycle if and only if it was
   reachable from `parent` before; this holds also when the old graph already had cycles.
   */
  lemma NewEdgeOnCycleIffReached(m: Parents, own: Key, parent: Key)
    requires parent != ""
    ensures OnCycle(m[own := Some(parent)], own) <==> Reaches(m, parent, own)
  {
    var m' := m[own := Some(parent)];
    assert forall x | x != own :: Next(m, x) == Next(m', x);
    assert Up(m', own, 1) == Next(m', Up(m', own, 0).value) == Some(parent);
    if OnCycle(m', own) {
      var n: nat :| n > 0 && Up(m', own, n) == Some(own);
      UpCompose(m', own, 1, n - 1);
      var first := FirstHit(m', parent, own, n - 1);
      SameUntilOwn(m', m, own, parent, first);
    }
    if Reaches(m, parent, own) {
      var n: nat :| Up(m, parent, n) == Some(own);
      var first := FirstHit(m, parent, own, n);
      SameUntilOwn(m, m', own, parent, first);
      UpCompose(m', own, 1, first);
      assert Up(m', own, 1 + first) == Some(own);
    }
  }

  /** No other cycle appears: whoever is on a cycle afterwards was on one before. */
  lemma NewEdgeAddsNoOtherCycle(m: Parents, own: Key, parent: Key, k: Key)
    requires parent != "" && !Reaches(m, parent, own) && OnCycle(m[own := Some(parent)], k)
    ensures OnCycle(m, k)
  {
    var m' := m[own := Some(parent)];
    assert forall x | x != own :: Next(m, x) == Next(m', x);
    var n: nat :| n > 0 && Up(m', k, n) == Some(k);
    if i: nat :| i < n && Up(m', k, i) == Some(own) {
      // turn the cycle so that it starts at `own`
      UpCompose(m', k, i, n);
      UpCompose(m', k, n, i);
      assert Up(m', own, n) == Some(own);
      NewEdgeOnCycleIffReached(m, own, parent);
    } else {
      SameUntilOwn(m', m, own, k, n);
    }
  }

  /** Dropping or never having an edge at `own` adds no cycle. */
  lemma NoEdgeAddsNoCycle(m: Parents, own: Key, none: Option<Key>, k: Key)
    requires none.Some? ==> none.value == ""
    requires OnCycle(m[own := none], k)
    ensures OnCycle(m, k)
  {
    var m' := m[own := none];
    var n: nat :| n > 0 && Up(m', k, n) == Some(k);
    forall i: nat | i < n ensures Up(m', k, i) != Some(own) {
      if Up(m', k, i) == Some(own) {
        UpStaysEmpty(m', k, i + 1, n);
      }
    }
    SameUntilOwn(m', m, own, k, n);
  }

  // ----- two new edges

  lemma ReachesThrough(m: Parents, a: Key, b: Key, c: Key)
    requires Reaches(m, a, b) && Reaches(m, b, c)
    ensures Reaches(m, a, c)
  {
    var i: nat :| Up(m, a, i) == Some(b);
    var j: nat :| Up(m, b, j) == Some(c);
    UpCompose(m, a, i, j);
  }

  lemma EdgeReaches(m: Parents, own: Key, parent: Key, c: Key)
    requires own in m && m[own] == Some(parent) && parent != "" && Reaches(m, parent, c)
    ensures Reaches(m, own, c)
  {
    assert Up(m, own, 1) == Next(m, Up(m, own, 0).value) == Some(parent);
    assert Reaches(m, own, parent);
    ReachesThrough(m, own, parent, c);
  }

  lemma EdgeOnCycle(m: Parents, own: Key, parent: Key)
    requires Acyclic(m) && parent != "" && own in m && m[own] == Some(parent)
    ensures !Reaches(m, parent, own)
  {
    if Reaches(m, parent, own) {
      assert m[own := Some(parent)] == m;
      NewEdgeOnCycleIffReached(m, own, parent);
    }
  }

  /** An edge that is never walked before the target does not matter. */
  lemma ReachesWithout(m: Parents, m': Parents, own: Key, start: Key, target: Key)
    requires forall x | x != own :: Next(m, x) == Next(m', x)
    requires Reaches(m, start, target) && (own == target || !Reaches(m, start, own))
    ensures Reaches(m', start, target)
  {
    var far: nat :| Up(m, start, far) == Some(target);
    var n := FirstHit(m, start, target, far);
    SameUntilOwn(m, m', own, start, n);
  }

  /**
   Two edges, each accepted against the same acyclic graph and then both put in, keep it acyclic unless
   each task was already reachable from the parent that the other one gets.
   */
  lemma TwoNewEdgesAcyclicIff(m: Parents, own: Key, p: Key, own': Key, q: Key)
    requires Acyclic(m) && own != own' && p != "" && q != ""
    requires !Reaches(m, p, own) && !Reaches(m, q, own')
    ensures Acyclic(m[own := Some(p)][own' := Some(q)]) <==> !(Reaches(m, q, own) && Reaches(m, p, own'))
  {
    var m' := m[own := Some(p)];
    FirstEdgeKeepsAcyclic(m, own, p);
    SecondReaches(m, own, p, own', q);
    NewEdgeOnCycleIffReached(m', own', q);
    if !Reaches(m', q, own') {
      FirstEdgeKeepsAcyclic(m', own', q);
    }
  }

  lemma FirstEdgeKeepsAcyclic(m: Parents, own: Key, p: Key)
    requires Acyclic(m) && p != "" && !Reaches(m, p, own)
    ensures Acyclic(m[own := Some(p)])
  {
    var m' := m[own := Some(p)];
    forall k ensures !OnCycle(m', k) {
      if OnCycle(m', k) {
        NewEdgeAddsNoOtherCycle(m, own, p, k);
      }
    }
  }

  /** With the first edge in, the second task is reachable from its new parent only through that edge. */
  lemma SecondReaches(m: Parents, own: Key, p: Key, own': Key, q: Key)
    requires own != own' && p != "" && !Reaches(m, p, own) && !Reaches(m, q, own')
    ensures Reaches(m[own := Some(p)], q, own') <==> Reaches(m, q, own) && Reaches(m, p, own')
  {
    var m' := m[own := Some(p)];
    assert forall x | x != own :: Next(m, x) == Next(m', x);
    NoWayBack(m, own, p);
    if Reaches(m', q, own') {
      PassesOwn(m, m', own, q, own', p);
      ReachesWithout(m', m, own, p, own');
    }
    if Reaches(m, q, own) && Reaches(m, p, own') {
      ReachesWithout(m, m', own, q, own);
      ReachesWithout(m, m', own, p, own');
      EdgeReaches(m', own, p, own');
      ReachesThrough(m', q, own, own');
    }
  }

  lemma NoWayBack(m: Parents, own: Key, p: Key)
    requires p != "" && !Reaches(m, p, own)
    ensures !Reaches(m[own := Some(p)], p, own)
  {
    var m' := m[own := Some(p)];
    if Reaches(m', p, own) {
      ReachesWithout(m', m, own, p, own);
    }
  }

  /** What is reachable only since `own` has its new edge is reached through `own` and its parent. */
  lemma PassesOwn(m: Parents, m': Parents, own: Key, q: Key, target: Key, p: Key)
    requires forall x | x != own :: Next(m, x) == Next(m', x)
    requires Next(m', own) == Some(p) && Reaches(m', q, target) && !Reaches(m, q, target)
    ensures Reaches(m, q, own) && Reaches(m', p, target)
  {
    var far: nat :| Up(m', q, far) == Some(target);
    var n := FirstHit(m', q, target, far);
    if forall i: nat | i < n :: Up(m', q, i) != Some(own) {
      SameUntilOwn(m', m, own, q, n);
    }
    var hit: nat :| hit < n && Up(m', q, hit) == Some(own);
    var i := FirstHit(m', q, own, hit);
    SameUntilOwn(m', m, own, q, i);
    UpCompose(m', q, i, n - i);
    assert Up(m', own, 1) == Next(m', Up(m', own, 0).value) == Some(p);
    UpCompose(m', own, 1, n - i - 1);
  }
}
