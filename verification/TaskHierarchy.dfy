/**
 The two-level task list of components/kanban/task-hierarchy.tsx: tasks bucketed under their loaded
 parents, roots rendered with their direct children beneath them.
 */
module TaskHierarchy {
  import opened Text

  datatype Task = Task(id: string, project: string, rowKey: Option<string>, parentRowKey: Option<string>, title: string)

  function KeyOf(t: Task): string {
    if t.rowKey.Some? then t.rowKey.value else ""
  }

  function ParentKey(t: Task): string {
    if t.parentRowKey.Some? then t.parentRowKey.value else ""
  }

  predicate Loaded(tasks: seq<Task>, key: string) {
    key != "" && exists p | p in tasks :: KeyOf(p) == key
  }

  /** A task under a parent that is in the loaded set; any other task is a root. */
  predicate IsChild(tasks: seq<Task>, t: Task) {
    Loaded(tasks, ParentKey(t))
  }

  /** The roots among `some`, judged against the whole loaded set, in input order. */
  function Roots(tasks: seq<Task>, some: seq<Task>): seq<Task> {
    if some == [] then []
    else
      var last := some[|some| - 1];
      Roots(tasks, some[..|some| - 1]) + if IsChild(tasks, last) then [] else [last]
  }

  /** The children of `key` among `some`, in input order. */
  function ChildrenOf(some: seq<Task>, key: string): seq<Task> {
    if some == [] then []
    else
      var last := some[|some| - 1];
      ChildrenOf(some[..|some| - 1], key) + if ParentKey(last) == key then [last] else []
  }

  ghost predicate IsBucketing(tasks: seq<Task>, some: seq<Task>, childrenOf: map<string, seq<Task>>, roots: seq<Task>) {
    && roots == Roots(tasks, some)
    && (forall k | k in childrenOf :: childrenOf[k] == ChildrenOf(some, k) && childrenOf[k] != []
                                      && Loaded(tasks, k))
    && (forall t | t in some && IsChild(tasks, t) :: ParentKey(t) in childrenOf)
  }

  method Bucket(tasks: seq<Task>) returns (childrenOf: map<string, seq<Task>>, roots: seq<Task>)
    ensures IsBucketing(tasks, tasks, childrenOf, roots)
  {
    var byRowKey := IndexByKey(tasks);
    childrenOf, roots := map[], [];
    for i := 0 to |tasks|
      invariant IsBucketing(tasks, tasks[..i], childrenOf, roots)
    {
      var t := tasks[i];
      assert tasks[..i + 1] == tasks[..i] + [t];
      BucketStep(tasks, tasks[..i], t, childrenOf, roots);
      var parentKey := ParentKey(t);
      if parentKey != "" && parentKey in byRowKey {
        var arr := if parentKey in childrenOf then childrenOf[parentKey] else [];
        childrenOf := childrenOf[parentKey := arr + [t]];
      } else {
        roots := roots + [t];
      }
    }
    assert tasks[..|tasks|] == tasks;
  }

  /**
   Task by task: a root is a task whose parent key is absent, empty or no loaded task's; any other is in that
   key's bucket, and nothing else is in a bucket.
   */
  lemma BucketsHold(tasks: seq<Task>, childrenOf: map<string, seq<Task>>, roots: seq<Task>)
    requires IsBucketing(tasks, tasks, childrenOf, roots)
    ensures forall t | t in tasks ::
              t in roots <==> t.parentRowKey in {None, Some("")} || forall p | p in tasks :: p.rowKey != t.parentRowKey
    ensures forall t | t in tasks && t !in roots ::
              t.parentRowKey.Some? && t.parentRowKey.value in childrenOf && t in childrenOf[t.parentRowKey.value]
    ensures forall k, t | k in childrenOf && t in childrenOf[k] :: t in tasks && t.parentRowKey == Some(k)
  {
    RootsAreLoaded(tasks, tasks);
    forall t | t in tasks
      ensures IsChild(tasks, t) <==>
              t.parentRowKey !in {None, Some("")} && exists p | p in tasks :: p.rowKey == t.parentRowKey
    {
      if IsChild(tasks, t) {
        var p :| p in tasks && KeyOf(p) == ParentKey(t);
        assert p.rowKey == t.parentRowKey;
      }
      if p :| p in tasks && p.rowKey == t.parentRowKey {
        assert KeyOf(p) == ParentKey(t);
      }
    }
    forall k ensures forall t :: t in ChildrenOf(tasks, k) <==> t in tasks && ParentKey(t) == k {
      ChildrenAre(tasks, k);
    }
  }

  lemma {:induction false} ChildrenAre(some: seq<Task>, key: string)
    ensures forall t :: t in ChildrenOf(some, key) <==> t in some && ParentKey(t) == key
  {
    if some == [] {
    } else {
      assert some == some[..|some| - 1] + [some[|some| - 1]];
      ChildrenAre(some[..|some| - 1], key);
    }
  }

  method IndexByKey(tasks: seq<Task>) returns (byRowKey: map<string, Task>)
    ensures forall k :: k in byRowKey <==> Loaded(tasks, k)
  {
    byRowKey := map[];
    for i := 0 to |tasks|
      invariant forall k :: k in byRowKey <==> Loaded(tasks[..i], k)
    {
      assert forall p :: p in tasks[..i + 1] <==> p in tasks[..i] || p == tasks[i];
      if KeyOf(tasks[i]) != "" {
        byRowKey := byRowKey[KeyOf(tasks[i]) := tasks[i]];
      }
    }
    assert tasks[..|tasks|] == tasks;
  }

  /** Adding one task to its bucket, or to the roots. */
  lemma BucketStep(tasks: seq<Task>, some: seq<Task>, t: Task, childrenOf: map<string, seq<Task>>, roots: seq<Task>)
    requires IsBucketing(tasks, some, childrenOf, roots)
    ensures var key := ParentKey(t);
            if IsChild(tasks, t) then
              IsBucketing(tasks, some + [t],
                          childrenOf[key := (if key in childrenOf then childrenOf[key] else []) + [t]], roots)
            else IsBucketing(tasks, some + [t], childrenOf, roots + [t])
  {
    assert (some + [t])[..|some + [t]| - 1] == some;
    forall k ensures ChildrenOf(some + [t], k) == ChildrenOf(some, k) + if ParentKey(t) == k then [t] else [] {
    }
    var key := ParentKey(t);
    if IsChild(tasks, t) && key !in childrenOf {
      NoChildren(some, key);
    }
  }

  lemma {:induction false} NoChildren(some: seq<Task>, key: string)
    requires forall t | t in some :: ParentKey(t) != key
    ensures ChildrenOf(some, key) == []
  {
    if some == [] {
    } else {
      assert some[|some| - 1] in some;
      NoChildren(some[..|some| - 1], key);
    }
  }

  // ----- accounting

  function BucketOf(some: seq<Task>, keys: seq<string>): seq<Task> {
    if keys == [] then [] else ChildrenOf(some, keys[0]) + BucketOf(some, keys[1..])
  }

  lemma {:induction false} RootsCount(tasks: seq<Task>, some: seq<Task>, t: Task)
    ensures multiset(Roots(tasks, some))[t] == if IsChild(tasks, t) then 0 else multiset(some)[t]
  {
    if some == [] {
    } else {
      assert some == some[..|some| - 1] + [some[|some| - 1]];
      RootsCount(tasks, some[..|some| - 1], t);
    }
  }

  lemma {:induction false} ChildrenCount(some: seq<Task>, key: string, t: Task)
    ensures multiset(ChildrenOf(some, key))[t] == if ParentKey(t) == key then multiset(some)[t] else 0
  {
    if some == [] {
    } else {
      assert some == some[..|some| - 1] + [some[|some| - 1]];
      ChildrenCount(some[..|some| - 1], key, t);
    }
  }

  /** Nothing is lost and nothing doubled by bucketing: each task is in one root list or one bucket. */
  lemma BucketsPartition(tasks: seq<Task>, childrenOf: map<string, seq<Task>>, roots: seq<Task>, t: Task)
    requires IsBucketing(tasks, tasks, childrenOf, roots) && t in tasks
    ensures multiset(roots)[t] == if IsChild(tasks, t) then 0 else multiset(tasks)[t]
    ensures forall k | k in childrenOf ::
              multiset(childrenOf[k])[t] == if IsChild(tasks, t) && k == ParentKey(t) then multiset(tasks)[t] else 0
    ensures IsChild(tasks, t) ==> ParentKey(t) in childrenOf
  {
    RootsCount(tasks, tasks, t);
    forall k | k in childrenOf
      ensures multiset(childrenOf[k])[t] == if IsChild(tasks, t) && k == ParentKey(t) then multiset(tasks)[t] else 0
    {
      ChildrenCount(tasks, k, t);
    }
  }

  // ----- rendering

  function Kids(tasks: seq<Task>, epic: Task): seq<Task> {
    if KeyOf(epic) == "" then [] else ChildrenOf(tasks, KeyOf(epic))
  }

  /** The rows on screen, top to bottom: every root followed by its direct children. */
  function Rendered(tasks: seq<Task>, epics: seq<Task>): seq<Task> {
    if epics == [] then []
    else [epics[0]] + Kids(tasks, epics[0]) + Rendered(tasks, epics[1..])
  }

  /** The task has this key; the empty key is none. */
  predicate Carries(e: Task, key: string) {
    key != "" && KeyOf(e) == key
  }

  /** How many of these tasks carry the key. */
  function Named(some: seq<Task>, key: string): nat {
    if some == [] then 0
    else (if Carries(some[0], key) then 1 else 0) + Named(some[1..], key)
  }

  lemma ConsCounts(e: Task, kids: seq<Task>, rest: seq<Task>, t: Task)
    ensures multiset([e] + kids + rest)[t] == (if t == e then 1 else 0) + multiset(kids)[t] + multiset(rest)[t]
  {
    assert multiset([e] + kids + rest) == multiset([e]) + multiset(kids) + multiset(rest);
  }

  lemma KidsCount(tasks: seq<Task>, e: Task, t: Task)
    ensures multiset(Kids(tasks, e))[t] == if Carries(e, ParentKey(t)) then multiset(tasks)[t] else 0
  {
    if KeyOf(e) != "" {
      ChildrenCount(tasks, KeyOf(e), t);
    }
  }

  lemma FirstRendered(tasks: seq<Task>, epics: seq<Task>, t: Task)
    requires epics != []
    ensures multiset(Rendered(tasks, epics))[t] ==
            (if t == epics[0] then 1 else 0) + multiset(Kids(tasks, epics[0]))[t]
            + multiset(Rendered(tasks, epics[1..]))[t]
  {
    ConsCounts(epics[0], Kids(tasks, epics[0]), Rendered(tasks, epics[1..]), t);
  }

  lemma FirstCounted(epics: seq<Task>, t: Task)
    requires epics != []
    ensures multiset(epics)[t] == (if t == epics[0] then 1 else 0) + multiset(epics[1..])[t]
  {
    assert epics == [epics[0]] + epics[1..];
  }

  /** `n` times `k`, added up. */
  function Copies(n: nat, k: nat): nat {
    if n == 0 then 0 else k + Copies(n - 1, k)
  }

  lemma {:induction false} CopiesAre(n: nat, k: nat)
    ensures Copies(n, k) == n * k
  {
    if n > 0 {
      CopiesAre(n - 1, k);
    }
  }

  lemma CopiesStep(first: nat, n: nat, k: nat)
    requires first <= 1
    ensures Copies(first + n, k) == (if first == 1 then k else 0) + Copies(n, k)
  {
  }

  /** What one more root adds, in numbers. */
  lemma SumStep(shown: nat, restShown: nat, here: nat, kids: nat, counted: nat, restCounted: nat, first: nat, n: nat,
                k: nat)
    requires shown == here + kids + restShown && counted == here + restCounted
    requires first <= 1 && kids == if first == 1 then k else 0
    requires restShown == restCounted + Copies(n, k)
    ensures shown == counted + Copies(first + n, k)
  {
    CopiesStep(first, n, k);
  }

  lemma {:induction false} RenderedCopies(tasks: seq<Task>, epics: seq<Task>, t: Task)
    ensures multiset(Rendered(tasks, epics))[t] ==
            multiset(epics)[t] + Copies(Named(epics, ParentKey(t)), multiset(tasks)[t])
  {
    if epics == [] {
    } else {
      var e, key := epics[0], ParentKey(t);
      RenderedCopies(tasks, epics[1..], t);
      FirstRendered(tasks, epics, t);
      KidsCount(tasks, e, t);
      FirstCounted(epics, t);
      SumStep(multiset(Rendered(tasks, epics))[t], multiset(Rendered(tasks, epics[1..]))[t], if t == e then 1 else 0,
              multiset(Kids(tasks, e))[t], multiset(epics)[t], multiset(epics[1..])[t],
              if Carries(e, key) then 1 else 0, Named(epics[1..], key), multiset(tasks)[t]);
    }
  }

  /** A task is on screen once for each time it is a root, and once more for each root that carries its parent key. */
  lemma RenderedCount(tasks: seq<Task>, epics: seq<Task>, t: Task)
    ensures multiset(Rendered(tasks, epics))[t] ==
            multiset(epics)[t] + Named(epics, ParentKey(t)) * multiset(tasks)[t]
  {
    RenderedCopies(tasks, epics, t);
    CopiesAre(Named(epics, ParentKey(t)), multiset(tasks)[t]);
  }

  /** The rows on screen for a loaded list. */
  function Screen(tasks: seq<Task>): seq<Task> {
    Rendered(tasks, Roots(tasks, tasks))
  }

  /** How often each copy of a task is on screen: a root once, a child once per root that carries its parent key. */
  function Times(tasks: seq<Task>, t: Task): nat {
    if IsChild(tasks, t) then Named(Roots(tasks, tasks), ParentKey(t)) else 1
  }

  lemma ShownCopies(tasks: seq<Task>, t: Task)
    ensures multiset(Screen(tasks))[t] == Copies(Times(tasks, t), multiset(tasks)[t])
  {
    var roots := Roots(tasks, tasks);
    RootsCount(tasks, tasks, t);
    RenderedCopies(tasks, roots, t);
    if !IsChild(tasks, t) {
      RootsCarryNoKeyOf(tasks, t);
      assert Copies(1, multiset(tasks)[t]) == multiset(tasks)[t];
    }
  }

  /** Whatever the list holds, also several tasks of one key. */
  lemma ShownTimes(tasks: seq<Task>, t: Task)
    ensures multiset(Screen(tasks))[t] == Times(tasks, t) * multiset(tasks)[t]
  {
    ShownCopies(tasks, t);
    CopiesAre(Times(tasks, t), multiset(tasks)[t]);
  }

  /** A task that is no child hangs under no root. */
  lemma RootsCarryNoKeyOf(tasks: seq<Task>, t: Task)
    requires !IsChild(tasks, t)
    ensures Named(Roots(tasks, tasks), ParentKey(t)) == 0
  {
    RootsAreLoaded(tasks, tasks);
    NamedIffCarried(Roots(tasks, tasks), ParentKey(t));
  }

  lemma {:induction false} NamedIffCarried(some: seq<Task>, key: string)
    ensures Named(some, key) > 0 <==> exists e | e in some :: Carries(e, key)
  {
    if some == [] {
    } else {
      assert some == [some[0]] + some[1..];
      NamedIffCarried(some[1..], key);
    }
  }

  lemma {:induction false} RootsAreLoaded(tasks: seq<Task>, some: seq<Task>)
    ensures forall t :: t in Roots(tasks, some) <==> t in some && !IsChild(tasks, t)
  {
    if some == [] {
    } else {
      var front, last := some[..|some| - 1], some[|some| - 1];
      assert some == front + [last];
      RootsAreLoaded(tasks, front);
    }
  }

  /**
   The screen shows the loaded list, nothing lost and nothing doubled, if and only if every child has
   exactly one root carrying its parent key.
   */
  lemma ScreenIsTheListIff(tasks: seq<Task>)
    ensures multiset(Screen(tasks)) == multiset(tasks)
            <==> forall t | t in tasks && IsChild(tasks, t) :: Named(Roots(tasks, tasks), ParentKey(t)) == 1
  {
    forall t ensures multiset(Screen(tasks))[t] == Times(tasks, t) * multiset(tasks)[t] {
      ShownTimes(tasks, t);
    }
    forall t | t in tasks ensures multiset(Screen(tasks))[t] == multiset(tasks)[t] <==> Times(tasks, t) == 1 {
      OnceEach(Times(tasks, t), multiset(tasks)[t]);
    }
    if forall t | t in tasks :: Times(tasks, t) == 1 {
      forall t ensures multiset(Screen(tasks))[t] == multiset(tasks)[t] {
        NoneEach(Times(tasks, t), multiset(tasks)[t]);
      }
    }
  }

  lemma OnceEach(n: nat, k: nat)
    requires k > 0
    ensures n * k == k <==> n == 1
  {
    if n >= 2 {
      CopiesAre(n, k);
      assert Copies(n, k) == k + (k + Copies(n - 2, k));
    }
  }

  lemma NoneEach(n: nat, k: nat)
    requires n == 1 || k == 0
    ensures n * k == k
  {
  }

  ghost predicate Distinct(tasks: seq<Task>) {
    forall i, j | 0 <= i < j < |tasks| :: tasks[i] != tasks[j]
  }

  lemma {:induction false} DistinctCount(tasks: seq<Task>, t: Task)
    requires Distinct(tasks)
    ensures multiset(tasks)[t] == if t in tasks then 1 else 0
  {
    if tasks == [] {
    } else {
      var front := tasks[..|tasks| - 1];
      assert tasks == front + [tasks[|tasks| - 1]];
      DistinctCount(front, t);
    }
  }

  /** Of distinct tasks: how often each is on screen, and that to show the list is to show each task once. */
  lemma DistinctShownTimes(tasks: seq<Task>)
    requires Distinct(tasks)
    ensures forall t | t in tasks :: multiset(Screen(tasks))[t] == Times(tasks, t)
    ensures (forall t | t in tasks :: multiset(Screen(tasks))[t] == 1) <==> multiset(Screen(tasks)) == multiset(tasks)
  {
    forall t
      ensures t in tasks ==> multiset(Screen(tasks))[t] == Times(tasks, t) && multiset(tasks)[t] == 1
      ensures t !in tasks ==> multiset(Screen(tasks))[t] == multiset(tasks)[t] == 0
    {
      ShownTimes(tasks, t);
      DistinctCount(tasks, t);
    }
  }

  // ----- lists in which a key names one task

  ghost predicate UniqueKeys(tasks: seq<Task>) {
    forall i, j | 0 <= i < j < |tasks| && KeyOf(tasks[i]) != "" :: KeyOf(tasks[i]) != KeyOf(tasks[j])
  }

  /** The loaded task a child hangs under. */
  ghost predicate IsParent(tasks: seq<Task>, p: Task, t: Task) {
    p in tasks && Carries(p, ParentKey(t))
  }

  lemma {:induction false} NamedOnce(some: seq<Task>, key: string)
    requires UniqueKeys(some)
    ensures Named(some, key) <= 1
  {
    if some == [] {
    } else {
      var rest := some[1..];
      assert forall i | 0 <= i < |rest| :: rest[i] == some[i + 1];
      NamedOnce(rest, key);
      NamedIffCarried(rest, key);
    }
  }

  lemma {:induction false} NamedAmongRoots(tasks: seq<Task>, some: seq<Task>, key: string)
    ensures Named(Roots(tasks, some), key) <= Named(some, key)
  {
    if some == [] {
    } else {
      var front, last := some[..|some| - 1], some[|some| - 1];
      assert some == front + [last];
      NamedAmongRoots(tasks, front, key);
      NamedSnoc(front, last, key);
      NamedSnoc(Roots(tasks, front), last, key);
      assert Roots(tasks, some) == if IsChild(tasks, last) then Roots(tasks, front) else Roots(tasks, front) + [last];
    }
  }

  lemma {:induction false} NamedSnoc(some: seq<Task>, last: Task, key: string)
    ensures Named(some + [last], key) == Named(some, key) + if Carries(last, key) then 1 else 0
  {
    if some == [] {
      assert [last][1..] == [];
    } else {
      assert (some + [last])[1..] == some[1..] + [last];
      NamedSnoc(some[1..], last, key);
    }
  }

  /** With unique keys a task is on screen once if it is a root or hangs under one, and otherwise not at all. */
  lemma ShownOnceOrNever(tasks: seq<Task>, t: Task)
    requires UniqueKeys(tasks)
    ensures Times(tasks, t) ==
            if !IsChild(tasks, t) || exists p :: IsParent(tasks, p, t) && !IsChild(tasks, p) then 1 else 0
  {
    var roots := Roots(tasks, tasks);
    RootsAreLoaded(tasks, tasks);
    NamedOnce(tasks, ParentKey(t));
    NamedAmongRoots(tasks, tasks, ParentKey(t));
    NamedIffCarried(roots, ParentKey(t));
    if p :| IsParent(tasks, p, t) && !IsChild(tasks, p) {
      assert p in roots;
    }
    if e :| e in roots && Carries(e, ParentKey(t)) {
      assert IsParent(tasks, e, t);
    }
  }

  /**
   With unique keys the screen shows the loaded list if and only if no task's loaded parent is itself a
   child: there are two levels, and deeper tasks are bucketed but not shown.
   */
  lemma AllShownIffTwoLevels(tasks: seq<Task>)
    requires UniqueKeys(tasks)
    ensures multiset(Screen(tasks)) == multiset(tasks)
            <==> forall t, p | t in tasks && IsParent(tasks, p, t) :: !IsChild(tasks, p)
    ensures Distinct(tasks) ==>
              ((forall t | t in tasks :: multiset(Screen(tasks))[t] == 1)
               <==> forall t, p | t in tasks && IsParent(tasks, p, t) :: !IsChild(tasks, p))
  {
    ScreenIsTheListIff(tasks);
    if Distinct(tasks) {
      DistinctShownTimes(tasks);
    }
    forall t | t in tasks && IsChild(tasks, t)
      ensures Times(tasks, t) == 1 <==> forall p | IsParent(tasks, p, t) :: !IsChild(tasks, p)
    {
      ShownOnceOrNever(tasks, t);
      OneParent(tasks, t);
    }
    assert forall t, p | t in tasks && IsParent(tasks, p, t) :: IsChild(tasks, t);
  }

  lemma OneParent(tasks: seq<Task>, t: Task)
    requires UniqueKeys(tasks) && IsChild(tasks, t)
    ensures exists p :: IsParent(tasks, p, t)
    ensures forall p, q | IsParent(tasks, p, t) && IsParent(tasks, q, t) :: p == q
  {
    var p :| p in tasks && KeyOf(p) == ParentKey(t);
    assert IsParent(tasks, p, t);
    forall p, q | IsParent(tasks, p, t) && IsParent(tasks, q, t) ensures p == q {
      var i :| 0 <= i < |tasks| && tasks[i] == p;
      var j :| 0 <= j < |tasks| && tasks[j] == q;
      assert i == j;
    }
  }

  // ----- one key in two projects

  /** What the database promises of the rows of one team: a key names one task of its project. */
  ghost predicate UniquePerProject(tasks: seq<Task>) {
    forall i, j | 0 <= i < j < |tasks| && tasks[i].project == tasks[j].project && KeyOf(tasks[i]) != "" ::
      KeyOf(tasks[i]) != KeyOf(tasks[j])
  }

  /** Two roots of one key: the child of either is on screen twice, though no loaded parent is a child. */
  lemma ChildOfTwoProjects(tasks: seq<Task>, a: Task, b: Task, c: Task)
    requires tasks == [a, b, c] && KeyOf(a) == KeyOf(b) == ParentKey(c) != "" && KeyOf(c) != KeyOf(a)
    requires ParentKey(a) == ParentKey(b) == "" && a.project == c.project != b.project
    ensures UniquePerProject(tasks) && forall t, p | t in tasks && IsParent(tasks, p, t) :: !IsChild(tasks, p)
    ensures multiset(Screen(tasks))[c] == 2
  {
    TheirKeysAreUnique(tasks, a, b, c);
    assert a in tasks && b in tasks && c in tasks;
    assert !IsChild(tasks, a) && !IsChild(tasks, b) && IsChild(tasks, c);
    RootsOfThree(tasks, a, b, c);
    CountedLast(a, b, c);
    ShownUnderTwo(tasks, a, b, c);
  }

  lemma ShownUnderTwo(tasks: seq<Task>, a: Task, b: Task, c: Task)
    requires IsChild(tasks, c) && Roots(tasks, tasks) == [a, b] && multiset(tasks)[c] == 1
    requires Carries(a, ParentKey(c)) && Carries(b, ParentKey(c))
    ensures multiset(Screen(tasks))[c] == 2
  {
    NamedTwice(a, b, ParentKey(c));
    ShownCopies(tasks, c);
  }

  lemma TheirKeysAreUnique(tasks: seq<Task>, a: Task, b: Task, c: Task)
    requires tasks == [a, b, c] && KeyOf(a) == KeyOf(b) != KeyOf(c) && a.project == c.project != b.project
    ensures UniquePerProject(tasks)
  {
  }

  lemma NamedTwice(a: Task, b: Task, key: string)
    requires KeyOf(a) == KeyOf(b) == key != ""
    ensures Named([a, b], key) == 2 && forall k: nat :: Copies(2, k) == k + k
  {
    assert [a, b][1..] == [b] && [b][1..] == [];
    assert Named([b], key) == 1;
    forall k: nat ensures Copies(2, k) == k + k {
      CopiesAre(2, k);
    }
  }

  lemma CountedLast(a: Task, b: Task, c: Task)
    requires c != a && c != b
    ensures multiset([a, b, c])[c] == 1
  {
    assert multiset([a, b, c]) == multiset{a, b, c};
  }

  lemma RootsOfThree(tasks: seq<Task>, a: Task, b: Task, c: Task)
    requires !IsChild(tasks, a) && !IsChild(tasks, b) && IsChild(tasks, c)
    ensures Roots(tasks, [a, b, c]) == [a, b]
  {
    assert [a, b, c][..2] == [a, b] && [a, b][..1] == [a] && [a][..0] == [];
    assert Roots(tasks, [a]) == [a];
    assert Roots(tasks, [a, b]) == [a] + [b];
  }

  /** Each under the other's key in a project of its own, where neither has a parent: none of the two is on screen. */
  lemma CrossedKeysAreHidden(tasks: seq<Task>, x: Task, y: Task)
    requires tasks == [x, y] && KeyOf(x) == ParentKey(y) != "" && KeyOf(y) == ParentKey(x) != ""
    requires x.project != y.project
    ensures UniquePerProject(tasks) && Screen(tasks) == []
  {
    assert tasks[..1] == [x] && [x][..0] == [];
    assert x in tasks && y in tasks && IsChild(tasks, x) && IsChild(tasks, y);
    assert Roots(tasks, [x]) == [];
  }
}
