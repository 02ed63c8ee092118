/**
 Correcting narrative arcs (components/learning/arcs-panel.tsx): edits collected under composite keys,
 then sent one partition at a time while the reader may go on editing.
 */
module ArcCorrections {
  import opened Text

  type Group = Option<string>

  /** The composite key of an arc: partition, bar, arc id. */
  function KeyOf(group: Group, id: string): string {
    Default(group, "") + "|" + id
  }

  /** JavaScript's `slice(0, end)`, for an `end` that may be -1. */
  function SliceTo(s: string, end: int): string
    requires -1 <= end <= |s|
  {
    if end >= 0 then s[..end] else if s == "" then "" else s[..|s| - 1]
  }

  function GroupOf(key: string): Group {
    var g := SliceTo(key, IndexOf(key, "|", 0));
    if g == "" then None else Some(g)
  }

  function ArcIdOf(key: string): string {
    key[IndexOf(key, "|", 0) + 1..]
  }

  lemma FirstBar(g: string, id: string)
    ensures '|' !in g ==> IndexOf(g + "|" + id, "|", 0) == |g|
    ensures 0 <= IndexOf(g + "|" + id, "|", 0) <= |g|
    ensures IndexOf(g + "|" + id, "|", 0) == |g| ==> '|' !in g
  {
    var s := g + "|" + id;
    assert MatchesAt(s, "|", |g|);
    forall k | 0 <= k < |g| ensures MatchesAt(s, "|", k) <==> g[k] == '|' {
      assert s[k..k + 1] == [g[k]];
    }
    if '|' !in g {
      IndexOfIs(s, "|", 0, |g|);
    }
  }

  /** The key can be taken apart again exactly when the partition's name is not empty and holds no bar. */
  lemma KeyRoundTrip(group: Group, id: string)
    ensures GroupOf(KeyOf(group, id)) == group && ArcIdOf(KeyOf(group, id)) == id
            <==> group != Some("") && '|' !in Default(group, "")
  {
    var g := Default(group, "");
    var key := KeyOf(group, id);
    FirstBar(g, id);
    var sep := IndexOf(key, "|", 0);
    assert key[..sep] == g[..sep] && g[..|g|] == g;
    if sep == |g| {
      assert key[sep + 1..] == id;
    }
  }

  // ----- grouping

  datatype Correction = Correction(key: string, arcId: string, text: string, title: string, group: Group)

  /** The corrections of one partition, in order. */
  function InGroup(all: seq<Correction>, g: Group): seq<Correction> {
    if all == [] then []
    else
      var last := all[|all| - 1];
      InGroup(all[..|all| - 1], g) + if last.group == g then [last] else []
  }

  /** One batch per partition that has corrections: all of them, in order. */
  ghost predicate IsGrouping(all: seq<Correction>, groups: seq<Group>, byGroup: map<Group, seq<Correction>>) {
    && (forall i, j | 0 <= i < j < |groups| :: groups[i] != groups[j])
    && (forall g :: g in groups <==> g in byGroup)
    && (forall g | g in byGroup :: byGroup[g] == InGroup(all, g) && byGroup[g] != [])
    && (forall c | c in all :: c.group in byGroup)
  }

  method GroupByPartition(all: seq<Correction>) returns (groups: seq<Group>, byGroup: map<Group, seq<Correction>>)
    ensures IsGrouping(all, groups, byGroup)
  {
    groups, byGroup := [], map[];
    for i := 0 to |all|
      invariant IsGrouping(all[..i], groups, byGroup)
    {
      var c := all[i];
      assert all[..i + 1] == all[..i] + [c];
      GroupingStep(all[..i], c, groups, byGroup);
      if c.group !in byGroup {
        groups := groups + [c.group];
        byGroup := byGroup[c.group := [c]];
      } else {
        byGroup := byGroup[c.group := byGroup[c.group] + [c]];
      }
    }
    assert all[..|all|] == all;
  }

  lemma GroupingStep(all: seq<Correction>, c: Correction, groups: seq<Group>, byGroup: map<Group, seq<Correction>>)
    requires IsGrouping(all, groups, byGroup)
    ensures if c.group in byGroup then IsGrouping(all + [c], groups, byGroup[c.group := byGroup[c.group] + [c]])
            else IsGrouping(all + [c], groups + [c.group], byGroup[c.group := [c]])
  {
    assert (all + [c])[..|all|] == all;
    forall g ensures InGroup(all + [c], g) == InGroup(all, g) + if c.group == g then [c] else [] {
    }
    if c.group !in byGroup {
      NothingInGroup(all, c.group);
    }
  }

  lemma {:induction false} NothingInGroup(all: seq<Correction>, g: Group)
    requires forall c | c in all :: c.group != g
    ensures InGroup(all, g) == []
  {
    if all == [] {
    } else {
      assert all[|all| - 1] in all;
      NothingInGroup(all[..|all| - 1], g);
    }
  }

  lemma {:induction false} InGroupIs(all: seq<Correction>, g: Group)
    ensures forall c :: c in InGroup(all, g) <==> c in all && c.group == g
    ensures forall c :: multiset(InGroup(all, g))[c] == if c.group == g then multiset(all)[c] else 0
  {
    if all == [] {
    } else {
      assert all == all[..|all| - 1] + [all[|all| - 1]];
      InGroupIs(all[..|all| - 1], g);
    }
  }

  // ----- sending

  /** How one request ends: the server takes it, refuses it, or cannot be reached. */
  datatype Fate = Accepted | Rejected | Throws

  datatype Post = Post(group: Group, corrections: seq<Correction>)

  type Edits = map<string, string>

  function Keys(batch: seq<Correction>): set<string> {
    set c | c in batch :: c.key
  }

  /** How many posts are made: a thrown error ends the loop with the post that threw. */
  function Sent(total: nat, fates: nat -> Fate, i: nat): nat
    requires i <= total
    decreases total - i
  {
    if i == total then total else if fates(i).Throws? then i + 1 else Sent(total, fates, i + 1)
  }

  lemma {:induction false} SentIs(total: nat, fates: nat -> Fate, i: nat)
    requires i <= total
    ensures i <= Sent(total, fates, i) <= total
    ensures forall k: nat | i <= k < Sent(total, fates, i) - 1 :: !fates(k).Throws?
    ensures Sent(total, fates, i) < total ==> Sent(total, fates, i) > i && fates(Sent(total, fates, i) - 1).Throws?
    decreases total - i
  {
    if i < total && !fates(i).Throws? {
      SentIs(total, fates, i + 1);
    }
  }

  /**
   The edits after the first `n` posts.  While a post is in flight the reader may save edits; an
   accepted post then drops the keys of its batch.
   */
  function AfterPosts(e: Edits, posts: seq<Post>, fates: nat -> Fate, saves: nat -> Edits, n: nat): Edits
    requires n <= |posts|
  {
    if n == 0 then e
    else
      var saved := AfterPosts(e, posts, fates, saves, n - 1) + saves(n - 1);
      if fates(n - 1).Accepted? then saved - Keys(posts[n - 1].corrections) else saved
  }

  datatype Notice = NoError | NotApplied | Unreachable

  /** Some of the first `n` requests ended so. */
  ghost predicate Happened(fate: Fate, fates: nat -> Fate, n: nat) {
    exists i: nat | i < n :: fates(i) == fate
  }

  lemma HappenedStep(fate: Fate, fates: nat -> Fate, n: nat)
    ensures Happened(fate, fates, n + 1) <==> Happened(fate, fates, n) || fates(n) == fate
  {
  }

  /** What the panel reports; the closing reload is made only when no post failed. */
  function NoticeFor(threw: bool, anyFailed: bool, refetch: Fate): Notice {
    if threw then Unreachable
    else if anyFailed then NotApplied
    else if refetch.Throws? then Unreachable
    else NoError
  }

  /** What the notice says of the requests sent: none throws, or one does, and none is refused, or one is. */
  lemma NoticeSays(fates: nat -> Fate, n: nat, refetch: Fate)
    ensures var notice := NoticeFor(Happened(Throws, fates, n), Happened(Rejected, fates, n), refetch);
            && (notice == Unreachable <==>
                  || (exists i: nat | i < n :: fates(i).Throws?)
                  || (refetch.Throws? && forall i: nat | i < n :: fates(i).Accepted?))
            && (notice == NotApplied <==>
                  (exists i: nat | i < n :: fates(i).Rejected?) && forall i: nat | i < n :: !fates(i).Throws?)
            && (notice == NoError <==> !refetch.Throws? && forall i: nat | i < n :: fates(i).Accepted?)
  {
    assert Happened(Throws, fates, n) <==> exists i: nat | i < n :: fates(i).Throws?;
    assert Happened(Rejected, fates, n) <==> exists i: nat | i < n :: fates(i).Rejected?;
  }

  /** The corrections for the pending edits, in the given key order. */
  function Pending(e: Edits, order: seq<string>, titles: string -> string): (all: seq<Correction>)
    requires forall k | k in order :: k in e
    ensures |all| == |order|
    ensures forall i | 0 <= i < |order| ::
              all[i] == Correction(order[i], ArcIdOf(order[i]), e[order[i]], titles(order[i]), GroupOf(order[i]))
  {
    if order == [] then []
    else
      [Correction(order[0], ArcIdOf(order[0]), e[order[0]], titles(order[0]), GroupOf(order[0]))]
      + Pending(e, order[1..], titles)
  }

  ghost predicate Lists(order: seq<string>, e: Edits) {
    && (forall i, j | 0 <= i < j < |order| :: order[i] != order[j])
    && (forall k :: k in order <==> k in e)
  }

  /** The posts of one recompute: the batches of the grouping, in group order, up to the last sent. */
  ghost predicate ArePosts(all: seq<Correction>, posts: seq<Post>) {
    && (forall i, j | 0 <= i < j < |posts| :: posts[i].group != posts[j].group)
    && (forall i | 0 <= i < |posts| ::
          posts[i].corrections == InGroup(all, posts[i].group) && posts[i].corrections != [])
    && (forall c | c in all :: exists i | 0 <= i < |posts| :: posts[i].group == c.group)
  }

  function Plan(groups: seq<Group>, byGroup: map<Group, seq<Correction>>): seq<Post>
    requires forall g | g in groups :: g in byGroup
  {
    seq(|groups|, i requires 0 <= i < |groups| => Post(groups[i], byGroup[groups[i]]))
  }

  lemma PlanIsPosts(all: seq<Correction>, groups: seq<Group>, byGroup: map<Group, seq<Correction>>)
    requires IsGrouping(all, groups, byGroup)
    ensures ArePosts(all, Plan(groups, byGroup))
  {
    var posts := Plan(groups, byGroup);
    forall c | c in all ensures exists i | 0 <= i < |posts| :: posts[i].group == c.group {
      var i :| 0 <= i < |groups| && groups[i] == c.group;
      assert posts[i].group == c.group;
    }
  }

  class ArcsPanel {
    var edited: Edits
    var saveError: Notice
    const titles: string -> string

    constructor (titles: string -> string)
      ensures edited == map[] && saveError == NoError && this.titles == titles
    {
      edited, saveError := map[], NoError;
      this.titles := titles;
    }

    method SaveEdit(key: string, draft: string)
      modifies this`edited
      ensures edited == if Trim(draft) == "" then old(edited) else old(edited)[key := Trim(draft)]
    {
      var text := Trim(draft);
      if text != "" {
        edited := edited[key := text];
      }
    }

    /**
     Send the pending edits.  `order` is the order the object lists its keys in, `fates` what happens
     to each post, `saves` the edits saved while each post is in flight, `refetch` how the closing
     reload of the panel ends.
     */
    method Recompute(order: seq<string>, fates: nat -> Fate, saves: nat -> Edits, refetch: Fate)
      returns (planned: seq<Post>, sent: nat)
      requires Lists(order, edited)
      modifies this
      ensures ArePosts(Pending(old(edited), order, titles), planned)
      ensures sent == Sent(|planned|, fates, 0) <= |planned|
      ensures edited == AfterPosts(old(edited), planned, fates, saves, sent)
      ensures order == [] ==> saveError == old(saveError)
      ensures order != [] ==>
                saveError == NoticeFor(Happened(Throws, fates, sent), Happened(Rejected, fates, sent), refetch)
      // no notice at all, or which of the two: a server not reached, or a correction it refused
      ensures order != [] ==>
                && (saveError == Unreachable <==>
                      || (exists i: nat | i < sent :: fates(i).Throws?)
                      || (refetch.Throws? && forall i: nat | i < sent :: fates(i).Accepted?))
                && (saveError == NotApplied <==>
                      && (exists i: nat | i < sent :: fates(i).Rejected?)
                      && forall i: nat | i < sent :: !fates(i).Throws?)
                && (saveError == NoError <==> !refetch.Throws? && forall i: nat | i < sent :: fates(i).Accepted?)
      // without edits meanwhile, the notice is wrong exactly when only the reload threw
      ensures order != [] && NoSaves(saves) ==>
                (edited == map[] && saveError != NoError <==> refetch.Throws? && AllAccepted(planned, fates))
    {
      planned, sent := [], 0;
      if order == [] {
        return;
      }
      saveError := NoError;
      planned := PlanPosts(edited, order);
      var anyFailed, threw;
      sent, anyFailed, threw := SendPosts(planned, fates, saves);
      saveError := NoticeFor(threw, anyFailed, refetch);
      NoticeSays(fates, sent, refetch);
      if NoSaves(saves) {
        NoticeIsWrongIff(old(edited), order, titles, planned, fates, saves, refetch);
      }
    }

    method PlanPosts(e: Edits, order: seq<string>) returns (posts: seq<Post>)
      requires Lists(order, e)
      ensures ArePosts(Pending(e, order, titles), posts)
    {
      var all := Pending(e, order, titles);
      var groups, byGroup := GroupByPartition(all);
      PlanIsPosts(all, groups, byGroup);
      posts := Plan(groups, byGroup);
    }

    /** One request per partition; only an accepted one drops its edits. */
    method SendPosts(posts: seq<Post>, fates: nat -> Fate, saves: nat -> Edits)
      returns (sent: nat, anyFailed: bool, threw: bool)
      modifies this`edited
      ensures sent == Sent(|posts|, fates, 0) <= |posts|
      ensures edited == AfterPosts(old(edited), posts, fates, saves, sent)
      ensures threw <==> Happened(Throws, fates, sent)
      ensures anyFailed <==> Happened(Rejected, fates, sent)
    {
      sent, anyFailed, threw := 0, false, false;
      SentIs(|posts|, fates, 0);
      while sent < |posts|
        invariant 0 <= sent <= |posts|
        invariant edited == AfterPosts(old(edited), posts, fates, saves, sent)
        invariant Sent(|posts|, fates, sent) == Sent(|posts|, fates, 0)
        invariant !Happened(Throws, fates, sent)
        invariant anyFailed <==> Happened(Rejected, fates, sent)
      {
        var i := sent;
        HappenedStep(Throws, fates, i);
        HappenedStep(Rejected, fates, i);
        edited := edited + saves(i);
        sent := sent + 1;
        match fates(i) {
          case Throws =>
            return sent, anyFailed, true;
          case Accepted =>
            edited := edited - Keys(posts[i].corrections);
          case Rejected =>
            anyFailed := true;
        }
      }
    }
  }

  // ----- conservation

  /** Each post holds one partition, and together the posts hold every pending correction once. */
  lemma PostsPartition(all: seq<Correction>, posts: seq<Post>, c: Correction)
    requires ArePosts(all, posts) && c in all
    ensures forall i | 0 <= i < |posts| :: forall d | d in posts[i].corrections :: d.group == posts[i].group && d in all
    ensures exists i | 0 <= i < |posts| :: multiset(posts[i].corrections)[c] == multiset(all)[c]
    ensures forall i, j
              | 0 <= i < |posts| && 0 <= j < |posts| && c in posts[i].corrections && c in posts[j].corrections ::
              i == j
  {
    forall i | 0 <= i < |posts|
      ensures forall d | d in posts[i].corrections :: d.group == posts[i].group && d in all
      ensures c.group == posts[i].group ==> multiset(posts[i].corrections)[c] == multiset(all)[c]
    {
      InGroupIs(all, posts[i].group);
    }
    var i :| 0 <= i < |posts| && posts[i].group == c.group;
  }

  /** The post that carries a key, if any: keys are listed once, so there is at most one. */
  ghost predicate Carries(posts: seq<Post>, i: nat, k: string) {
    i < |posts| && exists c | c in posts[i].corrections :: c.key == k
  }

  /** An accepted post below `n` carries `k` and no later save below `n` put it back. */
  ghost predicate Dropped(posts: seq<Post>, fates: nat -> Fate, saves: nat -> Edits, k: string, n: nat) {
    exists i: nat | i < n :: Carries(posts, i, k) && fates(i).Accepted? && forall j: nat | i < j < n :: k !in saves(j)
  }

  function LatestText(e: Edits, saves: nat -> Edits, k: string, n: nat): Option<string> {
    if n == 0 then (if k in e then Some(e[k]) else None)
    else if k in saves(n - 1) then Some(saves(n - 1)[k])
    else LatestText(e, saves, k, n - 1)
  }

  /**
   Exactly what is left: a key is gone after `n` posts if and only if nothing ever put it there or an
   accepted post dropped it after the last save; otherwise it holds its latest text.
   */
  lemma {:induction false} AfterPostsHas(e: Edits, posts: seq<Post>, fates: nat -> Fate, saves: nat -> Edits, n: nat,
                                       k: string)
    requires n <= |posts|
    ensures var after := AfterPosts(e, posts, fates, saves, n);
            && (k in after <==> LatestText(e, saves, k, n).Some? && !Dropped(posts, fates, saves, k, n))
            && (k in after ==> after[k] == LatestText(e, saves, k, n).value)
  {
    if n == 0 {
    } else {
      AfterPostsHas(e, posts, fates, saves, n - 1, k);
      if Carries(posts, n - 1, k) && fates(n - 1).Accepted? {
        assert Dropped(posts, fates, saves, k, n);
      } else if Dropped(posts, fates, saves, k, n - 1) && k !in saves(n - 1) {
        var i: nat :| i < n - 1 && Carries(posts, i, k) && fates(i).Accepted?
                      && forall j: nat | i < j < n - 1 :: k !in saves(j);
        assert Dropped(posts, fates, saves, k, n);
      }
    }
  }

  lemma {:induction false} NoSaveKeepsText(e: Edits, saves: nat -> Edits, k: string, n: nat)
    requires forall i: nat | i < n :: k !in saves(i)
    ensures LatestText(e, saves, k, n) == if k in e then Some(e[k]) else None
  {
    if n == 0 {
    } else {
      NoSaveKeepsText(e, saves, k, n - 1);
    }
  }

  lemma PendingHas(e: Edits, order: seq<string>, titles: string -> string, k: string) returns (c: Correction)
    requires Lists(order, e) && k in e
    ensures c in Pending(e, order, titles) && c.key == k && c.group == GroupOf(k)
  {
    var n :| 0 <= n < |order| && order[n] == k;
    c := Pending(e, order, titles)[n];
  }

  lemma PendingOnlyHas(e: Edits, order: seq<string>, titles: string -> string, c: Correction)
    requires Lists(order, e) && c in Pending(e, order, titles)
    ensures c.key in e && c.group == GroupOf(c.key)
  {
    var all := Pending(e, order, titles);
    var n :| 0 <= n < |all| && all[n] == c;
    assert order[n] in order;
  }

  /** A pending edit is carried by the post of its own partition and by no other. */
  lemma CarriedByItsGroup(e: Edits, order: seq<string>, titles: string -> string, posts: seq<Post>, i: nat, k: string)
    requires Lists(order, e) && ArePosts(Pending(e, order, titles), posts) && i < |posts|
    ensures Carries(posts, i, k) <==> k in e && posts[i].group == GroupOf(k)
  {
    InGroupIs(Pending(e, order, titles), posts[i].group);
    if k in e && posts[i].group == GroupOf(k) {
      var c := PendingHas(e, order, titles, k);
      assert c in posts[i].corrections;
    }
    if Carries(posts, i, k) {
      var c :| c in posts[i].corrections && c.key == k;
      PendingOnlyHas(e, order, titles, c);
    }
  }

  ghost predicate PartitionAccepted(posts: seq<Post>, fates: nat -> Fate, g: Group, n: nat)
    requires n <= |posts|
  {
    exists i: nat | i < n :: posts[i].group == g && fates(i).Accepted?
  }

  lemma DroppedMeansAccepted(e: Edits, order: seq<string>, titles: string -> string, posts: seq<Post>,
                             fates: nat -> Fate, saves: nat -> Edits, k: string, n: nat)
    requires Lists(order, e) && ArePosts(Pending(e, order, titles), posts) && n <= |posts|
    requires k in e && forall i: nat :: k !in saves(i)
    ensures Dropped(posts, fates, saves, k, n) <==> PartitionAccepted(posts, fates, GroupOf(k), n)
  {
    forall i: nat | i < n ensures Carries(posts, i, k) <==> posts[i].group == GroupOf(k) {
      CarriedByItsGroup(e, order, titles, posts, i, k);
    }
  }

  /**
   Conservation.  When no pending key is edited again meanwhile, a pending edit is still there, with
   its text, exactly when the post of its partition was not accepted, whether it was refused, threw,
   or was never reached; so a retry resends those and only those.
   */
  lemma UnsavedEditsStay(e: Edits, order: seq<string>, titles: string -> string, posts: seq<Post>,
                         fates: nat -> Fate, saves: nat -> Edits, k: string)
    requires Lists(order, e) && ArePosts(Pending(e, order, titles), posts)
    requires k in e && forall i: nat :: k !in saves(i)
    ensures Sent(|posts|, fates, 0) <= |posts|
    ensures var sent := Sent(|posts|, fates, 0);
            var after := AfterPosts(e, posts, fates, saves, sent);
            && (k in after <==> !PartitionAccepted(posts, fates, GroupOf(k), sent))
            && (k in after ==> after[k] == e[k])
  {
    SentIs(|posts|, fates, 0);
    var sent := Sent(|posts|, fates, 0);
    AfterPostsHas(e, posts, fates, saves, sent, k);
    NoSaveKeepsText(e, saves, k, sent);
    DroppedMeansAccepted(e, order, titles, posts, fates, saves, k, sent);
  }

  /**
   What the condition excludes: an edit saved while the post that carries its key is still to be
   answered is thrown away unsent when that post is accepted, unless it is saved once more later.
   */
  lemma LateEditIsLost(e: Edits, posts: seq<Post>, fates: nat -> Fate, saves: nat -> Edits, k: string, at: nat, i: nat,
                       n: nat)
    requires at <= i < n <= |posts| && k in saves(at)
    requires Carries(posts, i, k) && fates(i).Accepted? && forall j: nat | i < j < n :: k !in saves(j)
    ensures k !in AfterPosts(e, posts, fates, saves, n)
  {
    AfterPostsHas(e, posts, fates, saves, n, k);
    assert Dropped(posts, fates, saves, k, n);
  }

  ghost predicate AllAccepted(posts: seq<Post>, fates: nat -> Fate) {
    forall i: nat | i < |posts| :: fates(i).Accepted?
  }

  ghost predicate NoSaves(saves: nat -> Edits) {
    forall i: nat :: saves(i) == map[]
  }

  /** When every post is accepted and nothing is edited meanwhile, nothing is left to save. */
  lemma AllAcceptedLeavesNothing(e: Edits, order: seq<string>, titles: string -> string, posts: seq<Post>,
                                 fates: nat -> Fate, saves: nat -> Edits)
    requires Lists(order, e) && ArePosts(Pending(e, order, titles), posts)
    requires AllAccepted(posts, fates) && NoSaves(saves)
    ensures Sent(|posts|, fates, 0) == |posts| && AfterPosts(e, posts, fates, saves, |posts|) == map[]
  {
    SentIs(|posts|, fates, 0);
    var after := AfterPosts(e, posts, fates, saves, |posts|);
    forall k ensures k !in after {
      AcceptedKeyIsGone(e, order, titles, posts, fates, saves, k);
    }
  }

  lemma EveryPartitionAccepted(e: Edits, order: seq<string>, titles: string -> string, posts: seq<Post>,
                               fates: nat -> Fate, k: string)
    requires Lists(order, e) && ArePosts(Pending(e, order, titles), posts)
    requires k in e && AllAccepted(posts, fates)
    ensures PartitionAccepted(posts, fates, GroupOf(k), |posts|)
  {
    var c := PendingHas(e, order, titles, k);
    var i :| 0 <= i < |posts| && posts[i].group == c.group;
    assert posts[i].group == GroupOf(k) && fates(i).Accepted?;
  }

  lemma AcceptedKeyIsGone(e: Edits, order: seq<string>, titles: string -> string, posts: seq<Post>,
                          fates: nat -> Fate, saves: nat -> Edits, k: string)
    requires Lists(order, e) && ArePosts(Pending(e, order, titles), posts)
    requires AllAccepted(posts, fates) && NoSaves(saves)
    ensures k !in AfterPosts(e, posts, fates, saves, |posts|)
  {
    var n := |posts|;
    NothingSaved(saves, k);
    NoSaveKeepsText(e, saves, k, n);
    if k in e {
      EveryPartitionAccepted(e, order, titles, posts, fates, k);
      DroppedMeansAccepted(e, order, titles, posts, fates, saves, k, n);
    }
    GoneIf(e, posts, fates, saves, n, k);
  }

  lemma NothingSaved(saves: nat -> Edits, k: string)
    requires NoSaves(saves)
    ensures forall i: nat :: k !in saves(i)
  {
  }

  lemma GoneIf(e: Edits, posts: seq<Post>, fates: nat -> Fate, saves: nat -> Edits, n: nat, k: string)
    requires n <= |posts| && (LatestText(e, saves, k, n).None? || Dropped(posts, fates, saves, k, n))
    ensures k !in AfterPosts(e, posts, fates, saves, n)
  {
    AfterPostsHas(e, posts, fates, saves, n, k);
  }

  // ----- what the panel says about it

  /** A post carries some pending key of its partition. */
  lemma PostHasKey(e: Edits, order: seq<string>, titles: string -> string, posts: seq<Post>, i: nat) returns (k: string)
    requires Lists(order, e) && ArePosts(Pending(e, order, titles), posts) && i < |posts|
    ensures k in e && GroupOf(k) == posts[i].group
  {
    var c := posts[i].corrections[0];
    k := c.key;
    assert c in posts[i].corrections;
    CarriedByItsGroup(e, order, titles, posts, i, k);
  }

  lemma NothingLeftMeansAccepted(e: Edits, order: seq<string>, titles: string -> string, posts: seq<Post>,
                                 fates: nat -> Fate, saves: nat -> Edits, i: nat)
    requires Lists(order, e) && ArePosts(Pending(e, order, titles), posts) && NoSaves(saves) && i < |posts|
    requires Sent(|posts|, fates, 0) <= |posts|
    requires AfterPosts(e, posts, fates, saves, Sent(|posts|, fates, 0)) == map[]
    ensures fates(i).Accepted?
  {
    var k := PostHasKey(e, order, titles, posts, i);
    NothingSaved(saves, k);
    UnsavedEditsStay(e, order, titles, posts, fates, saves, k);
    var j: nat :| j < Sent(|posts|, fates, 0) && posts[j].group == GroupOf(k) && fates(j).Accepted?;
    assert j == i;
  }

  /** The edits of a recompute without saves meanwhile are all gone exactly when every post was accepted. */
  lemma NothingLeftIff(e: Edits, order: seq<string>, titles: string -> string, posts: seq<Post>, fates: nat -> Fate,
                       saves: nat -> Edits)
    requires Lists(order, e) && ArePosts(Pending(e, order, titles), posts) && NoSaves(saves)
    ensures Sent(|posts|, fates, 0) <= |posts|
    ensures AfterPosts(e, posts, fates, saves, Sent(|posts|, fates, 0)) == map[] <==> AllAccepted(posts, fates)
  {
    SentIs(|posts|, fates, 0);
    if AllAccepted(posts, fates) {
      AllAcceptedLeavesNothing(e, order, titles, posts, fates, saves);
    }
    if AfterPosts(e, posts, fates, saves, Sent(|posts|, fates, 0)) == map[] {
      forall i: nat | i < |posts| ensures fates(i).Accepted? {
        NothingLeftMeansAccepted(e, order, titles, posts, fates, saves, i);
      }
    }
  }

  /**
   Exactly when the panel's notice is wrong: it says that the correction has not been saved, and nothing
   is left to save, if and only if every post was accepted and only the closing reload threw.
   */
  lemma NoticeIsWrongIff(e: Edits, order: seq<string>, titles: string -> string, posts: seq<Post>, fates: nat -> Fate,
                         saves: nat -> Edits, refetch: Fate)
    requires Lists(order, e) && ArePosts(Pending(e, order, titles), posts) && NoSaves(saves)
    ensures Sent(|posts|, fates, 0) <= |posts|
    ensures var n := Sent(|posts|, fates, 0);
            && AfterPosts(e, posts, fates, saves, n) == map[]
            && NoticeFor(Happened(Throws, fates, n), Happened(Rejected, fates, n), refetch) != NoError
            <==> refetch.Throws? && AllAccepted(posts, fates)
  {
    NothingLeftIff(e, order, titles, posts, fates, saves);
  }
}
