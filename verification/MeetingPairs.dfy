/**
 Counting the note pairs that share an event key (scripts/meeting-pairing-report.ts).  A pair is
 counted once however many keys it shares and in whatever order notes and keys come.
 */
module MeetingPairs {
  import opened Text

  datatype Source = Calendar | Transcript
  datatype Note = Note(id: string, title: string, occurredAt: Option<string>, source: Source,
                       startedAt: Option<string>, eventKeys: seq<string>)

  /** One line of the report, before formatting. */
  datatype Row = Row(cross: bool, key: string, a: Note, b: Note)
  datatype PairSummary = PairSummary(cross: nat, same: nat, missedByDate: nat, oversizedGroups: nat, rows: seq<Row>)

  // ----- what is to be counted

  type Pair = set<string>

  predicate Shares(a: Note, b: Note) {
    exists k | k in a.eventKeys :: k in b.eventKeys
  }

  /** Two different notes that share a key, as the unordered pair of their ids. */
  ghost function SharedPairs(notes: seq<Note>): set<Pair> {
    set a, b | a in notes && b in notes && a.id != b.id && Shares(a, b) :: {a.id, b.id}
  }

  ghost function CrossPairs(notes: seq<Note>): set<Pair> {
    set a, b | a in notes && b in notes && a.id != b.id && Shares(a, b) && a.source != b.source :: {a.id, b.id}
  }

  ghost function MissedPairs(notes: seq<Note>): set<Pair> {
    set a, b | a in notes && b in notes && a.id != b.id && Shares(a, b) && a.source != b.source
               && a.occurredAt != b.occurredAt :: {a.id, b.id}
  }

  /** The three sets, pair by pair: the ids of two different notes with a common key, of two sources, of two dates. */
  lemma PairIsCounted(notes: seq<Note>, p: Pair)
    ensures p in SharedPairs(notes) <==>
            exists a, b, k :: a in notes && b in notes && k in a.eventKeys && k in b.eventKeys && a.id != b.id
                              && p == {a.id, b.id}
    ensures p in CrossPairs(notes) <==>
            exists a, b, k :: a in notes && b in notes && k in a.eventKeys && k in b.eventKeys && a.id != b.id
                              && p == {a.id, b.id} && a.source != b.source
    ensures p in MissedPairs(notes) <==>
            exists a, b, k :: a in notes && b in notes && k in a.eventKeys && k in b.eventKeys && a.id != b.id
                              && p == {a.id, b.id} && a.source != b.source && a.occurredAt != b.occurredAt
  {
    forall a: Note, b: Note, k | k in a.eventKeys && k in b.eventKeys ensures Shares(a, b) {
    }
    forall a, b | Shares(a, b) ensures exists k :: k in a.eventKeys && k in b.eventKeys {
      var k :| k in a.eventKeys && k in b.eventKeys;
    }
  }

  predicate UniqueIds(notes: seq<Note>) {
    && (forall i, j | 0 <= i < j < |notes| :: notes[i].id != notes[j].id)
    && (forall n | n in notes :: '|' !in n.id)
  }

  lemma SameIdSameNote(notes: seq<Note>, a: Note, b: Note)
    requires UniqueIds(notes) && a in notes && b in notes && a.id == b.id
    ensures a == b
  {
    var i :| 0 <= i < |notes| && notes[i] == a;
    var j :| 0 <= j < |notes| && notes[j] == b;
    assert i == j;
  }

  // ----- pair ids

  /** Dictionary order, the order of a default sort. */
  predicate Leq(a: string, b: string) {
    a == "" || (b != "" && (a[0] < b[0] || (a[0] == b[0] && Leq(a[1..], b[1..]))))
  }

  lemma {:induction false} LeqTotal(a: string, b: string)
    ensures Leq(a, b) || Leq(b, a)
    ensures Leq(a, b) && Leq(b, a) ==> a == b
  {
    if a != "" && b != "" {
      LeqTotal(a[1..], b[1..]);
      assert a == [a[0]] + a[1..] && b == [b[0]] + b[1..];
    }
  }

  /** The two ids sorted and joined with a bar. */
  function PairId(a: string, b: string): string {
    if Leq(a, b) then a + "|" + b else b + "|" + a
  }

  lemma BarSplits(a: string, b: string, c: string, d: string)
    requires '|' !in a && '|' !in c && a + "|" + b == c + "|" + d
    ensures a == c && b == d
  {
    var s, t := a + "|" + b, c + "|" + d;
    assert s[|a|] == '|' && t[|c|] == '|';
    assert forall i | 0 <= i < |a| :: s[i] == a[i];
    assert forall i | 0 <= i < |c| :: t[i] == c[i];
    assert |a| == |c|;
    assert s[..|a|] == a && t[..|a|] == c && s[|a| + 1..] == b && t[|a| + 1..] == d;
  }

  /** For ids without bars, a pair id names exactly one unordered pair. */
  lemma PairIdNamesPair(a: string, b: string, c: string, d: string)
    requires '|' !in a && '|' !in b && '|' !in c && '|' !in d
    ensures PairId(a, b) == PairId(c, d) <==> {a, b} == {c, d}
  {
    LeqTotal(a, b);
    LeqTotal(c, d);
    if PairId(a, b) == PairId(c, d) {
      var a', b' := if Leq(a, b) then a else b, if Leq(a, b) then b else a;
      var c', d' := if Leq(c, d) then c else d, if Leq(c, d) then d else c;
      BarSplits(a', b', c', d');
      assert {a, b} == {a', b'} && {c, d} == {c', d'};
    }
    if {a, b} == {c, d} {
      assert a in {c, d} && b in {c, d} && c in {a, b} && d in {a, b};
    }
  }

  // ----- groups

  /** The notes filed under a key, once for every time they carry it, in order. */
  function Members(notes: seq<Note>, key: string): seq<Note> {
    if notes == [] then []
    else Members(notes[..|notes| - 1], key) + Filed(notes[|notes| - 1], notes[|notes| - 1].eventKeys, key)
  }

  function Filed(n: Note, keys: seq<string>, key: string): seq<Note> {
    if keys == [] then []
    else Filed(n, keys[..|keys| - 1], key) + if keys[|keys| - 1] == key then [n] else []
  }

  lemma {:induction false} FiledHas(n: Note, keys: seq<string>, key: string)
    ensures forall m :: m in Filed(n, keys, key) <==> m == n && key in keys
  {
    if keys == [] {
    } else {
      FiledHas(n, keys[..|keys| - 1], key);
      assert keys == keys[..|keys| - 1] + [keys[|keys| - 1]];
    }
  }

  lemma {:induction false} MembersHas(notes: seq<Note>, key: string)
    ensures forall m :: m in Members(notes, key) <==> m in notes && key in m.eventKeys
  {
    if notes == [] {
    } else {
      var last := notes[|notes| - 1];
      MembersHas(notes[..|notes| - 1], key);
      FiledHas(last, last.eventKeys, key);
      assert notes == notes[..|notes| - 1] + [last];
    }
  }

  predicate Distinct(keys: seq<string>) {
    forall i, j | 0 <= i < j < |keys| :: keys[i] != keys[j]
  }

  lemma LastIsNew(front: seq<string>, last: string)
    requires Distinct(front + [last])
    ensures Distinct(front) && last !in front
  {
    var keys := front + [last];
    assert forall i | 0 <= i < |front| :: front[i] == keys[i] != keys[|front|];
  }

  /** The groups are the non-empty lists of `filed`, their keys listed once each. */
  ghost predicate IsGrouping(order: seq<string>, groups: map<string, seq<Note>>, filed: string -> seq<Note>) {
    && Distinct(order)
    && (forall k :: k in order <==> k in groups)
    && (forall k :: k in groups <==> filed(k) != [])
    && (forall k | k in groups :: groups[k] == filed(k))
  }

  lemma FileOne(order: seq<string>, groups: map<string, seq<Note>>, filed: string -> seq<Note>,
                filed': string -> seq<Note>, key: string, n: Note)
    requires IsGrouping(order, groups, filed)
    requires forall k :: filed'(k) == filed(k) + if k == key then [n] else []
    ensures if key in groups then IsGrouping(order, groups[key := groups[key] + [n]], filed')
            else IsGrouping(order + [key], groups[key := [n]], filed')
  {
  }

  /** The notes filed under `key` once all of `notes` and the keys `some` of note `n` are. */
  function SoFar(notes: seq<Note>, n: Note, some: seq<string>, key: string): seq<Note> {
    Members(notes, key) + Filed(n, some, key)
  }

  lemma SoFarSnoc(notes: seq<Note>, n: Note, some: seq<string>, k: string, key: string)
    ensures SoFar(notes, n, some + [k], key) == SoFar(notes, n, some, key) + if key == k then [n] else []
  {
    assert (some + [k])[..|some|] == some;
  }

  /** A grouping speaks of what is filed, however that is written. */
  lemma SameFiled(order: seq<string>, groups: map<string, seq<Note>>, filed: string -> seq<Note>,
                  filed': string -> seq<Note>)
    requires IsGrouping(order, groups, filed) && forall k :: filed(k) == filed'(k)
    ensures IsGrouping(order, groups, filed')
  {
  }

  function Filing(notes: seq<Note>): string -> seq<Note> {
    (key: string) => Members(notes, key)
  }

  function FilingSoFar(notes: seq<Note>, n: Note, some: seq<string>): string -> seq<Note> {
    (key: string) => SoFar(notes, n, some, key)
  }

  method GroupByKey(notes: seq<Note>) returns (order: seq<string>, groups: map<string, seq<Note>>)
    ensures IsGrouping(order, groups, Filing(notes))
  {
    order, groups := [], map[];
    for i := 0 to |notes|
      invariant IsGrouping(order, groups, Filing(notes[..i]))
    {
      order, groups := FileNote(notes[..i], notes[i], order, groups);
      assert notes[..i + 1] == notes[..i] + [notes[i]];
    }
    assert notes[..|notes|] == notes;
  }

  /** One more note, under each of its keys. */
  method FileNote(notes: seq<Note>, n: Note, order: seq<string>, groups: map<string, seq<Note>>)
    returns (order': seq<string>, groups': map<string, seq<Note>>)
    requires IsGrouping(order, groups, Filing(notes))
    ensures IsGrouping(order', groups', Filing(notes + [n]))
  {
    order', groups' := order, groups;
    SameFiled(order, groups, Filing(notes), FilingSoFar(notes, n, []));
    for j := 0 to |n.eventKeys|
      invariant IsGrouping(order', groups', FilingSoFar(notes, n, n.eventKeys[..j]))
    {
      assert n.eventKeys[..j + 1] == n.eventKeys[..j] + [n.eventKeys[j]];
      order', groups' := FileUnder(notes, n, n.eventKeys[..j], n.eventKeys[j], order', groups');
    }
    assert n.eventKeys[..|n.eventKeys|] == n.eventKeys;
    NoteFiled(notes, n);
    SameFiled(order', groups', FilingSoFar(notes, n, n.eventKeys), Filing(notes + [n]));
  }

  lemma NoteFiled(notes: seq<Note>, n: Note)
    ensures forall key :: Members(notes + [n], key) == SoFar(notes, n, n.eventKeys, key)
  {
    assert (notes + [n])[..|notes|] == notes;
  }

  method FileUnder(notes: seq<Note>, n: Note, ghost some: seq<string>, key: string, order: seq<string>,
                   groups: map<string, seq<Note>>)
    returns (order': seq<string>, groups': map<string, seq<Note>>)
    requires IsGrouping(order, groups, FilingSoFar(notes, n, some))
    ensures IsGrouping(order', groups', FilingSoFar(notes, n, some + [key]))
  {
    forall k
      ensures SoFar(notes, n, some + [key], k) == SoFar(notes, n, some, k) + if k == key then [n] else []
    {
      SoFarSnoc(notes, n, some, key, k);
    }
    FileOne(order, groups, FilingSoFar(notes, n, some), FilingSoFar(notes, n, some + [key]), key, n);
    order', groups' := order, groups;
    if key in groups {
      groups' := groups[key := groups[key] + [n]];
    } else {
      order' := order + [key];
      groups' := groups[key := [n]];
    }
  }

  // ----- tallying

  /** The counters and sets the nested loops fill. */
  datatype Tally = Tally(seen: set<string>, missed: set<string>, cross: nat, same: nat, rows: seq<Row>)

  function RowPair(r: Row): Pair {
    {r.a.id, r.b.id}
  }

  /** Which pairs there are and of which kind. */
  datatype Kinds = Kinds(shared: set<Pair>, cross: set<Pair>, missed: set<Pair>)

  ghost predicate SortsInto(a: Note, b: Note, ks: Kinds) {
    && {a.id, b.id} in ks.shared
    && ({a.id, b.id} in ks.cross <==> a.source != b.source)
    && ({a.id, b.id} in ks.missed <==> a.source != b.source && a.occurredAt != b.occurredAt)
  }

  /** Every sharing pair of notes is sorted by its sources and dates. */
  ghost predicate AreKinds(notes: seq<Note>, ks: Kinds) {
    forall a, b | a in notes && b in notes && a.id != b.id && Shares(a, b) :: SortsInto(a, b, ks)
  }

  ghost predicate SeenAre(notes: seq<Note>, seen: set<string>, pairs: set<Pair>) {
    forall a, b | a in notes && b in notes :: PairId(a.id, b.id) in seen <==> {a.id, b.id} in pairs
  }

  /** The tally has counted exactly `pairs`. */
  ghost predicate Counts(notes: seq<Note>, ks: Kinds, t: Tally, pairs: set<Pair>) {
    && pairs <= ks.shared
    && SeenAre(notes, t.seen, pairs)
    && t.missed <= t.seen
    && SizesAre(ks, t.missed, t.cross, t.same, pairs)
    && RowsList(t.rows, pairs)
  }

  ghost predicate SizesAre(ks: Kinds, missed: set<string>, cross: nat, same: nat, pairs: set<Pair>) {
    cross == |pairs * ks.cross| && same == |pairs - ks.cross| && |missed| == |pairs * ks.missed|
  }

  /** One row per counted pair, each naming a key both notes carry. */
  ghost predicate RowsList(rows: seq<Row>, pairs: set<Pair>) {
    && (forall i, j | 0 <= i < j < |rows| :: RowPair(rows[i]) != RowPair(rows[j]))
    && (forall r | r in rows :: RowPair(r) in pairs && r.key in r.a.eventKeys && r.key in r.b.eventKeys
                                && (r.cross <==> r.a.source != r.b.source))
    && |rows| == |pairs|
  }

  lemma PairKind(notes: seq<Note>, a: Note, b: Note)
    requires UniqueIds(notes) && a in notes && b in notes && a.id != b.id && Shares(a, b)
    ensures SortsInto(a, b, Kinds(SharedPairs(notes), CrossPairs(notes), MissedPairs(notes)))
  {
    forall c, d | c in notes && d in notes && {c.id, d.id} == {a.id, b.id}
      ensures (c == a && d == b) || (c == b && d == a)
    {
      PairMembers(c.id, d.id, a.id, b.id);
      if c.id == a.id {
        SameIdSameNote(notes, c, a);
        SameIdSameNote(notes, d, b);
      } else {
        SameIdSameNote(notes, c, b);
        SameIdSameNote(notes, d, a);
      }
    }
  }

  lemma PairMembers(c: string, d: string, a: string, b: string)
    requires {c, d} == {a, b} && a != b
    ensures (c == a && d == b) || (c == b && d == a)
  {
    assert a in {c, d} && b in {c, d} && c in {a, b};
  }

  /** The tally after one pair of one group, as the innermost loop body leaves it. */
  function TallyPair(t: Tally, key: string, a: Note, b: Note): Tally {
    var pairId := PairId(a.id, b.id);
    if a.id == b.id || pairId in t.seen then t
    else
      var cross := a.source != b.source;
      AddPair(t, pairId, cross && a.occurredAt != b.occurredAt, Row(cross, key, a, b))
  }

  function AddPair(t: Tally, id: string, missed: bool, row: Row): Tally {
    Tally(t.seen + {id}, if missed then t.missed + {id} else t.missed, if row.cross then t.cross + 1 else t.cross,
          if row.cross then t.same else t.same + 1, t.rows + [row])
  }

  /** The pairs counted after one more pair of notes has been looked at. */
  ghost function With(pairs: set<Pair>, a: Note, b: Note): set<Pair> {
    if a.id == b.id then pairs else pairs + {{a.id, b.id}}
  }

  lemma TallyPairCounts(notes: seq<Note>, ks: Kinds, t: Tally, pairs: set<Pair>, key: string, a: Note, b: Note)
    requires UniqueIds(notes) && AreKinds(notes, ks) && Counts(notes, ks, t, pairs)
    requires a in notes && b in notes && key in a.eventKeys && key in b.eventKeys
    ensures Counts(notes, ks, TallyPair(t, key, a, b), With(pairs, a, b))
  {
    if a.id != b.id {
      if PairId(a.id, b.id) in t.seen {
        assert pairs + {{a.id, b.id}} == pairs;
      } else {
        assert Shares(a, b);
        NewPairCounts(notes, ks, t, pairs, key, a, b);
      }
    }
  }

  lemma NewPairCounts(notes: seq<Note>, ks: Kinds, t: Tally, pairs: set<Pair>, key: string, a: Note, b: Note)
    requires UniqueIds(notes) && SortsInto(a, b, ks) && Counts(notes, ks, t, pairs)
    requires a in notes && b in notes && key in a.eventKeys && key in b.eventKeys
    requires a.id != b.id && PairId(a.id, b.id) !in t.seen
    ensures Counts(notes, ks, TallyPair(t, key, a, b), pairs + {{a.id, b.id}})
  {
    var cross := a.source != b.source;
    assert {a.id, b.id} !in pairs;
    SeenGrows(notes, t.seen, pairs, a, b);
    var missed := cross && a.occurredAt != b.occurredAt;
    AddPairCounts(notes, ks, t, pairs, PairId(a.id, b.id), missed, Row(cross, key, a, b));
  }

  lemma AddPairCounts(notes: seq<Note>, ks: Kinds, t: Tally, pairs: set<Pair>, id: string, missed: bool, row: Row)
    requires Counts(notes, ks, t, pairs) && id !in t.seen
    requires var p := RowPair(row); p !in pairs && p in ks.shared && SeenAre(notes, t.seen + {id}, pairs + {p})
                                    && (p in ks.cross <==> row.cross) && (p in ks.missed <==> missed)
    requires row.key in row.a.eventKeys && row.key in row.b.eventKeys && (row.cross <==> row.a.source != row.b.source)
    ensures Counts(notes, ks, AddPair(t, id, missed, row), pairs + {RowPair(row)})
  {
    var p := RowPair(row);
    SizesGrow(ks, t, pairs, p, id, missed, row);
    RowsGrow(t.rows, pairs, row);
    PartsCount(notes, ks, AddPair(t, id, missed, row), pairs + {p});
  }

  lemma PartsCount(notes: seq<Note>, ks: Kinds, t: Tally, pairs: set<Pair>)
    requires pairs <= ks.shared && SeenAre(notes, t.seen, pairs) && t.missed <= t.seen
    requires SizesAre(ks, t.missed, t.cross, t.same, pairs) && RowsList(t.rows, pairs)
    ensures Counts(notes, ks, t, pairs)
  {
  }

  lemma SizesGrow(ks: Kinds, t: Tally, pairs: set<Pair>, p: Pair, id: string, missed: bool, row: Row)
    requires SizesAre(ks, t.missed, t.cross, t.same, pairs) && p !in pairs && id !in t.missed
    requires (p in ks.cross <==> row.cross) && (p in ks.missed <==> missed)
    ensures var t' := AddPair(t, id, missed, row); SizesAre(ks, t'.missed, t'.cross, t'.same, pairs + {p})
  {
    OneMore(pairs, p, ks.cross);
    OneMore(pairs, p, ks.missed);
  }

  lemma SeenGrows(notes: seq<Note>, seen: set<string>, pairs: set<Pair>, a: Note, b: Note)
    requires UniqueIds(notes) && a in notes && b in notes && SeenAre(notes, seen, pairs)
    ensures SeenAre(notes, seen + {PairId(a.id, b.id)}, pairs + {{a.id, b.id}})
  {
    forall c, d | c in notes && d in notes
      ensures PairId(c.id, d.id) in seen + {PairId(a.id, b.id)} <==> {c.id, d.id} in pairs + {{a.id, b.id}}
    {
      PairIdNamesPair(a.id, b.id, c.id, d.id);
    }
  }

  lemma RowsGrow(rows: seq<Row>, pairs: set<Pair>, r: Row)
    requires RowsList(rows, pairs) && RowPair(r) !in pairs
    requires r.key in r.a.eventKeys && r.key in r.b.eventKeys && (r.cross <==> r.a.source != r.b.source)
    ensures RowsList(rows + [r], pairs + {RowPair(r)})
  {
    forall i | 0 <= i < |rows| ensures RowPair(rows[i]) != RowPair(r) {
      assert rows[i] in rows;
    }
  }

  lemma OneMore(pairs: set<Pair>, p: Pair, kind: set<Pair>)
    requires p !in pairs
    ensures |(pairs + {p}) * kind| == |pairs * kind| + if p in kind then 1 else 0
    ensures |(pairs + {p}) - kind| == |pairs - kind| + if p in kind then 0 else 1
    ensures |pairs + {p}| == |pairs| + 1
  {
    if p in kind {
      assert (pairs + {p}) * kind == (pairs * kind) + {p};
      assert (pairs + {p}) - kind == pairs - kind;
    } else {
      assert (pairs + {p}) * kind == pairs * kind;
      assert (pairs + {p}) - kind == (pairs - kind) + {p};
    }
  }

  /** Every two members of the group, as far as the loops have got, are counted. */
  ghost predicate PairedUpTo(members: seq<Note>, pairs: set<Pair>, i: nat, j: nat) {
    forall x, y | 0 <= x < y < |members| && (x < i || (x == i && y < j)) && members[x].id != members[y].id ::
      {members[x].id, members[y].id} in pairs
  }

  method TallyGroup(notes: seq<Note>, key: string, members: seq<Note>, t: Tally, ghost ks: Kinds,
                    ghost pairs: set<Pair>)
    returns (t': Tally, ghost pairs': set<Pair>)
    requires UniqueIds(notes) && AreKinds(notes, ks) && Counts(notes, ks, t, pairs)
    requires forall m | m in members :: m in notes && key in m.eventKeys
    ensures Counts(notes, ks, t', pairs') && pairs <= pairs'
    ensures PairedUpTo(members, pairs', |members|, 0)
  {
    t', pairs' := t, pairs;
    for i := 0 to |members|
      invariant Counts(notes, ks, t', pairs') && pairs <= pairs' && PairedUpTo(members, pairs', i, i + 1)
    {
      for j := i + 1 to |members|
        invariant Counts(notes, ks, t', pairs') && pairs <= pairs' && PairedUpTo(members, pairs', i, j)
      {
        TallyPairCounts(notes, ks, t', pairs', key, members[i], members[j]);
        PairedStep(members, pairs', i, j);
        t' := TallyOne(t', key, members[i], members[j]);
        pairs' := With(pairs', members[i], members[j]);
      }
    }
  }

  lemma PairedStep(members: seq<Note>, pairs: set<Pair>, i: nat, j: nat)
    requires i < j < |members| && PairedUpTo(members, pairs, i, j)
    ensures PairedUpTo(members, With(pairs, members[i], members[j]), i, j + 1)
  {
  }

  method TallyOne(t: Tally, key: string, a: Note, b: Note) returns (t': Tally)
    ensures t' == TallyPair(t, key, a, b)
  {
    t' := t;
    if a.id == b.id {
      return;
    }
    var pairId := PairId(a.id, b.id);
    if pairId in t.seen {
      return;
    }
    t' := t'.(seen := t'.seen + {pairId});
    var isCross := a.source != b.source;
    if isCross {
      t' := t'.(cross := t'.cross + 1);
      if a.occurredAt != b.occurredAt {
        t' := t'.(missed := t'.missed + {pairId});
      }
    } else {
      t' := t'.(same := t'.same + 1);
    }
    t' := t'.(rows := t'.rows + [Row(isCross, key, a, b)]);
  }

  /** The keys that more than two notes are filed under. */
  function OversizedIn(notes: seq<Note>, keys: seq<string>): nat {
    if keys == [] then 0
    else OversizedIn(notes, keys[..|keys| - 1]) + if |Members(notes, keys[|keys| - 1])| > 2 then 1 else 0
  }

  ghost function OversizedKeys(notes: seq<Note>, keys: seq<string>): set<string> {
    set k | k in keys && |Members(notes, k)| > 2
  }

  lemma OversizedSnoc(notes: seq<Note>, keys: seq<string>, key: string)
    ensures OversizedIn(notes, keys + [key]) == OversizedIn(notes, keys) + if |Members(notes, key)| > 2 then 1 else 0
    ensures OversizedKeys(notes, keys + [key]) ==
            OversizedKeys(notes, keys) + if |Members(notes, key)| > 2 then {key} else {}
  {
    assert (keys + [key])[..|keys|] == keys;
  }

  lemma {:induction false} OversizedCount(notes: seq<Note>, keys: seq<string>)
    requires Distinct(keys)
    ensures OversizedIn(notes, keys) == |OversizedKeys(notes, keys)|
  {
    if keys == [] {
    } else {
      var front, last := keys[..|keys| - 1], keys[|keys| - 1];
      assert keys == front + [last];
      LastIsNew(front, last);
      OversizedCount(notes, front);
      OversizedSnoc(notes, front, last);
      SizeWith(OversizedKeys(notes, front), last, |Members(notes, last)| > 2);
    }
  }

  lemma SizeWith(keys: set<string>, key: string, more: bool)
    requires key !in keys
    ensures |keys + if more then {key} else {}| == |keys| + if more then 1 else 0
  {
    assert keys + {} == keys;
  }

  /** The keys any note carries. */
  ghost function AllKeys(notes: seq<Note>): set<string> {
    set n, k | n in notes && k in n.eventKeys :: k
  }

  /**
   The pair counts are sizes of sets of pairs, so neither repeated keys nor any order can change them.
   Only the count of oversized groups sees repetition; see `GroupIsItsNotesIff`.
   */
  method SummarisePairs(notes: seq<Note>) returns (out: PairSummary)
    requires UniqueIds(notes)
    ensures out.cross == |CrossPairs(notes)|
    ensures out.cross + out.same == |SharedPairs(notes)|
    ensures out.missedByDate == |MissedPairs(notes)|
    ensures out.oversizedGroups == |set k | k in AllKeys(notes) && |Members(notes, k)| > 2|
    ensures RowsList(out.rows, SharedPairs(notes))
    // one row per pair, each of two notes under a key of both, marked by their sources
    ensures |out.rows| == out.cross + out.same
    ensures forall r | r in out.rows ::
              r.key in r.a.eventKeys && r.key in r.b.eventKeys && (r.cross <==> r.a.source != r.b.source)
  {
    var order, groups := GroupByKey(notes);
    ghost var ks := Kinds(SharedPairs(notes), CrossPairs(notes), MissedPairs(notes));
    forall a, b | a in notes && b in notes && a.id != b.id && Shares(a, b) ensures SortsInto(a, b, ks) {
      PairKind(notes, a, b);
    }
    var t, oversized;
    ghost var pairs;
    t, oversized, pairs := TallyGroups(notes, order, groups, ks);
    OversizedCount(notes, order);
    OrderIsAllKeys(notes, order);
    AllPairsCounted(notes, order, pairs);
    CrossAreShared(notes);
    out := PairSummary(t.cross, t.same, |t.missed|, oversized, t.rows);
  }

  ghost predicate AllPaired(notes: seq<Note>, keys: seq<string>, pairs: set<Pair>) {
    forall k | k in keys :: PairedUpTo(Members(notes, k), pairs, |Members(notes, k)|, 0)
  }

  method TallyGroups(notes: seq<Note>, order: seq<string>, groups: map<string, seq<Note>>, ghost ks: Kinds)
    returns (t: Tally, oversized: nat, ghost pairs: set<Pair>)
    requires UniqueIds(notes) && AreKinds(notes, ks)
    requires forall k | k in order :: k in groups && groups[k] == Members(notes, k)
    ensures Counts(notes, ks, t, pairs) && AllPaired(notes, order, pairs)
    ensures oversized == OversizedIn(notes, order)
  {
    t, oversized, pairs := Tally({}, {}, 0, 0, []), 0, {};
    for i := 0 to |order|
      invariant Counts(notes, ks, t, pairs) && AllPaired(notes, order[..i], pairs)
      invariant oversized == OversizedIn(notes, order[..i])
    {
      assert order[..i + 1] == order[..i] + [order[i]];
      t, oversized, pairs := TallyNext(notes, order[..i], order[i], groups[order[i]], t, oversized, ks, pairs);
    }
    assert order[..|order|] == order;
  }

  /** One more group, after those of the keys `before`. */
  method TallyNext(notes: seq<Note>, ghost before: seq<string>, key: string, members: seq<Note>, t: Tally,
                   oversized: nat, ghost ks: Kinds, ghost pairs: set<Pair>)
    returns (t': Tally, oversized': nat, ghost pairs': set<Pair>)
    requires UniqueIds(notes) && AreKinds(notes, ks) && members == Members(notes, key)
    requires Counts(notes, ks, t, pairs) && AllPaired(notes, before, pairs) && oversized == OversizedIn(notes, before)
    ensures Counts(notes, ks, t', pairs') && AllPaired(notes, before + [key], pairs')
    ensures oversized' == OversizedIn(notes, before + [key])
  {
    oversized' := oversized;
    OversizedSnoc(notes, before, key);
    if |members| > 2 {
      oversized' := oversized' + 1;
    }
    MembersHas(notes, key);
    t', pairs' := TallyGroup(notes, key, members, t, ks, pairs);
    AllPairedSnoc(notes, before, key, pairs, pairs');
  }

  lemma AllPairedSnoc(notes: seq<Note>, keys: seq<string>, key: string, pairs: set<Pair>, pairs': set<Pair>)
    requires AllPaired(notes, keys, pairs) && pairs <= pairs'
    requires PairedUpTo(Members(notes, key), pairs', |Members(notes, key)|, 0)
    ensures AllPaired(notes, keys + [key], pairs')
  {
    forall k | k in keys ensures PairedUpTo(Members(notes, k), pairs', |Members(notes, k)|, 0) {
      assert PairedUpTo(Members(notes, k), pairs, |Members(notes, k)|, 0);
    }
  }

  lemma OrderIsAllKeys(notes: seq<Note>, order: seq<string>)
    requires forall k :: k in order <==> Members(notes, k) != []
    ensures forall k :: k in order <==> k in AllKeys(notes)
    ensures OversizedKeys(notes, order) == set k | k in AllKeys(notes) && |Members(notes, k)| > 2
  {
    forall k ensures k in order <==> k in AllKeys(notes) {
      MembersHas(notes, k);
      if k in order {
        assert Members(notes, k)[0] in Members(notes, k);
      }
    }
  }

  lemma AllPairsCounted(notes: seq<Note>, order: seq<string>, pairs: set<Pair>)
    requires forall k :: k in order <==> k in AllKeys(notes)
    requires AllPaired(notes, order, pairs)
    requires pairs <= SharedPairs(notes)
    ensures pairs == SharedPairs(notes)
  {
    forall a, b | a in notes && b in notes && a.id != b.id && Shares(a, b) ensures {a.id, b.id} in pairs {
      var k :| k in a.eventKeys && k in b.eventKeys;
      assert k in AllKeys(notes);
      var ms := Members(notes, k);
      MembersHas(notes, k);
      var x :| 0 <= x < |ms| && ms[x] == a;
      var y :| 0 <= y < |ms| && ms[y] == b;
      assert {a.id, b.id} == {b.id, a.id};
    }
  }

  lemma CrossAreShared(notes: seq<Note>)
    ensures MissedPairs(notes) <= CrossPairs(notes) <= SharedPairs(notes)
    ensures SharedPairs(notes) * CrossPairs(notes) == CrossPairs(notes)
    ensures SharedPairs(notes) * MissedPairs(notes) == MissedPairs(notes)
    ensures |SharedPairs(notes)| == |CrossPairs(notes)| + |SharedPairs(notes) - CrossPairs(notes)|
  {
    var s, c := SharedPairs(notes), CrossPairs(notes);
    assert s == c + (s - c);
  }

  // ----- what makes a group oversized

  /** The notes that carry a key, in order. */
  function Carriers(notes: seq<Note>, key: string): seq<Note> {
    if notes == [] then []
    else
      var last := notes[|notes| - 1];
      Carriers(notes[..|notes| - 1], key) + if key in last.eventKeys then [last] else []
  }

  function Occurs(keys: seq<string>, key: string): nat {
    if keys == [] then 0
    else Occurs(keys[..|keys| - 1], key) + if keys[|keys| - 1] == key then 1 else 0
  }

  lemma {:induction false} FiledCount(n: Note, keys: seq<string>, key: string)
    ensures |Filed(n, keys, key)| == Occurs(keys, key)
    ensures Occurs(keys, key) > 0 <==> key in keys
  {
    if keys == [] {
    } else {
      FiledCount(n, keys[..|keys| - 1], key);
      assert keys == keys[..|keys| - 1] + [keys[|keys| - 1]];
    }
  }

  /**
   A group is as large as the number of notes that carry its key if and only if no note carries the key
   twice.
   */
  lemma {:induction false} GroupIsItsNotesIff(notes: seq<Note>, key: string)
    ensures |Members(notes, key)| >= |Carriers(notes, key)|
    ensures |Members(notes, key)| == |Carriers(notes, key)| <==> forall n | n in notes :: Occurs(n.eventKeys, key) <= 1
  {
    if notes == [] {
    } else {
      var front, last := notes[..|notes| - 1], notes[|notes| - 1];
      GroupIsItsNotesIff(front, key);
      FiledCount(last, last.eventKeys, key);
      assert forall n :: n in notes <==> n in front || n == last by {
        assert notes == front + [last];
      }
    }
  }

  lemma {:induction false} DistinctOccursOnce(keys: seq<string>, key: string)
    requires Distinct(keys)
    ensures Occurs(keys, key) == if key in keys then 1 else 0
  {
    if keys == [] {
    } else {
      var front, last := keys[..|keys| - 1], keys[|keys| - 1];
      assert keys == front + [last];
      LastIsNew(front, last);
      DistinctOccursOnce(front, key);
    }
  }

  /** Notes whose keys are distinct, as `eventIdentity` collects them in a set, make no group too large. */
  lemma OversizedCountsNotes(notes: seq<Note>)
    requires forall n | n in notes :: Distinct(n.eventKeys)
    ensures (set k | k in AllKeys(notes) && |Members(notes, k)| > 2) ==
            (set k | k in AllKeys(notes) && |Carriers(notes, k)| > 2)
  {
    forall k ensures |Members(notes, k)| == |Carriers(notes, k)| {
      GroupIsItsNotesIff(notes, k);
      forall n | n in notes ensures Occurs(n.eventKeys, k) <= 1 {
        DistinctOccursOnce(n.eventKeys, k);
      }
    }
  }

  // ----- what the counts do not depend on

  /** The same note but for the order and repetition of its keys. */
  ghost predicate SameButKeyOrder(n: Note, n': Note) {
    n' == n.(eventKeys := n'.eventKeys) && forall k :: k in n.eventKeys <==> k in n'.eventKeys
  }

  /** Reordering the notes and the keys within notes changes none of the counted sets. */
  lemma CountsIgnoreOrder(notes: seq<Note>, notes': seq<Note>)
    requires forall n | n in notes :: exists n' | n' in notes' :: SameButKeyOrder(n, n')
    requires forall n' | n' in notes' :: exists n | n in notes :: SameButKeyOrder(n, n')
    ensures SharedPairs(notes) == SharedPairs(notes')
    ensures CrossPairs(notes) == CrossPairs(notes')
    ensures MissedPairs(notes) == MissedPairs(notes')
  {
    CountsGrow(notes, notes');
    CountsGrow(notes', notes);
  }

  /** What the counted sets can see of a note. */
  predicate Twin(n: Note, n': Note) {
    && n'.id == n.id && n'.source == n.source && n'.occurredAt == n.occurredAt
    && forall k | k in n.eventKeys :: k in n'.eventKeys
  }

  lemma TwinsShare(a: Note, b: Note, a': Note, b': Note)
    requires Twin(a, a') && Twin(b, b') && Shares(a, b)
    ensures Shares(a', b')
  {
    var k :| k in a.eventKeys && k in b.eventKeys;
    assert k in a'.eventKeys && k in b'.eventKeys;
  }

  lemma CountsGrow(notes: seq<Note>, notes': seq<Note>)
    requires forall n | n in notes :: exists n' | n' in notes' :: SameButKeyOrder(n, n') || SameButKeyOrder(n', n)
    ensures SharedPairs(notes) <= SharedPairs(notes')
    ensures CrossPairs(notes) <= CrossPairs(notes')
    ensures MissedPairs(notes) <= MissedPairs(notes')
  {
    forall n | n in notes ensures exists n' | n' in notes' :: Twin(n, n') {
      var n' :| n' in notes' && (SameButKeyOrder(n, n') || SameButKeyOrder(n', n));
      assert Twin(n, n');
    }
    TwinsCount(notes, notes');
  }

  lemma TwinsCount(notes: seq<Note>, notes': seq<Note>)
    requires forall n | n in notes :: exists n' | n' in notes' :: Twin(n, n')
    ensures SharedPairs(notes) <= SharedPairs(notes')
    ensures CrossPairs(notes) <= CrossPairs(notes')
    ensures MissedPairs(notes) <= MissedPairs(notes')
  {
    forall a, b | a in notes && b in notes && a.id != b.id && Shares(a, b)
      ensures exists a', b' | a' in notes' && b' in notes' :: Twin(a, a') && Twin(b, b') && Shares(a', b')
    {
      var a' :| a' in notes' && Twin(a, a');
      var b' :| b' in notes' && Twin(b, b');
      TwinsShare(a, b, a', b');
    }
  }
}
