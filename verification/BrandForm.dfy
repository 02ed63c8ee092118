/**
 The brand form of components/admin/brand-manager.tsx: a stored profile flattened into text fields and
 assembled again from them.
 */
module BrandForm {
  import opened Text

  datatype FieldType = ListField | TextField | EnumField

  /** The form's fields by section; keys are unique by construction. */
  type Table = map<string, map<string, FieldType>>

  const SECTIONS: Table := map[
    "voice" := map[
      "vocabulary" := ListField, "sentenceLength" := EnumField, "humor" := EnumField, "formality" := EnumField,
      "emojiUsage" := EnumField, "punctuation" := TextField, "formatting" := TextField, "ctas" := ListField,
      "preferredPhrases" := ListField, "prohibitedPhrases" := ListField],
    "knowledge" := map[
      "products" := ListField, "positioning" := TextField, "audiences" := ListField, "competitors" := ListField,
      "history" := TextField, "claimsAllowed" := ListField, "claimsNeedingVerification" := ListField,
      "roadmapVisibility" := EnumField],
    "governance" := map[
      "confidentialTopics" := ListField, "legalRestrictions" := ListField, "pricingRules" := TextField,
      "disclosureRequirements" := ListField, "requiredMentions" := ListField, "approvalThresholds" := TextField,
      "platformPolicies" := TextField]]

  /** A stored field: a list of texts, a text, or something the form does not show. */
  datatype Raw = Items(items: seq<string>) | Line(text: string) | Other

  type Profile = map<string, map<string, Raw>>
  type Values = map<string, string>

  // ----- one field

  function FieldValue(raw: Raw): Option<string> {
    match raw
    case Items(items) => Some(Join(items, "\n"))
    case Line(text) => Some(text)
    case Other => None
  }

  /** A line that holds something, trimmed. */
  function KeptLine(line: string): seq<string> {
    if Trim(line) != "" then [Trim(line)] else []
  }

  function CleanLines(lines: seq<string>): seq<string> {
    if lines == [] then [] else KeptLine(lines[0]) + CleanLines(lines[1..])
  }

  function FieldFrom(t: FieldType, value: string): Option<Raw> {
    var raw := Trim(value);
    if raw == "" then None
    else if t.ListField? then
      var items := CleanLines(Split(raw, '\n'));
      if items == [] then None else Some(Items(items))
    else Some(Line(raw))
  }

  predicate CleanItem(s: string) {
    s != "" && Trimmed(s) && '\n' !in s
  }

  /** What the form can hold in a field of this type. */
  predicate NormalRaw(t: FieldType, raw: Raw) {
    if t.ListField? then raw.Items? && raw.items != [] && forall x | x in raw.items :: CleanItem(x)
    else raw.Line? && raw.text != "" && Trimmed(raw.text)
  }

  lemma {:induction false} CleanLinesAreClean(lines: seq<string>)
    requires forall l | l in lines :: '\n' !in l
    ensures forall x | x in CleanLines(lines) :: CleanItem(x)
  {
    if lines == [] {
    } else {
      TrimIsTrimmed(lines[0]);
      CleanLinesAreClean(lines[1..]);
    }
  }

  lemma {:induction false} CleanLinesAppend(a: seq<string>, b: seq<string>)
    ensures CleanLines(a + b) == CleanLines(a) + CleanLines(b)
  {
    if a == [] {
      assert a + b == b;
    } else {
      assert (a + b)[1..] == a[1..] + b;
      CleanLinesAppend(a[1..], b);
      var first := KeptLine(a[0]);
      assert first + (CleanLines(a[1..]) + CleanLines(b)) == (first + CleanLines(a[1..])) + CleanLines(b);
    }
  }

  lemma BlankIsSpace(s: string, a: string, e: string)
    requires a == TrimStart(s) && e == TrimEnd(a) && e == ""
    ensures AllSpace(s)
  {
    assert a[|e|..] == a;
    assert a == "" && s[..|s|] == s;
  }

  lemma BlankIff(s: string)
    ensures Trim(s) == "" <==> AllSpace(s)
  {
    if AllSpace(s) {
      TrimAllSpace(s);
    }
    if Trim(s) == "" {
      BlankIsSpace(s, TrimStart(s), Trim(s));
    }
  }

  /** Line by line: a blank line is left out, any other is kept, trimmed, in its place. */
  lemma CleanLinesSay(before: seq<string>, line: string, after: seq<string>)
    ensures CleanLines(before + ([line] + after)) ==
            CleanLines(before) + ((if AllSpace(line) then [] else [Trim(line)]) + CleanLines(after))
  {
    BlankIff(line);
    CleanLinesAppend(before, [line] + after);
    assert ([line] + after)[1..] == after;
  }

  /** A field is left out exactly when nothing but white space is in it. */
  lemma LeftOutIffBlank(t: FieldType, value: string)
    ensures FieldFrom(t, value).None? <==> AllSpace(value)
  {
    BlankIff(value);
    var raw := Trim(value);
    TrimIsTrimmed(value);
    if raw != "" {
      var lines := Split(raw, '\n');
      FirstLineStarts(lines, raw);
      BlankIff(lines[0]);
      assert !IsSpace(lines[0][0]);
    }
  }

  lemma FirstLineStarts(lines: seq<string>, raw: string)
    requires lines != [] && raw == Join(lines, "\n") && raw != "" && raw[0] != '\n'
    ensures lines[0] != "" && lines[0][0] == raw[0]
  {
  }

  lemma {:induction false} CleanLinesFixed(lines: seq<string>)
    requires forall l | l in lines :: CleanItem(l)
    ensures CleanLines(lines) == lines
  {
    if lines == [] {
    } else {
      var first, rest := lines[0], lines[1..];
      assert lines == [first] + rest;
      ItemIsKept(first);
      CleanLinesFixed(rest);
    }
  }

  lemma ItemIsKept(item: string)
    requires CleanItem(item)
    ensures KeptLine(item) == [item]
  {
    TrimFixed(item);
  }

  lemma {:induction false} JoinIsTrimmed(items: seq<string>)
    requires items != [] && forall x | x in items :: CleanItem(x)
    ensures Join(items, "\n") != "" && Trimmed(Join(items, "\n"))
    ensures Join(items, "\n")[0] == items[0][0]
  {
    assert items[0] in items;
    if |items| > 1 {
      JoinIsTrimmed(items[1..]);
      var j, rest := Join(items, "\n"), Join(items[1..], "\n");
      assert j[|j| - 1] == rest[|rest| - 1];
    }
  }

  lemma FieldFromIsNormal(t: FieldType, value: string)
    ensures FieldFrom(t, value).Some? ==> NormalRaw(t, FieldFrom(t, value).value)
  {
    TrimIsTrimmed(value);
    CleanLinesAreClean(Split(Trim(value), '\n'));
  }

  /** A field survives the form exactly when it is in the form's normal shape. */
  lemma FieldRoundTrip(t: FieldType, raw: Raw)
    requires FieldValue(raw).Some?
    ensures FieldFrom(t, FieldValue(raw).value) == Some(raw) <==> NormalRaw(t, raw)
  {
    var value := FieldValue(raw).value;
    FieldFromIsNormal(t, value);
    if NormalRaw(t, raw) {
      if t.ListField? {
        JoinIsTrimmed(raw.items);
        SplitJoin(raw.items, '\n');
        CleanLinesFixed(raw.items);
      }
      TrimFixed(value);
    }
  }

  // ----- composite keys

  function Key(section: string, field: string): string {
    section + "." + field
  }

  ghost predicate DotFree(t: Table) {
    forall s | s in t :: '.' !in s
  }

  lemma KeyIsInjective(s: string, f: string, s': string, f': string)
    requires '.' !in s && '.' !in s' && Key(s, f) == Key(s', f')
    ensures s == s' && f == f'
  {
    var k, k' := Key(s, f), Key(s', f');
    assert k[|s|] == '.' && k'[|s'|] == '.';
    assert forall i | 0 <= i < |s| :: k[i] == s[i];
    assert forall i | 0 <= i < |s'| :: k'[i] == s'[i];
    assert |s| == |s'|;
    assert k[..|s|] == s && k'[..|s'|] == s' && k[|s| + 1..] == f && k'[|s'| + 1..] == f';
  }

  // ----- flatten

  function ValueAt(p: Profile, s: string, f: string): Option<string> {
    if s in p && f in p[s] then FieldValue(p[s][f]) else None
  }

  /** `v` holds the values of the fields in `some` of the table's sections, under their composite keys. */
  ghost predicate ValuesOf(t: Table, p: Profile, v: Values, some: set<(string, string)>) {
    && (forall s, f | (s, f) in some :: (Key(s, f) in v <==> ValueAt(p, s, f).Some?)
                                        && (Key(s, f) in v ==> v[Key(s, f)] == ValueAt(p, s, f).value))
    && (forall k | k in v :: exists s, f :: (s, f) in some && k == Key(s, f))
  }

  ghost function Places(t: Table): (ps: set<(string, string)>)
    ensures forall s, f :: (s, f) in ps <==> s in t && f in t[s]
  {
    set s, f | s in t && f in t[s] :: (s, f)
  }

  method ToValues(t: Table, profile: Option<Profile>) returns (v: Values)
    requires DotFree(t)
    ensures profile.None? ==> v == map[]
    ensures profile.Some? ==> ValuesOf(t, profile.value, v, Places(t))
  {
    v := map[];
    if profile.None? {
      return;
    }
    var p := profile.value;
    var sections := t.Keys;
    ghost var done: set<(string, string)> := {};
    while sections != {}
      invariant sections <= t.Keys
      invariant forall s, f :: (s, f) in done <==> s in t && f in t[s] && s !in sections
      invariant ValuesOf(t, p, v, done)
      decreases sections
    {
      var s :| s in sections;
      var fields := t[s].Keys;
      while fields != {}
        invariant fields <= t[s].Keys
        invariant forall x, f :: (x, f) in done <==> x in t && f in t[x] && (x !in sections || (x == s && f !in fields))
        invariant ValuesOf(t, p, v, done)
        decreases fields
      {
        var f :| f in fields;
        fields := fields - {f};
        AddValue(t, p, v, done, s, f);
        done := done + {(s, f)};
        if s in p && f in p[s] {
          match p[s][f] {
            case Items(items) => v := v[Key(s, f) := Join(items, "\n")];
            case Line(text) => v := v[Key(s, f) := text];
            case Other =>
          }
        }
      }
      sections := sections - {s};
    }
    forall q ensures q in done <==> q in Places(t) {
      assert q == (q.0, q.1);
    }
    assert done == Places(t);
  }

  lemma AddValue(t: Table, p: Profile, v: Values, done: set<(string, string)>, s: string, f: string)
    requires DotFree(t) && ValuesOf(t, p, v, done) && s in t && (s, f) !in done
    requires forall x, y | (x, y) in done :: x in t
    ensures var value := ValueAt(p, s, f);
            ValuesOf(t, p, if value.Some? then v[Key(s, f) := value.value] else v, done + {(s, f)})
  {
    forall x, y | (x, y) in done ensures Key(x, y) != Key(s, f) {
      if Key(x, y) == Key(s, f) {
        KeyIsInjective(x, y, s, f);
      }
    }
    var value := ValueAt(p, s, f);
    var v' := if value.Some? then v[Key(s, f) := value.value] else v;
    forall k | k in v' ensures exists x, y :: (x, y) in done + {(s, f)} && k == Key(x, y) {
      if k != Key(s, f) {
        var x, y :| (x, y) in done && k == Key(x, y);
        assert (x, y) in done + {(s, f)};
      } else {
        assert (s, f) in done + {(s, f)};
      }
    }
  }

  // ----- assemble

  function TextAt(v: Values, key: string): string {
    if key in v then v[key] else ""
  }

  /** What the form makes of one place; none where the table has no field. */
  function FieldAt(t: Table, v: Values, s: string, f: string): Option<Raw> {
    if s in t && f in t[s] then FieldFrom(t[s][f], TextAt(v, Key(s, f))) else None
  }

  function SectionReader(t: Table, v: Values, s: string): string -> Option<Raw> {
    (f: string) => FieldAt(t, v, s, f)
  }

  /** `fields` are the non-empty fields among `some`, as `at` gives them. */
  ghost predicate FieldsAre(at: string -> Option<Raw>, some: set<string>, fields: map<string, Raw>) {
    && (forall f | f in fields :: f in some && at(f) == Some(fields[f]))
    && (forall f | f in some && at(f).Some? :: f in fields)
  }

  ghost predicate SectionOf(t: Table, v: Values, s: string, some: set<string>, fields: map<string, Raw>) {
    FieldsAre(SectionReader(t, v, s), some, fields)
  }

  function SectionIn(p: Profile, s: string): map<string, Raw> {
    if s in p then p[s] else map[]
  }

  /** `out` has the sections among `some` with any non-empty field, each with exactly those. */
  ghost predicate ProfileOf(t: Table, v: Values, some: set<string>, out: Profile) {
    && (forall s | s in out :: s in some && s in t && out[s] != map[] && SectionOf(t, v, s, t[s].Keys, out[s]))
    && (forall s | s in some && s in t && s !in out :: SectionOf(t, v, s, t[s].Keys, map[]))
  }

  method ToProfile(t: Table, v: Values) returns (out: Profile)
    ensures ProfileOf(t, v, t.Keys, out)
  {
    out := map[];
    var sections := t.Keys;
    while sections != {}
      invariant sections <= t.Keys
      invariant ProfileOf(t, v, t.Keys - sections, out)
      decreases sections
    {
      var s :| s in sections;
      var obj := AssembleSection(t, v, s);
      sections := sections - {s};
      if obj != map[] {
        out := out[s := obj];
      }
    }
  }

  method AssembleSection(t: Table, v: Values, s: string) returns (obj: map<string, Raw>)
    requires s in t
    ensures SectionOf(t, v, s, t[s].Keys, obj)
  {
    obj := map[];
    var fields := t[s].Keys;
    ghost var at, done := SectionReader(t, v, s), {};
    while fields != {}
      invariant fields <= t[s].Keys && done == t[s].Keys - fields
      invariant FieldsAre(at, done, obj)
      decreases fields
    {
      var f :| f in fields;
      AddField(at, done, obj, f);
      fields, done := fields - {f}, done + {f};
      var raw := AssembleField(t, v, s, f);
      if raw.Some? {
        obj := obj[f := raw.value];
      }
    }
    assert done == t[s].Keys;
  }

  method AssembleField(t: Table, v: Values, s: string, f: string) returns (r: Option<Raw>)
    requires s in t && f in t[s]
    ensures r == SectionReader(t, v, s)(f)
  {
    var raw := Trim(TextAt(v, Key(s, f)));
    if raw == "" {
      return None;
    }
    if t[s][f].ListField? {
      var arr := CleanLines(Split(raw, '\n'));
      return if arr == [] then None else Some(Items(arr));
    }
    return Some(Line(raw));
  }

  lemma AddField(at: string -> Option<Raw>, done: set<string>, obj: map<string, Raw>, f: string)
    requires f !in done && FieldsAre(at, done, obj)
    ensures FieldsAre(at, done + {f}, if at(f).Some? then obj[f := at(f).value] else obj)
  {
  }

  // ----- normal forms

  /** Profiles in the form's own shape. */
  ghost predicate Normal(t: Table, p: Profile) {
    forall s | s in p ::
      s in t && p[s] != map[] && forall f | f in p[s] :: f in t[s] && NormalRaw(t[s][f], p[s][f])
  }

  /** Everything the form can save is normal. */
  lemma AssembledIsNormal(t: Table, v: Values, out: Profile)
    requires ProfileOf(t, v, t.Keys, out)
    ensures Normal(t, out)
  {
    forall s, f | s in out && f in out[s] ensures f in t[s] && NormalRaw(t[s][f], out[s][f]) {
      SavedIsNormal(t, v, s, out[s], f);
    }
  }

  lemma SavedIsNormal(t: Table, v: Values, s: string, fields: map<string, Raw>, f: string)
    requires s in t && SectionOf(t, v, s, t[s].Keys, fields) && f in fields
    ensures f in t[s] && NormalRaw(t[s][f], fields[f])
  {
    assert SectionReader(t, v, s)(f) == Some(fields[f]);
    FieldFromIsNormal(t[s][f], TextAt(v, Key(s, f)));
  }

  /** Opening a profile in the form and saving it unedited gives the profile back exactly when it is normal. */
  lemma FormRoundTrip(t: Table, p: Profile, v: Values, out: Profile)
    requires DotFree(t) && ValuesOf(t, p, v, Places(t)) && ProfileOf(t, v, t.Keys, out)
    ensures out == p <==> Normal(t, p)
  {
    AssembledIsNormal(t, v, out);
    if Normal(t, p) {
      forall s | s in t ensures SectionOf(t, v, s, t[s].Keys, SectionIn(p, s)) {
        SectionSurvives(t, p, v, s);
      }
      AssembledOnce(t, v, p, out);
    }
  }

  /** The values of a profile determine what is assembled from them. */
  lemma AssembledOnce(t: Table, v: Values, a: Profile, b: Profile)
    requires ProfileOf(t, v, t.Keys, a) && ProfileOf(t, v, t.Keys, b)
    ensures a == b
  {
    forall s ensures SectionIn(a, s) == SectionIn(b, s) {
      if s in t {
        SectionHas(t, v, a, s);
        SectionHas(t, v, b, s);
        SectionOnce(SectionReader(t, v, s), t[s].Keys, SectionIn(a, s), SectionIn(b, s));
      }
    }
    SameSections(a, b);
  }

  lemma SectionHas(t: Table, v: Values, a: Profile, s: string)
    requires ProfileOf(t, v, t.Keys, a) && s in t
    ensures SectionOf(t, v, s, t[s].Keys, SectionIn(a, s))
  {
  }

  lemma SameSections(a: Profile, b: Profile)
    requires forall s :: SectionIn(a, s) == SectionIn(b, s)
    requires (forall s | s in a :: a[s] != map[]) && (forall s | s in b :: b[s] != map[])
    ensures a == b
  {
    forall s ensures (s in a <==> s in b) && (s in a ==> a[s] == b[s]) {
      assert SectionIn(a, s) == SectionIn(b, s);
    }
    assert a.Keys == b.Keys;
  }

  lemma SectionOnce(at: string -> Option<Raw>, some: set<string>, a: map<string, Raw>, b: map<string, Raw>)
    requires FieldsAre(at, some, a) && FieldsAre(at, some, b)
    ensures a == b
  {
    assert a.Keys == b.Keys;
  }

  lemma SectionSurvives(t: Table, p: Profile, v: Values, s: string)
    requires ValuesOf(t, p, v, Places(t)) && Normal(t, p) && s in t
    ensures SectionOf(t, v, s, t[s].Keys, SectionIn(p, s))
  {
    var at := SectionReader(t, v, s);
    forall f | f in t[s] ensures at(f) == if f in SectionIn(p, s) then Some(SectionIn(p, s)[f]) else None {
      FieldSurvives(t, p, v, s, f);
    }
    FieldsFrom(at, t[s].Keys, SectionIn(p, s));
  }

  lemma FieldsFrom(at: string -> Option<Raw>, some: set<string>, fields: map<string, Raw>)
    requires fields.Keys <= some
    requires forall f | f in some :: at(f) == if f in fields then Some(fields[f]) else None
    ensures FieldsAre(at, some, fields)
  {
  }

  lemma FieldSurvives(t: Table, p: Profile, v: Values, s: string, f: string)
    requires ValuesOf(t, p, v, Places(t)) && s in t && f in t[s]
    requires s in p && f in p[s] ==> NormalRaw(t[s][f], p[s][f])
    ensures FieldAt(t, v, s, f) == if s in p && f in p[s] then Some(p[s][f]) else None
  {
    assert (s, f) in Places(t);
    if s in p && f in p[s] {
      FieldRoundTrip(t[s][f], p[s][f]);
    }
  }

  /** Saving, opening and saving again changes nothing: what the form produces it reproduces. */
  lemma SaveOpenSave(t: Table, v: Values, out: Profile, v': Values, out': Profile)
    requires DotFree(t) && ProfileOf(t, v, t.Keys, out)
    requires ValuesOf(t, out, v', Places(t)) && ProfileOf(t, v', t.Keys, out')
    ensures out' == out
  {
    AssembledIsNormal(t, v, out);
    FormRoundTrip(t, out, v', out');
  }

  /** The shipped table meets the one condition the composite keys need. */
  lemma SectionsAreDotFree()
    ensures DotFree(SECTIONS)
  {
    assert SECTIONS.Keys == {"voice", "knowledge", "governance"};
    assert '.' !in "voice" && '.' !in "knowledge" && '.' !in "governance";
  }
}
