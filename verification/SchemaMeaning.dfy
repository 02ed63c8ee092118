/** Hardening a schema is the same as reading it closed. */
module SchemaMeaning {
  import opened SchemaHardening
  import opened Text

  const LITERALS := {"type", "enum", "const", "required", "$ref"}

  /** Values that are data, not schemas, hold nothing hardening would close. */
  predicate LiteralsClean(s: Json) {
    match s
    case Obj(m) =>
      && (forall k | k in LITERALS && k in m :: Complete(m[k]))
      && ("properties" in m && m["properties"].Obj? ==>
            forall k | k in m["properties"].fields :: LiteralsClean(m["properties"].fields[k]))
      && ("$defs" in m && m["$defs"].Obj? ==>
            forall k | k in m["$defs"].fields :: LiteralsClean(m["$defs"].fields[k]))
      && ("items" in m ==> LiteralsClean(m["items"]))
      && (AP in m ==> LiteralsClean(m[AP]))
      && ("anyOf" in m && m["anyOf"].Arr? ==>
            forall i | 0 <= i < |m["anyOf"].items| :: LiteralsClean(m["anyOf"].items[i]))
    case _ => true
  }

  /** Hardening takes the table for a schema and closes a name of it that was open. */
  predicate LosesName(t: map<string, Json>) {
    NeedsClosing(t) && AP in t && t[AP] == Bool(true)
  }

  /**
   A schema's property table keeps its meaning: it is not taken for a schema, or the one name that is
   then closed was refused before, by its own schema or for not being declared.
   */
  predicate TableKept(m: map<string, Json>) {
    var d := Declared(m);
    NeedsClosing(d) ==> if AP in d then d[AP] != Bool(true) else NeedsClosing(m)
  }

  /** Every property table keeps its meaning, anywhere a schema can stand below `s`. */
  predicate TablesKept(s: Json) {
    match s
    case Obj(m) =>
      && TableKept(m)
      && ("properties" in m && m["properties"].Obj? ==>
            forall k | k in m["properties"].fields :: TablesKept(m["properties"].fields[k]))
      && ("items" in m ==> TablesKept(m["items"]))
      && (AP in m ==> TablesKept(m[AP]))
      && ("anyOf" in m && m["anyOf"].Arr? ==>
            forall i | 0 <= i < |m["anyOf"].items| :: TablesKept(m["anyOf"].items[i]))
    case _ => true
  }

  /** The root matters only through its definitions. */
  predicate DefinitionsKept(root: Json) {
    root.Obj? && "$defs" in root.fields && root.fields["$defs"].Obj? ==>
      var defs := root.fields["$defs"].fields;
      !LosesName(defs) && forall k | k in defs :: TablesKept(defs[k])
  }

  lemma FieldHardened(m: map<string, Json>, k: string)
    requires k != AP || !NeedsClosing(m)
    ensures k in Harden(Obj(m)).fields <==> k in m
    ensures k in m ==> Harden(Obj(m)).fields[k] == Harden(m[k])
  {
  }

  lemma LiteralKept(m: map<string, Json>, k: string)
    requires LiteralsClean(Obj(m)) && k in LITERALS
    ensures k in Harden(Obj(m)).fields <==> k in m
    ensures k in m ==> Harden(Obj(m)).fields[k] == m[k]
  {
    if k in m {
      HardenFixesComplete(m[k]);
    }
  }

  lemma PlainKeywordsKept(m: map<string, Json>, v: Json)
    requires LiteralsClean(Obj(m))
    ensures PlainKeywordsHold(Harden(Obj(m)).fields, v) <==> PlainKeywordsHold(m, v)
  {
    LiteralKept(m, "type");
    LiteralKept(m, "enum");
    LiteralKept(m, "const");
    LiteralKept(m, "required");
  }

  /** Declared properties stay declared, hardened; a table taken for a schema gains one closed name. */
  lemma DeclaredHardened(m: map<string, Json>)
    ensures var d, h := Declared(m), Declared(Harden(Obj(m)).fields);
            && d.Keys <= h.Keys <= d.Keys + {AP}
            && (forall k | k in d && (k != AP || !NeedsClosing(d)) :: h[k] == Harden(d[k]))
            && (NeedsClosing(d) ==> AP in h && h[AP] == Bool(false))
            && (!NeedsClosing(d) ==> h.Keys == d.Keys)
  {
    FieldHardened(m, "properties");
    var d := Declared(m);
    if "properties" in m && m["properties"].Obj? {
      assert Declared(Harden(Obj(m)).fields) == Harden(Obj(d)).fields;
    } else {
      assert Declared(Harden(Obj(m)).fields) == map[];
    }
  }

  lemma RefHardened(root: Json, m: map<string, Json>)
    requires LiteralsClean(root) && LiteralsClean(Obj(m)) && "$ref" in m
    ensures Harden(Obj(m)).fields["$ref"] == m["$ref"]
    ensures Resolves(root, m["$ref"]) ==>
              Resolves(Harden(root), m["$ref"]) && LiteralsClean(Definition(root, m["$ref"]))
    ensures Resolves(Harden(root), m["$ref"]) ==>
              var d := Definition(Harden(root), m["$ref"]);
              d == Bool(false) || (Resolves(root, m["$ref"]) && d == Harden(Definition(root, m["$ref"])))
    ensures DefinitionsKept(root) && Resolves(root, m["$ref"]) ==>
              var d := Definition(root, m["$ref"]);
              Definition(Harden(root), m["$ref"]) == Harden(d) || (!d.Obj? && d != Bool(true))
  {
    LiteralKept(m, "$ref");
    if root.Obj? {
      FieldHardened(root.fields, "$defs");
    }
  }

  /** The schemas standing directly under a clean schema are clean. */
  lemma SubschemasClean(m: map<string, Json>)
    requires LiteralsClean(Obj(m))
    ensures forall k | k in Declared(m) :: LiteralsClean(Declared(m)[k])
    ensures AP in m ==> LiteralsClean(m[AP])
    ensures "items" in m ==> LiteralsClean(m["items"])
    ensures "anyOf" in m && m["anyOf"].Arr? ==>
              forall i | 0 <= i < |m["anyOf"].items| :: LiteralsClean(m["anyOf"].items[i])
  {
  }

  /** The schemas standing directly under `m` keep their tables. */
  ghost predicate PartsOf(m: map<string, Json>) {
    && (forall k | k in Declared(m) :: TablesKept(Declared(m)[k]))
    && (AP in m ==> TablesKept(m[AP]))
    && ("items" in m ==> TablesKept(m["items"]))
    && ("anyOf" in m && m["anyOf"].Arr? ==> forall i | 0 <= i < |m["anyOf"].items| :: TablesKept(m["anyOf"].items[i]))
  }

  lemma SubschemasKept(m: map<string, Json>)
    requires TablesKept(Obj(m))
    ensures PartsOf(m) && TableKept(m)
  {
  }

  /** The name that closing a table takes away is not among the keys, or was refused before. */
  predicate NoNameLost(d: map<string, Json>, o: map<string, Json>) {
    NeedsClosing(d) && AP in o ==> AP in d && d[AP] != Bool(true)
  }

  lemma ArrHardened(m: map<string, Json>, k: string)
    requires k != AP
    ensures k in m ==> k in Harden(Obj(m)).fields && Harden(Obj(m)).fields[k].Arr? == m[k].Arr?
    ensures k in m && m[k].Arr? ==>
              var h := Harden(Obj(m)).fields[k].items;
              |h| == |m[k].items| && forall i | 0 <= i < |h| :: h[i] == Harden(m[k].items[i])
  {
  }

  // ----- hardened validity implies closed validity

  /**
   What the hardened schema accepts, the original accepts in its closed reading; in particular
   hardening only narrows.  No condition on names is needed.
   */
  lemma {:induction false} HardenedImpliesClosed(root: Json, s: Json, v: Json, depth: nat)
    requires LiteralsClean(root) && LiteralsClean(s)
    requires Accepts(false, Harden(root), Harden(s), v, depth)
    ensures Accepts(true, root, s, v, depth)
    decreases depth, 0
  {
    if s.Obj? {
      PlainKeywordsKept(s.fields, v);
      ObjectPartNarrows(root, s.fields, v, depth - 1);
      OtherPartsNarrow(root, s.fields, v, depth - 1);
    }
  }

  lemma {:induction false} ObjectPartNarrows(root: Json, m: map<string, Json>, v: Json, depth: nat)
    requires LiteralsClean(root) && LiteralsClean(Obj(m))
    requires ObjectPartHolds(false, Harden(root), Harden(Obj(m)).fields, v, depth)
    ensures ObjectPartHolds(true, root, m, v, depth)
    decreases depth, 2
  {
    if v.Obj? {
      SubschemasClean(m);
      DeclaredNarrow(root, m, v.fields, depth);
      OthersNarrow(root, m, v.fields, depth);
    }
  }

  lemma {:induction false} OtherPartsNarrow(root: Json, m: map<string, Json>, v: Json, depth: nat)
    requires LiteralsClean(root) && LiteralsClean(Obj(m))
    requires OtherPartsHold(false, Harden(root), Harden(Obj(m)).fields, v, depth)
    ensures OtherPartsHold(true, root, m, v, depth)
    decreases depth, 2
  {
    var h := Harden(Obj(m)).fields;
    SubschemasClean(m);
    FieldHardened(m, "items");
    if v.Arr? && "items" in m {
      ItemsNarrow(root, m["items"], v.items, depth);
    }
    ArrHardened(m, "anyOf");
    if "anyOf" in m {
      AnyOfNarrow(root, m["anyOf"].items, h["anyOf"].items, v, depth);
    }
    FieldHardened(m, "$ref");
    if "$ref" in m {
      RefNarrows(root, m, v, depth);
    }
  }

  lemma {:induction false} RefNarrows(root: Json, m: map<string, Json>, v: Json, depth: nat)
    requires LiteralsClean(root) && LiteralsClean(Obj(m)) && "$ref" in m
    requires Resolves(Harden(root), m["$ref"])
    requires Accepts(false, Harden(root), Definition(Harden(root), m["$ref"]), v, depth)
    ensures Harden(Obj(m)).fields["$ref"] == m["$ref"]
    ensures Resolves(root, m["$ref"]) && Accepts(true, root, Definition(root, m["$ref"]), v, depth)
    decreases depth, 1
  {
    RefHardened(root, m);
    if Definition(Harden(root), m["$ref"]) != Bool(false) {
      HardenedImpliesClosed(root, Definition(root, m["$ref"]), v, depth);
    }
  }

  lemma {:induction false} DeclaredNarrow(root: Json, m: map<string, Json>, o: map<string, Json>, depth: nat)
    requires LiteralsClean(root) && forall k | k in Declared(m) :: LiteralsClean(Declared(m)[k])
    requires DeclaredHold(false, Harden(root), Declared(Harden(Obj(m)).fields), o, depth)
    ensures DeclaredHold(true, root, Declared(m), o, depth)
    ensures AP in o && NeedsClosing(Declared(m)) ==> false
    decreases depth, 1
  {
    DeclaredHardened(m);
    var d, h := Declared(m), Declared(Harden(Obj(m)).fields);
    forall k | k in o && k in d ensures Accepts(true, root, d[k], o[k], depth) {
      assert Accepts(false, Harden(root), h[k], o[k], depth);
      if h[k] == Harden(d[k]) {
        HardenedImpliesClosed(root, d[k], o[k], depth);
      }
    }
    assert AP in o && NeedsClosing(d) ==> Accepts(false, Harden(root), h[AP], o[AP], depth);
  }

  lemma {:induction false} OthersNarrow(root: Json, m: map<string, Json>, o: map<string, Json>, depth: nat)
    requires LiteralsClean(root) && (AP in m ==> LiteralsClean(m[AP]))
    requires AP in o ==> !NeedsClosing(Declared(m))
    requires var h := Harden(Obj(m)).fields;
             AP in h ==> OthersHold(false, Harden(root), h[AP], Declared(h), o, depth)
    ensures AP in m ==> OthersHold(true, root, m[AP], Declared(m), o, depth)
    ensures NeedsClosing(m) ==> o.Keys <= Declared(m).Keys
    decreases depth, 1
  {
    var h := Harden(Obj(m)).fields;
    DeclaredHardened(m);
    forall k | k in o && k !in Declared(m)
      ensures !NeedsClosing(m) && (AP in m ==> Accepts(true, root, m[AP], o[k], depth))
    {
      assert k !in Declared(h);
      assert AP in h ==> Accepts(false, Harden(root), h[AP], o[k], depth);
      if !NeedsClosing(m) && AP in m {
        FieldHardened(m, AP);
        HardenedImpliesClosed(root, m[AP], o[k], depth);
      }
    }
  }

  lemma {:induction false} ItemsNarrow(root: Json, s: Json, vs: seq<Json>, depth: nat)
    requires LiteralsClean(root) && LiteralsClean(s)
    requires AllHold(false, Harden(root), Harden(s), vs, depth)
    ensures AllHold(true, root, s, vs, depth)
    decreases depth, 1
  {
    forall i | 0 <= i < |vs| ensures Accepts(true, root, s, vs[i], depth) {
      HardenedImpliesClosed(root, s, vs[i], depth);
    }
  }

  lemma {:induction false} AnyOfNarrow(root: Json, ss: seq<Json>, hs: seq<Json>, v: Json, depth: nat)
    requires LiteralsClean(root) && forall i | 0 <= i < |ss| :: LiteralsClean(ss[i])
    requires |hs| == |ss| && forall i | 0 <= i < |ss| :: hs[i] == Harden(ss[i])
    requires SomeHolds(false, Harden(root), hs, v, depth)
    ensures SomeHolds(true, root, ss, v, depth)
    decreases depth, 1
  {
    var i :| 0 <= i < |hs| && Accepts(false, Harden(root), hs[i], v, depth);
    HardenedImpliesClosed(root, ss[i], v, depth);
  }

  // ----- closed validity implies hardened validity

  lemma {:induction false} ClosedImpliesHardened(root: Json, s: Json, v: Json, depth: nat)
    requires LiteralsClean(root) && LiteralsClean(s) && DefinitionsKept(root) && TablesKept(s)
    requires Accepts(true, root, s, v, depth)
    ensures Accepts(false, Harden(root), Harden(s), v, depth)
    decreases depth, 0
  {
    if s.Obj? {
      SubschemasKept(s.fields);
      PlainKeywordsKept(s.fields, v);
      ObjectPartHardens(root, s.fields, v, depth - 1);
      OtherPartsHarden(root, s.fields, v, depth - 1);
    }
  }

  lemma {:induction false} ObjectPartHardens(root: Json, m: map<string, Json>, v: Json, depth: nat)
    requires LiteralsClean(root) && LiteralsClean(Obj(m)) && DefinitionsKept(root) && PartsOf(m)
    requires TableKept(m) || (v.Obj? ==> NoNameLost(Declared(m), v.fields))
    requires ObjectPartHolds(true, root, m, v, depth)
    ensures ObjectPartHolds(false, Harden(root), Harden(Obj(m)).fields, v, depth)
    decreases depth, 2
  {
    if v.Obj? {
      SubschemasClean(m);
      DeclaredHarden(root, m, v.fields, depth);
      OthersHarden(root, m, v.fields, depth);
    }
  }

  lemma {:induction false} OtherPartsHarden(root: Json, m: map<string, Json>, v: Json, depth: nat)
    requires LiteralsClean(root) && LiteralsClean(Obj(m)) && DefinitionsKept(root) && PartsOf(m)
    requires OtherPartsHold(true, root, m, v, depth)
    ensures OtherPartsHold(false, Harden(root), Harden(Obj(m)).fields, v, depth)
    decreases depth, 2
  {
    var h := Harden(Obj(m)).fields;
    SubschemasClean(m);
    FieldHardened(m, "items");
    if v.Arr? && "items" in m {
      ItemsHarden(root, m["items"], v.items, depth);
    }
    FieldHardened(m, "anyOf");
    ArrHardened(m, "anyOf");
    if "anyOf" in m {
      AnyOfHarden(root, m["anyOf"].items, h["anyOf"].items, v, depth);
    }
    FieldHardened(m, "$ref");
    if "$ref" in m {
      RefHardens(root, m, v, depth);
    }
  }

  lemma {:induction false} RefHardens(root: Json, m: map<string, Json>, v: Json, depth: nat)
    requires LiteralsClean(root) && LiteralsClean(Obj(m)) && DefinitionsKept(root) && "$ref" in m
    requires Resolves(root, m["$ref"]) && Accepts(true, root, Definition(root, m["$ref"]), v, depth)
    ensures Harden(Obj(m)).fields["$ref"] == m["$ref"]
    ensures Resolves(Harden(root), m["$ref"])
    ensures Accepts(false, Harden(root), Definition(Harden(root), m["$ref"]), v, depth)
    decreases depth, 1
  {
    RefHardened(root, m);
    RefTablesKept(root, m["$ref"]);
    AcceptsSomething(root, Definition(root, m["$ref"]), v, depth);
    ClosedImpliesHardened(root, Definition(root, m["$ref"]), v, depth);
  }

  lemma AcceptsSomething(root: Json, s: Json, v: Json, depth: nat)
    requires Accepts(true, root, s, v, depth)
    ensures s.Obj? || s == Bool(true)
  {
  }

  lemma RefTablesKept(root: Json, ref: Json)
    requires DefinitionsKept(root) && Resolves(root, ref)
    ensures TablesKept(Definition(root, ref))
  {
  }

  lemma {:induction false} DeclaredHarden(root: Json, m: map<string, Json>, o: map<string, Json>, depth: nat)
    requires LiteralsClean(root) && forall k | k in Declared(m) :: LiteralsClean(Declared(m)[k])
    requires DefinitionsKept(root) && forall k | k in Declared(m) :: TablesKept(Declared(m)[k])
    requires NoNameLost(Declared(m), o)
    requires DeclaredHold(true, root, Declared(m), o, depth)
    ensures DeclaredHold(false, Harden(root), Declared(Harden(Obj(m)).fields), o, depth)
    decreases depth, 1
  {
    DeclaredHardened(m);
    var d, h := Declared(m), Declared(Harden(Obj(m)).fields);
    forall k | k in o && k in h ensures Accepts(false, Harden(root), h[k], o[k], depth) {
      assert k in d && Accepts(true, root, d[k], o[k], depth);
      AcceptsSomething(root, d[k], o[k], depth);
      ClosedImpliesHardened(root, d[k], o[k], depth);
    }
  }

  lemma {:induction false} OthersHarden(root: Json, m: map<string, Json>, o: map<string, Json>, depth: nat)
    requires LiteralsClean(root) && (AP in m ==> LiteralsClean(m[AP]))
    requires DefinitionsKept(root) && (AP in m ==> TablesKept(m[AP]))
    requires AP in m ==> OthersHold(true, root, m[AP], Declared(m), o, depth)
    requires NeedsClosing(m) ==> o.Keys <= Declared(m).Keys
    ensures var h := Harden(Obj(m)).fields;
            AP in h ==> OthersHold(false, Harden(root), h[AP], Declared(h), o, depth)
    decreases depth, 1
  {
    var h := Harden(Obj(m)).fields;
    DeclaredHardened(m);
    forall k | k in o && k !in Declared(h) && AP in h ensures Accepts(false, Harden(root), h[AP], o[k], depth) {
      assert k !in Declared(m);
      if !NeedsClosing(m) {
        FieldHardened(m, AP);
        ClosedImpliesHardened(root, m[AP], o[k], depth);
      }
    }
  }

  lemma {:induction false} ItemsHarden(root: Json, s: Json, vs: seq<Json>, depth: nat)
    requires LiteralsClean(root) && LiteralsClean(s) && DefinitionsKept(root) && TablesKept(s)
    requires AllHold(true, root, s, vs, depth)
    ensures AllHold(false, Harden(root), Harden(s), vs, depth)
    decreases depth, 1
  {
    forall i | 0 <= i < |vs| ensures Accepts(false, Harden(root), Harden(s), vs[i], depth) {
      ClosedImpliesHardened(root, s, vs[i], depth);
    }
  }

  lemma {:induction false} AnyOfHarden(root: Json, ss: seq<Json>, hs: seq<Json>, v: Json, depth: nat)
    requires LiteralsClean(root) && forall i | 0 <= i < |ss| :: LiteralsClean(ss[i])
    requires DefinitionsKept(root) && forall i | 0 <= i < |ss| :: TablesKept(ss[i])
    requires |hs| == |ss| && forall i | 0 <= i < |ss| :: hs[i] == Harden(ss[i])
    requires SomeHolds(true, root, ss, v, depth)
    ensures SomeHolds(false, Harden(root), hs, v, depth)
    decreases depth, 1
  {
    var i :| 0 <= i < |ss| && Accepts(true, root, ss[i], v, depth);
    ClosedImpliesHardened(root, ss[i], v, depth);
    assert Accepts(false, Harden(root), hs[i], v, depth);
  }

  // ----- main results

  /** The hardened schema means the closed reading of the original, no more and no less. */
  lemma HardenedMeansClosed(root: Json, s: Json, v: Json)
    requires LiteralsClean(root) && LiteralsClean(s) && DefinitionsKept(root) && TablesKept(s)
    ensures Valid(Harden(root), Harden(s), v) <==> ValidClosed(root, s, v)
  {
    if depth: nat :| Accepts(false, Harden(root), Harden(s), v, depth) {
      HardenedImpliesClosed(root, s, v, depth);
    }
    if depth: nat :| Accepts(true, root, s, v, depth) {
      ClosedImpliesHardened(root, s, v, depth);
    }
  }

  lemma {:induction false} ClosedImpliesOpen(root: Json, s: Json, v: Json, depth: nat)
    requires Accepts(true, root, s, v, depth)
    ensures Accepts(false, root, s, v, depth)
    decreases depth, 0
  {
    if s.Obj? {
      PartsOpen(root, s.fields, v, depth - 1);
    }
  }

  lemma {:induction false} PartsOpen(root: Json, m: map<string, Json>, v: Json, depth: nat)
    requires ObjectPartHolds(true, root, m, v, depth) && OtherPartsHold(true, root, m, v, depth)
    ensures ObjectPartHolds(false, root, m, v, depth) && OtherPartsHold(false, root, m, v, depth)
    decreases depth, 1
  {
    forall t, x | Accepts(true, root, t, x, depth) ensures Accepts(false, root, t, x, depth) {
      ClosedImpliesOpen(root, t, x, depth);
    }
  }

  /** Hardening never widens: what a hardened schema accepts, the original accepts. */
  lemma HardeningNarrows(root: Json, s: Json, v: Json)
    requires LiteralsClean(root) && LiteralsClean(s)
    ensures Valid(Harden(root), Harden(s), v) ==> Valid(root, s, v)
  {
    if depth: nat :| Accepts(false, Harden(root), Harden(s), v, depth) {
      HardenedImpliesClosed(root, s, v, depth);
      ClosedImpliesOpen(root, s, v, depth);
    }
  }

  // ----- values whose keys are all declared

  /**
   Wherever the value meets an object node with a free slot, its keys are among the declared ones.  Of
   alternatives only those that accept the value are looked at.
   */
  ghost predicate KeysDeclared(root: Json, s: Json, v: Json, depth: nat)
    decreases depth, 0
  {
    depth > 0 && s.Obj? ==>
      && (v.Obj? && NeedsClosing(s.fields) ==> v.fields.Keys <= Declared(s.fields).Keys)
      && (v.Obj? ==> BelowDeclared(root, s.fields, v.fields, depth - 1))
      && OthersDeclared(root, s.fields, v, depth - 1)
  }

  ghost predicate BelowDeclared(root: Json, m: map<string, Json>, o: map<string, Json>, depth: nat)
    decreases depth, 1
  {
    && (forall k | k in o && k in Declared(m) :: KeysDeclared(root, Declared(m)[k], o[k], depth))
    && (AP in m ==> forall k | k in o && k !in Declared(m) :: KeysDeclared(root, m[AP], o[k], depth))
  }

  ghost predicate OthersDeclared(root: Json, m: map<string, Json>, v: Json, depth: nat)
    decreases depth, 1
  {
    && (v.Arr? && "items" in m ==> forall i | 0 <= i < |v.items| :: KeysDeclared(root, m["items"], v.items[i], depth))
    && ("anyOf" in m && m["anyOf"].Arr? ==>
          forall i | 0 <= i < |m["anyOf"].items| && Accepts(false, root, m["anyOf"].items[i], v, depth) ::
            KeysDeclared(root, m["anyOf"].items[i], v, depth))
    && ("$ref" in m && Resolves(root, m["$ref"]) ==> KeysDeclared(root, Definition(root, m["$ref"]), v, depth))
  }

  lemma {:induction false} DeclaredImpliesClosed(root: Json, s: Json, v: Json, depth: nat)
    requires Accepts(false, root, s, v, depth) && KeysDeclared(root, s, v, depth)
    ensures Accepts(true, root, s, v, depth)
    decreases depth, 0
  {
    if s.Obj? {
      var m := s.fields;
      if v.Obj? {
        KeysClosed(root, m, v.fields, depth - 1);
      }
      OthersClosed(root, m, v, depth - 1);
    }
  }

  lemma {:induction false} KeysClosed(root: Json, m: map<string, Json>, o: map<string, Json>, depth: nat)
    requires ObjectPartHolds(false, root, m, Obj(o), depth) && BelowDeclared(root, m, o, depth)
    requires NeedsClosing(m) ==> o.Keys <= Declared(m).Keys
    ensures ObjectPartHolds(true, root, m, Obj(o), depth)
    decreases depth, 1
  {
    forall k | k in o && k in Declared(m) ensures Accepts(true, root, Declared(m)[k], o[k], depth) {
      DeclaredImpliesClosed(root, Declared(m)[k], o[k], depth);
    }
    if AP in m {
      forall k | k in o && k !in Declared(m) ensures Accepts(true, root, m[AP], o[k], depth) {
        DeclaredImpliesClosed(root, m[AP], o[k], depth);
      }
    }
  }

  lemma {:induction false} OthersClosed(root: Json, m: map<string, Json>, v: Json, depth: nat)
    requires OtherPartsHold(false, root, m, v, depth) && OthersDeclared(root, m, v, depth)
    ensures OtherPartsHold(true, root, m, v, depth)
    decreases depth, 1
  {
    if v.Arr? && "items" in m {
      forall i | 0 <= i < |v.items| ensures Accepts(true, root, m["items"], v.items[i], depth) {
        DeclaredImpliesClosed(root, m["items"], v.items[i], depth);
      }
    }
    if "anyOf" in m {
      var ss := m["anyOf"].items;
      var i :| 0 <= i < |ss| && Accepts(false, root, ss[i], v, depth);
      DeclaredImpliesClosed(root, ss[i], v, depth);
      assert SomeHolds(true, root, ss, v, depth);
    }
    if "$ref" in m {
      DeclaredImpliesClosed(root, Definition(root, m["$ref"]), v, depth);
    }
  }

  /** On values whose keys are all declared, the hardened schema and the original agree. */
  lemma AgreeOnDeclared(root: Json, s: Json, v: Json)
    requires LiteralsClean(root) && LiteralsClean(s) && DefinitionsKept(root) && TablesKept(s)
    requires forall depth: nat :: KeysDeclared(root, s, v, depth)
    ensures Valid(Harden(root), Harden(s), v) <==> Valid(root, s, v)
  {
    HardeningNarrows(root, s, v);
    if depth: nat :| Accepts(false, root, s, v, depth) {
      DeclaredImpliesClosed(root, s, v, depth);
      ClosedImpliesHardened(root, s, v, depth);
    }
  }

  /** A schema that is one literal is left with the same meaning exactly when the literal is clean. */
  lemma LiteralMeaningKeptIff(c: Json)
    ensures (forall v :: Valid(Harden(Obj(map["const" := c])), Harden(Obj(map["const" := c])), v)
                         <==> Valid(Obj(map["const" := c]), Obj(map["const" := c]), v))
            <==> Complete(c)
  {
    var m: map<string, Json> := map["const" := c];
    var s := Obj(m);
    HardenFixesComplete(c);
    FieldHardened(m, "const");
    assert !NeedsClosing(m);
    assert Harden(s).fields == map["const" := Harden(c)];
    forall x, v ensures Valid(s, Obj(map["const" := x]), v) <==> v == x {
      ConstMeans(s, x, v);
    }
    forall x, v ensures Valid(Harden(s), Obj(map["const" := x]), v) <==> v == x {
      ConstMeans(Harden(s), x, v);
    }
    assert Valid(s, s, c);
  }

  lemma ConstMeans(root: Json, c: Json, v: Json)
    ensures Valid(root, Obj(map["const" := c]), v) <==> v == c
  {
    var m: map<string, Json> := map["const" := c];
    assert "const" in m;
    if v == c {
      assert Declared(m) == map[] && !NeedsClosing(m);
      assert Accepts(false, root, Obj(m), v, 1);
    }
  }

  // ----- when a table of properties keeps its meaning

  /** A schema that is one property table, with or without a schema for the other keys. */
  function TableSchema(t: map<string, Json>, slot: Option<Json>): map<string, Json> {
    if slot.None? then map["properties" := Obj(t)] else map["properties" := Obj(t), AP := slot.value]
  }

  /** Its parts are clean and keep their meaning: all that can go wrong is the table itself. */
  predicate PartsKept(t: map<string, Json>, slot: Option<Json>) {
    && (forall k | k in t :: LiteralsClean(t[k]) && TablesKept(t[k]))
    && (slot.Some? ==> slot.value.Obj? && LiteralsClean(slot.value) && TablesKept(slot.value))
  }

  ghost predicate MeaningKept(s: Json) {
    forall v :: Valid(Harden(s), Harden(s), v) <==> ValidClosed(s, s, v)
  }

  /** The name `additionalProperties` was open in the schema: some value under that key is valid. */
  ghost predicate NameWasOpen(t: map<string, Json>, slot: Option<Json>) {
    if AP in t then t[AP] == Bool(true)
    else slot.Some? && exists x :: ValidClosed(Obj(TableSchema(t, slot)), slot.value, x)
  }

  lemma OnlyTwoKeywords(t: map<string, Json>, slot: Option<Json>)
    requires PartsKept(t, slot)
    ensures var m := TableSchema(t, slot);
            && Declared(m) == t && (AP in m <==> slot.Some?) && (NeedsClosing(m) <==> slot.None?)
            && (forall k | k in OTHER_KEYWORDS :: k !in m)
            && LiteralsClean(Obj(m)) && forall v :: PlainKeywordsHold(m, v)
  {
    KeywordsDiffer();
  }

  const OTHER_KEYWORDS := {"items", "anyOf", "$ref", "$defs", "type", "enum", "const", "required"}

  lemma KeywordsDiffer()
    ensures "properties" !in OTHER_KEYWORDS && AP !in OTHER_KEYWORDS && "properties" != AP
  {
    assert AP[0] == 'a' && "properties"[0] == 'p' && "type"[0] == 't' && "enum"[0] == 'e' && "const"[0] == 'c';
    assert "required"[0] == 'r' && "$ref"[0] == '$' && "$defs"[0] == '$' && "items"[0] == 'i' && "anyOf"[1] == 'n';
    assert AP[1] == 'd';
  }

  /** A schema with no keywords but these accepts an object by its declared and its other keys alone. */
  lemma AcceptedByKeys(t: map<string, Json>, slot: Option<Json>, x: Json, depth: nat)
    requires PartsKept(t, slot)
    requires var s := Obj(TableSchema(t, slot));
             if AP in t then t[AP] == Bool(true) && depth > 0
             else slot.Some? && Accepts(true, s, slot.value, x, depth)
    ensures var s := Obj(TableSchema(t, slot)); Accepts(true, s, s, Obj(map[AP := x]), depth + 1)
  {
    var m := TableSchema(t, slot);
    var o: map<string, Json> := map[AP := x];
    OnlyTwoKeywords(t, slot);
    assert DeclaredHold(true, Obj(m), Declared(m), o, depth);
    assert AP in m ==> OthersHold(true, Obj(m), m[AP], Declared(m), o, depth);
    assert OtherPartsHold(true, Obj(m), m, Obj(o), depth);
  }

  /** An open name is lost when the table is taken for a schema. */
  lemma OpenNameIsLost(t: map<string, Json>, slot: Option<Json>)
    requires PartsKept(t, slot) && NeedsClosing(t) && NameWasOpen(t, slot)
    ensures !MeaningKept(Obj(TableSchema(t, slot)))
    ensures AP in t ==>
              var s, v := Obj(TableSchema(t, slot)), Obj(map[AP := Null]);
              ValidClosed(s, s, v) && !Valid(Harden(s), Harden(s), v)
  {
    var m := TableSchema(t, slot);
    var s := Obj(m);
    OnlyTwoKeywords(t, slot);
    var x, depth: nat := Null, 1;
    if AP !in t {
      x :| ValidClosed(s, slot.value, x);
      depth :| Accepts(true, s, slot.value, x, depth);
    }
    AcceptedByKeys(t, slot, x, depth);
    DeclaredHardened(m);
    RejectedAfter(Harden(s).fields, map[AP := x]);
    assert ValidClosed(s, s, Obj(map[AP := x])) && !Valid(Harden(s), Harden(s), Obj(map[AP := x]));
  }

  lemma ClosedNameIsNotLost(t: map<string, Json>, slot: Option<Json>, o: map<string, Json>, depth: nat)
    requires PartsKept(t, slot) && !(NeedsClosing(t) && NameWasOpen(t, slot))
    requires var m := TableSchema(t, slot); ObjectPartHolds(true, Obj(m), m, Obj(o), depth)
    ensures NoNameLost(t, o)
  {
    var m := TableSchema(t, slot);
    OnlyTwoKeywords(t, slot);
    if slot.Some? && AP in o && AP !in t {
      assert OthersHold(true, Obj(m), slot.value, t, o, depth);
      assert ValidClosed(Obj(m), slot.value, o[AP]);
    }
  }

  /** If it was not open, closed validity passes to the hardened schema. */
  lemma ClosedNamePasses(t: map<string, Json>, slot: Option<Json>, v: Json, depth: nat)
    requires PartsKept(t, slot) && !(NeedsClosing(t) && NameWasOpen(t, slot))
    requires var s := Obj(TableSchema(t, slot)); Accepts(true, s, s, v, depth)
    ensures var s := Obj(TableSchema(t, slot)); Accepts(false, Harden(s), Harden(s), v, depth)
  {
    var m := TableSchema(t, slot);
    OnlyTwoKeywords(t, slot);
    PlainKeywordsKept(m, v);
    if v.Obj? {
      ClosedNameIsNotLost(t, slot, v.fields, depth - 1);
    }
    ObjectPartHardens(Obj(m), m, v, depth - 1);
    NoOtherKeywords(m, v, depth - 1);
  }

  lemma NoOtherKeywords(m: map<string, Json>, v: Json, depth: nat)
    requires forall k | k in OTHER_KEYWORDS :: k !in m
    ensures OtherPartsHold(false, Harden(Obj(m)), Harden(Obj(m)).fields, v, depth)
  {
    KeywordsDiffer();
    FieldHardened(m, "items");
    FieldHardened(m, "anyOf");
    FieldHardened(m, "$ref");
  }

  /**
   Exactly when a property table keeps its meaning: it is lost if and only if hardening takes the table
   for a schema and the name it then closes was open, declared as open or left to an open schema for the
   other keys.
   */
  lemma TableMeaningKeptIff(t: map<string, Json>, slot: Option<Json>)
    requires PartsKept(t, slot)
    ensures MeaningKept(Obj(TableSchema(t, slot))) <==> !(NeedsClosing(t) && NameWasOpen(t, slot))
  {
    var s := Obj(TableSchema(t, slot));
    if NeedsClosing(t) && NameWasOpen(t, slot) {
      OpenNameIsLost(t, slot);
    } else {
      OnlyTwoKeywords(t, slot);
      forall v ensures Valid(Harden(s), Harden(s), v) <==> ValidClosed(s, s, v) {
        if depth: nat :| Accepts(false, Harden(s), Harden(s), v, depth) {
          HardenedImpliesClosed(s, s, v, depth);
        }
        if depth: nat :| Accepts(true, s, s, v, depth) {
          ClosedNamePasses(t, slot, v, depth);
        }
      }
    }
  }

  /** Without a schema for the other keys the condition can be read off the table. */
  lemma PlainTableMeaningKeptIff(t: map<string, Json>)
    requires PartsKept(t, None)
    ensures MeaningKept(Obj(map["properties" := Obj(t)])) <==> !LosesName(t)
  {
    TableMeaningKeptIff(t, None);
  }

  lemma RejectedAfter(m: map<string, Json>, o: map<string, Json>)
    requires AP in Declared(m) && Declared(m)[AP] == Bool(false) && AP in o
    ensures !Valid(Obj(m), Obj(m), Obj(o))
  {
    forall depth: nat ensures !Accepts(false, Obj(m), Obj(m), Obj(o), depth) {
      if depth > 0 {
        assert !Accepts(false, Obj(m), Declared(m)[AP], o[AP], depth - 1);
        assert !DeclaredHold(false, Obj(m), Declared(m), o, depth - 1);
      }
    }
  }

  /** For instance, of two open properties "properties" and "additionalProperties" the second is lost. */
  lemma PropertyNamedPropertiesIsLost()
    ensures var table := map["properties" := Bool(true), AP := Bool(true)];
            var s := Obj(map["properties" := Obj(table)]);
            var v := Obj(map[AP := Null]);
            LiteralsClean(s) && ValidClosed(s, s, v) && !Valid(Harden(s), Harden(s), v)
    ensures MeaningKept(Obj(map["properties" := Obj(map["properties" := Bool(true)])]))
  {
    var both: map<string, Json> := map["properties" := Bool(true), AP := Bool(true)];
    var one: map<string, Json> := map["properties" := Bool(true)];
    KeywordsDiffer();
    OnlyTwoKeywords(both, None);
    OpenNameIsLost(both, None);
    PlainTableMeaningKeptIff(one);
  }
}
