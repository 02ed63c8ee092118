/**
 `_harden_schema_for_strict_providers` of graphiti/patch-strict-schema.py on JSON values, and what it
 does to the meaning of a schema.
 */
module SchemaHardening {

  datatype Json =
    | Null
    | Bool(b: bool)
    | Num(n: real)
    | Str(s: string)
    | Arr(items: seq<Json>)
    | Obj(fields: map<string, Json>)

  const AP := "additionalProperties"

  predicate LooksLikeObject(m: map<string, Json>) {
    ("type" in m && m["type"] == Str("object")) || "properties" in m
  }

  /** An object node whose `additionalProperties` slot holds no sub-schema. */
  predicate NeedsClosing(m: map<string, Json>) {
    LooksLikeObject(m) && !(AP in m && m[AP].Obj?)
  }

  function Harden(j: Json): Json {
    match j
    case Obj(m) =>
      var kids := map k | k in m :: Harden(m[k]);
      Obj(if NeedsClosing(m) then kids[AP := Bool(false)] else kids)
    case Arr(items) => Arr(seq(|items|, i requires 0 <= i < |items| => Harden(items[i])))
    case _ => j
  }

  // ----- what was done to the tree

  /** Every object node of the tree is closed or carries a sub-schema for further keys. */
  predicate Complete(j: Json) {
    match j
    case Obj(m) =>
      && (LooksLikeObject(m) ==> AP in m && (m[AP] == Bool(false) || m[AP].Obj?))
      && forall k | k in m :: Complete(m[k])
    case Arr(items) => forall i | 0 <= i < |items| :: Complete(items[i])
    case _ => true
  }

  /**
   `j'` differs from `j` only by closed slots: same shape, same keys apart from
   `additionalProperties`, and that slot kept wherever it was not an object node's free slot.
   */
  predicate OnlyClosed(j: Json, j': Json) {
    match j
    case Obj(m) =>
      && j'.Obj?
      && (if NeedsClosing(m) then j'.fields.Keys == m.Keys + {AP} && j'.fields[AP] == Bool(false)
          else j'.fields.Keys == m.Keys)
      && forall k | k in m && (k != AP || !NeedsClosing(m)) :: OnlyClosed(m[k], j'.fields[k])
    case Arr(items) =>
      j'.Arr? && |j'.items| == |items| && forall i | 0 <= i < |items| :: OnlyClosed(items[i], j'.items[i])
    case _ => j' == j
  }

  /** Hardening closes free slots and does nothing else: it is the only tree that qualifies. */
  lemma {:induction false} HardenIsOnlyClosed(j: Json, j': Json)
    ensures OnlyClosed(j, j') <==> j' == Harden(j)
  {
    match j
    case Obj(m) =>
      if j'.Obj? {
        forall k | k in m && k in j'.fields ensures OnlyClosed(m[k], j'.fields[k]) <==> j'.fields[k] == Harden(m[k]) {
          HardenIsOnlyClosed(m[k], j'.fields[k]);
        }
        if OnlyClosed(j, j') {
          assert j'.fields == Harden(j).fields;
        }
      }
    case Arr(items) =>
      if j'.Arr? && |j'.items| == |items| {
        forall i | 0 <= i < |items| ensures OnlyClosed(items[i], j'.items[i]) <==> j'.items[i] == Harden(items[i]) {
          HardenIsOnlyClosed(items[i], j'.items[i]);
        }
        if OnlyClosed(j, j') {
          assert j'.items == Harden(j).items;
        }
      }
    case _ =>
  }

  lemma HardenKeepsLooks(m: map<string, Json>)
    ensures LooksLikeObject(Harden(Obj(m)).fields) <==> LooksLikeObject(m)
  {
    var h := Harden(Obj(m)).fields;
    if "type" in m {
      assert h["type"] == Harden(m["type"]);
    }
  }

  lemma {:induction false} HardenIsComplete(j: Json)
    ensures Complete(Harden(j))
  {
    match j
    case Obj(m) =>
      HardenKeepsLooks(m);
      forall k | k in m ensures Complete(Harden(m[k])) {
        HardenIsComplete(m[k]);
      }
    case Arr(items) =>
      forall i | 0 <= i < |items| ensures Complete(Harden(items[i])) {
        HardenIsComplete(items[i]);
      }
    case _ =>
  }

  /** Hardening changes nothing exactly on the trees that are already complete. */
  lemma {:induction false} HardenFixesComplete(j: Json)
    ensures Harden(j) == j <==> Complete(j)
  {
    HardenIsComplete(j);
    match j
    case Obj(m) =>
      forall k | k in m ensures Harden(m[k]) == m[k] <==> Complete(m[k]) {
        HardenFixesComplete(m[k]);
      }
      if Complete(j) {
        assert Harden(j).fields == m;
      }
    case Arr(items) =>
      forall i | 0 <= i < |items| ensures Harden(items[i]) == items[i] <==> Complete(items[i]) {
        HardenFixesComplete(items[i]);
      }
      if Complete(j) {
        assert Harden(j).items == items;
      }
    case _ =>
  }

  /** Running the patch's helper twice is running it once. */
  lemma HardenIsIdempotent(j: Json)
    ensures Harden(Harden(j)) == Harden(j)
  {
    HardenIsComplete(j);
    HardenFixesComplete(Harden(j));
  }

  // ----- the meaning of a schema

  predicate IsOfType(v: Json, t: Json) {
    match t
    case Str(name) =>
      || (name == "null" && v.Null?)
      || (name == "boolean" && v.Bool?)
      || (name == "number" && v.Num?)
      || (name == "integer" && v.Num? && v.n == v.n.Floor as real)
      || (name == "string" && v.Str?)
      || (name == "array" && v.Arr?)
      || (name == "object" && v.Obj?)
    case Arr(names) => exists i | 0 <= i < |names| && names[i].Str? :: IsOfType(v, names[i])
    case _ => false
  }

  function Declared(m: map<string, Json>): map<string, Json> {
    if "properties" in m && m["properties"].Obj? then m["properties"].fields else map[]
  }

  const DEFS_PREFIX := "#/$defs/"

  /** The definition a reference names, if there is one. */
  predicate Resolves(root: Json, ref: Json) {
    && ref.Str? && |ref.s| >= |DEFS_PREFIX| && ref.s[..|DEFS_PREFIX|] == DEFS_PREFIX
    && root.Obj? && "$defs" in root.fields && root.fields["$defs"].Obj?
    && ref.s[|DEFS_PREFIX|..] in root.fields["$defs"].fields
  }

  function Definition(root: Json, ref: Json): Json
    requires Resolves(root, ref)
  {
    root.fields["$defs"].fields[ref.s[|DEFS_PREFIX|..]]
  }

  /** The keywords that look at the instance alone. */
  predicate PlainKeywordsHold(m: map<string, Json>, v: Json) {
    && ("type" in m ==> IsOfType(v, m["type"]))
    && ("enum" in m ==> m["enum"].Arr? && v in m["enum"].items)
    && ("const" in m ==> v == m["const"])
    && ("required" in m && v.Obj? ==>
          m["required"].Arr? && forall i | 0 <= i < |m["required"].items| ::
                                  m["required"].items[i].Str? && m["required"].items[i].s in v.fields)
  }

  /**
   Validity of `v` under schema `s` (JSON Schema Core, draft 2020-12), for the positive keywords:
   boolean schemas, type, enum, const, required, properties, additionalProperties, items, anyOf and
   references into the root's definitions.  `depth` bounds how deep the derivation may go, which
   references could otherwise make infinite; a value is valid when some depth accepts it.

   With `closed`, an object node whose slot is free also refuses every undeclared key: the reading a
   strict provider asks for.
   */
  predicate Accepts(closed: bool, root: Json, s: Json, v: Json, depth: nat)
    decreases depth, 0
  {
    if depth == 0 then false
    else
      match s
      case Bool(b) => b
      case Obj(m) =>
        && PlainKeywordsHold(m, v)
        && ObjectPartHolds(closed, root, m, v, depth - 1)
        && OtherPartsHold(closed, root, m, v, depth - 1)
      case _ => false
  }

  /** The keywords about an object's keys. */
  predicate ObjectPartHolds(closed: bool, root: Json, m: map<string, Json>, v: Json, depth: nat)
    decreases depth, 2
  {
    v.Obj? ==>
      && DeclaredHold(closed, root, Declared(m), v.fields, depth)
      && (AP in m ==> OthersHold(closed, root, m[AP], Declared(m), v.fields, depth))
      && (closed && NeedsClosing(m) ==> v.fields.Keys <= Declared(m).Keys)
  }

  /** Array items, alternatives and references. */
  predicate OtherPartsHold(closed: bool, root: Json, m: map<string, Json>, v: Json, depth: nat)
    decreases depth, 2
  {
    && (v.Arr? && "items" in m ==> AllHold(closed, root, m["items"], v.items, depth))
    && ("anyOf" in m ==> m["anyOf"].Arr? && SomeHolds(closed, root, m["anyOf"].items, v, depth))
    && ("$ref" in m ==> Resolves(root, m["$ref"]) && Accepts(closed, root, Definition(root, m["$ref"]), v, depth))
  }

  predicate DeclaredHold(closed: bool, root: Json, ps: map<string, Json>, o: map<string, Json>, depth: nat)
    decreases depth, 1
  {
    forall k | k in o && k in ps :: Accepts(closed, root, ps[k], o[k], depth)
  }

  predicate OthersHold(closed: bool, root: Json, s: Json, ps: map<string, Json>, o: map<string, Json>, depth: nat)
    decreases depth, 1
  {
    forall k | k in o && k !in ps :: Accepts(closed, root, s, o[k], depth)
  }

  predicate AllHold(closed: bool, root: Json, s: Json, vs: seq<Json>, depth: nat)
    decreases depth, 1
  {
    forall i | 0 <= i < |vs| :: Accepts(closed, root, s, vs[i], depth)
  }

  predicate SomeHolds(closed: bool, root: Json, ss: seq<Json>, v: Json, depth: nat)
    decreases depth, 1
  {
    exists i | 0 <= i < |ss| :: Accepts(closed, root, ss[i], v, depth)
  }

  ghost predicate Valid(root: Json, s: Json, v: Json) {
    exists depth: nat :: Accepts(false, root, s, v, depth)
  }

  ghost predicate ValidClosed(root: Json, s: Json, v: Json) {
    exists depth: nat :: Accepts(true, root, s, v, depth)
  }
}
