/**
 The helper as it runs: a recursion that writes into the dicts of a schema while walking it.  Dicts
 are objects; the tree they form is described by a value of `Json` and by the footprint of each node.
 */
module SchemaInPlace {
  import opened SchemaHardening

  class Dict {
    var fields: map<string, Node>

    constructor (fields: map<string, Node>)
      ensures this.fields == fields
    {
      this.fields := fields;
    }
  }

  /** A Python value: a dict is a reference, everything else is held by value. */
  datatype Node = Scalar(j: Json) | List(items: seq<Node>) | Ref(dict: Dict)

  /** For each place in the tree, the dicts at or below it. */
  datatype Shape = Shape(dicts: set<Dict>, items: seq<Shape>, kids: map<string, Shape>)

  const NO_DICTS := Shape({}, [], map[])

  ghost predicate ItemsApart(items: seq<Shape>, within: set<Dict>) {
    && (forall i | 0 <= i < |items| :: items[i].dicts <= within)
    && (forall i, k | 0 <= i < k < |items| :: items[i].dicts !! items[k].dicts)
  }

  ghost predicate KidsApart(dict: Dict, kids: map<string, Shape>, within: set<Dict>) {
    && dict in within
    && (forall k | k in kids :: kids[k].dicts <= within - {dict})
    && (forall k, l | k in kids && l in kids && k != l :: kids[k].dicts !! kids[l].dicts)
  }

  /** The heap below `v` spells out the JSON value `j` as a tree: no dict stands in two places. */
  ghost predicate Holds(v: Node, j: Json, f: Shape)
    reads f.dicts
    decreases j
  {
    match j
    case Obj(m) =>
      && v.Ref? && KidsApart(v.dict, f.kids, f.dicts)
      && v.dict.fields.Keys == m.Keys == f.kids.Keys
      && forall k | k in m :: Holds(v.dict.fields[k], m[k], f.kids[k])
    case Arr(items) =>
      && v.List? && ItemsApart(f.items, f.dicts) && |v.items| == |items| == |f.items|
      && forall i | 0 <= i < |items| :: Holds(v.items[i], items[i], f.items[i])
    case _ => v == Scalar(j)
  }

  /** The slot is tested on the dict as the source tests it. */
  predicate FreeSlot(fields: map<string, Node>) {
    && (("type" in fields && fields["type"] == Scalar(Str("object"))) || "properties" in fields)
    && !(AP in fields && fields[AP].Ref?)
  }

  lemma FreeSlotIsNeedsClosing(v: Node, m: map<string, Json>, f: Shape)
    requires Holds(v, Obj(m), f)
    ensures FreeSlot(v.dict.fields) <==> NeedsClosing(m)
  {
    var fields := v.dict.fields;
    if "type" in m {
      assert Holds(fields["type"], m["type"], f.kids["type"]);
      assert fields["type"] == Scalar(Str("object")) <==> m["type"] == Str("object");
    }
    if AP in m {
      assert Holds(fields[AP], m[AP], f.kids[AP]);
      assert fields[AP].Ref? <==> m[AP].Obj?;
    }
  }

  /** Running the helper turns the tree into its hardened form, in place. */
  method HardenInPlace(v: Node, ghost j: Json, ghost f: Shape) returns (ghost f': Shape)
    requires Holds(v, j, f)
    modifies f.dicts
    ensures Holds(v, Harden(j), f') && f'.dicts == f.dicts
    decreases j, 1
  {
    match v {
      case Scalar(_) =>
        f' := f;
      case List(items) =>
        ghost var shapes := HardenItems(items, j.items, f.items, f.dicts, j);
        f' := Shape(f.dicts, shapes, map[]);
      case Ref(dict) =>
        f' := HardenDict(dict, j.fields, f, j);
    }
  }

  method HardenDict(dict: Dict, ghost m: map<string, Json>, ghost f: Shape, ghost bound: Json) returns (ghost f': Shape)
    requires bound == Obj(m) && Holds(Ref(dict), bound, f)
    modifies f.dicts
    ensures Holds(Ref(dict), Harden(bound), f') && f'.dicts == f.dicts
    decreases bound, 0, 3
  {
    ghost var kids, m' := CloseFreeSlot(dict, m, f);
    kids := HardenValues(dict, m', kids, f.dicts, bound);
    f' := Shape(f.dicts, [], kids);
    HardenValuesIsHarden(m);
  }

  ghost function Closed(m: map<string, Json>): map<string, Json> {
    if NeedsClosing(m) then m[AP := Bool(false)] else m
  }

  lemma HardenValuesIsHarden(m: map<string, Json>)
    ensures Harden(Obj(m)).fields.Keys == Closed(m).Keys
    ensures forall k | k in Closed(m) :: Harden(Obj(m)).fields[k] == Harden(Closed(m)[k])
  {
  }

  /** The one write of the helper. */
  method CloseFreeSlot(dict: Dict, ghost m: map<string, Json>, ghost f: Shape)
    returns (ghost kids: map<string, Shape>, ghost m': map<string, Json>)
    requires Holds(Ref(dict), Obj(m), f)
    modifies dict
    ensures m' == Closed(m) && PartlyHardened(dict, m', kids, f.dicts, m'.Keys)
    ensures forall k | k in m' && !dict.fields[k].Scalar? :: k in m && m'[k] == m[k]
  {
    kids, m' := f.kids, m;
    FreeSlotIsNeedsClosing(Ref(dict), m, f);
    if FreeSlot(dict.fields) {
      dict.fields := dict.fields[AP := Scalar(Bool(false))];
      kids, m' := kids[AP := NO_DICTS], m[AP := Bool(false)];
    }
  }

  method HardenItems(items: seq<Node>, ghost js: seq<Json>, ghost shapes: seq<Shape>, ghost within: set<Dict>,
                     ghost bound: Json)
    returns (ghost shapes': seq<Shape>)
    requires ItemsPartlyHardened(items, js, shapes, within, 0)
    requires forall i | 0 <= i < |js| :: bound decreases to js[i]
    modifies within
    ensures ItemsPartlyHardened(items, js, shapes', within, |items|)
    decreases bound, 0, 1
  {
    shapes' := shapes;
    for n := 0 to |items|
      invariant ItemsPartlyHardened(items, js, shapes', within, n)
    {
      shapes' := HardenItem(items, n, js, shapes', within, bound);
    }
  }

  ghost predicate ItemsPartlyHardened(items: seq<Node>, js: seq<Json>, shapes: seq<Shape>, within: set<Dict>, n: nat)
    reads within
  {
    && |items| == |js| == |shapes| && ItemsApart(shapes, within) && n <= |items|
    && (forall i | 0 <= i < n :: Holds(items[i], Harden(js[i]), shapes[i]))
    && (forall i | n <= i < |items| :: Holds(items[i], js[i], shapes[i]))
  }

  method HardenItem(items: seq<Node>, n: nat, ghost js: seq<Json>, ghost shapes: seq<Shape>, ghost within: set<Dict>,
                    ghost bound: Json)
    returns (ghost shapes': seq<Shape>)
    requires ItemsPartlyHardened(items, js, shapes, within, n) && n < |items|
    requires bound decreases to js[n]
    modifies shapes[n].dicts
    ensures ItemsPartlyHardened(items, js, shapes', within, n + 1)
    decreases bound, 0, 0
  {
    ghost var s := HardenInPlace(items[n], js[n], shapes[n]);
    shapes' := shapes[n := s];
  }

  method HardenValues(dict: Dict, ghost m: map<string, Json>, ghost kids: map<string, Shape>, ghost within: set<Dict>,
                      ghost bound: Json)
    returns (ghost kids': map<string, Shape>)
    requires PartlyHardened(dict, m, kids, within, m.Keys)
    requires forall k | k in m && !dict.fields[k].Scalar? :: bound decreases to m[k]
    modifies within - {dict}
    ensures PartlyHardened(dict, m, kids', within, {}) && dict.fields == old(dict.fields)
    decreases bound, 0, 1
  {
    kids' := kids;
    var left := dict.fields.Keys;
    while left != {}
      invariant PartlyHardened(dict, m, kids', within, left) && dict.fields == old(dict.fields)
      decreases left
    {
      var k :| k in left;
      kids' := HardenValue(dict, k, m, kids', within, left, bound);
      left := left - {k};
    }
  }

  /** The values still to be visited are as they were; the others are hardened. */
  ghost predicate PartlyHardened(dict: Dict, m: map<string, Json>, kids: map<string, Shape>, within: set<Dict>,
                                 left: set<string>)
    reads dict, within
  {
    && dict.fields.Keys == m.Keys == kids.Keys && KidsApart(dict, kids, within) && left <= m.Keys
    && (forall k | k in left :: Holds(dict.fields[k], m[k], kids[k]))
    && (forall k | k in m && k !in left :: Holds(dict.fields[k], Harden(m[k]), kids[k]))
  }

  method HardenValue(dict: Dict, k: string, ghost m: map<string, Json>, ghost kids: map<string, Shape>,
                     ghost within: set<Dict>, ghost left: set<string>, ghost bound: Json)
    returns (ghost kids': map<string, Shape>)
    requires PartlyHardened(dict, m, kids, within, left) && k in left
    requires !dict.fields[k].Scalar? ==> (bound decreases to m[k])
    modifies kids[k].dicts
    ensures PartlyHardened(dict, m, kids', within, left - {k}) && dict.fields == old(dict.fields)
    decreases bound, 0, 0
  {
    var value := dict.fields[k];
    assert Holds(value, m[k], kids[k]);
    kids' := kids;
    if !value.Scalar? {  // a scalar has nothing to walk
      ghost var s := HardenInPlace(value, m[k], kids[k]);
      kids' := kids[k := s];
    }
  }
}
