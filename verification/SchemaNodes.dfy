/**
 Node by node, in the words of graphiti/patch-strict-schema.py: a dict whose `type` is "object" or that has
 `properties` is closed unless its `additionalProperties` is a dict, and any other dict keeps its keys.
 */
module SchemaNodes {
  import opened Text
  import opened SchemaHardening

  /** One step down a JSON tree. */
  datatype Step = Field(name: string) | Item(index: nat)

  function At(j: Json, path: seq<Step>): Option<Json>
    decreases path
  {
    if path == [] then Some(j)
    else
      match path[0]
      case Field(name) => if j.Obj? && name in j.fields then At(j.fields[name], path[1..]) else None
      case Item(i) => if j.Arr? && i < |j.items| then At(j.items[i], path[1..]) else None
  }

  /** One dict: what happens to its slot, to its keys and to its other values. */
  lemma DictHardened(m: map<string, Json>)
    ensures var h := Harden(Obj(m)).fields;
            && ((("type" in m && m["type"] == Str("object")) || "properties" in m) && !(AP in m && m[AP].Obj?) ==>
                  h.Keys == m.Keys + {AP} && h[AP] == Bool(false))
            && (!(("type" in m && m["type"] == Str("object")) || "properties" in m) || (AP in m && m[AP].Obj?) ==>
                  h.Keys == m.Keys && (AP in m ==> h[AP] == Harden(m[AP])))
            && forall k | k in m && k != AP :: k in h && h[k] == Harden(m[k])
  {
  }

  lemma NothingBelow(path: seq<Step>)
    ensures At(Bool(false), path).Some? ==> At(Bool(false), path) == Some(Bool(false))
  {
  }

  /** A dict of the hardened tree is the hardened form of the dict in that place. */
  lemma {:induction false} DictCameFrom(j: Json, path: seq<Step>)
    requires At(Harden(j), path).Some? && At(Harden(j), path).value.Obj?
    ensures At(j, path).Some? && At(j, path).value.Obj? && At(Harden(j), path).value == Harden(At(j, path).value)
    decreases path
  {
    if path != [] {
      match path[0]
      case Field(name) =>
        NothingBelow(path[1..]);
        DictCameFrom(j.fields[name], path[1..]);
      case Item(i) =>
        DictCameFrom(j.items[i], path[1..]);
    }
  }

  /** And every dict of the schema is still there, but for those in a list that stands in a slot. */
  lemma {:induction false} DictStays(j: Json, path: seq<Step>)
    requires At(j, path).Some? && At(j, path).value.Obj?
    requires forall i | 0 <= i < |path| && path[i] == Field(AP) ::
               At(j, path[..i + 1]).Some? && At(j, path[..i + 1]).value.Obj?
    ensures At(Harden(j), path) == Some(Harden(At(j, path).value))
    decreases path
  {
    if path != [] {
      var rest := path[1..];
      assert path[..1] == [path[0]];
      match path[0]
      case Field(name) =>
        var child := j.fields[name];
        assert name == AP ==> child.Obj? by {
          if name == AP {
            assert At(j, path[..0 + 1]).value.Obj?;
            assert At(child, path[..1][1..]) == Some(child);
          }
        }
        SlotsBelow(j, child, path);
        DictStays(child, rest);
        assert Harden(j).fields[name] == Harden(child);
      case Item(i) =>
        SlotsBelow(j, j.items[i], path);
        DictStays(j.items[i], rest);
        assert Harden(j).items[i] == Harden(j.items[i]);
    }
  }

  lemma SlotsBelow(j: Json, child: Json, path: seq<Step>)
    requires path != [] && forall rest: seq<Step> :: At(j, [path[0]] + rest) == At(child, rest)
    requires forall i | 0 <= i < |path| && path[i] == Field(AP) ::
               At(j, path[..i + 1]).Some? && At(j, path[..i + 1]).value.Obj?
    ensures forall i | 0 <= i < |path[1..]| && path[1..][i] == Field(AP) ::
              At(child, path[1..][..i + 1]).Some? && At(child, path[1..][..i + 1]).value.Obj?
  {
    forall i | 0 <= i < |path[1..]| && path[1..][i] == Field(AP)
      ensures At(child, path[1..][..i + 1]).Some? && At(child, path[1..][..i + 1]).value.Obj?
    {
      assert path[i + 1] == Field(AP) && path[..i + 2] == [path[0]] + path[1..][..i + 1];
    }
  }

  /**
   At every dict of the tree: with type "object" or with properties it is closed, unless its slot holds a dict;
   any other dict keeps its keys, and its slot is only hardened inside.
   */
  lemma EveryDict(j: Json, path: seq<Step>)
    requires At(Harden(j), path).Some? && At(Harden(j), path).value.Obj?
    ensures At(j, path).Some? && At(j, path).value.Obj?
    ensures var m, h := At(j, path).value.fields, At(Harden(j), path).value.fields;
            && ((("type" in m && m["type"] == Str("object")) || "properties" in m) && !(AP in m && m[AP].Obj?) ==>
                  h.Keys == m.Keys + {AP} && h[AP] == Bool(false))
            && (!(("type" in m && m["type"] == Str("object")) || "properties" in m) || (AP in m && m[AP].Obj?) ==>
                  h.Keys == m.Keys && (AP in m ==> h[AP] == Harden(m[AP])))
            && forall k | k in m && k != AP :: k in h && h[k] == Harden(m[k])
  {
    DictCameFrom(j, path);
    DictHardened(At(j, path).value.fields);
  }

  /** A slot that is false admits only the keys of the property table. */
  lemma FalseSlotRefuses(root: Json, h: map<string, Json>, o: map<string, Json>, depth: nat)
    requires AP in h && h[AP] == Bool(false) && Accepts(false, root, Obj(h), Obj(o), depth)
    ensures forall k | k in o :: "properties" in h && h["properties"].Obj? && k in h["properties"].fields
  {
    assert ObjectPartHolds(false, root, h, Obj(o), depth - 1);
    assert OthersHold(false, root, Bool(false), Declared(h), o, depth - 1);
    forall k | k in o ensures !Accepts(false, root, Bool(false), o[k], depth - 1) {
    }
  }

  /**
   What the patch is for, at every such dict of the tree: an object valid under it after hardening has only keys
   of its hardened property table.
   */
  lemma ObjectDictRefusesOtherKeys(j: Json, path: seq<Step>, root: Json, o: map<string, Json>)
    requires At(Harden(j), path).Some? && At(Harden(j), path).value.Obj?
    requires At(j, path).Some? && At(j, path).value.Obj?
    requires var m := At(j, path).value.fields;
             (("type" in m && m["type"] == Str("object")) || "properties" in m) && !(AP in m && m[AP].Obj?)
    requires Valid(root, At(Harden(j), path).value, Obj(o))
    ensures var h := At(Harden(j), path).value.fields;
            forall k | k in o :: "properties" in h && h["properties"].Obj? && k in h["properties"].fields
  {
    EveryDict(j, path);
    var depth: nat :| Accepts(false, root, At(Harden(j), path).value, Obj(o), depth);
    FalseSlotRefuses(root, At(Harden(j), path).value.fields, o, depth);
  }
}
