/**
 A JSON object held in memory as a tree of mutable dictionaries, the form
 `json.load` gives the locale updater, and the in-place recursive write of
 `set_nested_value` (scripts/auto-i18n.py, lines 47-57) over it.

 Each object owns its own footprint `Repr`; the footprints of sibling objects
 are disjoint, as they are in a freshly parsed document, so a write below one
 member cannot be observed through another.  `ToJson` reads the tree back as a
 value; the write is proved against `JsonTree.SetPath`.
 */
module JsonHeap {
  import opened JsonTree

  /** A member of an in-memory object: a value that is not an object, or a
      reference to a nested object. */
  datatype Member = Leaf(value: Json) | Child(obj: JsonObject)

  class JsonObject {
    var fields: map<string, Member>
    ghost var Repr: set<object>

    ghost predicate Valid()
      reads this, Repr
      decreases Repr
      ensures Valid() ==> this in Repr
    {
      && this in Repr
      && (forall k | k in fields && fields[k].Leaf? :: !fields[k].value.Obj?)
      && (forall k | k in fields && fields[k].Child? ::
            && fields[k].obj in Repr
            && fields[k].obj.Repr <= Repr
            && this !in fields[k].obj.Repr
            && fields[k].obj.Valid())
      && (forall k, k' | k in fields && k' in fields && k != k' && fields[k].Child? && fields[k'].Child? ::
            fields[k].obj.Repr !! fields[k'].obj.Repr)
    }

    /** The object read back as a JSON value (what `json.dump` writes). */
    function ToJson(): (j: Json)
      requires Valid()
      reads this, Repr
      decreases Repr, 0
      ensures j.Obj? && j.fields.Keys == fields.Keys
    {
      Obj(map k | k in fields :: MemberJson(fields[k]))
    }

    /** The value of one member. */
    static function MemberJson(m: Member): Json
      requires m.Child? ==> m.obj.Valid()
      reads if m.Child? then m.obj.Repr else {}
      decreases if m.Child? then m.obj.Repr else {}, 1
    {
      match m
      case Leaf(v) => v
      case Child(c) => c.ToJson()
    }

    /** A new empty dictionary, `{}`. */
    constructor Empty()
      ensures Valid() && fresh(Repr)
      ensures fields == map[]
      ensures ToJson() == Obj(map[])
    {
      fields := map[];
      Repr := {this};
    }

    /** Binds `k` to `m`, dropping whatever `k` held; the subtree of `m`, if
        any, shares nothing with this object.  `mj` is the value of `m`. */
    method Bind(k: string, m: Member, ghost mj: Json)
      requires Valid()
      requires m.Leaf? ==> !m.value.Obj? && mj == m.value
      requires m.Child? ==> m.obj.Valid() && m.obj.Repr !! Repr && mj == m.obj.ToJson()
      modifies this
      ensures Valid()
      ensures fields == old(fields)[k := m]
      ensures Repr == old(Repr) + (if m.Child? then m.obj.Repr else {})
      ensures ToJson() == Obj(old(ToJson()).fields[k := mj])
    {
      ghost var after := ToJson().fields[k := mj];
      fields, Repr := fields[k := m], Repr + (if m.Child? then m.obj.Repr else {});
      assert Valid();
      forall k' | k' in fields
        ensures MemberJson(fields[k']) == after[k']
      {
        if k' != k && fields[k'].Child? {
          assert old(MemberJson(fields[k'])) == after[k'];
        }
      }
      ReadBack(this, after);
    }

    /** `set_nested_value(self, keys, text)`: walks down `keys`, binding each
        missing key but the last to a new empty object and reusing the objects
        already there, and binds the last key to `text`.  It fails, changing
        nothing, on an empty key list or when a member on the way is not an
        object. */
    method SetNestedValue(keys: seq<string>, text: string) returns (ok: bool)
      requires Valid()
      modifies Repr
      decreases |keys|, 3
      ensures Valid() && fresh(Repr - old(Repr))
      ensures ok <==> SetPath(old(ToJson()), keys, Str(text)).Some?
      ensures ok ==> ToJson() == SetPath(old(ToJson()), keys, Str(text)).value
      ensures !ok ==> Repr == old(Repr) && unchanged(Repr)
      ensures |keys| == 1 ==> fields == old(fields)[keys[0] := Leaf(Str(text))]
      ensures |keys| >= 2 && keys[0] in old(fields) ==> fields == old(fields)
      ensures |keys| >= 2 && keys[0] !in old(fields) ==>
                && keys[0] in fields && fields[keys[0]].Child? && fresh(fields[keys[0]].obj)
                && fields == old(fields)[keys[0] := fields[keys[0]]]
    {
      if |keys| == 0 {
        return false;
      }
      if |keys| == 1 {
        Bind(keys[0], Leaf(Str(text)), Str(text));
        return true;
      }
      ok := Walk(keys, text);
    }

    /** The walk for two keys or more: the first key is bound to a new empty
        object when it is missing, and the write goes on inside the object it
        refers to; a member that is not an object stops it. */
    method Walk(keys: seq<string>, text: string) returns (ok: bool)
      requires Valid() && |keys| >= 2
      modifies Repr
      decreases |keys|, 2
      ensures Valid() && fresh(Repr - old(Repr))
      ensures ok <==> SetPath(old(ToJson()), keys, Str(text)).Some?
      ensures ok ==> ToJson() == SetPath(old(ToJson()), keys, Str(text)).value
      ensures !ok ==> Repr == old(Repr) && unchanged(Repr)
      ensures keys[0] in old(fields) ==> fields == old(fields)
      ensures keys[0] !in old(fields) ==>
                && keys[0] in fields && fields[keys[0]].Child? && fresh(fields[keys[0]].obj)
                && fields == old(fields)[keys[0] := fields[keys[0]]]
    {
      if keys[0] !in fields {
        Vivify(keys, text);
      }
      if fields[keys[0]].Leaf? {
        return false;
      }
      ok := Step(keys, text);
    }

    /** Binds the missing first key to a new empty object.  The write that
        follows then has the same outcome as on the object before, and it
        cannot fail, since an empty object blocks no walk. */
    method Vivify(keys: seq<string>, text: string)
      requires Valid() && |keys| >= 2 && keys[0] !in fields
      modifies this
      ensures Valid() && fresh(Repr - old(Repr))
      ensures keys[0] in fields && fields[keys[0]].Child? && fresh(fields[keys[0]].obj)
      ensures fields == old(fields)[keys[0] := fields[keys[0]]]
      ensures ToJson() == Obj(old(ToJson()).fields[keys[0] := Obj(map[])])
      ensures SetPath(ToJson(), keys, Str(text)) == SetPath(old(ToJson()), keys, Str(text))
      ensures SetPath(ToJson(), keys, Str(text)).Some?
    {
      ghost var before := ToJson();
      var c := new JsonObject.Empty();
      Bind(keys[0], Child(c), Obj(map[]));
      SetFailsIffBlocked(Obj(map[]), keys[1..], Str(text));
      EmptyNeverBlocked(keys[1..]);
      ghost var inner := SetPath(Obj(map[]), keys[1..], Str(text)).value;
      assert ToJson().fields[keys[0] := inner] == before.fields[keys[0] := inner];
    }

    /** The write inside the object that the first key already refers to. */
    method Step(keys: seq<string>, text: string) returns (ok: bool)
      requires Valid() && |keys| >= 2 && keys[0] in fields && fields[keys[0]].Child?
      modifies Repr
      decreases |keys|, 1
      ensures Valid() && fresh(Repr - old(Repr))
      ensures fields == old(fields)
      ensures ok <==> SetPath(old(ToJson()), keys, Str(text)).Some?
      ensures ok ==> ToJson() == SetPath(old(ToJson()), keys, Str(text)).value
      ensures !ok ==> Repr == old(Repr) && unchanged(Repr)
    {
      var key := keys[0];
      ghost var before := ToJson();
      assert before.fields[key] == MemberJson(fields[key]) == fields[key].obj.ToJson();
      ok := Descend(key, keys[1..], text);
      if ok {
        ReadBack(this, before.fields[key := fields[key].obj.ToJson()]);
      }
    }

    /** The recursive step: writes `text` at `rest` inside the object that
        `key` refers to, and leaves every other member alone. */
    method Descend(key: string, rest: seq<string>, text: string) returns (ok: bool)
      requires Valid() && key in fields && fields[key].Child?
      modifies Repr
      decreases |rest|, 4
      ensures Valid() && fresh(Repr - old(Repr))
      ensures fields == old(fields)
      ensures ok <==> SetPath(old(fields[key].obj.ToJson()), rest, Str(text)).Some?
      ensures ok ==> fields[key].obj.ToJson() == SetPath(old(fields[key].obj.ToJson()), rest, Str(text)).value
      ensures forall k' | k' in fields && k' != key :: MemberJson(fields[k']) == old(MemberJson(fields[k']))
      ensures !ok ==> Repr == old(Repr) && unchanged(Repr)
    {
      var c := fields[key].obj;
      ok := c.SetNestedValue(rest, text);
      Repr := Repr + c.Repr;
      assert this !in c.Repr;
      forall k' | k' in fields && k' != key && fields[k'].Child?
        ensures fields[k'].obj.Repr == old(fields[k'].obj.Repr)
        ensures fields[k'].obj.Valid() && fields[k'].obj.Repr !! c.Repr
        ensures MemberJson(fields[k']) == old(MemberJson(fields[k']))
      {
      }
      assert Valid();
    }

    /** An object whose members read back as the values in `m` reads back
        as `m`. */
    static lemma ReadBack(o: JsonObject, m: map<string, Json>)
      requires o.Valid() && m.Keys == o.fields.Keys
      requires forall k | k in o.fields :: MemberJson(o.fields[k]) == m[k]
      ensures o.ToJson() == Obj(m)
    {
    }

    /** A fresh in-memory copy of the parsed object `j`. */
    static method Load(j: Json) returns (o: JsonObject)
      requires j.Obj?
      ensures o.Valid() && fresh(o.Repr)
      ensures o.ToJson() == j
      decreases j, 0
    {
      o := new JsonObject.Empty();
      var todo := j.fields.Keys;
      ghost var done: map<string, Json> := map[];
      while todo != {}
        invariant todo <= j.fields.Keys
        invariant o.Valid() && fresh(o.Repr)
        invariant done.Keys == j.fields.Keys - todo
        invariant forall k | k in done :: done[k] == j.fields[k]
        invariant o.ToJson() == Obj(done)
        decreases todo
      {
        var k :| k in todo;
        o.Put(k, j.fields[k]);
        done := done[k := j.fields[k]];
        todo := todo - {k};
      }
      assert done == j.fields;
    }

    /** Binds `k` to a fresh in-memory copy of the parsed value `v`. */
    method Put(k: string, v: Json)
      requires Valid()
      modifies this
      decreases v, 1
      ensures Valid() && fresh(Repr - old(Repr))
      ensures ToJson() == Obj(old(ToJson()).fields[k := v])
    {
      if v.Obj? {
        var c := Load(v);
        Bind(k, Child(c), v);
      } else {
        Bind(k, Leaf(v), v);
      }
    }
  }
}
