/**
 A JSON document as a value, and the two path operations that the locale
 updater relies on: reading the value at a key path, and writing a value at a
 key path the way `set_nested_value` (scripts/auto-i18n.py) does.  `SetPath` is
 the reference definition that the in-place implementation in JsonHeap is
 proved against; the lemmas below state what a successful write promises.
 */
module JsonTree {

  datatype Option<+T> = None | Some(value: T)

  /** A parsed JSON value.  Numbers are kept as integers: the locale files hold
      strings, and no operation here inspects a number. */
  datatype Json =
    | Null
    | Bool(b: bool)
    | Num(n: int)
    | Str(s: string)
    | Arr(items: seq<Json>)
    | Obj(fields: map<string, Json>)

  /** The value reached by following `keys` from `j`, if every step lands on an
      object that has the next key. */
  function Get(j: Json, keys: seq<string>): Option<Json>
    decreases |keys|
  {
    if keys == [] then Some(j)
    else if j.Obj? && keys[0] in j.fields then Get(j.fields[keys[0]], keys[1..])
    else None
  }

  /** Nested single-member objects leading along `keys` to `v`: what a write
      produces below the first missing key. */
  function Nest(keys: seq<string>, v: Json): (r: Json)
    ensures Get(r, keys) == Some(v)
    decreases |keys|
  {
    if keys == [] then v else Obj(map[keys[0] := Nest(keys[1..], v)])
  }

  /** Writing `v` at `keys` into `j`.  `None` is the failure of the source: an
      empty key list (an index error) or a value that is not an object where
      the walk has to index into it (a type error).  On the way down a missing
      key is bound to a fresh empty object; the last key is overwritten
      whatever it held before. */
  function SetPath(j: Json, keys: seq<string>, v: Json): (r: Option<Json>)
    ensures r.Some? ==> keys != [] && j.Obj? && r.value.Obj?
    ensures r.Some? ==> r.value.fields.Keys == j.fields.Keys + {keys[0]}
    decreases |keys|
  {
    if keys == [] || !j.Obj? then None
    else if |keys| == 1 then Some(Obj(j.fields[keys[0] := v]))
    else
      var child := if keys[0] in j.fields then j.fields[keys[0]] else Obj(map[]);
      match SetPath(child, keys[1..], v)
      case None => None
      case Some(c) => Some(Obj(j.fields[keys[0] := c]))
  }

  /** Some proper prefix of `keys` (the root included) leads to a value that is
      not an object, so the walk cannot index into it. */
  ghost predicate Blocked(j: Json, keys: seq<string>)
  {
    exists i :: 0 <= i < |keys| && Get(j, keys[..i]).Some? && !Get(j, keys[..i]).value.Obj?
  }

  /** The two paths part ways at some position both of them have. */
  ghost predicate Diverge(p: seq<string>, q: seq<string>)
  {
    exists i :: 0 <= i < |p| && i < |q| && p[i] != q[i]
  }

  /** After a successful write, the path leads to exactly the written value. */
  lemma {:induction false} SetThenGet(j: Json, keys: seq<string>, v: Json)
    requires SetPath(j, keys, v).Some?
    ensures Get(SetPath(j, keys, v).value, keys) == Some(v)
    decreases |keys|
  {
    if |keys| > 1 {
      var child := if keys[0] in j.fields then j.fields[keys[0]] else Obj(map[]);
      SetThenGet(child, keys[1..], v);
    }
  }

  /** A successful write keeps the root an object and adds at most the first
      key to it; every other member of the root keeps its value. */
  lemma SetKeepsRootMembers(j: Json, keys: seq<string>, v: Json)
    requires SetPath(j, keys, v).Some?
    ensures j.Obj? && |keys| >= 1
    ensures SetPath(j, keys, v).value.Obj?
    ensures SetPath(j, keys, v).value.fields.Keys == j.fields.Keys + {keys[0]}
    ensures forall k | k in j.fields && k != keys[0] :: SetPath(j, keys, v).value.fields[k] == j.fields[k]
  {
  }

  /** Every path that parts ways with the written one reads the same before
      and after the write: siblings at every level are left alone, and
      objects created on the way hold nothing but the written path. */
  lemma {:induction false} SetLeavesOtherPaths(j: Json, keys: seq<string>, v: Json, p: seq<string>)
    requires SetPath(j, keys, v).Some?
    requires Diverge(p, keys)
    ensures Get(SetPath(j, keys, v).value, p) == Get(j, p)
    decreases |keys|
  {
    var j' := SetPath(j, keys, v).value;
    if p[0] != keys[0] {
      assert p != [];
    } else {
      var i :| 0 <= i < |p| && i < |keys| && p[i] != keys[i];
      assert i >= 1 && |keys| > 1;
      assert Diverge(p[1..], keys[1..]) by {
        assert p[1..][i - 1] != keys[1..][i - 1];
      }
      var child := if keys[0] in j.fields then j.fields[keys[0]] else Obj(map[]);
      SetLeavesOtherPaths(child, keys[1..], v, p[1..]);
      if keys[0] !in j.fields {
        EmptyHasNoPath(p[1..]);
      }
    }
  }

  /** An empty object holds no non-empty path. */
  lemma EmptyHasNoPath(p: seq<string>)
    requires p != []
    ensures Get(Obj(map[]), p) == None
  {
  }

  /** Below a missing key the write builds the nested objects itself: the
      result is the old object with the first key bound to `Nest`. */
  lemma {:induction false} SetCreatesMissing(j: Json, keys: seq<string>, v: Json)
    requires j.Obj? && |keys| >= 1 && keys[0] !in j.fields
    ensures SetPath(j, keys, v) == Some(Obj(j.fields[keys[0] := Nest(keys[1..], v)]))
    decreases |keys|
  {
    if |keys| > 1 {
      SetCreatesMissing(Obj(map[]), keys[1..], v);
    }
  }

  /** Writing the same value at the same path a second time changes nothing. */
  lemma {:induction false} SetIdempotent(j: Json, keys: seq<string>, v: Json)
    requires SetPath(j, keys, v).Some?
    ensures SetPath(SetPath(j, keys, v).value, keys, v) == SetPath(j, keys, v)
    decreases |keys|
  {
    var j' := SetPath(j, keys, v).value;
    if |keys| > 1 {
      var child := if keys[0] in j.fields then j.fields[keys[0]] else Obj(map[]);
      var c := SetPath(child, keys[1..], v).value;
      SetIdempotent(child, keys[1..], v);
      assert j'.fields[keys[0]] == c;
      assert j'.fields[keys[0] := c] == j'.fields;
    } else {
      assert j'.fields[keys[0] := v] == j'.fields;
    }
  }

  /** A write fails exactly when the key list is empty or a value that is not
      an object lies on the path before its last key. */
  lemma {:induction false} SetFailsIffBlocked(j: Json, keys: seq<string>, v: Json)
    ensures SetPath(j, keys, v).None? <==> keys == [] || Blocked(j, keys)
    decreases |keys|
  {
    if keys == [] {
    } else if !j.Obj? {
      assert Get(j, keys[..0]) == Some(j);
    } else if |keys| == 1 {
      NotBlockedSingle(j, keys);
    } else {
      var child := if keys[0] in j.fields then j.fields[keys[0]] else Obj(map[]);
      SetFailsIffBlocked(child, keys[1..], v);
      if keys[0] in j.fields {
        BlockedStep(j, keys);
      } else {
        EmptyNeverBlocked(keys[1..]);
        MissingNeverBlocked(j, keys);
      }
    }
  }

  /** One key into an object: no proper prefix can be blocked. */
  lemma NotBlockedSingle(j: Json, keys: seq<string>)
    requires j.Obj? && |keys| == 1
    ensures !Blocked(j, keys)
  {
    assert keys[..0] == [];
  }

  /** Being blocked below an existing member is being blocked in that member. */
  lemma BlockedStep(j: Json, keys: seq<string>)
    requires j.Obj? && |keys| > 1 && keys[0] in j.fields
    ensures Blocked(j, keys) <==> Blocked(j.fields[keys[0]], keys[1..])
  {
    var child := j.fields[keys[0]];
    forall i | 1 <= i <= |keys|
      ensures Get(j, keys[..i]) == Get(child, keys[1..][..i - 1])
    {
      assert keys[..i][0] == keys[0];
      assert keys[..i][1..] == keys[1..][..i - 1];
    }
    if Blocked(j, keys) {
      var i :| 0 <= i < |keys| && Get(j, keys[..i]).Some? && !Get(j, keys[..i]).value.Obj?;
      assert i != 0;
      assert Get(child, keys[1..][..i - 1]) == Get(j, keys[..i]);
    }
    if Blocked(child, keys[1..]) {
      var i :| 0 <= i < |keys[1..]| && Get(child, keys[1..][..i]).Some? && !Get(child, keys[1..][..i]).value.Obj?;
      assert Get(j, keys[..i + 1]) == Get(child, keys[1..][..i]);
    }
  }

  /** An empty object never blocks a walk. */
  lemma EmptyNeverBlocked(keys: seq<string>)
    ensures !Blocked(Obj(map[]), keys)
  {
    if Blocked(Obj(map[]), keys) {
      var i :| 0 <= i < |keys| && Get(Obj(map[]), keys[..i]).Some? && !Get(Obj(map[]), keys[..i]).value.Obj?;
      if i > 0 {
        EmptyHasNoPath(keys[..i]);
      }
    }
  }

  /** A walk into an object that lacks the first key is never blocked. */
  lemma MissingNeverBlocked(j: Json, keys: seq<string>)
    requires j.Obj? && |keys| > 1 && keys[0] !in j.fields
    ensures !Blocked(j, keys)
  {
    forall i | 0 < i < |keys|
      ensures Get(j, keys[..i]) == None
    {
      assert keys[..i][0] == keys[0];
    }
  }
}
