/** Dot-path lookup in a translation dictionary: `recursiveGet`, `get` and
    `has`. The code is the same in both generations of the utilities. */
module KeyPath {
  import opened Base
  import opened Strings
  import opened JsonValues

  /** `recursiveGet(object, keys, index)` on the keys from `index` on: read
      one segment, and go on only while the member read is of type
      `object`. Reading a member of `null` (which `typeof` calls an object)
      throws. */
  function Walk(obj: Json, keys: seq<string>): Js<Option<Json>>
    requires |keys| >= 1
    decreases |keys|
  {
    if obj.JNull? then Thrown
    else
      var m := Member(obj, keys[0]);
      if |keys| == 1 then Ok(m)
      else if m.Some? && IsObjectType(m.value) then Walk(m.value, keys[1..])
      else Ok(None)
  }

  /** `get(object, key)`. */
  function Get(obj: Json, key: string): Js<Option<Json>> {
    Walk(obj, Split(key, '.'))
  }

  /** `has(object, key)`: the lookup is not `undefined`. On a `null`
      dictionary it throws; a key without a dot is present in an object
      exactly when the object has that member, whatever its value. */
  function Has(obj: Json, key: string): (r: Js<bool>)
    ensures obj.JNull? ==> r == Thrown
    ensures '.' !in key && obj.JObj? ==> r == Ok(key in obj.members)
    ensures '.' !in key && !obj.JNull? ==> r == Ok(Member(obj, key).Some?)
    ensures r.Thrown? <==> Get(obj, key).Thrown?
    ensures r == Ok(true) <==> Get(obj, key).Ok? && Get(obj, key).value.Some?
  {
    GetSegment(obj, key);
    match Get(obj, key)
    case Thrown => Thrown
    case Ok(v) => Ok(v.Some?)
  }

  /** Reading one more segment `p` from what a lookup produced. */
  function Descend(found: Js<Option<Json>>, p: string): Js<Option<Json>> {
    match found
    case Thrown => Thrown
    case Ok(None) => Ok(None)
    case Ok(Some(w)) =>
      if !IsObjectType(w) then Ok(None)
      else if w.JNull? then Thrown
      else Ok(Member(w, p))
  }

  /** Walking one segment further extends the walk by one Descend step. */
  lemma {:induction false} WalkAppend(obj: Json, keys: seq<string>, p: string)
    requires |keys| >= 1
    ensures Walk(obj, keys + [p]) == Descend(Walk(obj, keys), p)
    decreases |keys|
  {
    var ks := keys + [p];
    assert ks[0] == keys[0];
    if !obj.JNull? && |keys| > 1 {
      var m := Member(obj, keys[0]);
      if m.Some? && IsObjectType(m.value) {
        assert ks[1..] == keys[1..] + [p];
        WalkAppend(m.value, keys[1..], p);
      }
    }
  }

  /** Looking up `key.p` reads member `p` of what `key` resolves to, and is
      `undefined` as soon as something on the way is not an object. */
  lemma GetMember(obj: Json, key: string, p: string)
    requires '.' !in p
    ensures Get(obj, key + "." + p) == Descend(Get(obj, key), p)
  {
    SplitAppend(key, '.', p);
    WalkAppend(obj, Split(key, '.'), p);
  }

  /** A key without a dot is one property access. */
  lemma GetSegment(obj: Json, key: string)
    ensures '.' !in key ==> Get(obj, key) == if obj.JNull? then Thrown else Ok(Member(obj, key))
  {
    if '.' !in key {
      SplitNoSeparator(key, '.');
    }
  }

  /** The dictionary that holds `v` under the path `path`. */
  function Nest(path: seq<string>, v: Json): (r: Json)
    requires |path| >= 1
    ensures r.JObj?
    decreases |path|
  {
    if |path| == 1 then JObj(map[path[0] := v])
    else JObj(map[path[0] := Nest(path[1..], v)])
  }

  /** Walking a nested dictionary's own path finds what it was built around. */
  lemma {:induction false} WalkNest(path: seq<string>, v: Json)
    requires |path| >= 1
    ensures Walk(Nest(path, v), path) == Ok(Some(v))
    decreases |path|
  {
    if |path| > 1 {
      WalkNest(path[1..], v);
    }
  }

  /** Round trip: a value stored under the dot-joined path of dot-free
      segments is found by `get` at that path. */
  lemma GetNest(path: seq<string>, v: Json)
    requires |path| >= 1
    requires forall i :: 0 <= i < |path| ==> '.' !in path[i]
    ensures Get(Nest(path, v), Join(path, '.')) == Ok(Some(v))
    ensures Has(Nest(path, v), Join(path, '.')) == Ok(true)
  {
    SplitJoin(path, '.');
    WalkNest(path, v);
  }

  /** An empty string is a present value: `has` does not test truthiness. */
  lemma EmptyStringIsPresent(obj: Json, key: string)
    requires Get(obj, key) == Ok(Some(JStr("")))
    ensures Has(obj, key) == Ok(true)
  {
  }

  /** A two-segment lookup reads one member and then, through an object,
      a second one. */
  lemma GetTwoSegments(obj: Json, a: string, b: string)
    requires '.' !in a && '.' !in b
    ensures Get(obj, a + "." + b) == Descend(if obj.JNull? then Thrown else Ok(Member(obj, a)), b)
  {
    GetMember(obj, a, b);
    GetSegment(obj, a);
  }

  /** `a.b` in a two-level dictionary finds what is stored under `b` inside
      `a`. */
  lemma GetTwoLevels(a: string, b: string, v: Json)
    requires '.' !in a && '.' !in b
    ensures Get(JObj(map[a := JObj(map[b := v])]), a + "." + b) == Ok(Some(v))
  {
    GetTwoSegments(JObj(map[a := JObj(map[b := v])]), a, b);
  }

  /** `a.c` in a two-level dictionary whose inner object has only `b` is
      `undefined` when `c` is not `b`. */
  lemma GetTwoLevelsAbsent(a: string, b: string, c: string, v: Json)
    requires '.' !in a && '.' !in c && c != b
    ensures Get(JObj(map[a := JObj(map[b := v])]), a + "." + c) == Ok(None)
  {
    GetTwoSegments(JObj(map[a := JObj(map[b := v])]), a, c);
  }

  /** The lookups the utility tests make. */
  lemma GetExamples()
    ensures Get(JObj(map["foo" := JObj(map["bar" := JStr("foobar")])]), "foo.bar") == Ok(Some(JStr("foobar")))
    ensures Get(JObj(map[]), "foo.bar") == Ok(None)
  {
    assert "foo.bar" == "foo" + "." + "bar";
    GetTwoLevels("foo", "bar", JStr("foobar"));
    GetTwoSegments(JObj(map[]), "foo", "bar");
  }

  lemma HasPresentExample()
    ensures Has(JObj(map["foo" := JObj(map["bar-baz" := JStr("foobar")])]), "foo.bar-baz") == Ok(true)
  {
    assert "foo.bar-baz" == "foo" + "." + "bar-baz";
    GetTwoLevels("foo", "bar-baz", JStr("foobar"));
  }

  lemma HasAbsentExample()
    ensures Has(JObj(map["foo" := JObj(map["bar-baz" := JStr("foobar")])]), "foo.buzz") == Ok(false)
  {
    assert "foo.buzz" == "foo" + "." + "buzz";
    assert "buzz" != "bar-baz" by {
      assert "buzz"[1] != "bar-baz"[1];
    }
    GetTwoLevelsAbsent("foo", "bar-baz", "buzz", JStr("foobar"));
  }

  lemma HasEmptyStringExample()
    ensures Has(JObj(map["foo" := JObj(map["bar" := JStr("")])]), "foo.bar") == Ok(true)
  {
    var d := JObj(map["foo" := JObj(map["bar" := JStr("")])]);
    assert "foo.bar" == "foo" + "." + "bar";
    GetTwoLevels("foo", "bar", JStr(""));
    EmptyStringIsPresent(d, "foo.bar");
  }

  /** Reading through a `null` member throws, as `null[k]` does. */
  lemma NullOnPathThrows(k: string, rest: string)
    requires '.' !in k && '.' !in rest
    ensures Get(JObj(map[k := JNull]), k + "." + rest) == Thrown
  {
    GetTwoSegments(JObj(map[k := JNull]), k, rest);
  }
}
