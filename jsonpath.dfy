/** Reading one value out of a JSON document by a dotted path (`read_json_value.get_json_value`), the
    `jq '.a.b'`-like lookup the shell scripts use. */
module JsonPath {
  import opened Outcomes
  import opened Text
  import opened OrderedMaps
  import opened JsonValue

  /** The optional `$.` root marker is dropped once; the first occurrence of `$.` in a path that starts with
      it is that prefix. */
  function StripRoot(path: string): (r: string)
    ensures IsPrefix("$.", path) ==> path == "$." + r
    ensures !IsPrefix("$.", path) ==> r == path
  {
    if IsPrefix("$.", path) then path[2..] else path
  }

  /** One step of the walk, `part in value` followed by `value[part]`: an object member is found by name;
      on a string `in` tests for a substring and on a list for an equal element, and indexing either by a
      string fails; any other value does not support `in`. A miss reports the whole (stripped) path. */
  function Lookup(value: Json, part: string, path: string): Result<Json> {
    match value
    case JObj(ms) => if HasKey(ms, part) then Ok(Get(ms, part)) else Err(PathNotFound(path))
    case JStr(s) => if Contains(s, part) then Err(Malformed("string index")) else Err(PathNotFound(path))
    case JArr(items) => if JStr(part) in items then Err(Malformed("list index")) else Err(PathNotFound(path))
    case _ => Err(Malformed("not a container"))
  }

  /** The walk over the path's segments from `value`, stopping at the first failing step. */
  function Walk(value: Json, parts: seq<string>, path: string): Result<Json>
    decreases |parts|
  {
    if parts == [] then Ok(value)
    else
      match Lookup(value, parts[0], path)
      case Err(e) => Err(e)
      case Ok(v) => Walk(v, parts[1..], path)
  }

  /** `get_json_value` on an already parsed document. */
  function ValueAt(data: Json, jsonPath: string): Result<Json> {
    var path := StripRoot(jsonPath);
    Walk(data, Split(path, "."), path)
  }

  /** The lookup loop: the current value descends one segment per iteration. */
  method GetJsonValue(data: Json, jsonPath: string) returns (r: Result<Json>)
    ensures r == ValueAt(data, jsonPath)
  {
    var path := jsonPath;
    if IsPrefix("$.", path) {
      path := path[2..];
    }
    var parts := Split(path, ".");
    var value := data;
    var i := 0;
    while i < |parts|
      invariant 0 <= i <= |parts| && path == StripRoot(jsonPath)
      invariant Walk(data, parts, path) == Walk(value, parts[i..], path)
    {
      var step := Lookup(value, parts[i], path);
      assert parts[i..][1..] == parts[i + 1..];
      if step.Err? {
        return Err(step.error);
      }
      value := step.value;
      i := i + 1;
    }
    return Ok(value);
  }

  /** Descent through nested objects only: the reference meaning of a dotted path. */
  function Descend(value: Json, parts: seq<string>): Option<Json>
    decreases |parts|
  {
    if parts == [] then Some(value)
    else if value.JObj? && HasKey(value.members, parts[0]) then Descend(Get(value.members, parts[0]), parts[1..])
    else None
  }

  /** The walk finds a value exactly when every segment names a member of the object reached so far, and the
      value is the one reached; otherwise it fails with a missing path or a value of the wrong shape. */
  lemma {:induction false} WalkDescends(value: Json, parts: seq<string>, path: string)
    ensures Walk(value, parts, path).Ok? <==> Descend(value, parts).Some?
    ensures Walk(value, parts, path).Ok? ==> Walk(value, parts, path).value == Descend(value, parts).value
    ensures Walk(value, parts, path).Err? ==>
              Walk(value, parts, path).error == PathNotFound(path) || Walk(value, parts, path).error.Malformed?
    decreases |parts|
  {
    if parts != [] {
      var step := Lookup(value, parts[0], path);
      if step.Ok? {
        assert value.JObj? && HasKey(value.members, parts[0]);
        WalkDescends(step.value, parts[1..], path);
      }
    }
  }

  /** Walking a concatenation of segments is walking the first part, then the rest from where it ended. */
  lemma {:induction false} WalkAppend(value: Json, a: seq<string>, b: seq<string>, path: string)
    ensures Walk(value, a + b, path) ==
              match Walk(value, a, path)
              case Err(e) => Err(e)
              case Ok(v) => Walk(v, b, path)
    decreases |a|
  {
    if a == [] {
      assert a + b == b;
    } else {
      assert (a + b)[0] == a[0] && (a + b)[1..] == a[1..] + b;
      match Lookup(value, a[0], path)
      case Err(e) =>
      case Ok(v) => WalkAppend(v, a[1..], b, path);
    }
  }

  /** The `$.` marker is optional: a path with it denotes what the path without it does. */
  lemma RootOptional(data: Json, p: string)
    requires !IsPrefix("$.", p)
    ensures ValueAt(data, "$." + p) == ValueAt(data, p)
  {
    assert ("$." + p)[..2] == "$.";
    assert ("$." + p)[2..] == p;
  }

  /** A segment without a dot is a path of one segment. */
  lemma OneSegment(s: string)
    requires '.' !in s
    ensures Split(s, ".") == [s] && !IsPrefix("$.", s)
  {
    assert "." == ['.'];
    SplitJoin([s], '.');
    if |s| >= 2 {
      assert s[1] in s;
    }
  }

  /** A path naming a top-level member gives that member's value; one naming no member reports the path. */
  lemma TopLevel(ms: seq<(string, Json)>, a: string)
    requires '.' !in a
    ensures HasKey(ms, a) ==> ValueAt(JObj(ms), a) == Ok(Get(ms, a))
    ensures !HasKey(ms, a) ==> ValueAt(JObj(ms), a) == Err(PathNotFound(a))
  {
    OneSegment(a);
    assert ValueAt(JObj(ms), a) == Walk(JObj(ms), [a], a);
    assert [a][1..] == [];
  }

  /** `a.b` reads member `b` of the object under `a`; names may hold spaces and hyphens, only dots separate. */
  lemma Dotted(ms: seq<(string, Json)>, a: string, b: string)
    requires '.' !in a && '.' !in b && a != "$"
    requires HasKey(ms, a) && Get(ms, a).JObj? && HasKey(Get(ms, a).members, b)
    ensures ValueAt(JObj(ms), a + "." + b) == Ok(Get(Get(ms, a).members, b))
  {
    var p := a + "." + b;
    assert "." == ['.'];
    assert Join([a, b], ".") == p;
    SplitJoin([a, b], '.');
    assert p[0] != '$' || p[1] != '.' by {
      if |a| >= 2 {
        assert p[1] == a[1] && a[1] in a;
      } else if |a| == 1 {
        assert p[0] == a[0] && a == [a[0]];
      } else {
        assert p[0] == '.';
      }
    }
    assert StripRoot(p) == p;
    assert [a, b][1..] == [b] && [b][1..] == [];
    assert Split(p, ".") == [a, b];
    assert Walk(JObj(ms), [a, b], p) == Walk(Get(ms, a), [b], p);
    assert Walk(Get(ms, a), [b], p) == Ok(Get(Get(ms, a).members, b));
  }

  /** The documented example document: a name and a profile whose member names hold spaces and hyphens. */
  predicate IsExample(data: Json, name: string, profile: string, ssn: string, firstName: string, phone: string) {
    && name == "name" && profile == "profile"
    && ssn == "ssn" && firstName == "first name" && phone == "phone-number"
    && data == JObj([(name, JStr("alice")),
                     (profile, JObj([(ssn, JStr("123-45-6789")), (firstName, JStr("obama")),
                                     (phone, JStr("999-888-7777"))]))])
  }

  /** In the example document, `name` is read with and without the `$.` marker. */
  lemma ExampleName(data: Json, name: string, profile: string, ssn: string, firstName: string, phone: string)
    requires IsExample(data, name, profile, ssn, firstName, phone)
    ensures ValueAt(data, name) == ValueAt(data, "$." + name) == Ok(JStr("alice"))
  {
    var inner := [(ssn, JStr("123-45-6789")), (firstName, JStr("obama")), (phone, JStr("999-888-7777"))];
    ExampleMembers(data.members, name, profile, inner, ssn, firstName, phone);
    ExampleNames(name, profile, ssn, firstName, phone);
    TopLevel(data.members, name);
    RootOptional(data, name);
  }

  /** In the example document, each of the profile's members is read with and without the `$.` marker,
      whatever spaces or hyphens its name holds. */
  lemma ExampleProfile(data: Json, name: string, profile: string, ssn: string, firstName: string, phone: string,
                       member: string, value: Json)
    requires IsExample(data, name, profile, ssn, firstName, phone)
    requires || (member == ssn && value == JStr("123-45-6789"))
             || (member == firstName && value == JStr("obama"))
             || (member == phone && value == JStr("999-888-7777"))
    ensures ValueAt(data, profile + "." + member) == ValueAt(data, "$." + profile + "." + member) == Ok(value)
  {
    var inner := [(ssn, JStr("123-45-6789")), (firstName, JStr("obama")), (phone, JStr("999-888-7777"))];
    ExampleMembers(data.members, name, profile, inner, ssn, firstName, phone);
    ExampleNames(name, profile, ssn, firstName, phone);
    Member(data, data.members, profile, inner, member);
  }

  lemma ExampleMembers(ms: seq<(string, Json)>, name: string, profile: string, inner: seq<(string, Json)>,
                       ssn: string, firstName: string, phone: string)
    requires name == "name" && profile == "profile"
    requires ssn == "ssn" && firstName == "first name" && phone == "phone-number"
    requires inner == [(ssn, JStr("123-45-6789")), (firstName, JStr("obama")), (phone, JStr("999-888-7777"))]
    requires ms == [(name, JStr("alice")), (profile, JObj(inner))]
    ensures HasKey(ms, name) && Get(ms, name) == JStr("alice")
    ensures HasKey(ms, profile) && Get(ms, profile) == JObj(inner)
    ensures HasKey(inner, ssn) && Get(inner, ssn) == JStr("123-45-6789")
    ensures HasKey(inner, firstName) && Get(inner, firstName) == JStr("obama")
    ensures HasKey(inner, phone) && Get(inner, phone) == JStr("999-888-7777")
  {
    assert UniqueKeys(ms) by { assert Keys(ms) == [name, profile]; }
    assert UniqueKeys(inner) by { assert Keys(inner) == [ssn, firstName, phone]; }
    GetAt(ms, 0);
    GetAt(ms, 1);
    GetAt(inner, 0);
    GetAt(inner, 1);
    GetAt(inner, 2);
  }

  /** A two-segment path read with and without the `$.` marker. */
  lemma Member(data: Json, ms: seq<(string, Json)>, a: string, inner: seq<(string, Json)>, b: string)
    requires data == JObj(ms) && '.' !in a && '.' !in b && |a| > 0 && a[0] != '$'
    requires HasKey(ms, a) && Get(ms, a) == JObj(inner) && HasKey(inner, b)
    ensures ValueAt(data, a + "." + b) == ValueAt(data, "$." + a + "." + b) == Ok(Get(inner, b))
  {
    Dotted(ms, a, b);
    assert (a + "." + b)[0] == a[0];
    RootOptional(data, a + "." + b);
    assert "$." + (a + "." + b) == "$." + a + "." + b;
  }

  lemma ExampleNames(name: string, profile: string, ssn: string, firstName: string, phone: string)
    requires name == "name" && profile == "profile"
    requires ssn == "ssn" && firstName == "first name" && phone == "phone-number"
    ensures '.' !in name && '.' !in profile && |profile| > 0 && profile[0] != '$'
    ensures '.' !in ssn && '.' !in firstName && '.' !in phone
  {
  }
}
