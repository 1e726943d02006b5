/** Template preprocessing (`inject_template.py`): `{{ NAME }}` placeholders replaced by config values, and the
    common tags merged into the template's resources. */
module Inject {
  import opened Outcomes
  import opened Text
  import opened OrderedMaps
  import opened JsonValue

  // ---------------------------------------------------------------------------------------------
  // Placeholders: the regex `\{\{([^)]+?)\}\}` as a scanner.
  // ---------------------------------------------------------------------------------------------

  /** `}}` starts at index `q`. */
  predicate ClosesAt(s: string, q: int) {
    0 <= q && q + 2 <= |s| && s[q] == '}' && s[q + 1] == '}'
  }

  /** `{{` starts at index `p`. */
  predicate OpensAt(s: string, p: int) {
    0 <= p && p + 2 <= |s| && s[p] == '{' && s[p + 1] == '{'
  }

  lemma BracePairs(s: string, j: int)
    ensures ClosesAt(s, j) <==> OccursAt(s, "}}", j)
    ensures OpensAt(s, j) <==> OccursAt(s, "{{", j)
  {
    if 0 <= j && j + 2 <= |s| {
      assert s[j..j + 2] == [s[j], s[j + 1]];
    }
  }

  /** The lazy inner group, `s[start..q]` taken so far: the first `q' >= q` where `}}` follows, as long as no
      `)` has to be taken on the way. */
  function InnerEnd(s: string, start: nat, q: nat): (r: Option<nat>)
    requires start < q <= |s|
    decreases |s| - q
    ensures r.Some? ==> q <= r.value && r.value + 2 <= |s|
  {
    if ClosesAt(s, q) then Some(q)
    else if q < |s| && s[q] != ')' then InnerEnd(s, start, q + 1)
    else None
  }

  /** The inner group ends at the first `}}` from `q` on, and takes no `)` on the way. */
  lemma {:induction false} InnerEndSpec(s: string, start: nat, q: nat)
    requires start < q <= |s|
    requires forall j :: start <= j < q ==> s[j] != ')'
    ensures var r := InnerEnd(s, start, q);
            && (r.Some? ==> OccursAt(s, "}}", r.value))
            && (r.Some? ==> forall j :: start <= j < r.value ==> s[j] != ')')
            && (r.Some? ==> forall j :: q <= j < r.value ==> !OccursAt(s, "}}", j))
    decreases |s| - q
  {
    BracePairs(s, q);
    if !ClosesAt(s, q) && q < |s| && s[q] != ')' {
      InnerEndSpec(s, start, q + 1);
    }
  }

  /** The placeholder regex tried at index `p`: where its inner text ends. */
  function MatchAt(s: string, p: nat): (r: Option<nat>)
    requires p <= |s|
    ensures r.Some? ==> p + 2 < r.value && r.value + 2 <= |s|
  {
    if OpensAt(s, p) && p + 3 <= |s| && s[p + 2] != ')' then InnerEnd(s, p + 2, p + 3) else None
  }

  /** A match is `{{`, a non-empty inner text without `)`, then `}}`. */
  lemma MatchAtSpec(s: string, p: nat)
    requires p <= |s|
    ensures var r := MatchAt(s, p);
            && (r.Some? ==> OccursAt(s, "{{", p) && OccursAt(s, "}}", r.value))
            && (r.Some? ==> forall j :: p + 2 <= j < r.value ==> s[j] != ')')
  {
    BracePairs(s, p);
    if OpensAt(s, p) && p + 3 <= |s| && s[p + 2] != ')' {
      InnerEndSpec(s, p + 2, p + 3);
    }
  }

  /** Conversely, the inner group reaches the first `}}` from `q` on when no `)` comes before it. */
  lemma {:induction false} InnerEndComplete(s: string, start: nat, q: nat, e: nat)
    requires start < q <= e && ClosesAt(s, e)
    requires forall j :: q <= j < e ==> s[j] != ')' && !ClosesAt(s, j)
    ensures InnerEnd(s, start, q) == Some(e)
    decreases e - q
  {
    if q < e {
      InnerEndComplete(s, start, q + 1, e);
    }
  }

  /** The converse of `MatchAtSpec`: `{{` at `p`, a non-empty inner text without `)`, and the first `}}` after
      at least one inner character at `q`, make a match at `p` that ends at `q`. */
  lemma MatchAtComplete(s: string, p: nat, q: nat)
    requires p + 2 < q && OccursAt(s, "{{", p) && OccursAt(s, "}}", q)
    requires forall j :: p + 2 <= j < q ==> s[j] != ')'
    requires forall j :: p + 3 <= j < q ==> !OccursAt(s, "}}", j)
    ensures MatchAt(s, p) == Some(q)
  {
    BracePairs(s, p);
    BracePairs(s, q);
    forall j | p + 3 <= j < q
      ensures s[j] != ')' && !ClosesAt(s, j)
    {
      BracePairs(s, j);
    }
    InnerEndComplete(s, p + 2, p + 3, q);
  }

  /** `re.findall(pattern, s[p..])`: the inner texts of the non-overlapping matches, left to right. */
  function FindFrom(s: string, p: nat): (r: seq<string>)
    requires p <= |s|
    decreases |s| - p
    ensures |r| <= |s| - p
  {
    if p == |s| then []
    else
      match MatchAt(s, p)
      case Some(q) => [s[p + 2..q]] + FindFrom(s, q + 2)
      case None => FindFrom(s, p + 1)
  }

  /** Every name found is non-empty and holds no `)`. */
  lemma {:induction false} FindFromNames(s: string, p: nat)
    requires p <= |s|
    ensures forall i :: 0 <= i < |FindFrom(s, p)| ==> FindFrom(s, p)[i] != [] && ')' !in FindFrom(s, p)[i]
    decreases |s| - p
  {
    if p < |s| {
      match MatchAt(s, p)
      case Some(q) =>
        MatchAtSpec(s, p);
        FindFromNames(s, q + 2);
        var name := s[p + 2..q];
        assert forall j :: 0 <= j < |name| ==> name[j] == s[p + 2 + j];
        assert FindFrom(s, p) == [name] + FindFrom(s, q + 2);
      case None =>
        FindFromNames(s, p + 1);
    }
  }

  function FindPlaceholders(s: string): seq<string> {
    FindFrom(s, 0)
  }

  lemma {:induction false} FindFromWithoutBraces(s: string, p: nat)
    requires p <= |s| && !Contains(s, "{{")
    ensures FindFrom(s, p) == []
    decreases |s| - p
  {
    if p < |s| {
      MatchAtSpec(s, p);
      FindFromWithoutBraces(s, p + 1);
    }
  }

  /** Text without `{{` holds no placeholder. */
  lemma NoBracesNoPlaceholders(s: string)
    requires !Contains(s, "{{")
    ensures FindPlaceholders(s) == []
  {
    FindFromWithoutBraces(s, 0);
  }

  lemma {:induction false} InnerEndShift(p: string, s: string, start: nat, q: nat)
    requires start < q <= |s|
    ensures InnerEnd(p + s, |p| + start, |p| + q)
         == match InnerEnd(s, start, q) case Some(e) => Some(|p| + e) case None => None
    decreases |s| - q
  {
    var t := p + s;
    assert ClosesAt(t, |p| + q) <==> ClosesAt(s, q);
    if q < |s| {
      assert t[|p| + q] == s[q];
    }
    if !ClosesAt(s, q) && q < |s| && s[q] != ')' {
      InnerEndShift(p, s, start, q + 1);
    }
  }

  lemma MatchAtShift(p: string, s: string, i: nat)
    requires i <= |s|
    ensures MatchAt(p + s, |p| + i) == match MatchAt(s, i) case Some(e) => Some(|p| + e) case None => None
  {
    var t := p + s;
    assert OpensAt(t, |p| + i) <==> OpensAt(s, i);
    if i + 3 <= |s| {
      assert t[|p| + i + 2] == s[i + 2];
      if OpensAt(s, i) && s[i + 2] != ')' {
        InnerEndShift(p, s, i + 2, i + 3);
      }
    }
  }

  lemma {:induction false} FindFromShift(p: string, s: string, i: nat)
    requires i <= |s|
    ensures FindFrom(p + s, |p| + i) == FindFrom(s, i)
    decreases |s| - i
  {
    if i < |s| {
      MatchAtShift(p, s, i);
      match MatchAt(s, i)
      case Some(q) =>
        FindFromShift(p, s, q + 2);
        FoundStep(p, s, i, q);
      case None =>
        FindFromShift(p, s, i + 1);
        MissStep(p, s, i);
    }
  }

  lemma FoundStep(p: string, s: string, i: nat, q: nat)
    requires i < |s| && MatchAt(s, i) == Some(q) && MatchAt(p + s, |p| + i) == Some(|p| + q)
    requires FindFrom(p + s, |p| + q + 2) == FindFrom(s, q + 2)
    ensures FindFrom(p + s, |p| + i) == FindFrom(s, i)
  {
    FindFromFound(s, i, q);
    FindFromFound(p + s, |p| + i, |p| + q);
    SliceShift(p, s, i + 2, q);
  }

  lemma MissStep(p: string, s: string, i: nat)
    requires i < |s| && MatchAt(s, i).None? && MatchAt(p + s, |p| + i).None?
    requires FindFrom(p + s, |p| + i + 1) == FindFrom(s, i + 1)
    ensures FindFrom(p + s, |p| + i) == FindFrom(s, i)
  {
  }

  /** A match at `i` contributes its name, and the scan resumes after its closing braces. */
  lemma FindFromFound(s: string, i: nat, q: nat)
    requires i < |s| && MatchAt(s, i) == Some(q)
    ensures q + 2 <= |s| && FindFrom(s, i) == [s[i + 2..q]] + FindFrom(s, q + 2)
  {
  }

  /** A character other than `{` starts no placeholder: the scan moves past it. */
  lemma SkipChar(c: char, rest: string)
    requires c != '{'
    ensures FindPlaceholders([c] + rest) == FindPlaceholders(rest)
  {
    var t := [c] + rest;
    assert !OpensAt(t, 0);
    FindFromShift([c], rest, 0);
  }

  lemma {:induction false} InnerEndBraced(n: string, rest: string, q: nat)
    requires n != [] && ')' !in n && '}' !in n && 2 < q <= |n| + 2
    ensures InnerEnd(Braced(n) + rest, 2, q) == Some(|n| + 2)
    decreases |n| + 2 - q
  {
    var t := Braced(n) + rest;
    BracedChars(n, rest);
    if q < |n| + 2 {
      assert n[q - 2] in n;
      InnerEndBraced(n, rest, q + 1);
    }
  }

  /** The characters of a placeholder followed by more text. */
  lemma BracedChars(n: string, rest: string)
    ensures var t := Braced(n) + rest;
            && t[0] == '{' && t[1] == '{' && t[|n| + 2] == '}' && t[|n| + 3] == '}'
            && (forall j :: 2 <= j < |n| + 2 ==> t[j] == n[j - 2])
            && t[2..|n| + 2] == n
  {
    var t := Braced(n) + rest;
    assert t[..|n| + 4] == "{{" + n + "}}";
    assert forall j :: 2 <= j < |n| + 2 ==> t[j] == t[..|n| + 4][j];
  }

  /** A placeholder whose name holds neither `)` nor `}` is found, and the scan resumes right after it. */
  lemma FindBraced(n: string, rest: string)
    requires n != [] && ')' !in n && '}' !in n
    ensures FindPlaceholders(Braced(n) + rest) == [n] + FindPlaceholders(rest)
  {
    var t := Braced(n) + rest;
    BracedChars(n, rest);
    assert OpensAt(t, 0) && t[2] == n[0];
    assert n[0] in n;
    InnerEndBraced(n, rest, 3);
    FindFromFound(t, 0, |n| + 2);
    FindFromShift(Braced(n), rest, 0);
  }

  // ---------------------------------------------------------------------------------------------
  // inject_variable
  // ---------------------------------------------------------------------------------------------

  /** The text each placeholder is written as. */
  function Braced(name: string): (r: string)
    ensures |r| == |name| + 4
  {
    "{{" + name + "}}"
  }

  /** The substitution loop over the placeholders found, in order: each name is stripped and looked up; its
      value, which must be text, replaces every occurrence of the placeholder as written. */
  function InjectAll(text: string, names: seq<string>, data: seq<(string, Json)>): Result<string>
    decreases |names|
  {
    if names == [] then Ok(text)
    else
      var key := Strip(names[0]);
      if !HasKey(data, key) then Err(MissingVariable(key))
      else
        match Get(data, key)
        case JStr(v) => InjectAll(ReplaceAll(text, Braced(names[0]), v), names[1..], data)
        case _ => Err(NotText(key))
  }

  /** `inject_variable(text, data)`: substitute the placeholders found in the original text, then fail if the
      result still holds any. */
  function InjectVariable(text: string, data: seq<(string, Json)>): Result<string> {
    match InjectAll(text, FindPlaceholders(text), data)
    case Err(e) => Err(e)
    case Ok(t) =>
      var left := FindPlaceholders(t);
      if left != [] then Err(UnevaluatedVariables(left)) else Ok(t)
  }

  /** The loop of `inject_variable`, reassigning the text once per placeholder found. */
  method Inject(text: string, data: seq<(string, Json)>) returns (r: Result<string>)
    ensures r == InjectVariable(text, data)
  {
    var names := FindPlaceholders(text);
    var t := text;
    var i := 0;
    while i < |names|
      invariant 0 <= i <= |names|
      invariant InjectAll(text, names, data) == InjectAll(t, names[i..], data)
    {
      assert names[i..][1..] == names[i + 1..];
      var key := Strip(names[i]);
      if !HasKey(data, key) {
        return Err(MissingVariable(key));
      }
      var value := Get(data, key);
      if !value.JStr? {
        return Err(NotText(key));
      }
      t := ReplaceAll(t, Braced(names[i]), value.s);
      i := i + 1;
    }
    assert names[i..] == [];
    var left := FindPlaceholders(t);
    if left != [] {
      return Err(UnevaluatedVariables(left));
    }
    return Ok(t);
  }

  /** A placeholder name the data can fill: its stripped form is a key whose value is text. */
  predicate Resolvable(data: seq<(string, Json)>, name: string) {
    HasKey(data, Strip(name)) && Get(data, Strip(name)).JStr?
  }

  /** Every name in `names` is resolvable, checked front to back as the loop does. */
  predicate AllResolvable(data: seq<(string, Json)>, names: seq<string>)
    decreases |names|
  {
    names == [] || (Resolvable(data, names[0]) && AllResolvable(data, names[1..]))
  }

  lemma {:induction false} InjectAllResolvable(text: string, names: seq<string>, data: seq<(string, Json)>)
    ensures InjectAll(text, names, data).Ok? <==> AllResolvable(data, names)
    decreases |names|
  {
    if names != [] && Resolvable(data, names[0]) {
      var t := ReplaceAll(text, Braced(names[0]), Get(data, Strip(names[0])).s);
      assert InjectAll(text, names, data) == InjectAll(t, names[1..], data);
      InjectAllResolvable(t, names[1..], data);
    }
  }

  lemma {:induction false} AllResolvableEach(data: seq<(string, Json)>, names: seq<string>)
    ensures AllResolvable(data, names) <==> All(names, n => Resolvable(data, n))
    decreases |names|
  {
    if names != [] {
      AllResolvableEach(data, names[1..]);
    }
  }

  /** The substitutions succeed exactly when every placeholder's stripped name is a key whose value is text. */
  lemma InjectAllOk(text: string, names: seq<string>, data: seq<(string, Json)>)
    ensures InjectAll(text, names, data).Ok? <==> forall i :: 0 <= i < |names| ==> Resolvable(data, names[i])
  {
    InjectAllResolvable(text, names, data);
    AllResolvableEach(data, names);
    AllEach(names, n => Resolvable(data, n));
  }

  /** A placeholder whose stripped name is not a key of the data makes the whole call fail. */
  lemma MissingKeyFails(text: string, data: seq<(string, Json)>, i: nat)
    requires i < |FindPlaceholders(text)| && !HasKey(data, Strip(FindPlaceholders(text)[i]))
    ensures InjectVariable(text, data).Err?
  {
    InjectAllOk(text, FindPlaceholders(text), data);
  }

  /** On success no placeholder is left, and every placeholder of the input named a text value; otherwise the
      error is one of the three the source raises. */
  lemma InjectVariableSpec(text: string, data: seq<(string, Json)>)
    ensures InjectVariable(text, data).Ok? ==> FindPlaceholders(InjectVariable(text, data).value) == []
    ensures InjectVariable(text, data).Ok? ==>
              forall n :: n in FindPlaceholders(text) ==> Resolvable(data, n)
    ensures InjectVariable(text, data).Err? ==>
              InjectVariable(text, data).error.MissingVariable?
              || InjectVariable(text, data).error.NotText?
              || InjectVariable(text, data).error.UnevaluatedVariables?
  {
    InjectAllOk(text, FindPlaceholders(text), data);
    InjectAllErrors(text, FindPlaceholders(text), data);
  }

  lemma {:induction false} InjectAllErrors(text: string, names: seq<string>, data: seq<(string, Json)>)
    ensures InjectAll(text, names, data).Err? ==>
              InjectAll(text, names, data).error.MissingVariable? || InjectAll(text, names, data).error.NotText?
    decreases |names|
  {
    if names != [] {
      if Resolvable(data, names[0]) {
        var t := ReplaceAll(text, Braced(names[0]), Get(data, Strip(names[0])).s);
        assert InjectAll(text, names, data) == InjectAll(t, names[1..], data);
        InjectAllErrors(t, names[1..], data);
      }
    }
  }

  /** Text without `{{` comes back unchanged, whatever the data. */
  lemma NoPlaceholderUnchanged(text: string, data: seq<(string, Json)>)
    requires FindPlaceholders(text) == []
    ensures InjectVariable(text, data) == Ok(text)
  {
  }

  // ---------------------------------------------------------------------------------------------
  // apply_common_tag
  // ---------------------------------------------------------------------------------------------

  /** `dct["Key"]`: the key of a tag that is an object holding one. */
  function TagKey(tag: Json): Option<Json> {
    match tag
    case JObj(ms) => if HasKey(ms, "Key") then Some(Get(ms, "Key")) else None
    case _ => None
  }

  /** A value Python can put in a set: not a list or a dictionary. */
  predicate Hashable(v: Json) {
    !v.JArr? && !v.JObj?
  }

  /** A common tag as the caller passes it: an object whose `Key` is a string. */
  predicate WellFormedTag(tag: Json) {
    TagKey(tag).Some? && TagKey(tag).value.JStr?
  }

  /** `{dct["Key"] for dct in tags}`: fails on the first tag that is not an object with a hashable `Key`. */
  function KeySet(tags: seq<Json>): Result<set<Json>> {
    if tags == [] then Ok({})
    else
      match TagKey(tags[0])
      case None => Err(Malformed("Tags"))
      case Some(k) =>
        if !Hashable(k) then Err(Malformed("Tags"))
        else
          match KeySet(tags[1..])
          case Err(e) => Err(e)
          case Ok(ks) => Ok({k} + ks)
  }

  /** The key set exists exactly when every tag is an object with a hashable `Key`, and then it holds exactly
      those keys. */
  lemma {:induction false} KeySetSpec(tags: seq<Json>)
    ensures KeySet(tags).Ok? <==> forall i :: 0 <= i < |tags| ==> TagKey(tags[i]).Some? && Hashable(TagKey(tags[i]).value)
    ensures KeySet(tags).Ok? ==>
              forall k :: k in KeySet(tags).value <==> exists i :: 0 <= i < |tags| && TagKey(tags[i]) == Some(k)
  {
    if tags != [] {
      var rest := tags[1..];
      KeySetSpec(rest);
      assert forall i :: 1 <= i < |tags| ==> tags[i] == rest[i - 1];
      if KeySet(tags).Ok? {
        var k0 := TagKey(tags[0]).value;
        var ks := KeySet(rest).value;
        assert KeySet(tags).value == {k0} + ks;
        forall k ensures k in KeySet(tags).value <==> exists i :: 0 <= i < |tags| && TagKey(tags[i]) == Some(k) {
          if k == k0 {
            assert TagKey(tags[0]) == Some(k);
          } else if k in ks {
            var j :| 0 <= j < |rest| && TagKey(rest[j]) == Some(k);
            assert TagKey(tags[j + 1]) == Some(k);
          }
        }
      }
    }
  }


  /** The common tags whose key is not among `existing`, in order. */
  function NewTags(existing: set<Json>, common: seq<Json>): (r: seq<Json>)
    requires forall i :: 0 <= i < |common| ==> WellFormedTag(common[i])
    ensures forall j :: 0 <= j < |r| ==> r[j] in common && TagKey(r[j]).Some? && TagKey(r[j]).value !in existing
    ensures forall c :: c in common && TagKey(c).Some? && TagKey(c).value !in existing ==> c in r
  {
    if common == [] then []
    else
      assert WellFormedTag(common[0]);
      var rest := NewTags(existing, common[1..]);
      if TagKey(common[0]).value !in existing then [common[0]] + rest else rest
  }

  /** The existing `Tags` value merged with the common tags: a list keeps its tags, in order, and gains every
      common tag whose key it lacks; an empty string or dictionary only survives when there is nothing to
      append; anything else cannot be iterated as tags. */
  function MergeTags(tags: Json, common: seq<Json>): (r: Result<Json>)
    requires forall i :: 0 <= i < |common| ==> WellFormedTag(common[i])
    ensures tags.JArr? && r.Ok? ==> r.value.JArr? && |tags.items| <= |r.value.items|
  {
    match tags
    case JArr(items) =>
      (match KeySet(items)
       case Err(e) => Err(e)
       case Ok(ks) => Ok(JArr(items + NewTags(ks, common))))
    case JStr(s) => if s == [] && common == [] then Ok(tags) else Err(Malformed("Tags"))
    case JObj(ms) => if ms == [] && common == [] then Ok(tags) else Err(Malformed("Tags"))
    case _ => Err(Malformed("Tags"))
  }

  /** One resource: untouched unless its `Type` is listed; then `Properties.Tags` is set to the common tags or
      merged with them. */
  function TagResource(r: Json, common: seq<Json>, types: seq<string>): Result<Json>
    requires forall i :: 0 <= i < |common| ==> WellFormedTag(common[i])
  {
    if !r.JObj? || !HasKey(r.members, "Type") || !Hashable(Get(r.members, "Type")) then Err(Malformed("Type"))
    else
      var t := Get(r.members, "Type");
      if !(t.JStr? && t.s in types) then Ok(r)
      else if !HasKey(r.members, "Properties") || !Get(r.members, "Properties").JObj? then
        Err(Malformed("Properties"))
      else
        var ps := Get(r.members, "Properties").members;
        if !HasKey(ps, "Tags") then Ok(JObj(Put(r.members, "Properties", JObj(Put(ps, "Tags", JArr(common))))))
        else
          match MergeTags(Get(ps, "Tags"), common)
          case Err(e) => Err(e)
          case Ok(tags) => Ok(JObj(Put(r.members, "Properties", JObj(Put(ps, "Tags", tags)))))
  }

  /** The resources in order; the first failure stops the walk, leaving the later resources as they were. */
  function TagAll(rs: seq<(string, Json)>, common: seq<Json>, types: seq<string>): (seq<(string, Json)>, Outcome)
    requires forall i :: 0 <= i < |common| ==> WellFormedTag(common[i])
  {
    if rs == [] then ([], Pass)
    else
      match TagResource(rs[0].1, common, types)
      case Err(e) => (rs, Fail(e))
      case Ok(x) =>
        var rest := TagAll(rs[1..], common, types);
        ([(rs[0].0, x)] + rest.0, rest.1)
  }

  /** `apply_common_tag(json_data, common_tags, resources_with_common_tags)`: the template after the call, and
      whether it raised. A template without `Resources` is left alone. */
  function AppliedTags(data: Json, common: seq<Json>, types: seq<string>): (Json, Outcome)
    requires forall i :: 0 <= i < |common| ==> WellFormedTag(common[i])
  {
    if !data.JObj? then (data, Fail(Malformed("template")))
    else if !HasKey(data.members, "Resources") then (data, Pass)
    else
      match Get(data.members, "Resources")
      case JObj(rs) =>
        var (rs', o) := TagAll(rs, common, types);
        (JObj(Put(data.members, "Resources", JObj(rs'))), o)
      case _ => (data, Fail(Malformed("Resources")))
  }

  /** The template's tags win: a tag list keeps its tags in order, and what is appended is exactly the common
      tags, in order, whose key no existing tag has. */
  lemma MergeKeepsTemplateTags(items: seq<Json>, common: seq<Json>)
    requires forall i :: 0 <= i < |common| ==> WellFormedTag(common[i])
    requires forall i :: 0 <= i < |items| ==> TagKey(items[i]).Some? && Hashable(TagKey(items[i]).value)
    ensures MergeTags(JArr(items), common).Ok? && MergeTags(JArr(items), common).value.JArr?
    ensures var r := MergeTags(JArr(items), common).value.items;
            && |items| <= |r| && r[..|items|] == items
            && (forall j :: |items| <= j < |r| ==>
                  r[j] in common && forall i :: 0 <= i < |items| ==> TagKey(items[i]) != TagKey(r[j]))
            && (forall c :: c in common && (forall i :: 0 <= i < |items| ==> TagKey(items[i]) != TagKey(c)) ==>
                  c in r[|items|..])
  {
    KeySetSpec(items);
    var ks := KeySet(items).value;
    var extra := NewTags(ks, common);
    var r := items + extra;
    assert r[|items|..] == extra;
    forall j | |items| <= j < |r|
      ensures r[j] in common && forall i :: 0 <= i < |items| ==> TagKey(items[i]) != TagKey(r[j])
    {
      assert r[j] == extra[j - |items|];
    }
    forall c | c in common && (forall i :: 0 <= i < |items| ==> TagKey(items[i]) != TagKey(c))
      ensures c in extra
    {
      var n :| 0 <= n < |common| && common[n] == c;
      assert WellFormedTag(common[n]);
    }
  }

  /** The common tags are taken in their order: those of `a` are appended before those of `b`. */
  lemma {:induction false} NewTagsAppend(existing: set<Json>, a: seq<Json>, b: seq<Json>)
    requires forall i :: 0 <= i < |a| ==> WellFormedTag(a[i])
    requires forall i :: 0 <= i < |b| ==> WellFormedTag(b[i])
    ensures forall i :: 0 <= i < |a + b| ==> WellFormedTag((a + b)[i])
    ensures NewTags(existing, a + b) == NewTags(existing, a) + NewTags(existing, b)
  {
    if a != [] {
      assert (a + b)[0] == a[0] && (a + b)[1..] == a[1..] + b;
      NewTagsAppend(existing, a[1..], b);
    } else {
      assert a + b == b;
    }
  }

  /** One common tag is appended, once, exactly when its key is new. */
  lemma NewTagsOne(existing: set<Json>, c: Json)
    requires WellFormedTag(c)
    ensures NewTags(existing, [c]) == if TagKey(c).value in existing then [] else [c]
  {
    assert [c][1..] == [];
  }

  /** A list of tags whose keys can be collected is kept and extended by the common tags with new keys. */
  lemma MergeTagsList(items: seq<Json>, common: seq<Json>)
    requires forall i :: 0 <= i < |common| ==> WellFormedTag(common[i])
    requires forall i :: 0 <= i < |items| ==> TagKey(items[i]).Some? && Hashable(TagKey(items[i]).value)
    ensures KeySet(items).Ok?
    ensures MergeTags(JArr(items), common) == Ok(JArr(items + NewTags(KeySet(items).value, common)))
  {
    KeySetSpec(items);
  }

  /** Merging `a + b` appends what merging `a` appends, then what merging `b` appends: the common tags keep
      their order, and each is appended as often as it is listed. */
  lemma MergeTagsAppend(items: seq<Json>, a: seq<Json>, b: seq<Json>)
    requires forall i :: 0 <= i < |a| ==> WellFormedTag(a[i])
    requires forall i :: 0 <= i < |b| ==> WellFormedTag(b[i])
    requires forall i :: 0 <= i < |items| ==> TagKey(items[i]).Some? && Hashable(TagKey(items[i]).value)
    ensures forall i :: 0 <= i < |a + b| ==> WellFormedTag((a + b)[i])
    ensures MergeTags(JArr(items), a).Ok? && MergeTags(JArr(items), b).Ok?
    ensures MergeTags(JArr(items), a).value.JArr? && MergeTags(JArr(items), b).value.JArr?
    ensures MergeTags(JArr(items), a + b)
         == Ok(JArr(MergeTags(JArr(items), a).value.items + MergeTags(JArr(items), b).value.items[|items|..]))
  {
    MergeTagsList(items, a);
    var ks := KeySet(items).value;
    NewTagsAppend(ks, a, b);
    MergeTagsList(items, b);
    MergeTagsList(items, a + b);
    ExtendTwice(items, NewTags(ks, a), NewTags(ks, b));
  }

  lemma ExtendTwice<T>(x: seq<T>, y: seq<T>, z: seq<T>)
    ensures (x + z)[|x|..] == z && x + (y + z) == (x + y) + z
  {
    assert (x + z)[|x|..] == z;
  }

  /** Merging one common tag appends it exactly when no existing tag has its key. */
  lemma MergeTagsOne(items: seq<Json>, c: Json)
    requires WellFormedTag(c)
    requires forall i :: 0 <= i < |items| ==> TagKey(items[i]).Some? && Hashable(TagKey(items[i]).value)
    ensures MergeTags(JArr(items), [c])
         == Ok(JArr(if forall i :: 0 <= i < |items| ==> TagKey(items[i]) != TagKey(c) then items + [c] else items))
  {
    KeySetSpec(items);
    var ks := KeySet(items).value;
    NewTagsOne(ks, c);
    assert items + [] == items;
  }

  /** The existing keys are collected once, before appending: two common tags with the same new key are both
      appended. */
  lemma SameNewKeyAppendedTwice(items: seq<Json>, c1: Json, c2: Json)
    requires WellFormedTag(c1) && WellFormedTag(c2) && TagKey(c1) == TagKey(c2)
    requires KeySet(items).Ok? && TagKey(c1).value !in KeySet(items).value
    ensures MergeTags(JArr(items), [c1, c2]) == Ok(JArr(items + [c1, c2]))
  {
    var ks := KeySet(items).value;
    assert [c1, c2][1..] == [c2];
    assert [c2][1..] == [];
    assert NewTags(ks, [c2]) == [c2];
    assert NewTags(ks, [c1, c2]) == [c1] + [c2] == [c1, c2];
  }

  /** A resource whose `Type` is not listed comes back unchanged; a listed resource without `Tags` gets the
      common tags; only `Properties.Tags` ever changes: every other member of the resource and of its
      properties keeps its value and its place. */
  lemma TagResourceSpec(r: Json, common: seq<Json>, types: seq<string>)
    requires forall i :: 0 <= i < |common| ==> WellFormedTag(common[i])
    requires r.JObj? && HasKey(r.members, "Type")
    ensures var t := Get(r.members, "Type");
            Hashable(t) && !(t.JStr? && t.s in types) ==> TagResource(r, common, types) == Ok(r)
    ensures TagResource(r, common, types).Ok? ==>
              var r' := TagResource(r, common, types).value;
              && r'.JObj? && Keys(r'.members) == Keys(r.members)
              && forall k :: k != "Properties" && HasKey(r.members, k) ==> Get(r'.members, k) == Get(r.members, k)
    ensures TagResource(r, common, types).Ok? && TagResource(r, common, types).value != r ==>
              var ps := Get(r.members, "Properties").members;
              var ps' := Get(TagResource(r, common, types).value.members, "Properties").members;
              && HasKey(ps', "Tags")
              && (!HasKey(ps, "Tags") ==> Keys(ps') == Keys(ps) + ["Tags"] && Get(ps', "Tags") == JArr(common))
              && (HasKey(ps, "Tags") ==> Keys(ps') == Keys(ps))
              && forall k :: k != "Tags" && HasKey(ps, k) ==> Get(ps', k) == Get(ps, k)
  {
  }

  /** The walk keeps the resources' names and order; it succeeds exactly when every resource can be tagged, and
      then each resource is its tagged form. */
  lemma {:induction false} TagAllSpec(rs: seq<(string, Json)>, common: seq<Json>, types: seq<string>)
    requires forall i :: 0 <= i < |common| ==> WellFormedTag(common[i])
    ensures |TagAll(rs, common, types).0| == |rs| && Keys(TagAll(rs, common, types).0) == Keys(rs)
    ensures TagAll(rs, common, types).1 == Pass <==> forall i :: 0 <= i < |rs| ==> TagResource(rs[i].1, common, types).Ok?
    ensures TagAll(rs, common, types).1 == Pass ==>
              forall i :: 0 <= i < |rs| ==> TagAll(rs, common, types).0[i] == (rs[i].0, TagResource(rs[i].1, common, types).value)
  {
    if rs != [] {
      TagAllSpec(rs[1..], common, types);
      var rest := TagAll(rs[1..], common, types);
      assert forall i :: 1 <= i < |rs| ==> rs[i] == rs[1..][i - 1];
      if TagResource(rs[0].1, common, types).Ok? {
        var x := TagResource(rs[0].1, common, types).value;
        assert Keys([(rs[0].0, x)] + rest.0) == [rs[0].0] + Keys(rest.0) by {
          KeysAppend([(rs[0].0, x)], rest.0);
        }
        assert Keys(rs) == [rs[0].0] + Keys(rs[1..]) by {
          assert rs == [rs[0]] + rs[1..];
          KeysAppend([rs[0]], rs[1..]);
        }
      }
    }
  }

  /** A template without `Resources` is left alone; otherwise only `Resources` changes. */
  lemma AppliedTagsSpec(data: Json, common: seq<Json>, types: seq<string>)
    requires forall i :: 0 <= i < |common| ==> WellFormedTag(common[i])
    ensures data.JObj? && !HasKey(data.members, "Resources") ==> AppliedTags(data, common, types) == (data, Pass)
    ensures !data.JObj? ==> AppliedTags(data, common, types).0 == data && AppliedTags(data, common, types).1.Fail?
    ensures data.JObj? && HasKey(data.members, "Resources") ==>
              var d' := AppliedTags(data, common, types).0;
              && d'.JObj? && Keys(d'.members) == Keys(data.members)
              && forall k :: k != "Resources" && HasKey(data.members, k) ==> Get(d'.members, k) == Get(data.members, k)
  {
  }

  /** A parsed template that `apply_common_tag` changes in place. */
  class Template {
    var data: Json

    constructor (data: Json)
      ensures this.data == data
    {
      this.data := data;
    }

    /** `apply_common_tag`: walks the resources once, tagging each listed one. */
    method ApplyCommonTag(common: seq<Json>, types: seq<string>) returns (o: Outcome)
      requires forall i :: 0 <= i < |common| ==> WellFormedTag(common[i])
      modifies this
      ensures (data, o) == AppliedTags(old(data), common, types)
    {
      if !data.JObj? {
        return Fail(Malformed("template"));
      }
      if !HasKey(data.members, "Resources") {
        return Pass;
      }
      var resources := Get(data.members, "Resources");
      if !resources.JObj? {
        return Fail(Malformed("Resources"));
      }
      var rs, outcome := TagResources(resources.members, common, types);
      data := JObj(Put(data.members, "Resources", JObj(rs)));
      return outcome;
    }
  }

  /** The loop over `json_data["Resources"].items()`: the resources after the walk and whether it raised. */
  method TagResources(rs: seq<(string, Json)>, common: seq<Json>, types: seq<string>)
      returns (done: seq<(string, Json)>, o: Outcome)
    requires forall i :: 0 <= i < |common| ==> WellFormedTag(common[i])
    ensures (done, o) == TagAll(rs, common, types)
  {
    done := [];
    var i := 0;
    o := Pass;
    assert rs[i..] == rs;
    assert done + TagAll(rs, common, types).0 == TagAll(rs, common, types).0;
    while i < |rs|
      invariant 0 <= i <= |rs| && |done| == i && o == Pass
      invariant TagAll(rs, common, types) == (done + TagAll(rs[i..], common, types).0, TagAll(rs[i..], common, types).1)
    {
      var x := TagOne(rs[i].1, common, types);
      if x.Err? {
        TagAllStop(rs, i, done, common, types);
        return done + rs[i..], Fail(x.error);
      }
      TagAllAdvance(rs, i, done, common, types);
      done := done + [(rs[i].0, x.value)];
      i := i + 1;
    }
    TagAllEnd(rs, done, common, types);
  }

  lemma TagAllStop(rs: seq<(string, Json)>, i: nat, done: seq<(string, Json)>, common: seq<Json>, types: seq<string>)
    requires i < |rs| && forall j :: 0 <= j < |common| ==> WellFormedTag(common[j])
    requires TagResource(rs[i].1, common, types).Err?
    requires TagAll(rs, common, types) == (done + TagAll(rs[i..], common, types).0, TagAll(rs[i..], common, types).1)
    ensures TagAll(rs, common, types) == (done + rs[i..], Fail(TagResource(rs[i].1, common, types).error))
  {
    assert rs[i..][0] == rs[i];
  }

  lemma TagAllAdvance(rs: seq<(string, Json)>, i: nat, done: seq<(string, Json)>, common: seq<Json>,
                      types: seq<string>)
    requires i < |rs| && forall j :: 0 <= j < |common| ==> WellFormedTag(common[j])
    requires TagResource(rs[i].1, common, types).Ok?
    requires TagAll(rs, common, types) == (done + TagAll(rs[i..], common, types).0, TagAll(rs[i..], common, types).1)
    ensures TagAll(rs, common, types)
         == (done + [(rs[i].0, TagResource(rs[i].1, common, types).value)] + TagAll(rs[i + 1..], common, types).0,
             TagAll(rs[i + 1..], common, types).1)
  {
    assert rs[i..][0] == rs[i] && rs[i..][1..] == rs[i + 1..];
    var p := (rs[i].0, TagResource(rs[i].1, common, types).value);
    var later := TagAll(rs[i + 1..], common, types).0;
    assert done + ([p] + later) == done + [p] + later;
  }

  lemma TagAllEnd(rs: seq<(string, Json)>, done: seq<(string, Json)>, common: seq<Json>, types: seq<string>)
    requires forall j :: 0 <= j < |common| ==> WellFormedTag(common[j])
    requires TagAll(rs, common, types) == (done + TagAll(rs[|rs|..], common, types).0, TagAll(rs[|rs|..], common, types).1)
    ensures TagAll(rs, common, types) == (done, Pass)
  {
    assert rs[|rs|..] == [];
    assert done + [] == done;
  }

  /** The body of the walk for one resource, proved against `TagResource`, which specifies it. */
  method TagOne(r: Json, common: seq<Json>, types: seq<string>) returns (res: Result<Json>)
    requires forall i :: 0 <= i < |common| ==> WellFormedTag(common[i])
    ensures res == TagResource(r, common, types)
  {
    if !r.JObj? || !HasKey(r.members, "Type") || !Hashable(Get(r.members, "Type")) {
      return Err(Malformed("Type"));
    }
    var t := Get(r.members, "Type");
    if !(t.JStr? && t.s in types) {
      return Ok(r);
    }
    if !HasKey(r.members, "Properties") || !Get(r.members, "Properties").JObj? {
      return Err(Malformed("Properties"));
    }
    var ps := Get(r.members, "Properties").members;
    if !HasKey(ps, "Tags") {
      return Ok(JObj(Put(r.members, "Properties", JObj(Put(ps, "Tags", JArr(common))))));
    }
    var tags := Get(ps, "Tags");
    var merged: Result<Json>;
    if tags.JArr? {
      var ks := KeySet(tags.items);
      if ks.Err? {
        return Err(ks.error);
      }
      var items := AppendNewTags(tags.items, ks.value, common);
      merged := Ok(JArr(items));
    } else {
      merged := MergeTags(tags, common);
    }
    if merged.Err? {
      return Err(merged.error);
    }
    return Ok(JObj(Put(r.members, "Properties", JObj(Put(ps, "Tags", merged.value)))));
  }

  /** One common tag further: it is appended exactly when its key is new. */
  lemma NewTagsStep(existing: set<Json>, common: seq<Json>, i: nat)
    requires forall i :: 0 <= i < |common| ==> WellFormedTag(common[i])
    requires i < |common|
    ensures WellFormedTag(common[i])
    ensures NewTags(existing, common[i..])
         == (if TagKey(common[i]).value !in existing then [common[i]] else []) + NewTags(existing, common[i + 1..])
  {
    assert common[i..][0] == common[i] && common[i..][1..] == common[i + 1..];
  }

  /** The inner loop: every common tag whose key was not among the keys found before the loop is appended. */
  method AppendNewTags(items: seq<Json>, existing: set<Json>, common: seq<Json>) returns (r: seq<Json>)
    requires forall i :: 0 <= i < |common| ==> WellFormedTag(common[i])
    ensures r == items + NewTags(existing, common)
  {
    r := items;
    var i := 0;
    while i < |common|
      invariant 0 <= i <= |common|
      invariant r + NewTags(existing, common[i..]) == items + NewTags(existing, common)
    {
      NewTagsStep(existing, common, i);
      if TagKey(common[i]).value !in existing {
        r := r + [common[i]];
      }
      i := i + 1;
    }
    assert common[i..] == [];
  }

  // ---------------------------------------------------------------------------------------------
  // The cases the test suite exercises.
  // ---------------------------------------------------------------------------------------------

  const FirstLast: string := "{{ FIRST_NAME }} {{ LAST_NAME }}"

  lemma FirstLastPlaceholders()
    ensures FindPlaceholders(FirstLast) == [" FIRST_NAME ", " LAST_NAME "]
  {
    FirstLastShape(FirstLast, " FIRST_NAME ", " LAST_NAME ");
    FirstLastNames(" FIRST_NAME ", " LAST_NAME ");
    TwoPlaceholders(" FIRST_NAME ", " LAST_NAME ");
  }

  lemma FirstLastShape(text: string, a: string, b: string)
    requires text == FirstLast && a == " FIRST_NAME " && b == " LAST_NAME "
    ensures text == Braced(a) + [' '] + Braced(b)
  {
  }

  lemma FirstLastNames(a: string, b: string)
    requires a == " FIRST_NAME " && b == " LAST_NAME "
    ensures a != [] && ')' !in a && '}' !in a && b != [] && ')' !in b && '}' !in b
  {
  }

  /** Two placeholders separated by a space are both found, in order. */
  lemma TwoPlaceholders(a: string, b: string)
    requires a != [] && ')' !in a && '}' !in a && b != [] && ')' !in b && '}' !in b
    ensures FindPlaceholders(Braced(a) + [' '] + Braced(b)) == [a, b]
  {
    var second := Braced(b);
    assert Braced(a) + [' '] + second == Braced(a) + ([' '] + (second + ""));
    FindBraced(a, [' '] + (second + ""));
    SkipChar(' ', second + "");
    FindBraced(b, "");
    FindFromWithoutBraces("", 0);
  }

  lemma FirstKey()
    ensures Strip(" FIRST_NAME ") == "FIRST_NAME"
  {
    PaddedKey(" FIRST_NAME ", "FIRST_NAME");
  }

  lemma LastKey()
    ensures Strip(" LAST_NAME ") == "LAST_NAME"
  {
    PaddedKey(" LAST_NAME ", "LAST_NAME");
  }

  lemma PaddedKey(p: string, w: string)
    requires w != [] && 'A' <= w[0] <= 'Z' && 'A' <= w[|w| - 1] <= 'Z' && p == [' '] + w + [' ']
    ensures Strip(p) == w
  {
    StripPadded(w);
  }

  /** Data lacking either name, or holding one key that spans both placeholders, makes the call fail. */
  lemma FirstLastMissing(v: Json)
    ensures InjectVariable(FirstLast, [("FIRST_NAME", v)]).Err?
    ensures InjectVariable(FirstLast, [("LAST_NAME", v)]).Err?
    ensures InjectVariable(FirstLast, [("FIRST_NAME }} {{ LAST_NAME", v)]).Err?
  {
    FirstLastPlaceholders();
    FirstKey();
    LastKey();
    assert Keys([("FIRST_NAME", v)]) == ["FIRST_NAME"];
    MissingKeyFails(FirstLast, [("FIRST_NAME", v)], 1);
    assert Keys([("LAST_NAME", v)]) == ["LAST_NAME"];
    MissingKeyFails(FirstLast, [("LAST_NAME", v)], 0);
    assert Keys([("FIRST_NAME }} {{ LAST_NAME", v)]) == ["FIRST_NAME }} {{ LAST_NAME"];
    MissingKeyFails(FirstLast, [("FIRST_NAME }} {{ LAST_NAME", v)], 0);
  }

  /** Both names present: each placeholder is replaced by its value. */
  lemma FirstLastInjected(data: seq<(string, Json)>)
    requires data == [("FIRST_NAME", JStr("Obama")), ("LAST_NAME", JStr("Barrack"))]
    ensures InjectVariable(FirstLast, data) == Ok("Obama Barrack")
  {
    FirstLastPlaceholders();
    FirstLastSubstituted();
    InjectedClean();
    InjectVariableOf(FirstLast, data, [" FIRST_NAME ", " LAST_NAME "], "Obama Barrack");
  }

  lemma InjectedClean()
    ensures FindPlaceholders("Obama Barrack") == []
  {
    NoBraceChar("Obama Barrack");
    NoBracesNoPlaceholders("Obama Barrack");
  }

  lemma FirstLastSubstituted()
    ensures InjectAll(FirstLast, [" FIRST_NAME ", " LAST_NAME "],
                      [("FIRST_NAME", JStr("Obama")), ("LAST_NAME", JStr("Barrack"))]) == Ok("Obama Barrack")
  {
    var data := [("FIRST_NAME", JStr("Obama")), ("LAST_NAME", JStr("Barrack"))];
    var middle := "Obama " + Braced(" LAST_NAME ");
    FirstKey();
    LastKey();
    assert Keys(data) == ["FIRST_NAME", "LAST_NAME"];
    ReplaceFirst();
    InjectAllCons(FirstLast, " FIRST_NAME ", [" LAST_NAME "], data, "Obama");
    ReplaceLast();
    InjectAllCons(middle, " LAST_NAME ", [], data, "Barrack");
  }

  lemma InjectVariableOf(text: string, data: seq<(string, Json)>, names: seq<string>, t: string)
    requires FindPlaceholders(text) == names && InjectAll(text, names, data) == Ok(t) && FindPlaceholders(t) == []
    ensures InjectVariable(text, data) == Ok(t)
  {
  }

  lemma ReplaceFirst()
    ensures ReplaceAll(FirstLast, Braced(" FIRST_NAME "), "Obama") == "Obama " + Braced(" LAST_NAME ")
  {
    var first := Braced(" FIRST_NAME ");
    var rest := " " + Braced(" LAST_NAME ");
    assert FirstLast == first + rest;
    assert !Contains(rest, first) by {
      forall j | 0 <= j <= |rest| ensures !OccursAt(rest, first, j) {
        if j == 0 {
          assert rest[0] == ' ' && first[0] == '{';
          assert rest[0..|first|][0] == rest[0];
        }
      }
    }
    ReplaceLeading(first, rest, "Obama");
  }

  lemma ReplaceLast()
    ensures ReplaceAll("Obama " + Braced(" LAST_NAME "), Braced(" LAST_NAME "), "Barrack") == "Obama Barrack"
  {
    ReplaceTrailing("Obama ", Braced(" LAST_NAME "), "Barrack");
  }

  /** One substitution step of the loop. */
  lemma InjectAllCons(text: string, n: string, ns: seq<string>, data: seq<(string, Json)>, v: string)
    requires HasKey(data, Strip(n)) && Get(data, Strip(n)) == JStr(v)
    ensures InjectAll(text, [n] + ns, data) == InjectAll(ReplaceAll(text, Braced(n), v), ns, data)
  {
    var names := [n] + ns;
    assert names[0] == n && names[1..] == ns;
    assert Resolvable(data, names[0]);
  }

  /** Text without a `{` holds no `{{`. */
  lemma NoBraceChar(s: string)
    requires '{' !in s
    ensures !Contains(s, "{{")
  {
    forall j | 0 <= j <= |s| ensures !OccursAt(s, "{{", j) {
      if j < |s| {
        assert s[j] in s;
      }
    }
  }
}
