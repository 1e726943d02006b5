/** The `--parameter-overrides` argument of `aws cloudformation deploy` (`get_cf_parameter_overrides.py`): the
    template's parameters, in order, with their values from the config data, as `key=value` words. */
module Parameters {
  import opened Outcomes
  import opened Text
  import opened OrderedMaps
  import opened JsonValue

  /** `template.get("Parameters", dict()).keys()`: the declared parameter names, in template order. */
  function RequiredParameters(template: Json): Result<seq<string>> {
    match template
    case JObj(ms) =>
      if !HasKey(ms, "Parameters") then Ok([])
      else
        (match Get(ms, "Parameters")
         case JObj(ps) => Ok(Keys(ps))
         case _ => Err(Malformed("Parameters")))
    case _ => Err(Malformed("template"))
  }

  /** The selection loop over `keys`, as a fold from the left: each key is looked up in the config data and
      stored in the ordered result; the first missing key raises. */
  function Selected(keys: seq<string>, data: seq<(string, Json)>): Result<seq<(string, Json)>> {
    if keys == [] then Ok([])
    else
      var n := |keys| - 1;
      match Selected(keys[..n], data)
      case Err(e) => Err(e)
      case Ok(d) => if HasKey(data, keys[n]) then Ok(Put(d, keys[n], Get(data, keys[n]))) else Err(MissingParameter(keys[n]))
  }

  /** `get_parameters_data(template, data)`, with both files already parsed. */
  function ParametersData(template: Json, data: seq<(string, Json)>): Result<seq<(string, Json)>> {
    match RequiredParameters(template)
    case Err(e) => Err(e)
    case Ok(keys) => Selected(keys, data)
  }

  /** The loop of `get_parameters_data`, filling the ordered dictionary one parameter at a time. */
  method GetParametersData(template: Json, data: seq<(string, Json)>) returns (r: Result<seq<(string, Json)>>)
    ensures r == ParametersData(template, data)
  {
    var required := RequiredParameters(template);
    if required.Err? {
      return Err(required.error);
    }
    var keys := required.value;
    var parameters: seq<(string, Json)> := [];
    var i := 0;
    while i < |keys|
      invariant 0 <= i <= |keys|
      invariant Selected(keys[..i], data) == Ok(parameters)
    {
      assert keys[..i + 1][..i] == keys[..i];
      if !HasKey(data, keys[i]) {
        SelectedKeepsError(keys, i + 1, data);
        return Err(MissingParameter(keys[i]));
      }
      parameters := Put(parameters, keys[i], Get(data, keys[i]));
      i := i + 1;
    }
    assert keys[..i] == keys;
    return Ok(parameters);
  }

  /** Once a prefix of the keys fails, the whole selection fails with the same error. */
  lemma {:induction false} SelectedKeepsError(keys: seq<string>, k: nat, data: seq<(string, Json)>)
    requires k <= |keys| && Selected(keys[..k], data).Err?
    ensures Selected(keys, data) == Selected(keys[..k], data)
    decreases |keys| - k
  {
    if k < |keys| {
      assert keys[..k + 1][..k] == keys[..k];
      SelectedKeepsError(keys, k + 1, data);
    } else {
      assert keys[..k] == keys;
    }
  }

  /** The first key of `keys` that the data lacks, or `|keys|`. */
  function FirstMissing(keys: seq<string>, data: seq<(string, Json)>): (n: nat)
    ensures n <= |keys| && forall i :: 0 <= i < n ==> HasKey(data, keys[i])
    ensures n < |keys| ==> !HasKey(data, keys[n])
  {
    if keys == [] then 0
    else if !HasKey(data, keys[0]) then 0
    else
      var m := FirstMissing(keys[1..], data);
      assert forall i :: 1 <= i < m + 1 ==> keys[i] == keys[1..][i - 1];
      m + 1
  }

  /** The data holds every parameter. */
  predicate AllPresent(keys: seq<string>, data: seq<(string, Json)>) {
    forall k :: k in keys ==> HasKey(data, k)
  }

  /** The selection succeeds exactly when the data holds every parameter. */
  lemma {:induction false} SelectedOk(keys: seq<string>, data: seq<(string, Json)>)
    ensures Selected(keys, data).Ok? <==> AllPresent(keys, data)
  {
    if keys != [] {
      var n := |keys| - 1;
      var init := keys[..n];
      SelectedOk(init, data);
      assert keys == init + [keys[n]];
      assert AllPresent(keys, data) <==> AllPresent(init, data) && HasKey(data, keys[n]);
    }
  }

  /** Each parameter paired with its value in the data. */
  function Pairs(keys: seq<string>, data: seq<(string, Json)>): (r: seq<(string, Json)>)
    requires AllPresent(keys, data)
    ensures |r| == |keys| && Keys(r) == keys
    ensures forall i :: 0 <= i < |keys| ==> r[i] == (keys[i], Get(data, keys[i]))
  {
    var r := seq(|keys|, i requires 0 <= i < |keys| => assert keys[i] in keys; (keys[i], Get(data, keys[i])));
    assert Keys(r) == keys;
    r
  }

  /** With distinct parameter names all present in the data, the selection holds exactly the parameters, in
      template order, each with its value from the data, and nothing else from the data. */
  lemma {:induction false} SelectedPairs(keys: seq<string>, data: seq<(string, Json)>)
    requires forall i, j :: 0 <= i < j < |keys| ==> keys[i] != keys[j]
    requires AllPresent(keys, data)
    ensures Selected(keys, data) == Ok(Pairs(keys, data))
  {
    if keys != [] {
      var n := |keys| - 1;
      var init := keys[..n];
      assert HasKey(data, keys[n]) by { assert keys[n] in keys; }
      var v := Get(data, keys[n]);
      PairsInit(keys, data);
      var d := Pairs(init, data);
      assert Selected(init, data) == Ok(d) by {
        assert forall i, j :: 0 <= i < j < |init| ==> init[i] != init[j];
        SelectedPairs(init, data);
      }
      assert !HasKey(d, keys[n]) by {
        assert Keys(d) == init;
        assert forall i :: 0 <= i < n ==> init[i] != keys[n];
      }
      PutNew(d, keys[n], v);
      assert Selected(keys, data) == Ok(Put(d, keys[n], v));
    }
  }

  /** The pairs of all parameters are those of all but the last, then the last one's. */
  lemma PairsInit(keys: seq<string>, data: seq<(string, Json)>)
    requires AllPresent(keys, data) && |keys| > 0
    ensures AllPresent(keys[..|keys| - 1], data)
    ensures var n := |keys| - 1;
            Pairs(keys, data) == Pairs(keys[..n], data) + [(keys[n], Get(data, keys[n]))]
  {
    var n := |keys| - 1;
    var init := keys[..n];
    forall k | k in init ensures HasKey(data, k) {
      var i :| 0 <= i < n && init[i] == k;
      assert keys[i] == k;
    }
    assert keys[n] in keys;
    var a := Pairs(keys, data);
    var b := Pairs(init, data) + [(keys[n], Get(data, keys[n]))];
    forall i | 0 <= i < |keys| ensures a[i] == b[i] {
      if i < n {
        assert b[i] == Pairs(init, data)[i] == (init[i], Get(data, init[i]));
      }
    }
  }

  /** A failed selection names the first parameter the data lacks. */
  lemma {:induction false} SelectedError(keys: seq<string>, data: seq<(string, Json)>)
    requires Selected(keys, data).Err?
    ensures var m := FirstMissing(keys, data);
            m < |keys| && Selected(keys, data) == Err(MissingParameter(keys[m]))
  {
    var n := |keys| - 1;
    var init := keys[..n];
    if Selected(init, data).Ok? {
      SelectedOk(init, data);
      assert forall i :: 0 <= i < n ==> init[i] == keys[i];
      assert FirstMissing(keys, data) == n;
    } else {
      SelectedError(init, data);
      FirstMissingPrefix(keys, n, data);
    }
  }

  lemma FirstMissingPrefix(keys: seq<string>, k: nat, data: seq<(string, Json)>)
    requires k <= |keys| && FirstMissing(keys[..k], data) < k
    ensures FirstMissing(keys, data) == FirstMissing(keys[..k], data)
  {
    var a := FirstMissing(keys[..k], data);
    assert keys[..k][a] == keys[a];
    assert forall i :: 0 <= i < a ==> keys[..k][i] == keys[i];
  }

  /** A template without `Parameters` needs no parameters. */
  lemma NoParameters(ms: seq<(string, Json)>, data: seq<(string, Json)>)
    requires !HasKey(ms, "Parameters")
    ensures ParametersData(JObj(ms), data) == Ok([])
  {
  }

  /** The template's two parameters are taken from config data holding more keys. */
  lemma TwoParameters(template: Json, data: seq<(string, Json)>)
    requires template == JObj([("Parameters", JObj([("ProjectName", JObj([])), ("Stage", JObj([]))]))])
    requires data == [("ProjectName", JStr("config_lib")), ("Stage", JStr("dev")), ("Region", JStr("us-east-1"))]
    ensures ParametersData(template, data) == Ok([("ProjectName", JStr("config_lib")), ("Stage", JStr("dev"))])
  {
    var keys := ["ProjectName", "Stage"];
    var ps := [("ProjectName", JObj([])), ("Stage", JObj([]))];
    assert Keys([("Parameters", JObj(ps))]) == ["Parameters"];
    assert Keys(ps) == keys;
    assert RequiredParameters(template) == Ok(keys);
    assert UniqueKeys(data) by {
      assert Keys(data) == ["ProjectName", "Stage", "Region"];
    }
    GetAt(data, 0);
    GetAt(data, 1);
    assert AllPresent(keys, data);
    SelectedPairs(keys, data);
    assert Pairs(keys, data) == [("ProjectName", JStr("config_lib")), ("Stage", JStr("dev"))];
  }

  // ---------------------------------------------------------------------------------------------
  // The `key=value` argument string.
  // ---------------------------------------------------------------------------------------------

  /** `"{}={}".format(key, value)` for each parameter. */
  function Chunks(parameters: seq<(string, Json)>): (cs: seq<string>)
    ensures |cs| == |parameters|
    ensures forall i :: 0 <= i < |parameters| ==> cs[i] == parameters[i].0 + "=" + PyStr(parameters[i].1)
  {
    seq(|parameters|, i requires 0 <= i < |parameters| => parameters[i].0 + "=" + PyStr(parameters[i].1))
  }

  /** The `__main__` block: one chunk per parameter appended in order, then joined with single spaces. */
  method OverrideArgs(parameters: seq<(string, Json)>) returns (arg: string)
    ensures arg == Join(Chunks(parameters), " ")
  {
    var chunks: seq<string> := [];
    var i := 0;
    while i < |parameters|
      invariant 0 <= i <= |parameters|
      invariant chunks == Chunks(parameters[..i])
    {
      chunks := chunks + [parameters[i].0 + "=" + PyStr(parameters[i].1)];
      i := i + 1;
    }
    assert parameters[..i] == parameters;
    arg := Join(chunks, " ");
  }

  /** When no name or value holds a space, splitting the argument on spaces gives back one `key=value` word per
      parameter, in order, each starting with its name and `=`. */
  lemma OverrideArgsWords(parameters: seq<(string, Json)>)
    requires |parameters| >= 1
    requires forall i :: 0 <= i < |parameters| ==> ' ' !in parameters[i].0 && ' ' !in PyStr(parameters[i].1)
    ensures var words := Split(Join(Chunks(parameters), " "), " ");
            && |words| == |parameters|
            && forall i :: 0 <= i < |parameters| ==>
                 var k := parameters[i].0;
                 |k| < |words[i]| && words[i][..|k|] == k && words[i][|k|] == '=' && words[i][|k| + 1..] == PyStr(parameters[i].1)
  {
    var cs := Chunks(parameters);
    forall x | x in cs ensures ' ' !in x {
      var i :| 0 <= i < |cs| && cs[i] == x;
      assert x == parameters[i].0 + "=" + PyStr(parameters[i].1);
    }
    assert " " == [' '];
    SplitJoin(cs, ' ');
  }

  /** No parameters give an empty argument. */
  lemma NoOverrides()
    ensures Join(Chunks([]), " ") == ""
  {
  }
}
