/** Config instances (`BaseConfigClass`): the field table of a config class, construction from keyword
    arguments, `from_dict`, `update`, `to_dict`, `validate` and the per-tool exports. Field objects belong to
    the class, so every instance of a class works on the same field table and construction rebinds it. */
module ConfigLib {
  import opened Outcomes
  import opened Text
  import opened OrderedMaps
  import opened JsonValue
  import opened Fields
  import opened Registry

  /** A config class: its field registry and the two views, fixed when the class is created. */
  class Schema {
    const declared: seq<Entry>
    const constants: seq<Entry>
    const derivables: seq<Entry>

    /** `ConfigMeta.__new__`: the registry of a class from its ancestors' attributes and its own. */
    constructor (ancestors: seq<seq<Attr>>, own: seq<Attr>)
      requires forall i, j :: 0 <= i < j < |Declared(ancestors, own)| ==>
                 Declared(ancestors, own)[i].1 != Declared(ancestors, own)[j].1
      ensures declared == Declared(ancestors, own)
      ensures constants == ConstantView(declared) && derivables == DerivableView(declared)
      ensures Valid()
    {
      DeclaredSpec(ancestors, own);
      declared := Declared(ancestors, own);
      constants := ConstantView(Declared(ancestors, own));
      derivables := DerivableView(Declared(ancestors, own));
    }

    function Fields(): set<Field> {
      set i | 0 <= i < |declared| :: declared[i].1
    }

    /** Names are declared once, no field object is declared under two names, and the views are those of
        the registry. */
    predicate Valid() {
      && UniqueKeys(declared)
      && (forall i, j :: 0 <= i < j < |declared| ==> declared[i].1 != declared[j].1)
      && constants == ConstantView(declared)
      && derivables == DerivableView(declared)
    }

    /** The stored value of every declared field: what a getter is given to read its config from. */
    function Stored(): (env: Snapshot)
      reads Fields()
      ensures |env| == |declared|
      ensures forall i :: 0 <= i < |declared| ==> env[i] == (declared[i].0, declared[i].1.value)
    {
      seq(|declared|, i requires 0 <= i < |declared| reads Fields() => (declared[i].0, declared[i].1.value))
    }

    /** The state of every declared field, in declared order. */
    function States(): (ss: seq<(string, FieldState)>)
      reads Fields()
      ensures |ss| == |declared|
      ensures forall i :: 0 <= i < |declared| ==> ss[i] == (declared[i].0, declared[i].1.State())
    {
      seq(|declared|, i requires 0 <= i < |declared| reads Fields() => (declared[i].0, declared[i].1.State()))
    }
  }

  /** A config object. Its values live in the fields of its class. */
  class Config {
    const schema: Schema

    constructor (schema: Schema)
      ensures this.schema == schema
    {
      this.schema := schema;
    }

    /** `update(dct)`: each key that names a constant sets that constant; other keys are ignored. A key that
        occurs twice counts with its last value. */
    method Update(dct: seq<(string, Json)>)
      requires schema.Valid()
      modifies schema.Fields()`value
      ensures forall j :: 0 <= j < |schema.declared| ==>
                schema.declared[j].1.value == Updated(schema.declared[j], dct, old(schema.declared[j].1.value))
    {
      var d := schema.declared;
      for k := 0 to |dct|
        invariant forall j :: 0 <= j < |d| ==> d[j].1.value == Updated(d[j], dct[..k], old(d[j].1.value))
      {
        var (key, value) := dct[k];
        assert dct[..k + 1] == dct[..k] + [(key, value)];
        forall j | 0 <= j < |d|
          ensures Updated(d[j], dct[..k + 1], old(d[j].1.value)) ==
                    if d[j].1.kind == Constant && d[j].0 == key then value else Updated(d[j], dct[..k], old(d[j].1.value))
        {
          UpdatedSnoc(d[j], dct[..k], key, value, old(d[j].1.value));
        }
        SetConstant(key, value);
      }
      assert dct[..|dct|] == dct;
    }

    /** One pair of `update`: the constant the key names, if any, takes the value. */
    method SetConstant(key: string, value: Json)
      requires schema.Valid()
      modifies schema.Fields()`value
      ensures forall j :: 0 <= j < |schema.declared| ==>
                schema.declared[j].1.value ==
                  if schema.declared[j].1.kind == Constant && schema.declared[j].0 == key then value
                  else old(schema.declared[j].1.value)
    {
      var d := schema.declared;
      ViewsPartition(d);
      if HasKey(schema.constants, key) {
        var f := Get(schema.constants, key);
        var p := Position(Keys(d), key);
        GetAt(d, p);
        assert forall j :: 0 <= j < |d| && j != p ==> d[j].0 != key && d[j].1 != f;
        var o := f.SetValue(value);
      } else {
        forall j | 0 <= j < |d| ensures !(d[j].1.kind == Constant && d[j].0 == key) {
          GetAt(d, j);
        }
      }
    }

    /** `to_dict(check_dont_dump, check_printable)`: reads every declared field in order; a field that
        signals dont-dump is left out, any other error aborts the dump. */
    method ToDict(checkDontDump: bool, checkPrintable: bool) returns (r: Result<seq<(string, Json)>>)
      ensures r == Dump(schema.States(), checkDontDump, checkPrintable, schema.Stored())
    {
      var d := schema.declared;
      var es := schema.States();
      var env := schema.Stored();
      var dct: seq<(string, Json)> := [];
      for i := 0 to |d|
        invariant es == schema.States() && env == schema.Stored()
        invariant Dump(es[..i], checkDontDump, checkPrintable, env) == Ok(dct)
      {
        var v := d[i].1.GetValue(checkDontDump, checkPrintable, env);
        assert v == ValueOf(es[i].1, checkDontDump, checkPrintable, env);
        DumpNext(es, i, checkDontDump, checkPrintable, env);
        match v
        case Ok(x) =>
          dct := Put(dct, d[i].0, x);
        case Err(e) =>
          if e != DontDumpSignal {
            assert Aborts(ValueOf(es[i].1, checkDontDump, checkPrintable, env));
            assert Dump(es, checkDontDump, checkPrintable, env) == Err(e);
            assert es == schema.States() && env == schema.Stored();
            return Err(e);
          }
      }
      assert es[..|d|] == es;
      return Ok(dct);
    }

    /** `validate()`: every constant, then every derivable, is validated; the first failure is raised. */
    method Validate() returns (o: Outcome)
      ensures o == CheckAll(Checks(schema.constants) + Checks(schema.derivables), schema.Stored())
    {
      var env := schema.Stored();
      ghost var a := Checks(schema.constants);
      ghost var b := Checks(schema.derivables);
      CheckAllAppend(a, b, env);
      o := RunChecks(schema.constants, env);
      if o.Pass? {
        o := RunChecks(schema.derivables, env);
      }
      assert a == Checks(schema.constants) && b == Checks(schema.derivables) && env == schema.Stored();
    }

    /** `to_python_json_config_data()`, `to_cloudformation_config_data()` and the others: `to_dict()` with its
        defaults, with BigCamelCase keys for CloudFormation. */
    method ConfigData(format: Format) returns (r: Result<seq<(string, Json)>>)
      ensures r == Export(format, Dump(schema.States(), true, false, schema.Stored()))
    {
      r := ToDict(true, false);
      if r.Ok? && format == CloudFormation {
        r := CloudFormationData(r.value);
      }
    }
  }

  /** The value a field holds after `update(dct)` from `before`. */
  function Updated(e: Entry, dct: seq<(string, Json)>, before: Json): Json {
    if e.1.kind == Constant && HasKey(dct, e.0) then LastValue(dct, e.0) else before
  }

  /** One more pair for `update`: a constant named by its key takes its value, every other field keeps the
      value it had. */
  lemma UpdatedSnoc(e: Entry, dct: seq<(string, Json)>, key: string, value: Json, before: Json)
    ensures Updated(e, dct + [(key, value)], before) ==
              if e.1.kind == Constant && e.0 == key then value else Updated(e, dct, before)
  {
    LastValueSnoc(dct, key, value, e.0);
  }

  /** A keyword argument for a derivable: construction refuses it. */
  predicate Refused(e: Entry, kwargs: seq<(string, Json)>) {
    e.1.kind == Derivable && HasKey(kwargs, e.0)
  }

  /** Where construction stops: the first declared field that refuses its keyword argument, or the number of
      fields when none does. */
  function FirstRefused(declared: seq<Entry>, kwargs: seq<(string, Json)>): (n: nat)
    ensures n <= |declared|
    ensures forall j :: 0 <= j < n ==> !Refused(declared[j], kwargs)
    ensures n < |declared| ==> Refused(declared[n], kwargs)
  {
    if declared == [] then 0
    else if Refused(declared[0], kwargs) then 0
    else 1 + FirstRefused(declared[1..], kwargs)
  }

  /** The value a field holds after construction has passed it. */
  function Assigned(e: Entry, kwargs: seq<(string, Json)>, before: Json): Json {
    if HasKey(kwargs, e.0) then LastValue(kwargs, e.0) else before
  }

  /** `cls(**kwargs)`: walks the declared fields in order, sets each named one and binds it to the new config.
      A derivable among the arguments raises after the fields before it were set and bound. */
  method New(schema: Schema, kwargs: seq<(string, Json)>) returns (r: Result<Config>)
    requires schema.Valid()
    modifies schema.Fields()`value, schema.Fields()`owner
    ensures r.Ok? <==> FirstRefused(schema.declared, kwargs) == |schema.declared|
    ensures r.Err? ==> r.error == DerivableSetValue
    ensures r.Ok? ==> fresh(r.value) && r.value.schema == schema
    ensures forall j :: 0 <= j < FirstRefused(schema.declared, kwargs) ==>
              && schema.declared[j].1.value == Assigned(schema.declared[j], kwargs, old(schema.declared[j].1.value))
              && schema.declared[j].1.owner != null && fresh(schema.declared[j].1.owner)
              && (r.Ok? ==> schema.declared[j].1.owner == r.value)
    ensures forall j :: FirstRefused(schema.declared, kwargs) <= j < |schema.declared| ==>
              && schema.declared[j].1.value == old(schema.declared[j].1.value)
              && schema.declared[j].1.owner == old(schema.declared[j].1.owner)
  {
    var d := schema.declared;
    var c := new Config(schema);
    var i := 0;
    while i < |d|
      invariant 0 <= i <= |d|
      invariant forall j :: 0 <= j < i ==> !Refused(d[j], kwargs)
      invariant forall j :: 0 <= j < i ==> d[j].1.value == Assigned(d[j], kwargs, old(d[j].1.value))
      invariant forall j :: 0 <= j < i ==> d[j].1.owner == c
      invariant forall j :: i <= j < |d| ==> d[j].1.value == old(d[j].1.value) && d[j].1.owner == old(d[j].1.owner)
    {
      assert forall j :: 0 <= j < |d| && j != i ==> d[j].1 != d[i].1;
      var o := Bind(d[i], kwargs, c);
      if o.Fail? {
        FirstRefusedAt(d, kwargs, i);
        return Err(o.error);
      }
      i := i + 1;
    }
    FirstRefusedAt(d, kwargs, |d|);
    return Ok(c);
  }

  /** One pass of the constructor's loop: the field takes its keyword argument, if any, and is bound to the
      new config; a derivable given an argument raises before it is bound. */
  method Bind(e: Entry, kwargs: seq<(string, Json)>, c: Config) returns (o: Outcome)
    modifies e.1`value, e.1`owner
    ensures o.Fail? <==> Refused(e, kwargs)
    ensures o.Fail? ==> o.error == DerivableSetValue && e.1.value == old(e.1.value) && e.1.owner == old(e.1.owner)
    ensures o.Pass? ==> e.1.value == Assigned(e, kwargs, old(e.1.value)) && e.1.owner == c
  {
    o := Pass;
    if HasKey(kwargs, e.0) {
      o := e.1.SetValue(LastValue(kwargs, e.0));
      if o.Fail? {
        return;
      }
    }
    e.1.owner := c;
  }

  lemma {:induction false} FirstRefusedAt(declared: seq<Entry>, kwargs: seq<(string, Json)>, i: nat)
    requires i <= |declared| && forall j :: 0 <= j < i ==> !Refused(declared[j], kwargs)
    requires i < |declared| ==> Refused(declared[i], kwargs)
    ensures FirstRefused(declared, kwargs) == i
  {
    if declared != [] && i > 0 {
      FirstRefusedAt(declared[1..], kwargs, i - 1);
    }
  }

  /** `from_dict(dct)`: a config built without arguments, then updated from `dct`. */
  method FromDict(schema: Schema, dct: seq<(string, Json)>) returns (c: Config)
    requires schema.Valid()
    modifies schema.Fields()`value, schema.Fields()`owner
    ensures fresh(c) && c.schema == schema
    ensures forall j :: 0 <= j < |schema.declared| ==> schema.declared[j].1.owner == c
    ensures forall j :: 0 <= j < |schema.declared| ==>
              schema.declared[j].1.value == Updated(schema.declared[j], dct, old(schema.declared[j].1.value))
  {
    NoArgumentsRefused(schema.declared);
    var r := New(schema, []);
    c := r.value;
    c.Update(dct);
  }

  lemma {:induction false} NoArgumentsRefused(declared: seq<Entry>)
    ensures FirstRefused(declared, []) == |declared|
  {
    if declared != [] {
      NoArgumentsRefused(declared[1..]);
    }
  }

  // ---------------------------------------------------------------------------------------------
  // Dumping.
  // ---------------------------------------------------------------------------------------------

  /** A read that stops a dump: any error but the dont-dump signal, which only leaves the field out. */
  predicate Aborts(r: Result<Json>) {
    r.Err? && r.error != DontDumpSignal
  }

  /** The dictionary `to_dict` builds from the field states, or the error that stopped it. */
  function Dump(es: seq<(string, FieldState)>, cdd: bool, cp: bool, env: Snapshot): Result<seq<(string, Json)>> {
    if es == [] then Ok([])
    else
      var last := es[|es| - 1];
      match Dump(es[..|es| - 1], cdd, cp, env)
      case Err(e) => Err(e)
      case Ok(d) =>
        match ValueOf(last.1, cdd, cp, env)
        case Ok(v) => Ok(Put(d, last.0, v))
        case Err(e) => if e == DontDumpSignal then Ok(d) else Err(e)
  }

  /** Once a prefix of the fields aborts the dump, the whole dump fails with the same error. */
  lemma {:induction false} DumpKeepsError(es: seq<(string, FieldState)>, k: nat, cdd: bool, cp: bool, env: Snapshot)
    requires k <= |es| && Dump(es[..k], cdd, cp, env).Err?
    ensures Dump(es, cdd, cp, env) == Dump(es[..k], cdd, cp, env)
    decreases |es| - k
  {
    if k < |es| {
      assert es[..k + 1][..k] == es[..k];
      DumpKeepsError(es, k + 1, cdd, cp, env);
    } else {
      assert es[..k] == es;
    }
  }

  /** One more field read: a value is added, the dont-dump signal skips the field, any other error is the
      result of the whole dump. */
  lemma DumpNext(es: seq<(string, FieldState)>, i: nat, cdd: bool, cp: bool, env: Snapshot)
    requires i < |es| && Dump(es[..i], cdd, cp, env).Ok?
    ensures var d := Dump(es[..i], cdd, cp, env).value;
            var r := ValueOf(es[i].1, cdd, cp, env);
            && (r.Ok? ==> Dump(es[..i + 1], cdd, cp, env) == Ok(Put(d, es[i].0, r.value)))
            && (r == Err(DontDumpSignal) ==> Dump(es[..i + 1], cdd, cp, env) == Ok(d))
            && (Aborts(r) ==> Dump(es, cdd, cp, env) == Err(r.error))
  {
    assert es[..i + 1][..i] == es[..i];
    assert es[..i + 1][i] == es[i];
    if Aborts(ValueOf(es[i].1, cdd, cp, env)) {
      DumpKeepsError(es, i + 1, cdd, cp, env);
    }
  }

  /** The dump fails exactly when some field aborts it, and then with the error of the first such field. */
  lemma {:induction false} DumpFails(es: seq<(string, FieldState)>, cdd: bool, cp: bool, env: Snapshot)
    ensures Dump(es, cdd, cp, env).Err? <==> exists i :: 0 <= i < |es| && Aborts(ValueOf(es[i].1, cdd, cp, env))
    ensures Dump(es, cdd, cp, env).Err? ==>
              exists i :: 0 <= i < |es| && ValueOf(es[i].1, cdd, cp, env) == Err(Dump(es, cdd, cp, env).error)
                          && Aborts(ValueOf(es[i].1, cdd, cp, env))
                          && forall j :: 0 <= j < i ==> !Aborts(ValueOf(es[j].1, cdd, cp, env))
  {
    if es != [] {
      DumpFails(es[..|es| - 1], cdd, cp, env);
      FailsStep(es, cdd, cp, env);
    }
  }

  /** The inductive step of `DumpFails`, with the property of all fields but the last as a premise. */
  lemma FailsStep(es: seq<(string, FieldState)>, cdd: bool, cp: bool, env: Snapshot)
    requires |es| > 0
    requires var init := es[..|es| - 1];
             && (Dump(init, cdd, cp, env).Err? <==> exists i :: 0 <= i < |init| && Aborts(ValueOf(init[i].1, cdd, cp, env)))
             && (Dump(init, cdd, cp, env).Err? ==>
                   exists i :: 0 <= i < |init| && ValueOf(init[i].1, cdd, cp, env) == Err(Dump(init, cdd, cp, env).error)
                               && Aborts(ValueOf(init[i].1, cdd, cp, env))
                               && forall j :: 0 <= j < i ==> !Aborts(ValueOf(init[j].1, cdd, cp, env)))
    ensures Dump(es, cdd, cp, env).Err? <==> exists i :: 0 <= i < |es| && Aborts(ValueOf(es[i].1, cdd, cp, env))
    ensures Dump(es, cdd, cp, env).Err? ==>
              exists i :: 0 <= i < |es| && ValueOf(es[i].1, cdd, cp, env) == Err(Dump(es, cdd, cp, env).error)
                          && Aborts(ValueOf(es[i].1, cdd, cp, env))
                          && forall j :: 0 <= j < i ==> !Aborts(ValueOf(es[j].1, cdd, cp, env))
  {
    var n := |es| - 1;
    var init := es[..n];
    var di := Dump(init, cdd, cp, env);
    var r := ValueOf(es[n].1, cdd, cp, env);
    if di.Err? {
      assert Dump(es, cdd, cp, env) == di;
      var i :| 0 <= i < n && ValueOf(init[i].1, cdd, cp, env) == Err(di.error)
               && Aborts(ValueOf(init[i].1, cdd, cp, env))
               && forall j :: 0 <= j < i ==> !Aborts(ValueOf(init[j].1, cdd, cp, env));
      assert init[i] == es[i];
      assert forall j :: 0 <= j < i ==> init[j] == es[j];
    } else {
      forall j | 0 <= j < n ensures !Aborts(ValueOf(es[j].1, cdd, cp, env)) {
        assert init[j] == es[j];
      }
      if Aborts(r) {
        assert Dump(es, cdd, cp, env) == Err(r.error);
      } else {
        assert Dump(es, cdd, cp, env).Ok?;
      }
    }
  }

  /** A successful dump only holds declared names, each once. */
  lemma {:induction false} DumpKeysIn(es: seq<(string, FieldState)>, cdd: bool, cp: bool, env: Snapshot)
    requires Dump(es, cdd, cp, env).Ok?
    ensures UniqueKeys(Dump(es, cdd, cp, env).value)
    ensures forall k :: HasKey(Dump(es, cdd, cp, env).value, k) ==> HasKey(es, k)
  {
    if es != [] {
      var n := |es| - 1;
      var init := es[..n];
      DumpKeysIn(init, cdd, cp, env);
      KeysAppend(init, [es[n]]);
      assert init + [es[n]] == es;
      var d0 := Dump(init, cdd, cp, env).value;
      if ValueOf(es[n].1, cdd, cp, env).Ok? {
        UniqueKeysPut(d0, es[n].0, ValueOf(es[n].1, cdd, cp, env).value);
      }
    }
  }

  /** One more field: the dump grows by that field's pair when its read succeeds and stays as it was when
      the field signals dont-dump. */
  lemma DumpSnoc(es: seq<(string, FieldState)>, cdd: bool, cp: bool, env: Snapshot)
    requires |es| > 0 && UniqueKeys(es) && Dump(es, cdd, cp, env).Ok?
    ensures var n := |es| - 1;
            var d0 := Dump(es[..n], cdd, cp, env);
            var r := ValueOf(es[n].1, cdd, cp, env);
            && d0.Ok? && !HasKey(d0.value, es[n].0)
            && Dump(es, cdd, cp, env).value == if r.Ok? then d0.value + [(es[n].0, r.value)] else d0.value
  {
    var n := |es| - 1;
    UniqueInit(es);
    DumpKeysIn(es[..n], cdd, cp, env);
  }

  /** A successful dump holds exactly the fields whose read succeeded, each with the value read. */
  lemma {:induction false} DumpMembers(es: seq<(string, FieldState)>, cdd: bool, cp: bool, env: Snapshot)
    requires UniqueKeys(es) && Dump(es, cdd, cp, env).Ok?
    ensures forall i :: 0 <= i < |es| ==>
              (HasKey(Dump(es, cdd, cp, env).value, es[i].0) <==> ValueOf(es[i].1, cdd, cp, env).Ok?)
    ensures forall i :: 0 <= i < |es| && ValueOf(es[i].1, cdd, cp, env).Ok? ==>
              Get(Dump(es, cdd, cp, env).value, es[i].0) == ValueOf(es[i].1, cdd, cp, env).value
  {
    if es != [] {
      var init := es[..|es| - 1];
      DumpSnoc(es, cdd, cp, env);
      UniqueInit(es);
      DumpMembers(init, cdd, cp, env);
      MembersStep(es, cdd, cp, env);
    }
  }

  /** The inductive step of `DumpMembers`, with the property of all fields but the last as a premise. */
  lemma MembersStep(es: seq<(string, FieldState)>, cdd: bool, cp: bool, env: Snapshot)
    requires |es| > 0 && UniqueKeys(es) && Dump(es, cdd, cp, env).Ok?
    requires var init := es[..|es| - 1];
             && Dump(init, cdd, cp, env).Ok?
             && (forall i :: 0 <= i < |init| ==>
                   (HasKey(Dump(init, cdd, cp, env).value, init[i].0) <==> ValueOf(init[i].1, cdd, cp, env).Ok?))
             && (forall i :: 0 <= i < |init| && ValueOf(init[i].1, cdd, cp, env).Ok? ==>
                   Get(Dump(init, cdd, cp, env).value, init[i].0) == ValueOf(init[i].1, cdd, cp, env).value)
    ensures forall i :: 0 <= i < |es| ==>
              (HasKey(Dump(es, cdd, cp, env).value, es[i].0) <==> ValueOf(es[i].1, cdd, cp, env).Ok?)
    ensures forall i :: 0 <= i < |es| && ValueOf(es[i].1, cdd, cp, env).Ok? ==>
              Get(Dump(es, cdd, cp, env).value, es[i].0) == ValueOf(es[i].1, cdd, cp, env).value
  {
    var n := |es| - 1;
    var init := es[..n];
    DumpSnoc(es, cdd, cp, env);
    var d0 := Dump(init, cdd, cp, env).value;
    var d := Dump(es, cdd, cp, env).value;
    var r := ValueOf(es[n].1, cdd, cp, env);
    var k := es[n].0;
    assert r.Ok? ==> d == Put(d0, k, r.value);
    assert !r.Ok? ==> d == d0;
    forall i | 0 <= i < |es|
      ensures HasKey(d, es[i].0) <==> ValueOf(es[i].1, cdd, cp, env).Ok?
      ensures ValueOf(es[i].1, cdd, cp, env).Ok? ==> Get(d, es[i].0) == ValueOf(es[i].1, cdd, cp, env).value
    {
      if i < n {
        assert init[i] == es[i];
        assert es[i].0 != k;
      }
    }
  }

  /** A successful dump lists its names in declared order. */
  lemma {:induction false} DumpOrder(es: seq<(string, FieldState)>, cdd: bool, cp: bool, env: Snapshot)
    requires UniqueKeys(es) && Dump(es, cdd, cp, env).Ok?
    ensures var d := Dump(es, cdd, cp, env).value;
            forall i, j :: 0 <= i < j < |es| && HasKey(d, es[i].0) && HasKey(d, es[j].0) ==>
              Position(Keys(d), es[i].0) < Position(Keys(d), es[j].0)
  {
    if es != [] {
      DumpSnoc(es, cdd, cp, env);
      UniqueInit(es);
      DumpOrder(es[..|es| - 1], cdd, cp, env);
      OrderStep(es, cdd, cp, env);
    }
  }

  /** The inductive step of `DumpOrder`, with the order of all fields but the last as a premise. */
  lemma OrderStep(es: seq<(string, FieldState)>, cdd: bool, cp: bool, env: Snapshot)
    requires |es| > 0 && UniqueKeys(es) && Dump(es, cdd, cp, env).Ok?
    requires var init := es[..|es| - 1];
             && Dump(init, cdd, cp, env).Ok?
             && var d0 := Dump(init, cdd, cp, env).value;
                forall i, j :: 0 <= i < j < |init| && HasKey(d0, init[i].0) && HasKey(d0, init[j].0) ==>
                  Position(Keys(d0), init[i].0) < Position(Keys(d0), init[j].0)
    ensures var d := Dump(es, cdd, cp, env).value;
            forall i, j :: 0 <= i < j < |es| && HasKey(d, es[i].0) && HasKey(d, es[j].0) ==>
              Position(Keys(d), es[i].0) < Position(Keys(d), es[j].0)
  {
    var n := |es| - 1;
    var init := es[..n];
    DumpSnoc(es, cdd, cp, env);
    UniqueInit(es);
    var d0 := Dump(init, cdd, cp, env).value;
    var d := Dump(es, cdd, cp, env).value;
    if d != d0 {
      var x := d[|d0|];
      assert d == d0 + [x] && x.0 == es[n].0;
      AppendKey(d0, x.0, x.1);
      forall i, j | 0 <= i < j < |es| && HasKey(d, es[i].0) && HasKey(d, es[j].0)
        ensures Position(Keys(d), es[i].0) < Position(Keys(d), es[j].0)
      {
        assert init[i] == es[i] && es[i].0 != x.0;
        assert HasKey(d0, es[i].0);
        if j < n {
          assert init[j] == es[j] && es[j].0 != x.0;
          assert HasKey(d0, es[j].0);
        } else {
          assert Position(Keys(d), es[j].0) == |d0|;
        }
      }
    } else {
      forall i, j | 0 <= i < j < |es| && HasKey(d, es[i].0) && HasKey(d, es[j].0)
        ensures Position(Keys(d), es[i].0) < Position(Keys(d), es[j].0)
      {
        assert init[i] == es[i];
        if j == n {
          assert false;
        }
        assert init[j] == es[j];
      }
    }
  }

  /** A successful dump holds exactly the fields whose read succeeded, each with the value read, in declared
      order. */
  lemma DumpContents(es: seq<(string, FieldState)>, cdd: bool, cp: bool, env: Snapshot)
    requires UniqueKeys(es) && Dump(es, cdd, cp, env).Ok?
    ensures var d := Dump(es, cdd, cp, env).value;
            && UniqueKeys(d)
            && (forall k :: HasKey(d, k) ==> HasKey(es, k))
            && (forall i :: 0 <= i < |es| ==> (HasKey(d, es[i].0) <==> ValueOf(es[i].1, cdd, cp, env).Ok?))
            && (forall i :: 0 <= i < |es| && HasKey(d, es[i].0) ==> Get(d, es[i].0) == ValueOf(es[i].1, cdd, cp, env).value)
            && (forall i, j :: 0 <= i < j < |es| && HasKey(d, es[i].0) && HasKey(d, es[j].0) ==>
                  Position(Keys(d), es[i].0) < Position(Keys(d), es[j].0))
  {
    DumpKeysIn(es, cdd, cp, env);
    DumpMembers(es, cdd, cp, env);
    DumpOrder(es, cdd, cp, env);
  }

  /** With the dont-dump check on, a successful dump never holds a field marked `dont_dump`. */
  lemma DumpOmitsDontDump(es: seq<(string, FieldState)>, cp: bool, env: Snapshot)
    requires UniqueKeys(es) && Dump(es, true, cp, env).Ok?
    ensures forall i :: 0 <= i < |es| && es[i].1.dontDump ==> !HasKey(Dump(es, true, cp, env).value, es[i].0)
  {
    DumpContents(es, true, cp, env);
  }

  /** The stored values of the fields, under their names, in the given order. */
  function StoredPairs(es: seq<(string, FieldState)>): (r: seq<(string, Json)>)
    ensures |r| == |es| && forall i :: 0 <= i < |es| ==> r[i] == (es[i].0, es[i].1.value)
  {
    seq(|es|, i requires 0 <= i < |es| => (es[i].0, es[i].1.value))
  }

  /** With both checks off, a dump of bound fields without getters is the stored values, in declared order. */
  lemma {:induction false} DumpStored(es: seq<(string, FieldState)>, env: Snapshot)
    requires UniqueKeys(es)
    requires forall i :: 0 <= i < |es| ==> es[i].1.bound && es[i].1.getter.None?
    ensures Dump(es, false, false, env) == Ok(StoredPairs(es))
  {
    if es != [] {
      var n := |es| - 1;
      UniqueInit(es);
      assert forall i :: 0 <= i < n ==> es[..n][i] == es[i];
      DumpStored(es[..n], env);
      StoredPairsKeys(es[..n]);
      DumpAppendStored(es, env);
      StoredPairsSnoc(es);
    }
  }

  /** `from_dict(to_dict(check_dont_dump))`: whenever the dump succeeds, loading it back leaves every field's
      value as it was. A dumped constant's value is its stored value, since constants have no getter; a
      constant held back by `dont_dump` is absent and keeps its value; derivables ignore the dictionary. */
  lemma DumpLoadRoundTrip(schema: Schema, cdd: bool)
    requires schema.Valid()
    requires forall i :: 0 <= i < |schema.declared| && schema.declared[i].1.kind == Constant ==>
               schema.declared[i].1.getter.None?
    requires Dump(schema.States(), cdd, false, schema.Stored()).Ok?
    ensures forall j :: 0 <= j < |schema.declared| ==>
              Updated(schema.declared[j], Dump(schema.States(), cdd, false, schema.Stored()).value,
                      schema.declared[j].1.value) == schema.declared[j].1.value
  {
    var es := schema.States();
    assert UniqueKeys(es) by {
      assert forall i :: 0 <= i < |es| ==> es[i].0 == schema.declared[i].0;
    }
    DumpContents(es, cdd, false, schema.Stored());
    var d := Dump(es, cdd, false, schema.Stored()).value;
    forall j | 0 <= j < |schema.declared|
      ensures Updated(schema.declared[j], d, schema.declared[j].1.value) == schema.declared[j].1.value
    {
      var e := schema.declared[j];
      if e.1.kind == Constant && HasKey(d, e.0) {
        assert es[j].0 == e.0 && es[j].1 == e.1.State();
        LastIsBound(d, e.0);
      }
    }
  }

  /** In a dictionary the last value of a key is the value `Get` finds. */
  lemma LastIsBound(d: seq<(string, Json)>, k: string)
    requires UniqueKeys(d) && HasKey(d, k)
    ensures LastValue(d, k) == Get(d, k)
  {
    var p := Position(Keys(d), k);
    GetAt(d, p);
    LastValueUnique(d, p);
  }

  lemma StoredPairsKeys(es: seq<(string, FieldState)>)
    ensures Keys(StoredPairs(es)) == Keys(es)
  {
  }

  lemma StoredPairsSnoc(es: seq<(string, FieldState)>)
    requires |es| > 0
    ensures StoredPairs(es) == StoredPairs(es[..|es| - 1]) + [(es[|es| - 1].0, es[|es| - 1].1.value)]
  {
  }

  lemma DumpAppendStored(es: seq<(string, FieldState)>, env: Snapshot)
    requires |es| > 0 && Dump(es[..|es| - 1], false, false, env).Ok?
    requires es[|es| - 1].1.bound && es[|es| - 1].1.getter.None?
    requires !HasKey(Dump(es[..|es| - 1], false, false, env).value, es[|es| - 1].0)
    ensures Dump(es, false, false, env)
         == Ok(Dump(es[..|es| - 1], false, false, env).value + [(es[|es| - 1].0, es[|es| - 1].1.value)])
  {
    var n := |es| - 1;
    StoredValue(es[n].1, false, false, env);
    PutNew(Dump(es[..n], false, false, env).value, es[n].0, es[n].1.value);
  }

  // ---------------------------------------------------------------------------------------------
  // Validation.
  // ---------------------------------------------------------------------------------------------

  /** The fields' states with their validators, in the given order. */
  function Checks(es: seq<Entry>): (cs: seq<(FieldState, Validator)>)
    reads set i | 0 <= i < |es| :: es[i].1
    ensures |cs| == |es| && forall i :: 0 <= i < |es| ==> cs[i] == (es[i].1.State(), es[i].1.validator)
  {
    seq(|es|, i requires 0 <= i < |es| reads set i | 0 <= i < |es| :: es[i].1 => (es[i].1.State(), es[i].1.validator))
  }

  /** The checks run in order until the first that fails. */
  function CheckAll(cs: seq<(FieldState, Validator)>, env: Snapshot): Outcome {
    if cs == [] then Pass
    else
      match CheckOf(cs[0].0, cs[0].1, env)
      case Fail(e) => Fail(e)
      case Pass => CheckAll(cs[1..], env)
  }

  /** One validation loop: each field's `validate` in turn, stopping at the first that raises. */
  method RunChecks(es: seq<Entry>, env: Snapshot) returns (o: Outcome)
    ensures o == CheckAll(Checks(es), env)
  {
    var cs := Checks(es);
    for i := 0 to |es|
      invariant cs == Checks(es)
      invariant forall j :: 0 <= j < i ==> CheckOf(cs[j].0, cs[j].1, env) == Pass
    {
      o := es[i].1.Validate(env);
      assert cs[i] == (es[i].1.State(), es[i].1.validator);
      if o.Fail? {
        CheckAllFailsAt(cs, i, env);
        assert cs == Checks(es);
        return;
      }
    }
    CheckAllFrom(cs, |cs|, env);
    return Pass;
  }

  /** Running two groups of checks one after the other: the second group runs only if the first passes. */
  lemma {:induction false} CheckAllAppend(a: seq<(FieldState, Validator)>, b: seq<(FieldState, Validator)>, env: Snapshot)
    ensures CheckAll(a + b, env) == if CheckAll(a, env).Fail? then CheckAll(a, env) else CheckAll(b, env)
  {
    if a == [] {
      assert a + b == b;
    } else {
      assert (a + b)[0] == a[0];
      assert (a + b)[1..] == a[1..] + b;
      CheckAllAppend(a[1..], b, env);
    }
  }

  lemma {:induction false} CheckAllFrom(cs: seq<(FieldState, Validator)>, i: nat, env: Snapshot)
    requires i <= |cs| && forall j :: 0 <= j < i ==> CheckOf(cs[j].0, cs[j].1, env) == Pass
    ensures CheckAll(cs, env) == CheckAll(cs[i..], env)
  {
    if i > 0 {
      assert cs[1..][i - 1..] == cs[i..];
      CheckAllFrom(cs[1..], i - 1, env);
    }
  }

  lemma CheckAllFailsAt(cs: seq<(FieldState, Validator)>, i: nat, env: Snapshot)
    requires i < |cs| && forall j :: 0 <= j < i ==> CheckOf(cs[j].0, cs[j].1, env) == Pass
    requires CheckOf(cs[i].0, cs[i].1, env).Fail?
    ensures CheckAll(cs, env) == CheckOf(cs[i].0, cs[i].1, env)
  {
    CheckAllFrom(cs, i, env);
    assert cs[i..][0] == cs[i];
  }

  /** Validation passes exactly when every check passes; otherwise it reports the first failure. */
  lemma {:induction false} CheckAllSpec(cs: seq<(FieldState, Validator)>, env: Snapshot)
    ensures CheckAll(cs, env) == Pass <==> forall i :: 0 <= i < |cs| ==> CheckOf(cs[i].0, cs[i].1, env) == Pass
    ensures CheckAll(cs, env).Fail? ==>
              exists i :: 0 <= i < |cs| && CheckOf(cs[i].0, cs[i].1, env) == CheckAll(cs, env)
                          && forall j :: 0 <= j < i ==> CheckOf(cs[j].0, cs[j].1, env) == Pass
  {
    if cs != [] {
      CheckAllSpec(cs[1..], env);
      assert forall i :: 1 <= i < |cs| ==> cs[1..][i - 1] == cs[i];
      if CheckOf(cs[0].0, cs[0].1, env) == Pass && CheckAll(cs[1..], env).Fail? {
        var i :| 0 <= i < |cs| - 1 && CheckOf(cs[1..][i].0, cs[1..][i].1, env) == CheckAll(cs[1..], env)
                 && forall j :: 0 <= j < i ==> CheckOf(cs[1..][j].0, cs[1..][j].1, env) == Pass;
        assert CheckOf(cs[i + 1].0, cs[i + 1].1, env) == CheckAll(cs, env);
      }
    }
  }

  /** A bound derivable marked `dont_dump` makes validation fail. */
  lemma ValidateRejectsDontDumpDerivable(cs: seq<(FieldState, Validator)>, env: Snapshot, i: nat)
    requires i < |cs| && cs[i].0.kind == Derivable && cs[i].0.bound && cs[i].0.dontDump
    ensures CheckAll(cs, env).Fail?
  {
    DontDumpDerivableFailsCheck(cs[i].0, cs[i].1, env);
    CheckAllSpec(cs, env);
  }

  // ---------------------------------------------------------------------------------------------
  // Exports.
  // ---------------------------------------------------------------------------------------------

  /** The tools a config can be exported for. */
  datatype Format = PythonJson | ShellScript | CloudFormation | Sam | Serverless | Terraform

  /** One word of a key: first character upper case, the rest lower case; an empty word has no first
      character. */
  function CamelWord(w: string, key: string): (r: Result<string>)
    ensures r.Ok? <==> w != []
    ensures r.Ok? ==> |r.value| == |w|
  {
    if w == [] then Err(EmptyWordInKey(key)) else Ok([UpperChar(w[0])] + Lower(w[1..]))
  }

  /** The words converted and concatenated; the first empty word raises. */
  function CamelWords(ws: seq<string>, key: string): (r: Result<string>)
    ensures r.Ok? <==> forall i :: 0 <= i < |ws| ==> ws[i] != []
  {
    if ws == [] then Ok("")
    else
      match CamelWord(ws[0], key)
      case Err(e) => Err(e)
      case Ok(x) =>
        match CamelWords(ws[1..], key)
        case Err(e) => Err(e)
        case Ok(y) => Ok(x + y)
  }

  /** `to_big_camel_case(text)`. */
  function ToBigCamelCase(key: string): Result<string> {
    CamelWords(Split(key, "_"), key)
  }

  /** The converted words are as long as the words. */
  lemma {:induction false} CamelWordsLength(ws: seq<string>, key: string)
    requires CamelWords(ws, key).Ok?
    ensures |CamelWords(ws, key).value| == TotalLength(ws)
  {
    if ws != [] {
      CamelWordsLength(ws[1..], key);
    }
  }

  /** Conversion fails exactly when an underscore-separated word is empty: the key is empty, starts or ends
      with `_`, or holds `__`. Otherwise only the underscores are dropped. */
  lemma CamelCaseSpec(key: string)
    ensures ToBigCamelCase(key).Err? <==> HasEmptyPiece(key, '_')
    ensures ToBigCamelCase(key).Err? ==> ToBigCamelCase(key) == Err(EmptyWordInKey(key))
    ensures ToBigCamelCase(key).Ok? ==> |ToBigCamelCase(key).value| == |key| - CountChar(key, '_')
  {
    var ws := Split(key, "_");
    assert "_" == ['_'];
    JoinSplit(key, "_");
    SplitFree(key, '_');
    JoinEmptyPiece(ws, '_');
    JoinCount(ws, '_');
    CamelErrors(ws, key);
    if ToBigCamelCase(key).Ok? {
      CamelWordsLength(ws, key);
    }
  }

  lemma {:induction false} CamelErrors(ws: seq<string>, key: string)
    ensures CamelWords(ws, key).Err? ==> CamelWords(ws, key) == Err(EmptyWordInKey(key))
  {
    if ws != [] {
      CamelErrors(ws[1..], key);
    }
  }

  /** Keys the configs of this tool chain use. */
  lemma CamelCaseExampleProjectName(key: string)
    requires key == "project_name"
    ensures ToBigCamelCase(key) == Ok("ProjectName")
  {
    assert Join(["project", "name"], "_") == key;
    CamelWordExample("project", "Project", key);
    CamelWordExample("name", "Name", key);
    CamelWordsCons("name", [], ["name"], "Name", "", "Name", key);
    CamelWordsCons("project", ["name"], ["project", "name"], "Project", "Name", "ProjectName", key);
    CamelOfWords(["project", "name"], key, "ProjectName");
  }

  /** A key joined from words without `_` converts as the words do. */
  lemma CamelOfWords(words: seq<string>, key: string, expected: string)
    requires |words| >= 1 && forall x :: x in words ==> '_' !in x
    requires Join(words, "_") == key && CamelWords(words, key) == Ok(expected)
    ensures ToBigCamelCase(key) == Ok(expected)
  {
    SplitJoin(words, '_');
  }

  lemma CamelCaseExampleStage()
    ensures ToBigCamelCase("stage") == Ok("Stage")
  {
    SplitJoin(["stage"], '_');
    assert Join(["stage"], "_") == "stage";
    CamelWordExample("stage", "Stage", "stage");
    CamelWordsCons("stage", [], ["stage"], "Stage", "", "Stage", "stage");
  }

  /** A doubled underscore leaves an empty word, which raises. */
  lemma CamelCaseExampleDoubled(key: string)
    requires key == "project__name"
    ensures ToBigCamelCase(key) == Err(EmptyWordInKey(key))
  {
    CamelCaseSpec(key);
    assert key[7] == '_' && key[8] == '_';
  }

  lemma CamelWordExample(w: string, word: string, key: string)
    requires |w| > 0 && word == [UpperChar(w[0])] + w[1..]
    requires forall i :: 1 <= i < |w| ==> !('A' <= w[i] <= 'Z')
    ensures CamelWord(w, key) == Ok(word)
  {
    LowerKeeps(w[1..]);
  }

  lemma CamelWordsCons(w: string, ws: seq<string>, all: seq<string>, x: string, y: string, xy: string, key: string)
    requires all == [w] + ws && xy == x + y
    requires CamelWord(w, key) == Ok(x) && CamelWords(ws, key) == Ok(y)
    ensures CamelWords(all, key) == Ok(xy)
  {
    assert all[1..] == ws;
  }

  /** Every key renamed, in order; the first key that cannot be renamed raises. */
  function RenameKeys(d: seq<(string, Json)>): (r: Result<seq<(string, Json)>>)
    ensures r.Ok? <==> forall i :: 0 <= i < |d| ==> ToBigCamelCase(d[i].0).Ok?
    ensures r.Ok? ==> |r.value| == |d|
    ensures r.Ok? ==> forall i :: 0 <= i < |d| ==> r.value[i] == (ToBigCamelCase(d[i].0).value, d[i].1)
  {
    if d == [] then Ok([])
    else
      match ToBigCamelCase(d[0].0)
      case Err(e) => Err(e)
      case Ok(k) =>
        match RenameKeys(d[1..])
        case Err(e) => Err(e)
        case Ok(rest) => Ok([(k, d[0].1)] + rest)
  }

  /** `to_cloudformation_config_data`: the dictionary comprehension over the renamed pairs. */
  function CloudFormationData(d: seq<(string, Json)>): Result<seq<(string, Json)>> {
    match RenameKeys(d)
    case Err(e) => Err(e)
    case Ok(ps) => Ok(FromPairs(ps))
  }

  /** The data written for each tool. */
  function Export(format: Format, dumped: Result<seq<(string, Json)>>): Result<seq<(string, Json)>> {
    match dumped
    case Err(e) => Err(e)
    case Ok(d) => if format == CloudFormation then CloudFormationData(d) else Ok(d)
  }

  /** Every tool but CloudFormation receives `to_dict()` unchanged. When no two keys meet after renaming, the
      CloudFormation data is the dump with renamed keys, in the same order and with the same values. */
  lemma ExportSpec(format: Format, d: seq<(string, Json)>)
    ensures format != CloudFormation ==> Export(format, Ok(d)) == Ok(d)
    ensures Export(CloudFormation, Ok(d)) == CloudFormationData(d)
    ensures RenameKeys(d).Ok? && UniqueKeys(RenameKeys(d).value) ==> CloudFormationData(d) == RenameKeys(d)
  {
    if RenameKeys(d).Ok? && UniqueKeys(RenameKeys(d).value) {
      FromPairsOfDictionary(RenameKeys(d).value);
    }
  }
}
