/** Config value fields (`Field`, `Constant`, `Derivable`): a stored value, the dump and print guards, the
    config object the field is bound to, and the user's getter and validator. */
module Fields {
  import opened Outcomes
  import opened JsonValue

  /** The two field classes a config declares. */
  datatype Kind = Constant | Derivable

  /** What a getter sees of the config object it is called with: the names and stored values of the config's
      declared fields, in declared order. */
  type Snapshot = seq<(string, Json)>

  /** A user-supplied getter (`@field.getter`): computes the value from the config, or raises. */
  type Getter = Snapshot -> Result<Json>

  /** Everything `get_value` looks at, as a value. */
  datatype FieldState = FieldState(
    kind: Kind,
    creationIndex: nat,
    value: Json,
    dontDump: bool,
    printable: bool,
    bound: bool,
    getter: Option<Getter>)

  /** A user-supplied validator (`@field.validator`): called with the field and its value; raising is failure,
      the return value is ignored. */
  type Validator = (FieldState, Json) -> Outcome

  /** What a non-printable field shows when printing is checked. */
  const Hidden: string := "***HIDDEN***"

  /** `get_value(check_dont_dump, check_printable)`: the guards are tried in a fixed order (unbound, dont-dump,
      printable) before the stored value or the getter. */
  function ValueOf(s: FieldState, checkDontDump: bool, checkPrintable: bool, env: Snapshot): Result<Json> {
    if !s.bound then Err(UnboundField)
    else if checkDontDump && s.dontDump then Err(DontDumpSignal)
    else if checkPrintable && !s.printable then Ok(JStr(Hidden))
    else
      match s.getter
      case None => Ok(s.value)
      case Some(g) => g(env)
  }

  /** An unbound field fails whatever is asked; a bound `dont_dump` field fails the dump check before the
      printable check or the getter is consulted. */
  lemma GuardOrder(s: FieldState, checkPrintable: bool, env: Snapshot)
    ensures !s.bound ==> ValueOf(s, true, checkPrintable, env) == Err(UnboundField)
    ensures !s.bound ==> ValueOf(s, false, checkPrintable, env) == Err(UnboundField)
    ensures s.bound && s.dontDump ==> ValueOf(s, true, checkPrintable, env) == Err(DontDumpSignal)
  {
  }

  /** A hidden value is the placeholder text and does not depend on the stored value, the getter or the
      config: the getter is never called. */
  lemma HiddenIgnoresGetter(s: FieldState, checkDontDump: bool, env: Snapshot, value: Json, g: Option<Getter>, env': Snapshot)
    requires s.bound && !(checkDontDump && s.dontDump) && !s.printable
    ensures ValueOf(s, checkDontDump, true, env) == Ok(JStr(Hidden))
    ensures ValueOf(s.(value := value, getter := g), checkDontDump, true, env') == ValueOf(s, checkDontDump, true, env)
  {
  }

  /** Without a getter, a bound field whose guards pass yields its stored value, whatever the config holds. */
  lemma StoredValue(s: FieldState, checkDontDump: bool, checkPrintable: bool, env: Snapshot)
    requires s.bound && s.getter.None?
    requires !(checkDontDump && s.dontDump) && !(checkPrintable && !s.printable)
    ensures ValueOf(s, checkDontDump, checkPrintable, env) == Ok(s.value)
  {
  }

  /** `Constant.validate()` and `Derivable.validate(config)`: the value is read and handed to the validator.
      A derivable passes the config object, which is always true, where `get_value` expects `check_dont_dump`. */
  function CheckOf(s: FieldState, validator: Validator, env: Snapshot): Outcome {
    var checkDontDump := s.kind == Derivable;
    match ValueOf(s, checkDontDump, false, env)
    case Err(e) => Fail(e)
    case Ok(v) => validator(s, v)
  }

  /** A bound derivable marked `dont_dump` can never be validated: it fails with the dont-dump signal whatever
      its validator and its getter do; a constant marked `dont_dump` is validated normally. */
  lemma DontDumpDerivableFailsCheck(s: FieldState, validator: Validator, env: Snapshot)
    requires s.bound && s.dontDump
    ensures s.kind == Derivable ==> CheckOf(s, validator, env) == Fail(DontDumpSignal)
    ensures s.kind == Constant && s.getter.None? ==> CheckOf(s, validator, env) == validator(s, s.value)
  {
  }

  /** The class-wide counter behind `Field._creation_index`. */
  class CreationCounter {
    var next: nat

    constructor ()
      ensures next == 0
    {
      next := 0;
    }
  }

  class Field {
    const kind: Kind
    const creationIndex: nat
    var value: Json
    var dontDump: bool
    var printable: bool
    /** The config object the field was last bound to (`_config_object`). */
    var owner: object?
    var getter: Option<Getter>
    var validator: Validator

    function State(): (s: FieldState)
      reads this
      ensures s.value == value && s.bound == (owner != null) && s.kind == kind
    {
      FieldState(kind, creationIndex, value, dontDump, printable, owner != null, getter)
    }

    /** `Constant(value, default, dont_dump, printable)` or `Derivable(...)`: the default is stored and then
        overwritten by the value, so it is never kept; the field takes the next creation index. */
    constructor (kind: Kind, value: Json, default: Json, dontDump: bool, printable: bool, counter: CreationCounter)
      modifies counter
      ensures this.kind == kind && this.value == value
      ensures this.dontDump == dontDump && this.printable == printable
      ensures owner == null && getter == None
      ensures forall s, v :: this.validator(s, v) == Pass
      ensures creationIndex == old(counter.next) && counter.next == old(counter.next) + 1
    {
      this.kind := kind;
      this.value := default;
      this.value := value;
      this.dontDump := dontDump;
      this.printable := printable;
      owner := null;
      creationIndex := counter.next;
      getter := None;
      validator := (s: FieldState, v: Json) => Pass;
      new;
      counter.next := counter.next + 1;
    }

    /** `set_value`: a constant takes the new value; a derivable refuses every value and keeps its own. */
    method SetValue(v: Json) returns (o: Outcome)
      modifies this`value
      ensures kind == Constant ==> o == Pass && value == v
      ensures kind == Derivable ==> o == Fail(DerivableSetValue) && value == old(value)
    {
      if kind == Derivable {
        return Fail(DerivableSetValue);
      }
      value := v;
      return Pass;
    }

    /** `Derivable.getter`: binds the getter. Constants have no such method. */
    method SetGetter(g: Getter)
      requires kind == Derivable
      modifies this`getter
      ensures getter == Some(g)
    {
      getter := Some(g);
    }

    /** `validator`: binds the validator. */
    method SetValidator(m: Validator)
      modifies this`validator
      ensures validator == m
    {
      validator := m;
    }

    /** `get_value(check_dont_dump, check_printable)`, with `env` the bound config's stored values: the method
        reads the field's own state and is proved against `ValueOf`, which specifies it. */
    method GetValue(checkDontDump: bool, checkPrintable: bool, env: Snapshot) returns (r: Result<Json>)
      ensures r == ValueOf(State(), checkDontDump, checkPrintable, env)
    {
      if owner == null {
        return Err(UnboundField);
      }
      if checkDontDump && dontDump {
        return Err(DontDumpSignal);
      }
      if checkPrintable && !printable {
        return Ok(JStr(Hidden));
      }
      match getter
      case None => r := Ok(value);
      case Some(g) => r := g(env);
    }

    /** `Constant.validate()` or `Derivable.validate(config)` on the field's own state, proved against `CheckOf`,
        which specifies it. */
    method Validate(env: Snapshot) returns (o: Outcome)
      ensures o == CheckOf(State(), validator, env)
    {
      var r := GetValue(kind == Derivable, false, env);
      match r
      case Err(e) => o := Fail(e);
      case Ok(v) => o := validator(State(), v);
    }
  }
}
