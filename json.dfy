/** Parsed JSON documents, with objects as insertion-ordered dictionaries, and Python's `str` of them. */
module JsonValue {
  import opened Text
  import opened OrderedMaps

  /** A JSON value as `json.loads` returns it; objects keep their members in document order. */
  datatype Json =
    | JNull
    | JBool(b: bool)
    | JNum(n: int)
    | JStr(s: string)
    | JArr(items: seq<Json>)
    | JObj(members: seq<(string, Json)>)

  /** Decimal digits of a natural number. */
  function NatDigits(n: nat): (r: string)
    ensures |r| >= 1 && forall i :: 0 <= i < |r| ==> '0' <= r[i] <= '9'
  {
    var d := ['0' + (n % 10) as char];
    if n < 10 then d else NatDigits(n / 10) + d
  }

  function IntText(n: int): string {
    if n < 0 then "-" + NatDigits(-n) else NatDigits(n)
  }

  /** Python's `repr` of a value inside a container (string escapes are not reproduced). */
  function PyRepr(v: Json): string
    decreases v, 1
  {
    match v
    case JStr(s) => "'" + s + "'"
    case _ => PyStr(v)
  }

  /** Python's `str` of a value, as `"{}".format(value)` renders it. */
  function PyStr(v: Json): string
    decreases v, 0
  {
    match v
    case JNull => "None"
    case JBool(b) => if b then "True" else "False"
    case JNum(n) => IntText(n)
    case JStr(s) => s
    case JArr(items) =>
      "[" + Join(seq(|items|, i requires 0 <= i < |items| => PyRepr(items[i])), ", ") + "]"
    case JObj(members) =>
      "{" + Join(seq(|members|, i requires 0 <= i < |members| =>
                   "'" + members[i].0 + "': " + PyRepr(members[i].1)), ", ") + "}"
  }
}
