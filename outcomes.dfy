/** Optional values, results and the error kinds raised by the configuration tools. */
module Outcomes {

  datatype Option<+T> = None | Some(value: T)

  /** The exceptions the modelled code raises, one constructor per kind. */
  datatype Error =
    | UnboundField                        // get_value on a field not yet bound to a config object
    | DontDumpSignal                      // DontDumpError: the field must not be dumped
    | DerivableSetValue                   // DeriableSetValueError: set_value on a Derivable
    | Raised(message: string)             // raised by a user-supplied getter or validator
    | EmptyWordInKey(key: string)         // IndexError: a CloudFormation key with an empty `_` segment
    | MissingVariable(key: string)        // a `{{ NAME }}` placeholder whose name is not in the data
    | NotText(key: string)                // TypeError: the replacement for a placeholder is not a string
    | UnevaluatedVariables(names: seq<string>) // placeholders left after substitution
    | MissingParameter(key: string)       // a template parameter absent from the config data
    | PathNotFound(path: string)          // a json path segment absent from the current object
    | Malformed(what: string)             // KeyError, TypeError or AttributeError on JSON of an unexpected shape

  datatype Result<+T> = Ok(value: T) | Err(error: Error)

  datatype Outcome = Pass | Fail(error: Error)
}
