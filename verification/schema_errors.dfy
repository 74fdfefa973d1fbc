/**
 * What the validator raises: a JsonSchemaException, described by its message key,
 * the message parameters and, for the validation failures, its `subtype`; or the
 * TypeError PHP raises when a value that is not an array is used as a schema fragment,
 * or an array as the `$ref` string.
 */
module SchemaErrors {
  import opened Wrappers
  import opened JsonValue

  datatype Error =
    | ValidateFail(expected: Json, actual: string, path: string)  // the schema type, the data type or "null", the path titles
    | ValidateFailNull                                            // a null root where the schema wants something else
    | ValidateFailMissingField                                    // a required property is absent
    | InvalidKey(key: Key, path: string)                          // a key the schema's additionalProperties closes off
    | BadIdRef(ref: Json)                                         // a `$ref` that is malformed or names no indexed id
    | IdConvert(value: Json)                                      // a value that cannot become an HTML id
    | TypeError                                                   // PHP TypeError: a non-array used as a schema fragment, an array as a `$ref`
  {
    /** Whether this is a JsonSchemaException (the only kind the hooks catch specifically). */
    predicate IsSchemaException() {
      !TypeError?
    }

    /** The key of the interface message the exception carries. */
    function MessageKey(): string
      requires IsSchemaException()
    {
      match this
      case ValidateFail(_, _, _) => "jsonschema-invalidnode"
      case ValidateFailNull => "jsonschema-invalidempty"
      case ValidateFailMissingField => "jsonschema-invalid-missingfield"
      case InvalidKey(_, _) => "jsonschema-invalidkey"
      case BadIdRef(_) => "jsonschema-badidref"
      case IdConvert(_) => "jsonschema-idconvert"
    }

    /** The exception's `subtype` field: set by the validation failures, null otherwise. */
    function Subtype(): Option<string> {
      match this
      case ValidateFail(_, _, _) => Some("validate-fail")
      case ValidateFailNull => Some("validate-fail-null")
      case ValidateFailMissingField => Some("validate-fail-missingfield")
      case _ => None
    }
  }
}
