/** The ways a schema generation can fail. Each variant stands for one
    `raise` (or one crash) of `get_json_schema` and its helpers; the message wording is not
    modelled, only what the message names. */
module Errors {

  datatype Error =
    /** The function has no docstring, or an empty one. */
    | MissingDocstring(func: string)
    /** A line of the Args block holds no `:`, so it cannot be unpacked into
        a name and a description. */
    | MalformedArgLine(line: string)
    /** A parameter of the signature carries no annotation. */
    | MissingTypeHint(func: string, param: string)
    /** A property has no entry in the parsed Args block. */
    | MissingDescription(func: string, arg: string)
    /** The basic-type shortcut of a union or a list looked up the `type`
        key of the fragment of `Any`, which has none. */
    | NoTypeKey
    /** A tuple hint with exactly one argument. */
    | TupleOfOne
    /** A tuple hint with `...` among its arguments. */
    | TupleWithEllipsis
    /** A subscripted hint whose origin is none of Union, list, tuple, dict. */
    | UnsupportedOrigin(origin: string)
    /** The text of a `(choices: ...)` annotation is not a JSON value whose
        elements are strings. */
    | BadChoices(text: string)
}
