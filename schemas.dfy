/**
  * Schema fragments. A fragment is a JSON object whose keys the code inserts
  * in one fixed order (type, anyOf, items, prefixItems, additionalProperties,
  * nullable, enum, description); a record with one optional field per key in
  * that order therefore loses neither a key nor the key order.
  */
module Schemas {
  import opened Wrappers

  /** The value of a `type` key: one name, or a list of names. */
  datatype JsonType = Single(name: string) | Multi(names: seq<string>)

  /** An optional list of fragments (the value of `anyOf` or `prefixItems`). */
  datatype Fragments = Absent | Present(list: seq<Schema>)

  datatype Schema = Schema(
    typ: Option<JsonType>,
    anyOf: Fragments,
    items: Option<Schema>,
    prefixItems: Fragments,
    additionalProperties: Option<Schema>,
    /** `nullable: true` is present; the code never writes `false` */
    nullable: bool,
    enumChoices: Option<seq<string>>,
    description: Option<string>)

  /** The names a `type` value lists. */
  function TypeNames(t: JsonType): seq<string> {
    match t
    case Single(n) => [n]
    case Multi(ns) => ns
  }

  /** `{}` */
  const Empty: Schema := Schema(None, Absent, None, Absent, None, false, None, None)

  /** `{"type": name}` */
  function OfType(name: string): Schema {
    Empty.(typ := Some(Single(name)))
  }

  /** The `type` value built from a list of names: the bare name when there is
      exactly one. */
  function CollapseNames(names: seq<string>): JsonType {
    if |names| == 1 then Single(names[0]) else Multi(names)
  }

  /** The `anyOf` fragment built from a list of fragments: the fragment itself
      when there is exactly one. */
  function CollapseAnyOf(subs: seq<Schema>): Schema {
    if |subs| == 1 then subs[0] else Empty.(anyOf := Present(subs))
  }

  /** `fragment["nullable"] = True` when `flag` holds. */
  function MarkNullable(s: Schema, flag: bool): Schema {
    if flag then s.(nullable := true) else s
  }
}
