/**
  * A reference semantics for both sides of the converter, used to state what
  * a generated fragment means: `Admits(h, v)` says that the JSON value `v`
  * encodes an argument of type `h`; `Accepts(s, v)` says that a consumer of
  * the fragment `s` (JSON Schema read with the `nullable` keyword of
  * OpenAPI 3.0) lets `v` through. The two theorems at the end relate them.
  */
module SchemaSemantics {
  import opened Wrappers
  import opened Hints
  import opened Schemas
  import opened TypeConversion

  datatype Json =
    | JNull
    | JBool(b: bool)
    | JInt(i: int)
    | JFloat(f: real)
    | JString(s: string)
    | JArray(elems: seq<Json>)
    | JObject(members: seq<(string, Json)>)

  /** What one `type` name lets through. */
  predicate HasType(name: string, v: Json) {
    match name
    case "integer" => v.JInt?
    case "number" => v.JInt? || v.JFloat?
    case "string" => v.JString?
    case "boolean" => v.JBool?
    case "array" => v.JArray?
    case "object" => v.JObject?
    case "null" => v.JNull?
    case _ => false
  }

  predicate TypeAccepts(t: Option<JsonType>, v: Json) {
    match t
    case None => true
    case Some(Single(n)) => HasType(n, v)
    case Some(Multi(ns)) => exists n <- ns :: HasType(n, v)
  }

  /** A consumer's reading of a fragment: `null` when `nullable` is set, and
      otherwise every keyword that applies to `v` must hold. */
  predicate Accepts(s: Schema, v: Json)
    decreases s
  {
    || (s.nullable && v.JNull?)
    || (&& TypeAccepts(s.typ, v)
        && (s.anyOf.Present? ==> exists a <- s.anyOf.list :: Accepts(a, v))
        && (s.items.Some? && v.JArray? ==> forall e <- v.elems :: Accepts(s.items.value, e))
        && (s.prefixItems.Present? && v.JArray? ==>
              forall i | 0 <= i < |v.elems| && i < |s.prefixItems.list| ::
                Accepts(s.prefixItems.list[i], v.elems[i]))
        && (s.additionalProperties.Some? && v.JObject? ==>
              forall m <- v.members :: Accepts(s.additionalProperties.value, m.1))
        && (s.enumChoices.Some? ==> v.JString? && v.s in s.enumChoices.value))
  }

  /** The JSON values an argument with hint `h` arrives as. A list hint with
      several arguments is read as a list whose elements have any of those
      types, as the converter reads it. */
  predicate Admits(h: Hint, v: Json)
    decreases h
  {
    match h
    case Int => v.JInt?
    case Float => v.JInt? || v.JFloat?
    case Str => v.JString?
    case Bool => v.JBool?
    case AnyType => true
    case NoneType => v.JNull?
    case Ellipsis => false
    case Class(_) => false
    case Union(args) => exists t <- args :: Admits(t, v)
    case List(args) =>
      v.JArray? && (args == [] || forall e <- v.elems :: exists t <- args :: Admits(t, e))
    case Tuple(args) =>
      v.JArray? &&
      (args == [] || (|v.elems| == |args| && forall i | 0 <= i < |args| :: Admits(args[i], v.elems[i])))
    case Dict(args) =>
      v.JObject? && (|args| == 2 ==> forall m <- v.members :: Admits(args[1], m.1))
    case Generic(_, _) => false
  }

  /** The hints whose meaning the converter respects: `None` and `...`
      appear only where a union (or, for `...`, a list) drops them, and no
      bare class appears. A bare `None` is converted to `{"type": "object"}`,
      which does not let `null` through; a `None` inside a list marks the
      array, not its elements, as nullable. */
  predicate Supported(h: Hint)
    decreases h
  {
    match h
    case NoneType => false
    case Ellipsis => false
    case Class(_) => false
    case Union(args) => forall t <- args :: IsMarker(t) || Supported(t)
    case List(args) => forall t <- args :: t.Ellipsis? || Supported(t)
    case Tuple(args) => forall t <- args :: Supported(t)
    case Dict(args) => |args| == 2 ==> Supported(args[1])
    case _ => true
  }

  /** `Supported` hints whose fragment is no looser than the hint: no
      non-empty tuple (`prefixItems` does not bound the length) and no `...`
      inside a list (the list shortcut turns it into "object"). */
  predicate Exact(h: Hint)
    decreases h
  {
    match h
    case NoneType => false
    case Ellipsis => false
    case Class(_) => false
    case Union(args) => forall t <- args :: IsMarker(t) || Exact(t)
    case List(args) => forall t <- args :: Exact(t)
    case Tuple(args) => args == []
    case Dict(args) => |args| == 2 ==> Exact(args[1])
    case _ => true
  }

  lemma {:induction false} ExactIsSupported(h: Hint)
    requires Exact(h)
    ensures Supported(h)
    decreases h
  {
    match h
    case Union(args) =>
      forall t | t in args && !IsMarker(t) ensures Supported(t) { ExactIsSupported(t); }
    case List(args) =>
      forall t | t in args ensures Supported(t) { ExactIsSupported(t); }
    case Dict(args) =>
      if |args| == 2 { ExactIsSupported(args[1]); }
    case _ =>
  }

  /** A name from `_get_json_schema_type` means what the scalar hint means. */
  lemma ScalarNameMeaning(t: Hint, v: Json)
    requires IsBasic(t) && !IsMarker(t) && t != AnyType
    ensures TypeKey(t).Ok?
    ensures HasType(TypeKey(t).value, v) <==> Admits(t, v)
  {
  }

  /** What a `type` built by `CollapseNames` lets through. */
  lemma CollapseNamesMeaning(names: seq<string>, v: Json)
    ensures TypeAccepts(Some(CollapseNames(names)), v) <==> exists n <- names :: HasType(n, v)
  {
    if |names| == 1 {
      assert names[0] in names;
    }
  }

  /** What an `anyOf` built by `CollapseAnyOf` lets through. */
  lemma CollapseAnyOfMeaning(subs: seq<Schema>, v: Json)
    ensures Accepts(CollapseAnyOf(subs), v) <==> exists a <- subs :: Accepts(a, v)
  {
    if |subs| == 1 {
      assert subs[0] in subs;
    }
  }

  lemma MarkNullableMeaning(s: Schema, flag: bool, v: Json)
    ensures Accepts(MarkNullable(s, flag), v) <==> (flag && v.JNull?) || Accepts(s, v)
  {
  }

  /** Soundness: every value the hint admits is accepted by its fragment. */
  lemma {:induction false} Soundness(h: Hint, v: Json)
    requires Supported(h) && ParseHint(h).Ok?
    requires Admits(h, v)
    ensures Accepts(ParseHint(h).value, v)
    decreases h, 2
  {
    match h
    case Union(args) =>
      var t :| t in args && Admits(t, v);
      if !t.NoneType? {
        SoundGroup(h, args, DropMarkers(args), t, v);
      }
    case List(args) =>
      if args != [] {
        SoundList(h, args, v);
      }
    case Tuple(args) =>
      if args != [] {
        SoundTuple(h, args, v);
      }
    case Dict(args) =>
      if |args| == 2 {
        SoundDict(h, args, v);
      }
    case _ =>
  }

  lemma {:induction false} SoundList(h: Hint, args: seq<Hint>, v: Json)
    requires h == List(args) && args != []
    requires Supported(h) && ParseHint(h).Ok? && Admits(h, v)
    ensures Accepts(ParseHint(h).value, v)
    decreases h, 1
  {
    var items := Group(h, args, DropNone(args)).value;
    forall e | e in v.elems ensures Accepts(items, e) {
      var t :| t in args && Admits(t, e);
      SoundGroup(h, args, DropNone(args), t, e);
    }
  }

  lemma {:induction false} SoundTuple(h: Hint, args: seq<Hint>, v: Json)
    requires h == Tuple(args) && args != []
    requires Supported(h) && ParseHint(h).Ok? && Admits(h, v)
    ensures Accepts(ParseHint(h).value, v)
    decreases h, 1
  {
    assert forall i | 0 <= i < |args| :: args[i] in args;
    var subs := ParseArgs(h, args).value;
    forall i | 0 <= i < |v.elems| && i < |subs| ensures Accepts(subs[i], v.elems[i]) {
      Soundness(args[i], v.elems[i]);
    }
  }

  lemma {:induction false} SoundDict(h: Hint, args: seq<Hint>, v: Json)
    requires h == Dict(args) && |args| == 2
    requires Supported(h) && ParseHint(h).Ok? && Admits(h, v)
    ensures Accepts(ParseHint(h).value, v)
    decreases h, 1
  {
    var value := ParseHint(args[1]).value;
    forall m | m in v.members ensures Accepts(value, m.1) {
      Soundness(args[1], m.1);
    }
  }

  /** The shared union/list body accepts every value admitted by one of the
      arguments it keeps. */
  lemma {:induction false} SoundGroup(parent: Hint, args: seq<Hint>, basicArgs: seq<Hint>, t: Hint, v: Json)
    requires forall u <- args :: u < parent
    requires basicArgs == DropMarkers(args) || basicArgs == DropNone(args)
    requires forall u <- args :: IsMarker(u) || Supported(u)
    requires Group(parent, args, basicArgs).Ok?
    requires t in args && !t.NoneType? && Admits(t, v)
    ensures Accepts(Group(parent, args, basicArgs).value, v)
    decreases parent, 0
  {
    if AllBasic(args) {
      SoundNames(args, basicArgs, t, v);
    } else {
      var kept := DropMarkers(args);
      assert forall i | 0 <= i < |kept| :: kept[i] in args;
      assert t in kept;
      var i :| 0 <= i < |kept| && kept[i] == t;
      Soundness(t, v);
      SoundAnyOf(parent, kept, i, v);
    }
  }

  /** A `type` list of scalar names lets through the values of each kept
      scalar. */
  lemma SoundNames(args: seq<Hint>, basicArgs: seq<Hint>, t: Hint, v: Json)
    requires AllBasic(args)
    requires basicArgs == DropMarkers(args) || basicArgs == DropNone(args)
    requires TypeKeys(basicArgs).Ok?
    requires t in args && !t.NoneType? && Admits(t, v)
    ensures TypeAccepts(Some(CollapseNames(TypeKeys(basicArgs).value)), v)
  {
    var names := TypeKeys(basicArgs).value;
    assert t in basicArgs;
    var i :| 0 <= i < |basicArgs| && basicArgs[i] == t;
    ScalarNameMeaning(t, v);
    assert names[i] in names;
    CollapseNamesMeaning(names, v);
  }

  /** An `anyOf` of the conversions lets through what one of them does. */
  lemma SoundAnyOf(parent: Hint, kept: seq<Hint>, i: nat, v: Json)
    requires forall i | 0 <= i < |kept| :: kept[i] < parent
    requires ParseArgs(parent, kept).Ok? && i < |kept|
    requires Accepts(ParseHint(kept[i]).value, v)
    ensures Accepts(CollapseAnyOf(ParseArgs(parent, kept).value), v)
  {
    var subs := ParseArgs(parent, kept).value;
    assert subs[i] in subs;
    CollapseAnyOfMeaning(subs, v);
  }

  /** Completeness: for `Exact` hints the fragment accepts nothing the hint
      does not admit. */
  lemma {:induction false} Completeness(h: Hint, v: Json)
    requires Exact(h) && ParseHint(h).Ok?
    requires Accepts(ParseHint(h).value, v)
    ensures Admits(h, v)
    decreases h, 2
  {
    match h
    case Union(args) =>
      CompleteUnion(h, args, v);
    case List(args) =>
      if args != [] {
        CompleteList(h, args, v);
      }
    case Dict(args) =>
      if |args| == 2 {
        CompleteDict(h, args, v);
      }
    case _ =>
  }

  lemma {:induction false} CompleteUnion(h: Hint, args: seq<Hint>, v: Json)
    requires h == Union(args)
    requires Exact(h) && ParseHint(h).Ok? && Accepts(ParseHint(h).value, v)
    ensures Admits(h, v)
    decreases h, 1
  {
    var base := Group(h, args, DropMarkers(args)).value;
    MarkNullableMeaning(base, NoneType in args, v);
    if v.JNull? && NoneType in args {
      assert Admits(NoneType, v);
    } else {
      CompleteGroup(h, args, DropMarkers(args), v);
    }
  }

  lemma {:induction false} CompleteList(h: Hint, args: seq<Hint>, v: Json)
    requires h == List(args) && args != []
    requires Exact(h) && ParseHint(h).Ok? && Accepts(ParseHint(h).value, v)
    ensures Admits(h, v)
    decreases h, 1
  {
    forall e | e in v.elems ensures exists t <- args :: Admits(t, e) {
      assert forall u <- args :: !IsMarker(u);
      CompleteGroup(h, args, DropNone(args), e);
    }
  }

  lemma {:induction false} CompleteDict(h: Hint, args: seq<Hint>, v: Json)
    requires h == Dict(args) && |args| == 2
    requires Exact(h) && ParseHint(h).Ok? && Accepts(ParseHint(h).value, v)
    ensures Admits(h, v)
    decreases h, 1
  {
    forall m | m in v.members ensures Admits(args[1], m.1) {
      Completeness(args[1], m.1);
    }
  }

  /** The shared union/list body accepts only values admitted by one of the
      arguments it keeps. */
  lemma {:induction false} CompleteGroup(parent: Hint, args: seq<Hint>, basicArgs: seq<Hint>, v: Json)
    requires forall u <- args :: u < parent
    requires basicArgs == DropMarkers(args) || basicArgs == DropNone(args)
    requires forall u <- basicArgs :: !IsMarker(u)
    requires forall u <- args :: IsMarker(u) || Exact(u)
    requires Group(parent, args, basicArgs).Ok?
    requires Accepts(Group(parent, args, basicArgs).value, v)
    ensures exists t <- args :: Admits(t, v)
    decreases parent, 0
  {
    if AllBasic(args) {
      CompleteNames(args, basicArgs, v);
    } else {
      var kept := DropMarkers(args);
      assert forall i | 0 <= i < |kept| :: kept[i] in args;
      var i := CompleteAnyOf(parent, kept, v);
      Completeness(kept[i], v);
    }
  }

  /** A `type` list of scalar names lets through only the values of one of
      the kept scalars. */
  lemma CompleteNames(args: seq<Hint>, basicArgs: seq<Hint>, v: Json)
    requires AllBasic(args)
    requires basicArgs == DropMarkers(args) || basicArgs == DropNone(args)
    requires forall u <- basicArgs :: !IsMarker(u)
    requires TypeKeys(basicArgs).Ok?
    requires TypeAccepts(Some(CollapseNames(TypeKeys(basicArgs).value)), v)
    ensures exists t <- args :: Admits(t, v)
  {
    var names := TypeKeys(basicArgs).value;
    CollapseNamesMeaning(names, v);
    var n :| n in names && HasType(n, v);
    var i :| 0 <= i < |names| && names[i] == n;
    assert basicArgs[i] in basicArgs;
    ScalarNameMeaning(basicArgs[i], v);
    assert basicArgs[i] in args;
  }

  /** An `anyOf` of the conversions lets through only what one of them
      does: the position of that one. */
  lemma CompleteAnyOf(parent: Hint, kept: seq<Hint>, v: Json) returns (i: nat)
    requires forall i | 0 <= i < |kept| :: kept[i] < parent
    requires ParseArgs(parent, kept).Ok?
    requires Accepts(CollapseAnyOf(ParseArgs(parent, kept).value), v)
    ensures i < |kept| && Accepts(ParseHint(kept[i]).value, v)
  {
    var subs := ParseArgs(parent, kept).value;
    CollapseAnyOfMeaning(subs, v);
    var a :| a in subs && Accepts(a, v);
    i :| 0 <= i < |subs| && subs[i] == a;
  }

  /** Together: for `Exact` hints, a value passes the fragment exactly when it
      has the hinted type. */
  lemma FragmentMeansHint(h: Hint, v: Json)
    requires Exact(h) && ParseHint(h).Ok?
    ensures Accepts(ParseHint(h).value, v) <==> Admits(h, v)
  {
    if Admits(h, v) {
      ExactIsSupported(h);
      Soundness(h, v);
    }
    if Accepts(ParseHint(h).value, v) {
      Completeness(h, v);
    }
  }

  /** The reason bare `None` is left out of `Supported`: it admits `null`, but
      its fragment `{"type": "object"}` rejects it. */
  lemma BareNoneRejectsNull()
    ensures ParseHint(NoneType) == Ok(OfType("object"))
    ensures Admits(NoneType, JNull) && !Accepts(OfType("object"), JNull)
  {
  }
}
