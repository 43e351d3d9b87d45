/**
  * The type-hint converter: `_get_json_schema_type` and `_parse_type_hint` of
  * src/transformers/utils/chat_template_utils.py, as total functions into
  * `Result`.
  */
module TypeConversion {
  import opened Wrappers
  import opened Errors
  import opened Hints
  import opened Schemas

  /** `_get_json_schema_type`: the four scalar names, `{}` for `Any`, and
      `{"type": "object"}` for everything else. */
  function JsonSchemaType(h: Hint): Schema {
    match h
    case Int => OfType("integer")
    case Float => OfType("number")
    case Str => OfType("string")
    case Bool => OfType("boolean")
    case AnyType => Empty
    case _ => OfType("object")
  }

  /** `_get_json_schema_type(t)["type"]`: the lookup fails on `{}`. */
  function TypeKey(h: Hint): Result<string, Error> {
    match JsonSchemaType(h).typ
    case Some(Single(n)) => Ok(n)
    case _ => Err(NoTypeKey)
  }

  /** The `type` names of a list of basic hints, in order; fails as soon as
      one of them is `Any`. */
  function TypeKeys(hs: seq<Hint>): (r: Result<seq<string>, Error>)
    ensures r.Ok? <==> AnyType !in hs
    ensures r.Ok? ==> |r.value| == |hs|
    ensures r.Ok? ==> forall i | 0 <= i < |hs| :: TypeKey(hs[i]) == Ok(r.value[i])
    ensures r.Err? ==> r.error == NoTypeKey
  {
    if hs == [] then Ok([])
    else
      var n :- TypeKey(hs[0]);
      var rest :- TypeKeys(hs[1..]);
      Ok([n] + rest)
  }

  /** `_parse_type_hint`. A successful result never carries `enum` or
      `description`: those are added by the assembler only. */
  function ParseHint(h: Hint): (r: Result<Schema, Error>)
    ensures r.Ok? ==> r.value.description.None? && r.value.enumChoices.None?
    decreases h, 1
  {
    match h
    case Union(args) =>
      var base :- Group(h, args, DropMarkers(args));
      Ok(MarkNullable(base, NoneType in args))
    case List(args) =>
      if args == [] then
        Ok(OfType("array"))
      else
        var items :- Group(h, args, DropNone(args));
        Ok(MarkNullable(OfType("array").(items := Some(items)), NoneType in args))
    case Tuple(args) =>
      if args == [] then
        Ok(OfType("array"))
      else if |args| == 1 then
        Err(TupleOfOne)
      else if Ellipsis in args then
        Err(TupleWithEllipsis)
      else
        assert forall i | 0 <= i < |args| :: args[i] in args;
        var subs :- ParseArgs(h, args);
        Ok(OfType("array").(prefixItems := Present(subs)))
    case Dict(args) =>
      if |args| == 2 then
        var value :- ParseHint(args[1]);
        Ok(OfType("object").(additionalProperties := Some(value)))
      else
        Ok(OfType("object"))
    case Generic(origin, _) =>
      Err(UnsupportedOrigin(origin))
    case _ =>
      Ok(JsonSchemaType(h))
  }

  /** The body shared by unions and lists: when every argument is basic, a
      `type` list of the names of `basicArgs`; otherwise an `anyOf` of the
      conversions of the arguments other than `None` and `...`. Either one
      collapses when it has exactly one element. */
  function Group(ghost parent: Hint, args: seq<Hint>, basicArgs: seq<Hint>): (r: Result<Schema, Error>)
    requires forall t <- args :: t < parent
    requires |basicArgs| <= |args|
    ensures r.Ok? ==> r.value.description.None? && r.value.enumChoices.None?
    decreases parent, 0, |args| + 1
  {
    if AllBasic(args) then
      var names :- TypeKeys(basicArgs);
      Ok(Empty.(typ := Some(CollapseNames(names))))
    else
      var kept := DropMarkers(args);
      assert forall i | 0 <= i < |kept| :: kept[i] in args;
      var subs :- ParseArgs(parent, kept);
      Ok(CollapseAnyOf(subs))
  }

  /** `[_parse_type_hint(t) for t in hs]`: the conversions in order, or the
      error of the first argument that fails. */
  function ParseArgs(ghost parent: Hint, hs: seq<Hint>): (r: Result<seq<Schema>, Error>)
    requires forall i | 0 <= i < |hs| :: hs[i] < parent
    ensures r.Ok? ==> |r.value| == |hs|
    ensures r.Ok? ==> forall i | 0 <= i < |hs| :: ParseHint(hs[i]) == Ok(r.value[i])
    ensures r.Ok? ==> forall s <- r.value :: s.description.None? && s.enumChoices.None?
    ensures r.Err? ==> exists i | 0 <= i < |hs| ::
      ParseHint(hs[i]) == Err(r.error) && forall j | 0 <= j < i :: ParseHint(hs[j]).Ok?
    decreases parent, 0, |hs|
  {
    if hs == [] then
      Ok([])
    else
      var s :- ParseHint(hs[0]);
      var rest :- ParseArgs(parent, hs[1..]);
      assert forall i | 1 <= i < |hs| :: hs[i] == hs[1..][i - 1];
      Ok([s] + rest)
  }
}

/** What the converter promises, branch by branch. */
module TypeConversionFacts {
  import opened Wrappers
  import opened Errors
  import opened Hints
  import opened Schemas
  import opened TypeConversion

  /** The hints `_parse_type_hint` converts without raising: no `Any` in an
      all-basic union or non-empty list, no tuple of one element or with
      `...`, no unknown origin, and the same for every part that gets
      converted (the key type of a dict is never looked at). */
  predicate Convertible(h: Hint)
    decreases h
  {
    match h
    case Union(args) =>
      if AllBasic(args) then AnyType !in args else forall t <- args :: IsMarker(t) || Convertible(t)
    case List(args) =>
      args == [] ||
      if AllBasic(args) then AnyType !in args else forall t <- args :: IsMarker(t) || Convertible(t)
    case Tuple(args) =>
      args == [] || (|args| != 1 && Ellipsis !in args && forall t <- args :: Convertible(t))
    case Dict(args) =>
      |args| == 2 ==> Convertible(args[1])
    case Generic(_, _) =>
      false
    case _ =>
      true
  }

  /** The conversion fails exactly outside `Convertible`. */
  lemma {:induction false} ConvertibleIff(h: Hint)
    ensures ParseHint(h).Ok? <==> Convertible(h)
    decreases h
  {
    match h
    case Union(args) =>
      forall t | t in args ensures ParseHint(t).Ok? <==> Convertible(t) { ConvertibleIff(t); }
      GroupOk(h, args, DropMarkers(args));
    case List(args) =>
      forall t | t in args ensures ParseHint(t).Ok? <==> Convertible(t) { ConvertibleIff(t); }
      if args != [] { GroupOk(h, args, DropNone(args)); }
    case Tuple(args) =>
      forall t | t in args ensures ParseHint(t).Ok? <==> Convertible(t) { ConvertibleIff(t); }
      if |args| >= 2 && Ellipsis !in args {
        assert forall i | 0 <= i < |args| :: args[i] in args;
        ArgsOk(h, args);
      }
    case Dict(args) =>
      if |args| == 2 { ConvertibleIff(args[1]); }
    case _ =>
  }

  /** `ParseArgs` succeeds exactly when every argument converts. */
  lemma ArgsOk(parent: Hint, hs: seq<Hint>)
    requires forall i | 0 <= i < |hs| :: hs[i] < parent
    ensures ParseArgs(parent, hs).Ok? <==> forall t <- hs :: ParseHint(t).Ok?
  {
    var r := ParseArgs(parent, hs);
    if r.Ok? {
      forall t | t in hs ensures ParseHint(t).Ok? {
        var i :| 0 <= i < |hs| && hs[i] == t;
      }
    } else {
      var i :| 0 <= i < |hs| && ParseHint(hs[i]) == Err(r.error);
      assert hs[i] in hs;
    }
  }

  lemma GroupOk(parent: Hint, args: seq<Hint>, basicArgs: seq<Hint>)
    requires forall t <- args :: t < parent
    requires basicArgs == DropMarkers(args) || basicArgs == DropNone(args)
    ensures Group(parent, args, basicArgs).Ok? <==>
      if AllBasic(args) then AnyType !in args
      else forall t <- args :: IsMarker(t) || ParseHint(t).Ok?
  {
    if !AllBasic(args) {
      var kept := DropMarkers(args);
      assert forall i | 0 <= i < |kept| :: kept[i] in args;
      ArgsOk(parent, kept);
    }
  }

  /** The four scalar names a basic union can list. */
  predicate IsScalarName(n: string) {
    n == "integer" || n == "number" || n == "string" || n == "boolean"
  }

  /** Hints with no typing origin map through `_get_json_schema_type`:
      `int`, `float`, `str`, `bool` to their JSON names, `Any` to `{}`, and
      every other one (a bare class, bare `None`, bare `...`) to
      `{"type": "object"}`. None of them fails. */
  lemma NonGenericHint(h: Hint)
    requires !HasOrigin(h)
    ensures ParseHint(h) == Ok(JsonSchemaType(h))
    ensures h == Int ==> ParseHint(h) == Ok(OfType("integer"))
    ensures h == Float ==> ParseHint(h) == Ok(OfType("number"))
    ensures h == Str ==> ParseHint(h) == Ok(OfType("string"))
    ensures h == Bool ==> ParseHint(h) == Ok(OfType("boolean"))
    ensures h == AnyType ==> ParseHint(h) == Ok(Empty)
    ensures h.NoneType? || h.Ellipsis? || h.Class? ==> ParseHint(h) == Ok(OfType("object"))
  {
  }

  /** The scalar name of a basic hint other than `None`, `...` and `Any`. */
  lemma TypeKeyOfScalar(t: Hint)
    requires IsBasic(t) && !IsMarker(t) && t != AnyType
    ensures TypeKey(t).Ok? && IsScalarName(TypeKey(t).value)
    ensures JsonSchemaType(t) == OfType(TypeKey(t).value)
  {
  }

  /** A union of basic hints: it fails exactly when `Any` is among them;
      otherwise it is a bare `type` listing, in argument order, the name of
      each argument other than `None` and `...` (a bare string when exactly
      one remains; never "null" nor "object"), plus `nullable` exactly when
      `None` is an argument. */
  lemma BasicUnion(args: seq<Hint>)
    requires AllBasic(args)
    ensures ParseHint(Union(args)).Err? <==> AnyType in args
    ensures AnyType in args ==> ParseHint(Union(args)) == Err(NoTypeKey)
    ensures ParseHint(Union(args)).Ok? ==>
      var r, kept := ParseHint(Union(args)).value, DropMarkers(args);
      && r == Empty.(typ := r.typ, nullable := r.nullable)
      && r.typ.Some?
      && (r.typ.value.Single? <==> |kept| == 1)
      && |TypeNames(r.typ.value)| == |kept|
      && (forall i | 0 <= i < |kept| :: JsonSchemaType(kept[i]) == OfType(TypeNames(r.typ.value)[i]))
      && (forall n <- TypeNames(r.typ.value) :: IsScalarName(n))
      && (r.nullable <==> NoneType in args)
  {
    var kept := DropMarkers(args);
    assert AnyType in kept <==> AnyType in args;
    if AnyType !in args {
      var names := TypeKeys(kept).value;
      forall i | 0 <= i < |kept| ensures JsonSchemaType(kept[i]) == OfType(names[i]) && IsScalarName(names[i]) {
        assert kept[i] in kept;
        TypeKeyOfScalar(kept[i]);
      }
    }
  }

  /** A union with a non-basic argument: it converts exactly when every
      argument other than `None` and `...` does; the result is the `anyOf` of
      their conversions in order, or the sole conversion itself, and it is
      `nullable` when `None` is an argument. */
  lemma ComplexUnion(args: seq<Hint>)
    requires !AllBasic(args)
    ensures var kept := DropMarkers(args);
      ParseHint(Union(args)).Ok? <==> forall t <- kept :: ParseHint(t).Ok?
    ensures ParseHint(Union(args)).Ok? ==>
      var r, kept := ParseHint(Union(args)).value, DropMarkers(args);
      && (NoneType in args ==> r.nullable)
      && (|kept| == 1 ==> r == MarkNullable(ParseHint(kept[0]).value, NoneType in args))
      && (|kept| != 1 ==>
            && r == Empty.(anyOf := r.anyOf, nullable := r.nullable)
            && r.nullable == (NoneType in args)
            && r.anyOf.Present? && |r.anyOf.list| == |kept|
            && forall i | 0 <= i < |kept| :: ParseHint(kept[i]) == Ok(r.anyOf.list[i]))
  {
    var kept := DropMarkers(args);
    assert forall i | 0 <= i < |kept| :: kept[i] in args;
    ArgsOk(Union(args), kept);
    assert |kept| >= 1 by {
      var t :| t in args && !IsBasic(t);
      assert t in kept;
    }
  }

  /** A list with no arguments is exactly `{"type": "array"}`. */
  lemma EmptyList()
    ensures ParseHint(List([])) == Ok(OfType("array"))
  {
  }

  /** A non-empty list is an array whose `items` come from the same rule as a
      union of its arguments: when `...` is not an argument, converting the
      union of the same arguments gives exactly those `items`, marked
      nullable when `None` is an argument. The array itself is `nullable`
      exactly when `None` is an argument. */
  lemma ListItemsFollowUnion(args: seq<Hint>)
    requires args != []
    ensures ParseHint(List(args)).Ok? ==>
      var r := ParseHint(List(args)).value;
      && r.typ == Some(Single("array")) && r.items.Some?
      && r == OfType("array").(items := r.items, nullable := r.nullable)
      && (r.nullable <==> NoneType in args)
    ensures !AllBasic(args) || Ellipsis !in args ==>
      (ParseHint(List(args)).Ok? <==> ParseHint(Union(args)).Ok?)
    ensures (!AllBasic(args) || Ellipsis !in args) && ParseHint(List(args)).Ok? ==>
      var items := ParseHint(List(args)).value.items.value;
      ParseHint(Union(args)) == Ok(MarkNullable(items, NoneType in args))
  {
    if Ellipsis !in args {
      DropNoneIsDropMarkers(args);
      GroupParentIrrelevant(List(args), Union(args), args, DropMarkers(args));
    } else if !AllBasic(args) {
      assert Group(List(args), args, DropNone(args)) == Group(List(args), args, DropMarkers(args));
      GroupParentIrrelevant(List(args), Union(args), args, DropMarkers(args));
    }
  }

  /** A non-empty list of basic hints without `Any` always converts. Its
      `items` carry only a `type`: one name per argument other than `None`,
      in order (a bare name when there is one), where `...` contributes
      "object" and every other argument its scalar name. */
  lemma BasicListItems(args: seq<Hint>)
    requires args != [] && AllBasic(args) && AnyType !in args
    ensures ParseHint(List(args)).Ok?
    ensures var items, kept := ParseHint(List(args)).value.items.value, DropNone(args);
      && TypeKeys(kept).Ok?
      && var names := TypeKeys(kept).value;
         && items == Empty.(typ := Some(CollapseNames(names)))
         && |names| == |kept|
         && forall i | 0 <= i < |kept| ::
              if kept[i] == Ellipsis then names[i] == "object"
              else IsScalarName(names[i]) && JsonSchemaType(kept[i]) == OfType(names[i])
  {
    BasicListShape(args);
    BasicNames(DropNone(args));
  }

  lemma BasicListShape(args: seq<Hint>)
    requires args != [] && AllBasic(args) && AnyType !in args
    ensures TypeKeys(DropNone(args)).Ok?
    ensures ParseHint(List(args)) ==
      Ok(MarkNullable(OfType("array").(items := Some(Empty.(typ := Some(CollapseNames(TypeKeys(DropNone(args)).value))))),
                      NoneType in args))
  {
    var kept := DropNone(args);
    assert AnyType !in kept;
    assert Group(List(args), args, kept) == Ok(Empty.(typ := Some(CollapseNames(TypeKeys(kept).value))));
  }

  /** The `type` names of basic hints other than `None` and `Any`: "object"
      for `...`, the scalar name otherwise. */
  lemma BasicNames(kept: seq<Hint>)
    requires forall t <- kept :: IsBasic(t) && !t.NoneType? && t != AnyType
    ensures TypeKeys(kept).Ok?
    ensures var names := TypeKeys(kept).value;
      forall i | 0 <= i < |kept| ::
        if kept[i] == Ellipsis then names[i] == "object"
        else IsScalarName(names[i]) && JsonSchemaType(kept[i]) == OfType(names[i])
  {
    assert AnyType !in kept;
    var names := TypeKeys(kept).value;
    forall i | 0 <= i < |kept|
      ensures if kept[i] == Ellipsis then names[i] == "object"
              else IsScalarName(names[i]) && JsonSchemaType(kept[i]) == OfType(names[i])
    {
      assert kept[i] in kept;
      BasicName(kept[i], names[i]);
    }
  }

  lemma BasicName(t: Hint, n: string)
    requires IsBasic(t) && !t.NoneType? && t != AnyType && TypeKey(t) == Ok(n)
    ensures if t == Ellipsis then n == "object" else IsScalarName(n) && JsonSchemaType(t) == OfType(n)
  {
  }

  /** The ghost `parent` only serves termination: it does not change a result. */
  lemma {:induction false} ArgsParentIrrelevant(p1: Hint, p2: Hint, hs: seq<Hint>)
    requires forall i | 0 <= i < |hs| :: hs[i] < p1 && hs[i] < p2
    ensures ParseArgs(p1, hs) == ParseArgs(p2, hs)
    decreases |hs|
  {
    if hs != [] {
      assert forall i | 0 <= i < |hs[1..]| :: hs[1..][i] == hs[i + 1];
      ArgsParentIrrelevant(p1, p2, hs[1..]);
    }
  }

  lemma GroupParentIrrelevant(p1: Hint, p2: Hint, args: seq<Hint>, basicArgs: seq<Hint>)
    requires forall t <- args :: t < p1 && t < p2
    requires |basicArgs| <= |args|
    ensures Group(p1, args, basicArgs) == Group(p2, args, basicArgs)
  {
    var kept := DropMarkers(args);
    assert forall i | 0 <= i < |kept| :: kept[i] in args;
    ArgsParentIrrelevant(p1, p2, kept);
  }

  lemma {:induction false} DropNoneIsDropMarkers(hs: seq<Hint>)
    requires Ellipsis !in hs
    ensures DropNone(hs) == DropMarkers(hs)
  {
    if hs != [] {
      assert hs[0] != Ellipsis;
      assert Ellipsis !in hs[1..] by { assert forall t <- hs[1..] :: t in hs; }
      DropNoneIsDropMarkers(hs[1..]);
    }
  }

  /** The basic shortcut of a list drops only `None`: a `...` argument
      contributes the name "object", which a union of the same arguments
      leaves out. */
  lemma ListKeepsEllipsis()
    ensures ParseHint(List([Int, Ellipsis])) ==
      Ok(OfType("array").(items := Some(Empty.(typ := Some(Multi(["integer", "object"]))))))
    ensures ParseHint(Union([Int, Ellipsis])) == Ok(OfType("integer"))
  {
    assert DropNone([Int, Ellipsis]) == [Int, Ellipsis];
    assert DropMarkers([Int, Ellipsis]) == [Int];
    var r1 := TypeKeys([Ellipsis]);
    assert TypeKey([Ellipsis][0]) == Ok("object");
    assert r1.Ok? && r1.value == ["object"];
    var r2 := TypeKeys([Int, Ellipsis]);
    assert TypeKey([Int, Ellipsis][0]) == Ok("integer");
    assert [Int, Ellipsis][1..] == [Ellipsis];
    assert r2.Ok? && r2.value == ["integer", "object"];
  }

  /** `Optional[Any]`, and any all-basic union or list holding `Any`, fails:
      `{}` has no `type` key. */
  lemma AnyInBasicGroupFails()
    ensures ParseHint(Union([AnyType, NoneType])) == Err(NoTypeKey)
    ensures ParseHint(List([AnyType])) == Err(NoTypeKey)
  {
    assert DropMarkers([AnyType, NoneType]) == [AnyType];
    assert DropNone([AnyType]) == [AnyType];
  }

  /** Tuples: none gives a plain array; one argument, or `...` among several,
      is an error; otherwise `prefixItems` has one fragment per argument,
      position `i` being the conversion of argument `i`. */
  lemma TupleConversion(args: seq<Hint>)
    ensures args == [] ==> ParseHint(Tuple(args)) == Ok(OfType("array"))
    ensures |args| == 1 ==> ParseHint(Tuple(args)) == Err(TupleOfOne)
    ensures |args| >= 2 && Ellipsis in args ==> ParseHint(Tuple(args)) == Err(TupleWithEllipsis)
    ensures |args| >= 2 && Ellipsis !in args ==>
      (ParseHint(Tuple(args)).Ok? <==> forall t <- args :: ParseHint(t).Ok?)
    ensures ParseHint(Tuple(args)).Ok? && args != [] ==>
      var r := ParseHint(Tuple(args)).value;
      && r == OfType("array").(prefixItems := r.prefixItems)
      && r.prefixItems.Present? && |r.prefixItems.list| == |args|
      && forall i | 0 <= i < |args| :: ParseHint(args[i]) == Ok(r.prefixItems.list[i])
  {
    if |args| >= 2 && Ellipsis !in args {
      ArgsOk(Tuple(args), args);
    }
  }

  /** Dicts are always objects; `additionalProperties` is present exactly when
      there are two arguments, and is then the conversion of the value type.
      The key type is never converted. */
  lemma DictConversion(args: seq<Hint>)
    ensures |args| != 2 ==> ParseHint(Dict(args)) == Ok(OfType("object"))
    ensures |args| == 2 ==> (ParseHint(Dict(args)).Ok? <==> ParseHint(args[1]).Ok?)
    ensures |args| == 2 && ParseHint(args[1]).Ok? ==>
      ParseHint(Dict(args)) == Ok(OfType("object").(additionalProperties := Some(ParseHint(args[1]).value)))
    ensures |args| == 2 ==> forall k :: ParseHint(Dict([k, args[1]])) == ParseHint(Dict(args))
  {
  }

  /** Any other subscripted origin is rejected. */
  lemma OtherOriginFails(origin: string, args: seq<Hint>)
    ensures ParseHint(Generic(origin, args)) == Err(UnsupportedOrigin(origin))
  {
  }
}
