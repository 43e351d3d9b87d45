/**
  * Type hints as the converter sees them once reflection has been done: what
  * `get_origin` and `get_args` report, as a closed tree.
  */
module Hints {

  datatype Hint =
    | Int
    | Float
    | Str
    | Bool
    /** `typing.Any` */
    | AnyType
    /** `type(None)`, which `Optional[X]` contributes to a union */
    | NoneType
    /** The `...` marker of `tuple[X, ...]` */
    | Ellipsis
    /** Any other hint without a typing origin: a bare class such as `list`
        or a user-defined class */
    | Class(name: string)
    | Union(args: seq<Hint>)
    | List(args: seq<Hint>)
    | Tuple(args: seq<Hint>)
    | Dict(args: seq<Hint>)
    /** A subscripted hint with any other origin (`Literal[...]`,
        `Callable[...]`, a PEP 604 `X | Y`, ...) */
    | Generic(origin: string, args: seq<Hint>)

  /** `get_origin(hint) is not None`. */
  predicate HasOrigin(h: Hint) {
    h.Union? || h.List? || h.Tuple? || h.Dict? || h.Generic?
  }

  /** Membership in `BASIC_TYPES`. */
  predicate IsBasic(h: Hint) {
    h.Int? || h.Float? || h.Str? || h.Bool? || h.AnyType? || h.NoneType? || h.Ellipsis?
  }

  /** Membership in `(type(None), ...)`: the arguments a union drops. */
  predicate IsMarker(h: Hint) {
    h.NoneType? || h.Ellipsis?
  }

  predicate AllBasic(hs: seq<Hint>) {
    forall t <- hs :: IsBasic(t)
  }

  /** The arguments with `None` and `...` removed, in their order. */
  function DropMarkers(hs: seq<Hint>): (r: seq<Hint>)
    ensures |r| <= |hs|
    ensures forall t :: t in r <==> t in hs && !IsMarker(t)
  {
    if hs == [] then []
    else if IsMarker(hs[0]) then DropMarkers(hs[1..])
    else [hs[0]] + DropMarkers(hs[1..])
  }

  /** The arguments with only `None` removed, in their order. */
  function DropNone(hs: seq<Hint>): (r: seq<Hint>)
    ensures |r| <= |hs|
    ensures forall t :: t in r <==> t in hs && !t.NoneType?
  {
    if hs == [] then []
    else if hs[0].NoneType? then DropNone(hs[1..])
    else [hs[0]] + DropNone(hs[1..])
  }

  /** `DropMarkers` filters item by item: it distributes over concatenation
      and keeps a single argument exactly when it is not a marker, so the
      kept arguments stay in their order, repeats included. */
  lemma {:induction false} DropMarkersConcat(a: seq<Hint>, b: seq<Hint>)
    ensures DropMarkers(a + b) == DropMarkers(a) + DropMarkers(b)
    decreases |a|
  {
    if a == [] {
      assert a + b == b;
    } else {
      assert (a + b)[1..] == a[1..] + b;
      DropMarkersConcat(a[1..], b);
    }
  }

  lemma DropMarkersOne(t: Hint)
    ensures DropMarkers([t]) == if IsMarker(t) then [] else [t]
  {
  }

  /** The same for `DropNone`. */
  lemma {:induction false} DropNoneConcat(a: seq<Hint>, b: seq<Hint>)
    ensures DropNone(a + b) == DropNone(a) + DropNone(b)
    decreases |a|
  {
    if a == [] {
      assert a + b == b;
    } else {
      assert (a + b)[1..] == a[1..] + b;
      DropNoneConcat(a[1..], b);
    }
  }

  lemma DropNoneOne(t: Hint)
    ensures DropNone([t]) == if t.NoneType? then [] else [t]
  {
  }
}
