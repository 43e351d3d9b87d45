/**
  * The two assemblers of src/transformers/utils/chat_template_utils.py:
  * `_convert_type_hints_to_json_schema`, which turns a signature and its
  * type hints into the `parameters` object, and `get_json_schema`, which
  * joins that object with the parsed docstring into a tool description.
  * Each is a method with the Python loops, proved equal to a
  * specification function; the lemmas state what the tool description is.
  */
module ToolSchema {
  import opened Wrappers
  import opened Errors
  import opened Hints
  import opened Schemas
  import opened TypeConversion
  import TypeConversionFacts
  import PyDict
  import Text
  import Docstring
  import Choices

  /** One entry of `inspect.signature(func).parameters`. */
  datatype Param = Param(name: string, annotated: bool, hasDefault: bool)

  /** What reflection reports about a function: its `__name__`, what
      `inspect.getdoc` returns, its signature, and `get_type_hints(func)`
      (which holds `"return"` when the return value is annotated). */
  datatype Func = Func(
    name: string,
    doc: Option<string>,
    params: seq<Param>,
    hints: PyDict.Dict<Hint>)

  /** `{"type": "object", "properties": ..., "required": ...}`; the
      `required` key is absent when no parameter is required. */
  datatype Parameters = Parameters(properties: PyDict.Dict<Schema>, required: Option<seq<string>>)

  /** `{"name": ..., "description": ..., "parameters": ..., "return": ...}` */
  datatype Tool = Tool(name: string, description: string, parameters: Parameters, returnSchema: Option<Schema>)

  // ----- _convert_type_hints_to_json_schema -----

  /** The position of the first parameter without an annotation. */
  function FirstUnannotated(ps: seq<Param>): (r: Option<nat>)
    ensures r.None? <==> forall p <- ps :: p.annotated
    ensures r.Some? ==> r.value < |ps| && !ps[r.value].annotated &&
                        forall j | 0 <= j < r.value :: ps[j].annotated
  {
    if ps == [] then None
    else if !ps[0].annotated then Some(0)
    else match FirstUnannotated(ps[1..])
      case None => None
      case Some(i) => Some(i + 1)
  }

  /** The names of the parameters without a default, in signature order. */
  function RequiredNames(ps: seq<Param>): seq<string> {
    if ps == [] then []
    else
      var last := ps[|ps| - 1];
      RequiredNames(ps[..|ps| - 1]) + (if last.hasDefault then [] else [last.name])
  }

  /** `properties[name] = convert(hint)` for every hint in order; the first
      hint that cannot be converted ends it with its error. */
  function SetAll(convert: Hint -> Result<Schema, Error>, hints: PyDict.Dict<Hint>): Result<PyDict.Dict<Schema>, Error> {
    if hints == [] then Ok([])
    else
      var props :- SetAll(convert, hints[..|hints| - 1]);
      var last := hints[|hints| - 1];
      var s :- convert(last.1);
      Ok(PyDict.Set(props, last.0, s))
  }

  /** The properties built from the type hints by `_parse_type_hint`. */
  function ConvertHints(hints: PyDict.Dict<Hint>): Result<PyDict.Dict<Schema>, Error> {
    SetAll(ParseHint, hints)
  }

  /** The specification of `_convert_type_hints_to_json_schema`. */
  function TypeHintsSchema(f: Func): Result<Parameters, Error> {
    match FirstUnannotated(f.params)
    case Some(i) => Err(MissingTypeHint(f.name, f.params[i].name))
    case None =>
      var props :- ConvertHints(f.hints);
      var req := RequiredNames(f.params);
      Ok(Parameters(props, if req == [] then None else Some(req)))
  }

  lemma {:induction false} SetAllPrefixError(convert: Hint -> Result<Schema, Error>, hints: PyDict.Dict<Hint>, k: nat)
    requires k <= |hints|
    requires SetAll(convert, hints[..k]).Err?
    ensures SetAll(convert, hints) == SetAll(convert, hints[..k])
    decreases |hints| - k
  {
    if k < |hints| {
      assert hints[..k + 1][..k] == hints[..k];
      SetAllPrefixError(convert, hints, k + 1);
    } else {
      assert hints[..k] == hints;
    }
  }

  /** One more hint extends the loop's result, or ends it with its error. */
  lemma SetAllStep(convert: Hint -> Result<Schema, Error>, hints: PyDict.Dict<Hint>, k: nat,
                   props: PyDict.Dict<Schema>, s: Result<Schema, Error>)
    requires k < |hints| && SetAll(convert, hints[..k]) == Ok(props)
    requires s == convert(hints[k].1)
    ensures SetAll(convert, hints[..k + 1]) == if s.Err? then Err(s.error) else Ok(PyDict.Set(props, hints[k].0, s.value))
  {
    assert hints[..k + 1][..k] == hints[..k];
  }

  /** The loop of `_convert_type_hints_to_json_schema` over the type hints. */
  method SetEach(convert: Hint -> Result<Schema, Error>, hints: PyDict.Dict<Hint>)
    returns (r: Result<PyDict.Dict<Schema>, Error>)
    ensures r == SetAll(convert, hints)
  {
    var properties: PyDict.Dict<Schema> := [];
    var k := 0;
    while k < |hints|
      invariant 0 <= k <= |hints|
      invariant SetAll(convert, hints[..k]) == Ok(properties)
    {
      var (name, hint) := hints[k];
      var s := convert(hint);
      SetAllStep(convert, hints, k, properties, s);
      if s.Err? {
        SetAllPrefixError(convert, hints, k + 1);
        return Err(s.error);
      }
      properties := PyDict.Set(properties, name, s.value);
      k := k + 1;
    }
    assert hints[..k] == hints;
    r := Ok(properties);
  }

  method ConvertTypeHintsToJsonSchema(f: Func) returns (r: Result<Parameters, Error>)
    ensures r == TypeHintsSchema(f)
  {
    var required: seq<string> := [];
    var i := 0;
    while i < |f.params|
      invariant 0 <= i <= |f.params|
      invariant forall j | 0 <= j < i :: f.params[j].annotated
      invariant required == RequiredNames(f.params[..i])
    {
      var p := f.params[i];
      if !p.annotated {
        return Err(MissingTypeHint(f.name, p.name));
      }
      if !p.hasDefault {
        required := required + [p.name];
      }
      assert f.params[..i + 1][..i] == f.params[..i];
      i := i + 1;
    }
    assert f.params[..i] == f.params;
    var properties := SetEach(ParseHint, f.hints);
    if properties.Err? {
      return Err(properties.error);
    }
    r := Ok(Parameters(properties.value, if required == [] then None else Some(required)));
  }

  // ----- get_json_schema -----

  /** The docstring of one property: its description (with a trailing
      `(choices: [...])` annotation moved into `enum`), or the error that
      it has none or that the annotation does not decode. */
  function DescribeArg(fname: string, args: map<string, string>, item: (string, Schema)): Result<(string, Schema), Error> {
    if item.0 !in args then Err(MissingDescription(fname, item.0))
    else
      var a :- Choices.TakeChoices(args[item.0]);
      var s := if a.choices.Some? then item.1.(enumChoices := a.choices) else item.1;
      Ok((item.0, s.(description := Some(a.description))))
  }

  /** `step` applied to each element in order; the first failure ends it
      with its error. */
  function MapResults<T, U>(step: T -> Result<U, Error>, xs: seq<T>): Result<seq<U>, Error> {
    if xs == [] then Ok([])
    else
      var init :- MapResults(step, xs[..|xs| - 1]);
      var last :- step(xs[|xs| - 1]);
      Ok(init + [last])
  }

  function Describer(fname: string, args: map<string, string>): ((string, Schema)) -> Result<(string, Schema), Error> {
    item => DescribeArg(fname, args, item)
  }

  /** The loop over the properties, in their order. */
  function Describe(fname: string, args: map<string, string>, props: PyDict.Dict<Schema>): Result<PyDict.Dict<Schema>, Error> {
    MapResults(Describer(fname, args), props)
  }

  /** `return_dict["description"] = return_doc` when both are present. */
  function ReturnSchema(ret: Option<Schema>, returnDoc: Option<string>): Option<Schema> {
    match ret
    case None => None
    case Some(s) => Some(if returnDoc.Some? then s.(description := returnDoc) else s)
  }

  /** `not doc` fails; otherwise the stripped docstring. */
  function CleanDoc(f: Func): Result<string, Error> {
    match f.doc
    case None => Err(MissingDocstring(f.name))
    case Some(d) => if d == "" then Err(MissingDocstring(f.name)) else Ok(Text.Strip(d))
  }

  /** The tail of `get_json_schema`, once the docstring is parsed and the
      hints are converted: `return` is detached and the other properties
      are described. */
  function Assemble(name: string, sections: Docstring.Sections, schema: Parameters): Result<Tool, Error> {
    var popped := PyDict.Pop(schema.properties, "return");
    var props :- Describe(name, sections.args, popped.1);
    Ok(Tool(name, sections.description, Parameters(props, schema.required),
            ReturnSchema(popped.0, sections.returnDoc)))
  }

  /** The specification of `get_json_schema`. */
  function ToolSpec(f: Func): Result<Tool, Error> {
    var doc :- CleanDoc(f);
    var sections :- Docstring.ParseDocstring(doc);
    var schema :- TypeHintsSchema(f);
    Assemble(f.name, sections, schema)
  }

  lemma {:induction false} MapResultsPrefixError<T, U>(step: T -> Result<U, Error>, xs: seq<T>, k: nat)
    requires k <= |xs|
    requires MapResults(step, xs[..k]).Err?
    ensures MapResults(step, xs) == MapResults(step, xs[..k])
    decreases |xs| - k
  {
    if k < |xs| {
      assert xs[..k + 1][..k] == xs[..k];
      MapResultsPrefixError(step, xs, k + 1);
    } else {
      assert xs[..k] == xs;
    }
  }

  /** One more element extends the result, or ends it with its error. */
  lemma MapResultsStep<T, U>(step: T -> Result<U, Error>, xs: seq<T>, k: nat, done: seq<U>, d: Result<U, Error>)
    requires k < |xs| && MapResults(step, xs[..k]) == Ok(done)
    requires d == step(xs[k])
    ensures MapResults(step, xs[..k + 1]) == if d.Err? then Err(d.error) else Ok(done + [d.value])
  {
    assert xs[..k + 1][..k] == xs[..k];
  }

  /** The loop of `get_json_schema` over the properties: each one is
      visited in order and replaced where it stands by what `describe` makes
      of it (the keys are distinct, so the entry of `arg` is the one at
      `i`); the first property that cannot be described ends the loop. */
  method DescribeProperties(describe: ((string, Schema)) -> Result<(string, Schema), Error>, props: PyDict.Dict<Schema>)
    returns (r: Result<PyDict.Dict<Schema>, Error>)
    ensures r == MapResults(describe, props)
  {
    var properties := props;
    var i := 0;
    while i < |properties|
      invariant 0 <= i <= |properties| == |props|
      invariant MapResults(describe, props[..i]) == Ok(properties[..i])
      invariant properties[i..] == props[i..]
    {
      var d := describe(properties[i]);
      MapResultsStep(describe, props, i, properties[..i], d);
      if d.Err? {
        MapResultsPrefixError(describe, props, i + 1);
        return Err(d.error);
      }
      properties := properties[i := d.value];
      assert properties[..i + 1] == properties[..i] + [d.value];
      i := i + 1;
    }
    assert props[..i] == props;
    assert properties[..i] == properties;
    r := Ok(properties);
  }

  method GetJsonSchema(f: Func) returns (r: Result<Tool, Error>)
    ensures r == ToolSpec(f)
  {
    if f.doc.None? || f.doc.value == "" {
      return Err(MissingDocstring(f.name));
    }
    var doc := Text.Strip(f.doc.value);
    var sections := Docstring.ParseGoogleFormatDocstring(doc);
    if sections.Err? {
      return Err(sections.error);
    }
    var schema := ConvertTypeHintsToJsonSchema(f);
    if schema.Err? {
      return Err(schema.error);
    }
    var popped := PyDict.Pop(schema.value.properties, "return");
    var returnDict := popped.0;
    if returnDict.Some? && sections.value.returnDoc.Some? {
      returnDict := Some(returnDict.value.(description := sections.value.returnDoc));
    }
    var properties := DescribeProperties(Describer(f.name, sections.value.args), popped.1);
    if properties.Err? {
      return Err(properties.error);
    }
    r := Ok(Tool(f.name, sections.value.description, Parameters(properties.value, schema.value.required), returnDict));
  }
}
