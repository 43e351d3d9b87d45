/**
  * What the assemblers promise: the exact `required` list, when conversion
  * and assembly fail and with which error, which properties the tool
  * description holds, and where the return schema and the choices go.
  */
module ToolSchemaFacts {
  import opened Wrappers
  import opened Errors
  import opened Hints
  import opened Schemas
  import opened TypeConversion
  import TypeConversionFacts
  import PyDict
  import Text
  import Json
  import Docstring
  import Choices
  import opened ToolSchema

  // ----- required -----

  /** `idx` lists, in increasing order, exactly the positions of the
      parameters without a default, and `names` holds their names. */
  predicate RequiredAt(ps: seq<Param>, names: seq<string>, idx: seq<nat>) {
    && |idx| == |names|
    && (forall j | 0 <= j < |idx| :: idx[j] < |ps| && !ps[idx[j]].hasDefault && ps[idx[j]].name == names[j])
    && (forall j, j' | 0 <= j < j' < |idx| :: idx[j] < idx[j'])
    && (forall i | 0 <= i < |ps| && !ps[i].hasDefault :: i in idx)
  }

  /** The `required` list names every parameter without a default, and no
      other, in signature order. */
  lemma {:induction false} RequiredNamesAre(ps: seq<Param>)
    ensures exists idx: seq<nat> :: RequiredAt(ps, RequiredNames(ps), idx)
    decreases |ps|
  {
    if ps == [] {
      var none: seq<nat> := [];
      assert RequiredAt(ps, RequiredNames(ps), none);
    } else {
      var n := |ps| - 1;
      var init := ps[..n];
      RequiredNamesAre(init);
      var names0 := RequiredNames(init);
      var idx0: seq<nat> :| RequiredAt(init, names0, idx0);
      RequiredAtExtend(ps, names0, idx0);
      var names := RequiredNames(ps);
      if ps[n].hasDefault {
        assert names == names0;
        assert RequiredAt(ps, names, idx0);
      } else {
        assert names == names0 + [ps[n].name];
        assert RequiredAt(ps, names, idx0 + [n]);
      }
    }
  }

  /** One more parameter extends the positions by its own exactly when it
      has no default. */
  lemma RequiredAtExtend(ps: seq<Param>, names: seq<string>, idx: seq<nat>)
    requires ps != [] && RequiredAt(ps[..|ps| - 1], names, idx)
    ensures var last := ps[|ps| - 1];
            if last.hasDefault then RequiredAt(ps, names, idx)
            else RequiredAt(ps, names + [last.name], idx + [|ps| - 1])
  {
    var n := |ps| - 1;
    assert forall j | 0 <= j < n :: ps[..n][j] == ps[j];
  }

  lemma {:induction false} RequiredNamesEmpty(ps: seq<Param>)
    ensures RequiredNames(ps) == [] <==> forall p <- ps :: p.hasDefault
    decreases |ps|
  {
    if ps != [] {
      var n := |ps| - 1;
      RequiredNamesEmpty(ps[..n]);
      assert ps == ps[..n] + [ps[n]];
    }
  }

  /** The `required` key is present exactly when some parameter has no
      default, and then lists those parameters. */
  lemma RequiredKey(f: Func)
    requires TypeHintsSchema(f).Ok?
    ensures TypeHintsSchema(f).value.required.None? <==> forall p <- f.params :: p.hasDefault
    ensures TypeHintsSchema(f).value.required.Some? ==>
              TypeHintsSchema(f).value.required.value == RequiredNames(f.params)
  {
    RequiredNamesEmpty(f.params);
  }

  // ----- properties -----

  /** The hint loop succeeds exactly when every hint converts. */
  lemma {:induction false} SetAllOk(convert: Hint -> Result<Schema, Error>, hints: PyDict.Dict<Hint>)
    ensures SetAll(convert, hints).Ok? <==> forall i | 0 <= i < |hints| :: convert(hints[i].1).Ok?
    decreases |hints|
  {
    if hints != [] {
      var n := |hints| - 1;
      var init := hints[..n];
      SetAllOk(convert, init);
      assert forall i | 0 <= i < n :: init[i] == hints[i];
      assert hints[..n + 1] == hints;
      var prefix := SetAll(convert, init);
      if prefix.Ok? {
        ToolSchema.SetAllStep(convert, hints, n, prefix.value, convert(hints[n].1));
      } else {
        ToolSchema.SetAllPrefixError(convert, hints, n);
      }
    }
  }

  /** The hint loop fails with the error of the first hint that does not
      convert. */
  lemma SetAllFirstError(convert: Hint -> Result<Schema, Error>, hints: PyDict.Dict<Hint>, i: nat)
    requires i < |hints|
    requires forall j | 0 <= j < i :: convert(hints[j].1).Ok?
    requires convert(hints[i].1).Err?
    ensures SetAll(convert, hints) == Err(convert(hints[i].1).error)
  {
    SetAllOk(convert, hints[..i]);
    assert forall j | 0 <= j < i :: hints[..i][j] == hints[j];
    assert hints[..i + 1][..i] == hints[..i];
    ToolSchema.SetAllPrefixError(convert, hints, i + 1);
  }

  /** With distinct hint names (as the keys of a dict are), `properties`
      holds one entry per hint, in the hints' order, with the hint's
      conversion. */
  lemma {:induction false} SetAllPointwise(convert: Hint -> Result<Schema, Error>, hints: PyDict.Dict<Hint>)
    requires PyDict.UniqueKeys(hints)
    requires SetAll(convert, hints).Ok?
    ensures |SetAll(convert, hints).value| == |hints|
    ensures forall i | 0 <= i < |hints| ::
              convert(hints[i].1).Ok? &&
              SetAll(convert, hints).value[i] == (hints[i].0, convert(hints[i].1).value)
    decreases |hints|
  {
    SetAllOk(convert, hints);
    if hints != [] {
      var n := |hints| - 1;
      var init := hints[..n];
      assert PyDict.UniqueKeys(init);
      SetAllPointwise(convert, init);
      var props := SetAll(convert, init).value;
      assert hints[n].0 !in PyDict.Keys(props) by {
        forall j | 0 <= j < |props| ensures props[j].0 != hints[n].0 {
          assert props[j] == (init[j].0, convert(init[j].1).value);
        }
      }
    }
  }

  /** Whatever the hints, the keys of `properties` are distinct and are the
      hint names. */
  lemma {:induction false} SetAllKeys(convert: Hint -> Result<Schema, Error>, hints: PyDict.Dict<Hint>)
    requires SetAll(convert, hints).Ok?
    ensures PyDict.UniqueKeys(SetAll(convert, hints).value)
    ensures forall k :: k in PyDict.Keys(SetAll(convert, hints).value) <==> k in PyDict.Keys(hints)
    decreases |hints|
  {
    if hints != [] {
      var n := |hints| - 1;
      var init := hints[..n];
      assert hints[..n + 1] == hints;
      SetAllKeys(convert, init);
      var props := SetAll(convert, init).value;
      var s := convert(hints[n].1);
      ToolSchema.SetAllStep(convert, hints, n, props, s);
      PyDict.SetKeys(props, hints[n].0, s.value);
      assert PyDict.Keys(hints) == PyDict.Keys(init) + [hints[n].0];
    }
  }

  /** `_convert_type_hints_to_json_schema` fails exactly when a parameter
      lacks an annotation or a hint cannot be converted; a missing
      annotation is reported first, naming the first such parameter. */
  lemma TypeHintsSchemaFails(f: Func)
    ensures TypeHintsSchema(f).Err? <==>
              (exists p <- f.params :: !p.annotated) ||
              (exists h <- f.hints :: !TypeConversionFacts.Convertible(h.1))
    ensures FirstUnannotated(f.params).Some? ==>
              TypeHintsSchema(f) == Err(MissingTypeHint(f.name, f.params[FirstUnannotated(f.params).value].name))
  {
    SetAllOk(ParseHint, f.hints);
    forall i | 0 <= i < |f.hints|
      ensures ParseHint(f.hints[i].1).Ok? <==> TypeConversionFacts.Convertible(f.hints[i].1)
    {
      TypeConversionFacts.ConvertibleIff(f.hints[i].1);
    }
  }

  // ----- descriptions -----

  /** A property is described exactly when the docstring has an entry for
      it whose annotation (if any) decodes; then only its `enum` and
      `description` change. */
  lemma DescribeArgOk(fname: string, args: map<string, string>, item: (string, Schema))
    ensures DescribeArg(fname, args, item).Ok? <==>
              item.0 in args && Choices.TakeChoices(args[item.0]).Ok?
    ensures item.0 !in args ==> DescribeArg(fname, args, item) == Err(MissingDescription(fname, item.0))
    ensures DescribeArg(fname, args, item).Ok? ==>
              var a := Choices.TakeChoices(args[item.0]).value;
              var s := DescribeArg(fname, args, item).value;
              && s.0 == item.0
              && s.1.description == Some(a.description)
              && s.1.enumChoices == (if a.choices.Some? then a.choices else item.1.enumChoices)
              && s.1.(enumChoices := item.1.enumChoices, description := item.1.description) == item.1
  {
  }

  /** A fold over results succeeds exactly when every step does, and then
      holds each step's value where its element stood. */
  lemma {:induction false} MapResultsOk<T, U>(step: T -> Result<U, Error>, xs: seq<T>)
    ensures MapResults(step, xs).Ok? <==> forall i | 0 <= i < |xs| :: step(xs[i]).Ok?
    ensures MapResults(step, xs).Ok? ==>
              |MapResults(step, xs).value| == |xs| &&
              forall i | 0 <= i < |xs| :: step(xs[i]).Ok? && MapResults(step, xs).value[i] == step(xs[i]).value
    decreases |xs|
  {
    if xs != [] {
      var n := |xs| - 1;
      MapResultsOk(step, xs[..n]);
      assert forall i | 0 <= i < n :: xs[..n][i] == xs[i];
    }
  }

  /** A fold over results fails with the error of the first failing step. */
  lemma MapResultsFirstError<T, U>(step: T -> Result<U, Error>, xs: seq<T>, i: nat)
    requires i < |xs|
    requires forall j | 0 <= j < i :: step(xs[j]).Ok?
    requires step(xs[i]).Err?
    ensures MapResults(step, xs) == Err(step(xs[i]).error)
  {
    MapResultsOk(step, xs[..i]);
    assert forall j | 0 <= j < i :: xs[..i][j] == xs[j];
    assert xs[..i + 1][..i] == xs[..i];
    ToolSchema.MapResultsPrefixError(step, xs, i + 1);
  }

  /** The property loop succeeds exactly when every property is described,
      and then describes each one where it stands. */
  lemma DescribeOk(fname: string, args: map<string, string>, props: PyDict.Dict<Schema>)
    ensures Describe(fname, args, props).Ok? <==>
              forall i | 0 <= i < |props| :: DescribeArg(fname, args, props[i]).Ok?
    ensures Describe(fname, args, props).Ok? ==>
              |Describe(fname, args, props).value| == |props| &&
              forall i | 0 <= i < |props| ::
                DescribeArg(fname, args, props[i]).Ok? &&
                Describe(fname, args, props).value[i] == DescribeArg(fname, args, props[i]).value
  {
    MapResultsOk(Describer(fname, args), props);
  }

  /** The property loop fails with the error of the first property that
      cannot be described: the missing docstring entry, or the annotation
      that does not decode. */
  lemma DescribeFirstError(fname: string, args: map<string, string>, props: PyDict.Dict<Schema>, i: nat)
    requires i < |props|
    requires forall j | 0 <= j < i :: DescribeArg(fname, args, props[j]).Ok?
    requires DescribeArg(fname, args, props[i]).Err?
    ensures Describe(fname, args, props) == Err(DescribeArg(fname, args, props[i]).error)
  {
    MapResultsFirstError(Describer(fname, args), props, i);
  }

  /** A description `pre + "(choices: " + json.dumps(xs) + ")" + w`, with no
      `(` in `pre`, no `)` in any choice and only whitespace in `w`, gives
      the listed strings, stripped, as `enum`, and the stripped `pre` as the
      description. */
  lemma ChoicesMoveToEnum(fname: string, args: map<string, string>, item: (string, Schema),
                          pre: string, xs: seq<string>, w: string)
    requires item.0 in args
    requires args[item.0] == pre + Choices.Head + Json.EncodeStrings(xs) + ")" + w
    requires '(' !in pre && (forall x <- xs :: ')' !in x) && Text.AllSpace(w)
    ensures DescribeArg(fname, args, item) ==
              Ok((item.0, item.1.(enumChoices := Some(Choices.StripAll(xs)), description := Some(Text.Strip(pre)))))
  {
    Choices.AnnotationRoundTrip(pre, xs, w);
  }

  /** A description the choices pattern does not match is kept whole and
      leaves `enum` alone. */
  lemma PlainDescriptionKept(fname: string, args: map<string, string>, item: (string, Schema))
    requires item.0 in args
    requires forall m: nat, g: nat, c: nat :: !Choices.PatternAt(args[item.0], m, g, c)
    ensures DescribeArg(fname, args, item) == Ok((item.0, item.1.(description := Some(args[item.0]))))
  {
    Choices.TakeChoicesIsSearch(args[item.0]);
  }

  // ----- get_json_schema -----

  /** With distinct hint names, looking up a name in `properties` gives the
      conversion of that name's hint. */
  lemma SetAllGet(convert: Hint -> Result<Schema, Error>, hints: PyDict.Dict<Hint>, k: string)
    requires PyDict.UniqueKeys(hints)
    requires SetAll(convert, hints).Ok?
    ensures PyDict.Get(hints, k).Some? ==> convert(PyDict.Get(hints, k).value).Ok?
    ensures PyDict.Get(SetAll(convert, hints).value, k) ==
              if PyDict.Get(hints, k).None? then None
              else Some(convert(PyDict.Get(hints, k).value).value)
  {
    SetAllPointwise(convert, hints);
    PyDict.PositionIs(SetAll(convert, hints).value, k, PyDict.Position(hints, k));
  }

  /** A function without a docstring, or with an empty one, is refused. */
  lemma EmptyDocFails(f: Func)
    requires f.doc.None? || f.doc == Some("")
    ensures ToolSpec(f) == Err(MissingDocstring(f.name))
  {
  }

  /** The errors come in the order of `get_json_schema`'s steps: the docstring is
      checked, then parsed, then the signature and hints are converted, and
      only then are the properties described. */
  lemma ErrorOrder(f: Func)
    ensures CleanDoc(f).Err? ==> ToolSpec(f) == Err(CleanDoc(f).error)
    ensures CleanDoc(f).Ok? && Docstring.ParseDocstring(CleanDoc(f).value).Err? ==>
              ToolSpec(f) == Err(Docstring.ParseDocstring(CleanDoc(f).value).error)
    ensures CleanDoc(f).Ok? && Docstring.ParseDocstring(CleanDoc(f).value).Ok? && TypeHintsSchema(f).Err? ==>
              ToolSpec(f) == Err(TypeHintsSchema(f).error)
  {
  }

  /** `get_json_schema` succeeds exactly when the docstring is present and
      parses, the signature and hints convert, and every property other
      than `return` has a docstring entry whose annotation (if any)
      decodes. */
  lemma ToolSpecOk(f: Func)
    ensures ToolSpec(f).Ok? <==>
              && CleanDoc(f).Ok?
              && Docstring.ParseDocstring(CleanDoc(f).value).Ok?
              && TypeHintsSchema(f).Ok?
              && var args := Docstring.ParseDocstring(CleanDoc(f).value).value.args;
                 forall k <- PyDict.Keys(PyDict.Pop(TypeHintsSchema(f).value.properties, "return").1) ::
                   k in args && Choices.TakeChoices(args[k]).Ok?
  {
    if CleanDoc(f).Ok? && Docstring.ParseDocstring(CleanDoc(f).value).Ok? && TypeHintsSchema(f).Ok? {
      var args := Docstring.ParseDocstring(CleanDoc(f).value).value.args;
      var props := PyDict.Pop(TypeHintsSchema(f).value.properties, "return").1;
      DescribeOk(f.name, args, props);
      forall i | 0 <= i < |props| {
        DescribeArgOk(f.name, args, props[i]);
      }
    }
  }

  /** No entry of `properties` has `enum` or `description` before the
      docstring is applied. */
  lemma {:induction false} ConvertHintsBare(hints: PyDict.Dict<Hint>, i: nat)
    requires ConvertHints(hints).Ok? && i < |ConvertHints(hints).value|
    ensures ConvertHints(hints).value[i].1.description.None?
    ensures ConvertHints(hints).value[i].1.enumChoices.None?
    decreases |hints|
  {
    var n := |hints| - 1;
    var init := ConvertHints(hints[..n]).value;
    var j := PyDict.Position(init, hints[n].0);
    if i < |init| && i != j {
      ConvertHintsBare(hints[..n], i);
    }
  }

  /** Assembly never keeps `return` among the properties; it yields a
      return schema exactly when the converted properties hold `return`,
      and that schema is the converted one with the Returns section (when
      there is one) as its description. */
  lemma AssembleReturn(name: string, sections: Docstring.Sections, schema: Parameters)
    requires PyDict.UniqueKeys(schema.properties)
    requires Assemble(name, sections, schema).Ok?
    ensures var t := Assemble(name, sections, schema).value;
            var ret := PyDict.Get(schema.properties, "return");
            && "return" !in PyDict.Keys(t.parameters.properties)
            && (t.returnSchema.Some? <==> ret.Some?)
            && (t.returnSchema.Some? && sections.returnDoc.Some? ==>
                  t.returnSchema.value == ret.value.(description := sections.returnDoc))
            && (t.returnSchema.Some? && sections.returnDoc.None? ==> t.returnSchema.value == ret.value)
  {
    var popped := PyDict.Pop(schema.properties, "return");
    PyDict.PopGet(schema.properties, "return");
    DescribeOk(name, sections.args, popped.1);
    var described := Describe(name, sections.args, popped.1).value;
    forall i | 0 <= i < |described| ensures described[i].0 == popped.1[i].0 {
      DescribeArgOk(name, sections.args, popped.1[i]);
    }
    assert PyDict.Keys(described) == PyDict.Keys(popped.1);
  }

  /** Assembly keeps the other properties in their order and changes only
      their `enum` and `description`, which come from their docstring
      entries. */
  lemma AssembleProperties(name: string, sections: Docstring.Sections, schema: Parameters)
    requires PyDict.UniqueKeys(schema.properties)
    requires Assemble(name, sections, schema).Ok?
    ensures var t := Assemble(name, sections, schema).value;
            && PyDict.Keys(t.parameters.properties) == PyDict.Without(PyDict.Keys(schema.properties), "return")
            && forall i | 0 <= i < |t.parameters.properties| ::
                 var k := t.parameters.properties[i].0;
                 var s := t.parameters.properties[i].1;
                 && k in sections.args
                 && Choices.TakeChoices(sections.args[k]).Ok?
                 && PyDict.Get(schema.properties, k).Some?
                 && var a := Choices.TakeChoices(sections.args[k]).value;
                    var before := PyDict.Get(schema.properties, k).value;
                    && s.description == Some(a.description)
                    && s.enumChoices == (if a.choices.Some? then a.choices else before.enumChoices)
                    && s.(enumChoices := before.enumChoices, description := before.description) == before
  {
    var popped := PyDict.Pop(schema.properties, "return");
    PyDict.PopGet(schema.properties, "return");
    DescribeOk(name, sections.args, popped.1);
    var described := Describe(name, sections.args, popped.1).value;
    assert Assemble(name, sections, schema).value.parameters.properties == described;
    forall i | 0 <= i < |described|
      ensures described[i].0 == popped.1[i].0
      ensures PyDict.Get(schema.properties, described[i].0) == Some(popped.1[i].1)
    {
      PyDict.PositionIs(popped.1, popped.1[i].0, i);
      DescribeArgOk(name, sections.args, popped.1[i]);
    }
    assert PyDict.Keys(described) == PyDict.Keys(popped.1);
    forall i | 0 <= i < |described| {
      DescribeArgOk(name, sections.args, popped.1[i]);
    }
  }

  /** The tool description names the function, carries the docstring's
      main description and the conversion's `required` list. */
  lemma ToolHeader(f: Func)
    requires ToolSpec(f).Ok?
    ensures CleanDoc(f) == Ok(Text.Strip(f.doc.value))
    ensures var t := ToolSpec(f).value;
            && t.name == f.name
            && t.description == Docstring.MainDescription(CleanDoc(f).value)
            && t.parameters.required == TypeHintsSchema(f).value.required
  {
  }

  /** `return` is never a property; the return schema is present exactly
      when the return value is annotated, and then is described by the
      Returns section (or has no description when there is none). */
  lemma ToolReturn(f: Func)
    requires ToolSpec(f).Ok?
    ensures var t := ToolSpec(f).value;
            var sections := Docstring.ParseDocstring(CleanDoc(f).value).value;
            && "return" !in PyDict.Keys(t.parameters.properties)
            && (t.returnSchema.Some? <==> "return" in PyDict.Keys(f.hints))
            && (t.returnSchema.Some? ==> t.returnSchema.value.description == sections.returnDoc)
  {
    var sections := Docstring.ParseDocstring(CleanDoc(f).value).value;
    var schema := TypeHintsSchema(f).value;
    SetAllKeys(ParseHint, f.hints);
    AssembleReturn(f.name, sections, schema);
    if "return" in PyDict.Keys(schema.properties) {
      ConvertHintsBare(f.hints, PyDict.Position(schema.properties, "return"));
    }
  }

  /** Every property of the tool description is a hint name, has a
      docstring entry, and is described by it. */
  lemma ToolProperties(f: Func)
    requires ToolSpec(f).Ok?
    ensures var t := ToolSpec(f).value;
            var sections := Docstring.ParseDocstring(CleanDoc(f).value).value;
            forall i | 0 <= i < |t.parameters.properties| ::
              var k := t.parameters.properties[i].0;
              && k in sections.args
              && k in PyDict.Keys(f.hints)
              && Choices.TakeChoices(sections.args[k]).Ok?
              && t.parameters.properties[i].1.description ==
                   Some(Choices.TakeChoices(sections.args[k]).value.description)
  {
    var sections := Docstring.ParseDocstring(CleanDoc(f).value).value;
    var schema := TypeHintsSchema(f).value;
    SetAllKeys(ParseHint, f.hints);
    AssembleProperties(f.name, sections, schema);
  }

  /** With distinct hint names, the properties are the hint names other
      than `return`, in their order; each property schema is its hint's
      conversion with only `enum` and `description` added, and the return
      schema is the conversion of the `return` hint with the Returns
      section as its description. */
  lemma ToolSchemasAreConversions(f: Func)
    requires PyDict.UniqueKeys(f.hints)
    requires ToolSpec(f).Ok?
    ensures var t := ToolSpec(f).value;
            var sections := Docstring.ParseDocstring(CleanDoc(f).value).value;
            && PyDict.Keys(t.parameters.properties) == PyDict.Without(PyDict.Keys(f.hints), "return")
            && (forall i | 0 <= i < |t.parameters.properties| ::
                  var k := t.parameters.properties[i].0;
                  && PyDict.Get(f.hints, k).Some?
                  && ParseHint(PyDict.Get(f.hints, k).value).Ok?
                  && t.parameters.properties[i].1.(enumChoices := None, description := None)
                     == ParseHint(PyDict.Get(f.hints, k).value).value)
            && (t.returnSchema.Some? ==>
                  && PyDict.Get(f.hints, "return").Some?
                  && ParseHint(PyDict.Get(f.hints, "return").value).Ok?
                  && t.returnSchema.value
                     == ParseHint(PyDict.Get(f.hints, "return").value).value.(description := sections.returnDoc))
  {
    var sections := Docstring.ParseDocstring(CleanDoc(f).value).value;
    var schema := TypeHintsSchema(f).value;
    SetAllPointwise(ParseHint, f.hints);
    SetAllKeys(ParseHint, f.hints);
    assert PyDict.Keys(schema.properties) == PyDict.Keys(f.hints);
    AssembleProperties(f.name, sections, schema);
    AssembleReturn(f.name, sections, schema);
    var t := ToolSpec(f).value;
    forall i | 0 <= i < |t.parameters.properties|
      ensures var k := t.parameters.properties[i].0;
              && PyDict.Get(f.hints, k).Some?
              && ParseHint(PyDict.Get(f.hints, k).value).Ok?
              && t.parameters.properties[i].1.(enumChoices := None, description := None)
                 == ParseHint(PyDict.Get(f.hints, k).value).value
    {
      SetAllGet(ParseHint, f.hints, t.parameters.properties[i].0);
    }
    SetAllGet(ParseHint, f.hints, "return");
  }
}
