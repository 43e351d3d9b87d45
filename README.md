# Tool schemas from type hints and Google-style docstrings

This project models `src/transformers/utils/chat_template_utils.py`. Its
`get_json_schema` turns a Python function into a JSON "tool" description for
chat templates. The description holds the function's name, the main text of
its docstring, a `parameters` object and, optionally, a `return` fragment.
The module has three parts, each modelled here with proved contracts:

- **The type-hint converter** (`_get_json_schema_type`, `_parse_type_hint`):
  - It is a structural recursion from a closed `Hint` datatype to a schema
    fragment: a record whose fields are the JSON keys in the order the code
    inserts them.
  - It is modelled by pure functions into `Result`.
  - Lemmas state each branch: scalars, unions, lists, tuples, dicts and
    unknown origins.
  - A reference semantics proves what the fragments mean. Every value a
    supported hint admits passes its fragment. For the hints whose fragment
    is exact, a value passes exactly when it has the hinted type.
- **The docstring parser** (`parse_google_format_docstring`):
  - A method with the Python loop over the Args lines, proved equal to a
    specification function.
  - The three regular expressions are replaced by scanning functions.
    Lemmas prove that each scanner returns the group of the leftmost match
    of its pattern, under that pattern's greedy and lazy rules.
  - Lemmas state when the line-splitting loop succeeds and fails, and that
    a later line for the same name wins.
- **The assemblers** (`_convert_type_hints_to_json_schema`,
  `get_json_schema`):
  - Methods with the Python loops: over the parameters, over the hints and
    over the properties. Each is proved equal to a specification function.
  - Lemmas state the `required` list, the detached `return` fragment, the
    description that every property must have, the error order, and the
    `(choices: ...)` annotation. That annotation is decoded with a small
    `json.loads`, proved to invert a `json.dumps`-style encoder.

Reflection is abstracted:
- `inspect.getdoc`, `inspect.signature` and `get_type_hints` become the
  fields of a `Func` record: the name, the docstring, the parameters (each
  with its annotated and has-default flags) and the ordered hint dictionary.
- `get_origin` and `get_args` become the constructors of `Hint`.

Python dictionaries whose order matters (the hint dictionary and the
properties) are association lists with Python's `d[k] = v` and `d.pop(k)`
semantics (module `PyDict`). The Args map is a Dafny `map`: its order never
reaches the output.

A bare `NoneType` hint (and a bare `...`) converts to
`{"type": "object"}` and not to `{"type": "null"}` (lines 257-258 and 273).
`SchemaSemantics.BareNoneRejectsNull` states the consequence.

Modules: `Wrappers`, `Errors`, `Text`, `Hints`, `Schemas`,
`TypeConversion`, `TypeConversionFacts`, `SchemaSemantics`, `PyDict`,
`Json`, `Choices`, `Docstring`, `ToolSchema`, `ToolSchemaFacts`.

## Model

| member | source | states |
|---|---|---|
| Text.Strip | src/transformers/utils/chat_template_utils.py:108 | `str.strip()`: the result is the infix of the input between its leading and its trailing whitespace; it is empty exactly when the input is all whitespace, and otherwise starts and ends with non-whitespace |
| Text.StripIsUnique | src/transformers/utils/chat_template_utils.py:108 | any infix surrounded by whitespace that starts and ends with non-whitespace is the stripped string |
| Text.StripIdempotent | src/transformers/utils/chat_template_utils.py:152-154 | stripping twice is stripping once |
| Text.StripPadded | src/transformers/utils/chat_template_utils.py:152-154 | whitespace added around a string does not change its stripped form |
| Text.Split | src/transformers/utils/chat_template_utils.py:161 | `str.split("\n")`: at least one piece, no piece holds the separator, and joining the pieces with it gives back the input |
| Text.SplitJoin | src/transformers/utils/chat_template_utils.py:161 | splitting inverts joining when no piece holds the separator |
| Text.SplitOnce | src/transformers/utils/chat_template_utils.py:164 | `str.split(":", 1)` unpacked: `None` exactly when there is no separator; otherwise prefix + separator + rest is the input and the prefix holds no separator |
| Text.SplitOnceUnique | src/transformers/utils/chat_template_utils.py:164 | the split happens at the first separator, whatever the rest holds |
| Hints.DropMarkers | src/transformers/utils/chat_template_utils.py:198 | the filter `t not in (type(None), ...)`: keeps exactly the arguments that are neither `None` nor `...` |
| Hints.DropNone | src/transformers/utils/chat_template_utils.py:217 | the filter `t != type(None)`: keeps exactly the arguments other than `None` |
| Hints.DropMarkersConcat | src/transformers/utils/chat_template_utils.py:198 | the filter works argument by argument: filtering a concatenation is concatenating the filtered parts, so kept arguments keep their order and their repeats |
| Hints.DropMarkersOne | src/transformers/utils/chat_template_utils.py:198 | one argument is kept exactly when it is neither `None` nor `...` |
| Hints.DropNoneConcat | src/transformers/utils/chat_template_utils.py:217 | the list filter works argument by argument, so kept arguments keep their order and their repeats |
| Hints.DropNoneOne | src/transformers/utils/chat_template_utils.py:217 | one argument is kept exactly when it is not `None` |
| TypeConversion.TypeKeys | src/transformers/utils/chat_template_utils.py:198 | the `type` names of a list of basic hints, one per hint and in order; fails with the missing-key error exactly when `Any` is among them |
| TypeConversion.ParseHint | src/transformers/utils/chat_template_utils.py:192-258 | `_parse_type_hint` as a total function into `Result`; no fragment it returns carries `enum` or `description` |
| TypeConversion.Group | src/transformers/utils/chat_template_utils.py:196-208 | the shared union/list body: its result never carries `enum` or `description` |
| TypeConversion.ParseArgs | src/transformers/utils/chat_template_utils.py:205 | the comprehension over arguments: on success one fragment per argument, fragment `i` being the conversion of argument `i`; on failure the error of the first argument that fails |
| TypeConversionFacts.ConvertibleIff | src/transformers/utils/chat_template_utils.py:192-258 | the conversion succeeds exactly for the `Convertible` hints: no `Any` in an all-basic union or list, no tuple of one or with `...`, no unknown origin, recursively |
| TypeConversionFacts.ArgsOk | src/transformers/utils/chat_template_utils.py:205 | the comprehension succeeds exactly when every argument converts |
| TypeConversionFacts.GroupOk | src/transformers/utils/chat_template_utils.py:196-208 | the union/list body succeeds exactly when (all basic) `Any` is absent, or (otherwise) every non-marker argument converts |
| TypeConversionFacts.NonGenericHint | src/transformers/utils/chat_template_utils.py:257-273 | hints without an origin map through `_get_json_schema_type`: int, float, str, bool to their JSON names, `Any` to `{}`, everything else to `{"type": "object"}`, never failing |
| TypeConversionFacts.TypeKeyOfScalar | src/transformers/utils/chat_template_utils.py:261-269 | a scalar basic hint has one of the four JSON scalar names as its `type` |
| TypeConversionFacts.BasicUnion | src/transformers/utils/chat_template_utils.py:194-211 | an all-basic union fails exactly when `Any` is among its arguments; otherwise only `type` (and `nullable`) are set, `type` lists the scalar names of the non-marker arguments in order, collapsed to a bare name exactly when one remains, and `nullable` holds exactly when `None` is an argument |
| TypeConversionFacts.ComplexUnion | src/transformers/utils/chat_template_utils.py:202-210 | a union with a non-basic argument converts exactly when its non-marker arguments do; the result is the sole conversion (made nullable), or exactly `{"anyOf": [...]}` of all of them in order plus `nullable` exactly when `None` is an argument |
| TypeConversionFacts.EmptyList | src/transformers/utils/chat_template_utils.py:213-214 | a bare `list` is exactly `{"type": "array"}` |
| TypeConversionFacts.ListItemsFollowUnion | src/transformers/utils/chat_template_utils.py:212-228 | a non-empty list is an array with exactly `items` (and `nullable` exactly when `None` is an argument); when `...` is absent or some argument is not basic, the list converts exactly when the union of its arguments does, and its items are that union's fragment |
| TypeConversionFacts.BasicListItems | src/transformers/utils/chat_template_utils.py:215-219 | a non-empty basic list without `Any` always converts; its items are only a `type` with one name per argument other than `None`, in order, collapsed when there is one, where `...` gives "object" and every other argument its scalar name |
| TypeConversionFacts.BasicListShape | src/transformers/utils/chat_template_utils.py:215-228 | such a list is the array whose items are the collapsed `type` names of its arguments other than `None`, nullable when `None` is an argument |
| TypeConversionFacts.BasicNames | src/transformers/utils/chat_template_utils.py:217 | the names of the basic arguments other than `None` and `Any`: "object" for `...`, the scalar name otherwise |
| TypeConversionFacts.BasicName | src/transformers/utils/chat_template_utils.py:261-273 | the `type` of one such hint is "object" for `...` and its scalar name otherwise |
| TypeConversionFacts.DropNoneIsDropMarkers | src/transformers/utils/chat_template_utils.py:217 | without `...` the list filter and the union filter keep the same arguments |
| TypeConversionFacts.ListKeepsEllipsis | src/transformers/utils/chat_template_utils.py:215-219 | the list shortcut keeps `...` as "object" while the union drops it: `List[int, ...]` and `Union[int, ...]` differ |
| TypeConversionFacts.AnyInBasicGroupFails | src/transformers/utils/chat_template_utils.py:196-198 | `Optional[Any]` and `List[Any]` fail: `{}` has no `type` key |
| TypeConversionFacts.TupleConversion | src/transformers/utils/chat_template_utils.py:229-247 | bare tuple is a plain array; one argument or `...` is an error; otherwise it converts exactly when every argument does, and `prefixItems` has one fragment per argument in order |
| TypeConversionFacts.DictConversion | src/transformers/utils/chat_template_utils.py:248-254 | a dict is always an object; `additionalProperties` is present exactly with two arguments and is the value type's conversion; the key type never matters |
| TypeConversionFacts.OtherOriginFails | src/transformers/utils/chat_template_utils.py:255-256 | any other origin is rejected, naming the origin |
| TypeConversionFacts.ArgsParentIrrelevant | src/transformers/utils/chat_template_utils.py:205 | the comprehension's result does not depend on the hint it is taken from |
| TypeConversionFacts.GroupParentIrrelevant | src/transformers/utils/chat_template_utils.py:196-208 | the union/list body does not depend on the hint it is taken from, so a list's items are the union rule applied to the same arguments |
| SchemaSemantics.ExactIsSupported | src/transformers/utils/chat_template_utils.py:192-258 | every hint whose fragment is exact is a supported hint |
| SchemaSemantics.ScalarNameMeaning | src/transformers/utils/chat_template_utils.py:261-269 | a scalar name lets through exactly the values of its hint (int as number, too, for float) |
| SchemaSemantics.CollapseNamesMeaning | src/transformers/utils/chat_template_utils.py:200-201 | collapsing a one-name list to a bare name does not change what `type` accepts |
| SchemaSemantics.CollapseAnyOfMeaning | src/transformers/utils/chat_template_utils.py:207-208 | collapsing a one-fragment `anyOf` does not change what it accepts |
| SchemaSemantics.MarkNullableMeaning | src/transformers/utils/chat_template_utils.py:209-210 | `nullable: true` adds exactly `null` to what a fragment accepts |
| SchemaSemantics.Soundness | src/transformers/utils/chat_template_utils.py:192-258 | for a supported convertible hint, every value the hint admits passes its fragment |
| SchemaSemantics.SoundList | src/transformers/utils/chat_template_utils.py:212-228 | soundness for lists |
| SchemaSemantics.SoundTuple | src/transformers/utils/chat_template_utils.py:229-247 | soundness for tuples |
| SchemaSemantics.SoundDict | src/transformers/utils/chat_template_utils.py:248-254 | soundness for dicts |
| SchemaSemantics.SoundGroup | src/transformers/utils/chat_template_utils.py:196-208 | soundness of the union/list body for a value of one of the arguments |
| SchemaSemantics.SoundNames | src/transformers/utils/chat_template_utils.py:196-201 | a value of a non-marker basic argument passes the `type` list |
| SchemaSemantics.SoundAnyOf | src/transformers/utils/chat_template_utils.py:203-208 | a value passing one converted argument passes the `anyOf` |
| SchemaSemantics.Completeness | src/transformers/utils/chat_template_utils.py:192-258 | for an exact convertible hint, every value passing its fragment is admitted by the hint |
| SchemaSemantics.CompleteUnion | src/transformers/utils/chat_template_utils.py:194-211 | completeness for unions |
| SchemaSemantics.CompleteList | src/transformers/utils/chat_template_utils.py:212-228 | completeness for lists |
| SchemaSemantics.CompleteDict | src/transformers/utils/chat_template_utils.py:248-254 | completeness for dicts |
| SchemaSemantics.CompleteGroup | src/transformers/utils/chat_template_utils.py:196-208 | a value passing the union/list body has the type of one of the arguments |
| SchemaSemantics.CompleteNames | src/transformers/utils/chat_template_utils.py:196-201 | a value passing the `type` list has the type of one of the basic arguments |
| SchemaSemantics.CompleteAnyOf | src/transformers/utils/chat_template_utils.py:203-208 | a value passing the `anyOf` passes the conversion of some kept argument |
| SchemaSemantics.FragmentMeansHint | src/transformers/utils/chat_template_utils.py:192-258 | for exact hints a value passes the fragment exactly when it has the hinted type |
| SchemaSemantics.BareNoneRejectsNull | src/transformers/utils/chat_template_utils.py:257-258 | bare `None` becomes `{"type": "object"}`, which rejects `null` |
| PyDict.KeyPosition | src/transformers/utils/chat_template_utils.py:117 | a key is in a dictionary exactly when its position is before the end |
| PyDict.KeysConcat | src/transformers/utils/chat_template_utils.py:115 | the key list of two item lists joined is the two key lists joined: keys keep the order of their items |
| PyDict.Position | src/transformers/utils/chat_template_utils.py:183 | the position of the first entry with a key, or the length when there is none |
| PyDict.PositionIs | src/transformers/utils/chat_template_utils.py:183 | the position is determined by its ensures |
| PyDict.Get | src/transformers/utils/chat_template_utils.py:117 | a lookup finds a value exactly when the key is present |
| PyDict.Pop | src/transformers/utils/chat_template_utils.py:112 | `dict.pop(k, None)` returns the value the key had |
| PyDict.Without | src/transformers/utils/chat_template_utils.py:112 | a key list with one key removed holds exactly the other keys |
| PyDict.WithoutConcat | src/transformers/utils/chat_template_utils.py:112 | removing a key works item by item, so the remaining keys keep their order |
| PyDict.WithoutOne | src/transformers/utils/chat_template_utils.py:112 | one key is kept exactly when it is not the removed key |
| PyDict.SetGet | src/transformers/utils/chat_template_utils.py:183 | `d[k] = v` makes `k` map to `v` and leaves every other key's value |
| PyDict.SetKeys | src/transformers/utils/chat_template_utils.py:183 | `d[k] = v` keeps the key order, appending `k` only when it is new, and keeps keys distinct |
| PyDict.PopGet | src/transformers/utils/chat_template_utils.py:112 | after `pop(k)`: `k` is gone, every other key keeps its value and its place, keys stay distinct |
| PyDict.RemoveAt | src/transformers/utils/chat_template_utils.py:112 | removing the entry at a position shifts the later ones and keeps keys distinct |
| PyDict.RemoveAtGet | src/transformers/utils/chat_template_utils.py:112 | removing one entry leaves the values of the other keys |
| PyDict.WithoutAbsent | src/transformers/utils/chat_template_utils.py:112 | popping an absent key leaves the key list alone |
| PyDict.KeysWithoutAt | src/transformers/utils/chat_template_utils.py:112 | removing the entry of a key removes exactly that key from the key list |
| Json.TrimJsonSpace | src/transformers/utils/chat_template_utils.py:123 | skips exactly the leading JSON whitespace |
| Json.HexRoundTrip | src/transformers/utils/chat_template_utils.py:123 | a hex digit written is read back |
| Json.EscapeOf | src/transformers/utils/chat_template_utils.py:123 | an escape written for a character is read back as that character |
| Json.ScanEncoded | src/transformers/utils/chat_template_utils.py:123 | scanning an encoded string literal gives back the string and the text after it |
| Json.ScanItemsEncoded | src/transformers/utils/chat_template_utils.py:123 | scanning encoded array items gives back the items and the text after the bracket |
| Json.DecodeArrayEncoded | src/transformers/utils/chat_template_utils.py:123 | decoding the body of an encoded array gives back its strings |
| Json.DecodeEncodeStrings | src/transformers/utils/chat_template_utils.py:123 | `json.loads(json.dumps(xs)) == xs` for every list of strings |
| Json.DecodeQuote | src/transformers/utils/chat_template_utils.py:123 | iterating over a decoded JSON string yields its characters |
| Json.EncodeStringsParenFree | src/transformers/utils/chat_template_utils.py:121 | an encoded list of strings without `)` holds no `)`, so the choices pattern can capture it |
| Choices.FindMatch | src/transformers/utils/chat_template_utils.py:121 | the first position at which the choices pattern matches, or none |
| Choices.GroupStart | src/transformers/utils/chat_template_utils.py:121 | group 1 starts after the keyword and before the closing `)` |
| Choices.DollarIsTrailingSpace | src/transformers/utils/chat_template_utils.py:121 | `\s*$` matches exactly where only whitespace remains |
| Choices.PatternCloses | src/transformers/utils/chat_template_utils.py:121 | any match of the pattern closes at the first `)` after the keyword |
| Choices.MatchAtIsPattern | src/transformers/utils/chat_template_utils.py:121 | the scanner's test at a position is exactly the pattern matching there, and its group start is the greedy `\s*`'s end |
| Choices.TakeChoicesIsSearch | src/transformers/utils/chat_template_utils.py:121-122 | `FindMatch` is `re.search`: none exactly when the pattern matches nowhere, otherwise the leftmost match; without a match the description is kept whole |
| Choices.FindMatchIs | src/transformers/utils/chat_template_utils.py:121 | the search finds the first matching position |
| Choices.NoMatchBefore | src/transformers/utils/chat_template_utils.py:121 | the pattern cannot match before the first `(` |
| Choices.TakeChoicesFound | src/transformers/utils/chat_template_utils.py:121-124 | with a match whose group decodes, the choices are its stripped items and the description is the stripped text before the match |
| Choices.AnnotationFound | src/transformers/utils/chat_template_utils.py:121 | when `desc` holds the lowercase head `(choices: `, then a group `e` and `)` at position `m`, followed only by whitespace, and no `(` comes before `m`, `e` has no `)`, and `e` is non-empty and starts with a non-space, then `m` is the leftmost match and `e` its group; the general case is `TakeChoicesIsSearch` with `TakeChoicesFound` |
| Choices.AnnotationRoundTrip | src/transformers/utils/chat_template_utils.py:121-124 | for a prefix `pre` without `(`, strings `xs` none of which contains `)`, and whitespace `w`, taking apart `pre + "(choices: " + json.dumps(xs) + ")" + w` gives back the stripped choices and the stripped `pre`; other layouts (an earlier `(`, a `)` inside a choice) are covered only by `TakeChoicesIsSearch` with `TakeChoicesFound` |
| Docstring.FindHeader | src/transformers/utils/chat_template_utils.py:146 | the first newline whose following whitespace run ends at the header |
| Docstring.ParseArgLine | src/transformers/utils/chat_template_utils.py:164 | fails, naming the line, exactly when the line has no colon |
| Docstring.WriteEach | src/transformers/utils/chat_template_utils.py:160-165 | the loop over the Args lines computes `WriteAll` |
| Docstring.ParseGoogleFormatDocstring | src/transformers/utils/chat_template_utils.py:133-167 | the method computes `ParseDocstring`: the main description, the Args map and the Returns text, or the error of the first bad Args line |
| Docstring.LazyEndIs | src/transformers/utils/chat_template_utils.py:146-147 | the scanner's end is where the lazy `(.*?)` stops: the first position followed by whitespace and then an end word or the end of the text |
| Docstring.StripDropsTrailing | src/transformers/utils/chat_template_utils.py:153 | whitespace between the group's end and the terminator does not change the stripped group |
| Docstring.HeaderAtIff | src/transformers/utils/chat_template_utils.py:146 | `\n\s*HEADER` matches at `p` exactly where `FindHeader` tests, with the header after the whole whitespace run |
| Docstring.MainDescriptionIsRegexGroup | src/transformers/utils/chat_template_utils.py:145-152 | the main description is the stripped lazy group of `description_re`, which always matches |
| Docstring.FindHeaderIsLeftmost | src/transformers/utils/chat_template_utils.py:146-151 | `FindHeader` finds no header exactly when the header pattern matches nowhere, and otherwise the leftmost match |
| Docstring.BlockAtHeader | src/transformers/utils/chat_template_utils.py:153 | the block is the stripped text between the skipped whitespace after the header and the whitespace before the terminator |
| Docstring.LeftmostSection | src/transformers/utils/chat_template_utils.py:146-151 | the leftmost section match starts at the found header, its greedy `\s*` ends where the scanner skips to, and its lazy group ends where the scanner stops |
| Docstring.BlockIsMatchedGroup | src/transformers/utils/chat_template_utils.py:146-153 | the block is the stripped group of the leftmost section match |
| Docstring.BlockIsRegexGroup | src/transformers/utils/chat_template_utils.py:146-154 | a section is absent exactly when its pattern matches nowhere, and otherwise it is the stripped group of the leftmost match |
| Docstring.ArgsBlockIsRegexGroup | src/transformers/utils/chat_template_utils.py:146-153 | the Args block is `args_re`'s stripped group, or absent exactly when `args_re` does not match |
| Docstring.ReturnsBlockIsRegexGroup | src/transformers/utils/chat_template_utils.py:147-154 | the Returns text is `returns_re`'s stripped group, or absent exactly when `returns_re` does not match |
| Docstring.WriteAllOk | src/transformers/utils/chat_template_utils.py:162-165 | the loop succeeds exactly when every line parses |
| Docstring.ArgsDictOk | src/transformers/utils/chat_template_utils.py:162-165 | the Args loop succeeds exactly when every line has a colon |
| Docstring.WriteAllFirstError | src/transformers/utils/chat_template_utils.py:162-164 | a failing loop reports the error of the first line that fails |
| Docstring.ArgsDictFirstError | src/transformers/utils/chat_template_utils.py:162-164 | a failing Args loop reports the first line without a colon |
| Docstring.CollectLastWins | src/transformers/utils/chat_template_utils.py:165 | writing entries in order: a key is present exactly when some entry has it, with the value of the last such entry |
| Docstring.CollectKeys | src/transformers/utils/chat_template_utils.py:165 | a key is written exactly when some entry has it |
| Docstring.CollectLast | src/transformers/utils/chat_template_utils.py:165 | the value kept for a key is that of an entry after which no entry has the key |
| Docstring.WriteAllCollects | src/transformers/utils/chat_template_utils.py:162-165 | when every line parses, the loop's map is the entries written in order |
| Docstring.ArgsDictLastWins | src/transformers/utils/chat_template_utils.py:160-165 | a repeated argument name keeps the description of its last line |
| Docstring.ArgLineSplitsAtFirstColon | src/transformers/utils/chat_template_utils.py:164-165 | a line splits at its first colon and both halves are stripped, so descriptions may hold colons |
| Docstring.ParseDocstringFails | src/transformers/utils/chat_template_utils.py:159-165 | parsing fails exactly when there is an Args block one of whose lines (blank ones included) has no colon |
| Docstring.EmptyArgsSectionFails | src/transformers/utils/chat_template_utils.py:153-164 | an Args header with nothing under it fails on the empty line |
| ToolSchema.FirstUnannotated | src/transformers/utils/chat_template_utils.py:176-178 | the first parameter without an annotation, or none exactly when all are annotated |
| ToolSchema.SetEach | src/transformers/utils/chat_template_utils.py:182-183 | the loop over the hints computes `SetAll` |
| ToolSchema.ConvertTypeHintsToJsonSchema | src/transformers/utils/chat_template_utils.py:170-189 | the method computes `TypeHintsSchema`: the first unannotated parameter's error, or the first failing hint's error, or the properties and the `required` list |
| ToolSchema.DescribeProperties | src/transformers/utils/chat_template_utils.py:115-125 | the loop updating the properties in place computes `MapResults` of the describer |
| ToolSchema.GetJsonSchema | src/transformers/utils/chat_template_utils.py:105-130 | the method computes `ToolSpec` |
| ToolSchemaFacts.RequiredNamesAre | src/transformers/utils/chat_template_utils.py:176-180 | the required list is exactly the parameters without a default, in signature order, each once |
| ToolSchemaFacts.RequiredAtExtend | src/transformers/utils/chat_template_utils.py:179-180 | one more parameter appends its name exactly when it has no default |
| ToolSchemaFacts.RequiredNamesEmpty | src/transformers/utils/chat_template_utils.py:186-187 | the required list is empty exactly when every parameter has a default |
| ToolSchemaFacts.RequiredKey | src/transformers/utils/chat_template_utils.py:185-187 | `required` is absent exactly when every parameter has a default, and otherwise is the required list |
| ToolSchemaFacts.SetAllOk | src/transformers/utils/chat_template_utils.py:182-183 | the hints loop succeeds exactly when every hint converts |
| ToolSchemaFacts.SetAllFirstError | src/transformers/utils/chat_template_utils.py:182-183 | a failing hints loop reports the error of the first hint that fails |
| ToolSchemaFacts.SetAllPointwise | src/transformers/utils/chat_template_utils.py:182-183 | with distinct names, property `i` is hint `i`'s name with its conversion |
| ToolSchemaFacts.SetAllKeys | src/transformers/utils/chat_template_utils.py:182-183 | the property names are exactly the hint names, each once |
| ToolSchemaFacts.SetAllGet | src/transformers/utils/chat_template_utils.py:182-183 | looking a name up in the properties gives the conversion of its hint |
| ToolSchemaFacts.TypeHintsSchemaFails | src/transformers/utils/chat_template_utils.py:176-183 | the converter fails exactly when a parameter is unannotated or a hint is not convertible; an unannotated parameter's error comes first |
| ToolSchemaFacts.DescribeArgOk | src/transformers/utils/chat_template_utils.py:116-125 | describing a property succeeds exactly when it has a docstring entry whose annotation decodes; it then sets `description`, sets `enum` exactly when there were choices, and changes nothing else |
| ToolSchemaFacts.MapResultsOk | src/transformers/utils/chat_template_utils.py:115-125 | the properties loop succeeds exactly when every step does, and entry `i` is step `i`'s result |
| ToolSchemaFacts.MapResultsFirstError | src/transformers/utils/chat_template_utils.py:115-125 | a failing properties loop reports the first failing step's error |
| ToolSchemaFacts.DescribeOk | src/transformers/utils/chat_template_utils.py:115-125 | describing succeeds exactly when every property can be described, property by property |
| ToolSchemaFacts.DescribeFirstError | src/transformers/utils/chat_template_utils.py:116-119 | the error is that of the first property that cannot be described |
| ToolSchemaFacts.ChoicesMoveToEnum | src/transformers/utils/chat_template_utils.py:121-125 | for a description `pre + "(choices: " + json.dumps(xs) + ")" + w`, where `pre` has no `(`, no choice in `xs` contains `)`, and `w` is whitespace, `enum` gets the stripped choices and `description` the stripped `pre`; other layouts are stated only by `Choices.TakeChoicesIsSearch` with `Choices.TakeChoicesFound` |
| ToolSchemaFacts.PlainDescriptionKept | src/transformers/utils/chat_template_utils.py:121-125 | a description the pattern does not match is stored unchanged, and nothing else changes |
| ToolSchemaFacts.EmptyDocFails | src/transformers/utils/chat_template_utils.py:105-107 | no docstring, or an empty one, is an error |
| ToolSchemaFacts.ErrorOrder | src/transformers/utils/chat_template_utils.py:105-111 | the docstring check comes first, then its parsing, then the type hints |
| ToolSchemaFacts.ToolSpecOk | src/transformers/utils/chat_template_utils.py:105-125 | the whole succeeds exactly when the docstring is present and parses, the hints convert, and every property other than `return` has an entry whose annotation decodes |
| ToolSchemaFacts.ConvertHintsBare | src/transformers/utils/chat_template_utils.py:182-183 | converted properties carry neither `enum` nor `description` |
| ToolSchemaFacts.AssembleReturn | src/transformers/utils/chat_template_utils.py:112-114 | `return` leaves the properties; the return fragment exists exactly when a `return` property existed and gets the Returns text as description when there is one |
| ToolSchemaFacts.AssembleProperties | src/transformers/utils/chat_template_utils.py:112-125 | the final properties are the others in their order, each with its docstring entry's description and choices added and nothing else changed |
| ToolSchemaFacts.ToolHeader | src/transformers/utils/chat_template_utils.py:108-109 | the tool's name is the function's, its description the main description of the stripped docstring, and `required` is the converter's |
| ToolSchemaFacts.ToolReturn | src/transformers/utils/chat_template_utils.py:112-114 | `return` is never a property; the tool has a return fragment exactly when the hints annotate the return value, with the Returns text as its description |
| ToolSchemaFacts.ToolProperties | src/transformers/utils/chat_template_utils.py:115-125 | every property is a hint name with a docstring entry, and its description is that entry without its annotation |
| ToolSchemaFacts.ToolSchemasAreConversions | src/transformers/utils/chat_template_utils.py:111-129 | with distinct hint names, the properties are the hint names other than `return`, in order, each its hint's conversion plus `enum` and `description`; the return fragment is the `return` hint's conversion with the Returns text |

## Left out

- Reflection. `inspect.getdoc`, `inspect.signature`, `get_type_hints`, `get_origin` and `get_args` are not modelled. Their results are inputs: the `Func` record and the `Hint` datatype.
- `inspect.getdoc` cleaning. The indentation cleaning `inspect.getdoc` does is not modelled. The docstring arrives already cleaned, or `None`.
- Hint identity. Membership in `BASIC_TYPES` and the tests against `type(None)` and `...` compare Python objects. The model tests constructors instead. A PEP 604 `X | Y`, whose origin is not `typing.Union`, is a `Generic` hint and is rejected, as the code rejects it.
- The regular expression engine. The three docstring patterns and the choices pattern are scanning functions. Their agreement with the patterns' matching rules is proved for the match found and for the captured group, not for the engine in general.
- `Choices.TakeChoices`: only part of `json.loads` is modelled. It decodes a JSON array whose elements are all strings, or a JSON string, whose iteration yields its characters. Every other JSON value is an error in the model. In particular a JSON object, whose iteration in Python yields its keys, is an error here. This is weaker than the source.
- `Json.ScanString`: a `\u` escape naming a lone surrogate is rejected, while Python accepts it. Dafny strings cannot hold one.
- Error messages. Their wording is not modelled. Each error names what its message names. The Python exception types (`ValueError`, `KeyError`, `AttributeError`) are not distinguished.
- `ToolSchema.DescribeProperties`: it overwrites each property at its own position rather than looking it up by name. The two agree because property names are distinct (`ToolSchemaFacts.SetAllKeys`).
- Output order. The output is a record. Its keys are always written in the same fixed order, and Python's insertion order matches that order on every path the code takes.
- The docstring's usage example (`AutoTokenizer`, `apply_chat_template`) is documentation only.
