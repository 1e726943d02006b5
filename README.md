# sanhe_devops_tools — a Dafny model of the config and template tools

`sanhe_devops_tools` is a set of small DevOps helpers. A project declares its configuration as a Python class
of fields. The tools then dump that configuration as JSON for each deployment tool, inject config values into
CloudFormation templates, tag the templates' resources, build the `--parameter-overrides` argument for
`aws cloudformation deploy`, and read single values back out of JSON files for shell scripts.

This project models the core of those tools in Dafny and proves properties of the model:

- **Comments** (`comments.dfy`) models the JSON comment stripper of `config_lib.py`: `strip_comment_line_with_symbol` and `strip_comments`.
  - The quote-counting regular expression is a scanner that follows the regex engine's leftmost, first-alternative matching.
  - `StripLine` is what `strip_comment_line_with_symbol` returns, and `StripCommentLine` is its loop with the running quote total, proved against it.
  - `StripAll` is a line stripped with every symbol in turn. `StripLineAll` (the inner loop) and `StripComments` (the loop over lines) are the loops of `strip_comments`.
  - `read_json_value.py:23-51` holds an identical copy of the stripper, which this module also stands for.
- **Fields** (`fields.dfy`) models `Field`, `Constant` and `Derivable`.
  - Each is a class whose stored value, owner, getter and validator are fields that its methods update.
  - The guards of `get_value` are a function, `ValueOf`, over a `FieldState` snapshot.
  - The class-wide creation counter is a shared `CreationCounter` object.
- **Registry** (`registry.dfy`) models how `ConfigMeta` builds a class's field table.
  - `_get_fields` selects the fields and sorts them by creation index.
  - `_get_fields_by_mro` concatenates the ancestors' field lists.
  - The `OrderedDict` merge keeps the first position of a name and its last field.
  - The constant and derivable views are filters of that table.
- **ConfigLib** (`config.dfy`) models `BaseConfigClass`.
  - A `Schema` holds the class's field table. The field objects are shared by every instance of the class.
  - The member operations are construction from keyword arguments, `from_dict`, `update`, `to_dict`, `validate` and the per-tool `to_*_config_data` exports.
  - The CloudFormation export renames keys to BigCamelCase.
- **Inject** (`inject.dfy`) models `inject_variable` and `apply_common_tag`.
  - The `{{ NAME }}` regex is modelled as a scanner.
  - The substitution loop works on the text.
  - A parsed template is an object whose resources are tagged in place.
- **Parameters** (`parameters.dfy`) models `get_parameters_data`, which selects the template's parameters from the config data, and the `key=value` argument string.
- **JsonPath** (`jsonpath.dfy`) models `get_json_value`: the optional `$.` marker and the walk over dot-separated segments.
- The support modules model the Python building blocks the tools use:
  - **Text** (`text.dfy`): `split`, `join`, `replace`, `strip`, ASCII case.
  - **OrderedMaps** (`ordered.dfy`): insertion-ordered `dict`/`OrderedDict` as sequences of pairs.
  - **JsonValue** (`json.dfy`): parsed JSON and Python's `str` of it.
  - **Outcomes** (`outcomes.dfy`): results and the exceptions raised.

Loops in the source are methods with loops in the model. Each is proved equal to a specification function, and
the lemmas state what the source promises about those functions.

Some behaviour of the code is modelled as the code is written:
- The `Field` constructor stores `default` and then immediately overwrites it with `value`, so a default is never kept.
- `Derivable.validate(config)` passes the config object where `get_value` expects `check_dont_dump`. A
  `dont_dump` derivable therefore always fails validation with the dont-dump signal (`ValidateRejectsDontDumpDerivable`).
- `apply_common_tag` collects the existing tag keys once, before appending. Two common tags that share a new key are
  therefore both appended (`SameNewKeyAppendedTwice`).
- In `get_json_value`, `in` on a string is a substring test and on a list an element test, and then indexing by a string raises.

## Model

| member | source | states |
|---|---|---|
| Comments.MatchEnd | sanhe_devops_tools/config_lib.py:49 | a successful attempt of the quote regex ends just after a `"` |
| Comments.QuoteCountBound | sanhe_devops_tools/config_lib.py:49-50 | the regex never counts more matches than the part has double quotes |
| Comments.PlainQuoteCount | sanhe_devops_tools/config_lib.py:49-50 | on text without backslashes or adjacent quotes the count is exactly the number of double quotes |
| Comments.QuoteCountExamples | sanhe_devops_tools/config_lib.py:49 | an escaped quote is not counted; of two adjacent quotes one is; a quote after an escaped backslash is |
| Comments.CutFrom | sanhe_devops_tools/config_lib.py:51-54 | the first part after which the running quote total is even; none exactly when every running total is odd |
| Comments.CutFromIs | sanhe_devops_tools/config_lib.py:51-54 | the cut is the index where the running total first turns even |
| Comments.StripCommentLine | sanhe_devops_tools/config_lib.py:44-57 | the loop with its running total returns the specified cut line |
| Comments.StripLinePrefix | sanhe_devops_tools/config_lib.py:44-57 | the result is a prefix of the line and has no trailing whitespace |
| Comments.StripLineWithoutSymbol | sanhe_devops_tools/config_lib.py:48-57 | a line without the symbol only loses its trailing whitespace |
| Comments.StripLineEvenHead | sanhe_devops_tools/config_lib.py:52-55 | an even quote count before the first symbol cuts the line at that symbol |
| Comments.StripLineOddHead | sanhe_devops_tools/config_lib.py:52-55 | a symbol opened inside a string is kept: the result starts with the text before it and the symbol |
| Comments.StripLineUpTo | sanhe_devops_tools/config_lib.py:52-57 | the result is the right-stripped join of the parts up to the cut, or of all parts |
| Comments.ExampleSplit | sanhe_devops_tools/config_lib.py:48 | a line with a quoted `#` splits into three parts |
| Comments.ExampleCounts | sanhe_devops_tools/config_lib.py:49-50 | the quote counts of those parts |
| Comments.ExampleCut | sanhe_devops_tools/config_lib.py:51-54 | the cut of that line falls after the second part |
| Comments.StripLineExample | sanhe_devops_tools/config_lib.py:44-57 | a `#` inside a string is kept while a trailing `# c` is removed |
| Comments.StripAllPrefix | sanhe_devops_tools/config_lib.py:70-71 | stripping with every symbol in turn leaves a prefix of the line |
| Comments.StripLineAll | sanhe_devops_tools/config_lib.py:70-71 | the inner loop leaves the line stripped with every symbol in turn |
| Comments.StripComments | sanhe_devops_tools/config_lib.py:60-72 | the text's lines, each stripped with every symbol, joined with `\n` |
| Comments.StripCommentsLines | sanhe_devops_tools/config_lib.py:68-72 | one output line per input line, each a prefix of its input line |
| Fields.GuardOrder | sanhe_devops_tools/config_lib.py:181-186 | an unbound field always fails; a bound dont-dump field fails the dump check before any other check |
| Fields.HiddenIgnoresGetter | sanhe_devops_tools/config_lib.py:187-189 | a hidden field reads as `***HIDDEN***` whatever its value or getter |
| Fields.StoredValue | sanhe_devops_tools/config_lib.py:191-192 | without a getter, a field that passes the guards reads as its stored value |
| Fields.DontDumpDerivableFailsCheck | sanhe_devops_tools/config_lib.py:229-242 | a bound dont-dump derivable fails validation with the dont-dump signal; a dont-dump constant validates its value |
| Fields.CreationCounter.constructor | sanhe_devops_tools/config_lib.py:145 | the class-wide creation index starts at 0 |
| Fields.Field.constructor | sanhe_devops_tools/config_lib.py:147-167 | the field stores `value` (the default is overwritten), is unbound, has no getter, a validator that accepts everything, and takes the next creation index |
| Fields.Field.SetValue | sanhe_devops_tools/config_lib.py:226-227 | a constant takes the value; a derivable, which inherits the refusing `Field.set_value` (lines 169-170), raises and keeps its own |
| Fields.Field.SetGetter | sanhe_devops_tools/config_lib.py:238-239 | the derivable's getter is bound |
| Fields.Field.SetValidator | sanhe_devops_tools/config_lib.py:196-205 | the validator is bound |
| Fields.Field.GetValue | sanhe_devops_tools/config_lib.py:172-194 | the read follows the guards of `ValueOf` on the field's current state |
| Fields.Field.Validate | sanhe_devops_tools/config_lib.py:229-242 | the value is read with the kind's guards and handed to the validator |
| Registry.FieldEntries | sanhe_devops_tools/config_lib.py:259-263 | exactly the attributes that are fields, and no others |
| Registry.InsertByIndex | sanhe_devops_tools/config_lib.py:268 | inserting into a sorted list keeps it sorted and adds exactly the entry |
| Registry.SortByIndex | sanhe_devops_tools/config_lib.py:267-268 | the fields sorted by creation index, a permutation of the input |
| Registry.GetFieldsMembers | sanhe_devops_tools/config_lib.py:253-269 | a pair is among a class's fields exactly when it is a field attribute |
| Registry.DeclaredSpec | sanhe_devops_tools/config_lib.py:301 | the table has each name once, in order of first declaration, bound to its last declared field |
| Registry.InheritedFirst | sanhe_devops_tools/config_lib.py:298-301 | the inherited names come first in the table |
| Registry.OwnAfterInherited | sanhe_devops_tools/config_lib.py:296-301 | new own fields follow the inherited ones in creation order |
| Registry.Redeclared | sanhe_devops_tools/config_lib.py:301 | a redeclared name keeps its inherited position and takes the class's own field |
| Registry.ViewsPartition | sanhe_devops_tools/config_lib.py:302-311 | every field is in exactly one view, by kind; a constant view lookup is the table lookup |
| Registry.ViewsOrder | sanhe_devops_tools/config_lib.py:302-311 | both views list their fields in the table's declared order: the `i`-th field of a view is the table's field at the `i`-th index of that kind |
| OrderedMaps.KeptIndices | sanhe_devops_tools/config_lib.py:302-311 | the indices of the pairs a condition keeps, increasing, each holding a pair that satisfies it |
| OrderedMaps.FilterOrder | sanhe_devops_tools/config_lib.py:302-311 | a dict comprehension with a condition lists exactly the pairs at the kept indices, in that order |
| ConfigLib.Schema.constructor | sanhe_devops_tools/config_lib.py:295-312 | the class's table is the merged registry and its views are the filters of it; when no field object is declared under two names, the schema is valid (names once, objects distinct, views the filters of the table) |
| ConfigLib.Config.SetConstant | sanhe_devops_tools/config_lib.py:357-358 | the constant the key names takes the value; every other field is unchanged |
| ConfigLib.UpdatedSnoc | sanhe_devops_tools/config_lib.py:356-358 | one more pair changes only the constant its key names, to its value |
| ConfigLib.Config.Update | sanhe_devops_tools/config_lib.py:355-358 | each constant named in the dictionary takes the key's last value; every other field is unchanged |
| ConfigLib.Config.ToDict | sanhe_devops_tools/config_lib.py:364-373 | the loop returns the specified dump of the field states |
| ConfigLib.Config.Validate | sanhe_devops_tools/config_lib.py:389-393 | constants are checked before derivables, stopping at the first failure |
| ConfigLib.Config.ConfigData | sanhe_devops_tools/config_lib.py:433-458 | every export is `to_dict()` with its defaults, renamed for CloudFormation |
| ConfigLib.FirstRefused | sanhe_devops_tools/config_lib.py:327-331 | the first declared derivable given as a keyword argument, or the end |
| ConfigLib.Bind | sanhe_devops_tools/config_lib.py:329-331 | a field takes its keyword argument and is bound; a derivable given one raises and is left as it was |
| ConfigLib.New | sanhe_devops_tools/config_lib.py:327-331 | construction succeeds exactly when no derivable is given an argument; fields before the failure are set and bound, later ones untouched |
| ConfigLib.NoArgumentsRefused | sanhe_devops_tools/config_lib.py:341 | a config built without arguments never fails |
| ConfigLib.FromDict | sanhe_devops_tools/config_lib.py:334-345 | every field is bound to the new config, and constants take the dictionary's last values |
| ConfigLib.DumpLoadRoundTrip | sanhe_devops_tools/config_lib.py:341-344 | whenever `to_dict(check_dont_dump)` (printable check off) succeeds on a valid config, loading the dump back with `from_dict`/`update` leaves every field's value as it was: dumped constants carry their stored values, held-back constants keep theirs, derivables ignore their keys |
| OrderedMaps.LastValueUnique | sanhe_devops_tools/config_lib.py:342-344 | in a dictionary each key's last value is the value it is bound to |
| ConfigLib.DumpKeepsError | sanhe_devops_tools/config_lib.py:371-372 | an error raised while reading a field is the result of the whole dump |
| ConfigLib.DumpNext | sanhe_devops_tools/config_lib.py:366-372 | one field read adds its value, skips on dont-dump, or aborts the dump |
| ConfigLib.DumpFails | sanhe_devops_tools/config_lib.py:366-372 | the dump fails exactly when some read raises something other than dont-dump, with the first such error |
| ConfigLib.DumpKeysIn | sanhe_devops_tools/config_lib.py:365-368 | a dump holds only declared names, each once |
| ConfigLib.DumpSnoc | sanhe_devops_tools/config_lib.py:368 | with distinct names each successful read appends a new pair |
| ConfigLib.DumpMembers | sanhe_devops_tools/config_lib.py:366-370 | a dump holds exactly the fields whose read succeeded, with the values read |
| ConfigLib.DumpOrder | sanhe_devops_tools/config_lib.py:365-368 | a dump lists its names in declared order |
| ConfigLib.DumpContents | sanhe_devops_tools/config_lib.py:364-373 | membership, values, uniqueness and order of a dump together |
| ConfigLib.DumpOmitsDontDump | sanhe_devops_tools/config_lib.py:369-370 | with the dont-dump check on, no `dont_dump` field appears in the dump |
| ConfigLib.DumpStored | sanhe_devops_tools/config_lib.py:364-373 | with both checks off and no getters, the dump is the stored values in declared order |
| ConfigLib.RunChecks | sanhe_devops_tools/config_lib.py:390-393 | the validation loop stops at the first failing field |
| ConfigLib.CheckAllAppend | sanhe_devops_tools/config_lib.py:389-393 | derivables are checked only when every constant passes |
| ConfigLib.CheckAllSpec | sanhe_devops_tools/config_lib.py:389-393 | validation passes exactly when every check passes, and otherwise reports the first failure |
| ConfigLib.ValidateRejectsDontDumpDerivable | sanhe_devops_tools/config_lib.py:392-393 | a bound dont-dump derivable makes validation fail |
| ConfigLib.CamelWord | sanhe_devops_tools/config_lib.py:442 | a word converts exactly when it is not empty, and keeps its length |
| ConfigLib.CamelWords | sanhe_devops_tools/config_lib.py:441-444 | the words convert exactly when none is empty |
| ConfigLib.CamelWordsLength | sanhe_devops_tools/config_lib.py:441-444 | the result is as long as the words together |
| ConfigLib.CamelCaseSpec | sanhe_devops_tools/config_lib.py:440-444 | conversion raises exactly on an empty, `_`-led, `_`-ended or `__`-holding key; otherwise only the underscores are dropped |
| ConfigLib.CamelErrors | sanhe_devops_tools/config_lib.py:442 | the only error is the empty-word error for the key |
| ConfigLib.CamelOfWords | sanhe_devops_tools/config_lib.py:443 | a key joined from underscore-free words converts as those words do |
| ConfigLib.CamelCaseExampleProjectName | sanhe_devops_tools/config_lib.py:440-444 | `project_name` becomes `ProjectName` |
| ConfigLib.CamelCaseExampleStage | sanhe_devops_tools/config_lib.py:440-444 | `stage` becomes `Stage` |
| ConfigLib.CamelCaseExampleDoubled | sanhe_devops_tools/config_lib.py:440-444 | `project__name` raises |
| ConfigLib.RenameKeys | sanhe_devops_tools/config_lib.py:446-449 | the pairs in order with converted keys and the same values; fails exactly when some key does not convert |
| ConfigLib.ExportSpec | sanhe_devops_tools/config_lib.py:433-458 | every tool but CloudFormation gets the dump unchanged; with distinct renamed keys, CloudFormation gets the renamed pairs |
| Inject.InnerEndSpec | sanhe_devops_tools/inject_template.py:84 | the lazy group ends at the first `}}` and never spans a `)` |
| Inject.MatchAtSpec | sanhe_devops_tools/inject_template.py:84 | a match is `{{`, a non-empty name without `)`, then `}}` |
| Inject.MatchAtComplete | sanhe_devops_tools/inject_template.py:84 | conversely, `{{`, a non-empty run without `)` and the first `}}` after it are a match ending there |
| Inject.FindFromNames | sanhe_devops_tools/inject_template.py:86 | every name found is non-empty and free of `)` |
| Inject.NoBracesNoPlaceholders | sanhe_devops_tools/inject_template.py:84-86 | text without `{{` holds no placeholder |
| Inject.SkipChar | sanhe_devops_tools/inject_template.py:84 | a character other than `{` starts no match |
| Inject.FindBraced | sanhe_devops_tools/inject_template.py:84-86 | a braced name without `)` or `}` is found, and the scan resumes after it |
| Inject.Braced | sanhe_devops_tools/inject_template.py:88 | the placeholder text is the name with two braces on each side |
| Inject.Inject | sanhe_devops_tools/inject_template.py:71-97 | the loop returns the specified substitution result |
| Inject.InjectAllOk | sanhe_devops_tools/inject_template.py:86-91 | the substitutions succeed exactly when every stripped name is a key with a text value |
| Inject.MissingKeyFails | sanhe_devops_tools/inject_template.py:89-90 | a name missing from the data makes the call fail |
| Inject.InjectVariableSpec | sanhe_devops_tools/inject_template.py:71-97 | on success no placeholder is left and every input placeholder named a text value; errors are the three raised |
| Inject.InjectAllErrors | sanhe_devops_tools/inject_template.py:86-91 | a failed substitution is a missing key or a non-text value |
| Inject.NoPlaceholderUnchanged | sanhe_devops_tools/inject_template.py:86-97 | text in which the pattern finds no placeholder comes back unchanged |
| Inject.KeySetSpec | sanhe_devops_tools/inject_template.py:128 | the set of existing keys, which exists exactly when every tag is an object with a hashable `Key` |
| Inject.NewTags | sanhe_devops_tools/inject_template.py:129-131 | exactly the common tags whose key is not already present |
| Inject.MergeKeepsTemplateTags | sanhe_devops_tools/inject_template.py:127-131 | the template's tags stay first, in order; appended are exactly the common tags with new keys |
| Inject.NewTagsAppend | sanhe_devops_tools/inject_template.py:129-131 | the common tags are taken in their order: those of `a + b` are those of `a` followed by those of `b` |
| Inject.NewTagsOne | sanhe_devops_tools/inject_template.py:130-131 | one common tag is taken, once, exactly when its key is new |
| Inject.MergeTagsList | sanhe_devops_tools/inject_template.py:127-131 | a list of tags keeps its tags and gains the new common tags after them |
| Inject.MergeTagsAppend | sanhe_devops_tools/inject_template.py:127-131 | merging `a + b` appends what merging `a` appends, then what merging `b` appends: common-tag order and repetitions are kept |
| Inject.MergeTagsOne | sanhe_devops_tools/inject_template.py:127-131 | merging one common tag appends it exactly when no existing tag has its key |
| Inject.SameNewKeyAppendedTwice | sanhe_devops_tools/inject_template.py:128-131 | two common tags with the same new key are both appended |
| Inject.TagResourceSpec | sanhe_devops_tools/inject_template.py:122-131 | an unlisted resource is unchanged; only `Properties.Tags` changes, or is added as the common tags |
| Inject.TagAllSpec | sanhe_devops_tools/inject_template.py:121-131 | names and order are kept; the walk succeeds exactly when every resource can be tagged |
| Inject.AppliedTagsSpec | sanhe_devops_tools/inject_template.py:120-131 | a template without `Resources` is untouched; otherwise only `Resources` changes |
| Inject.Template.ApplyCommonTag | sanhe_devops_tools/inject_template.py:100-131 | the template is updated in place to the specified tagged template |
| Inject.TagResources | sanhe_devops_tools/inject_template.py:121-131 | the resource loop returns the specified walk |
| Inject.TagOne | sanhe_devops_tools/inject_template.py:122-131 | the body of the loop tags one resource as specified |
| Inject.AppendNewTags | sanhe_devops_tools/inject_template.py:129-131 | the inner loop appends exactly the new tags |
| Inject.FirstLastPlaceholders | tests/test_inject_template.py:10-13 | the test's text holds two placeholders, with their spaces |
| Inject.FirstLastInjected | tests/test_inject_template.py:10-13 | both names present gives `Obama Barrack` |
| Inject.FirstLastMissing | tests/test_inject_template.py:15-31 | either name missing, or one key spanning both, fails |
| Parameters.GetParametersData | sanhe_devops_tools/get_cf_parameter_overrides.py:75-90 | the loop returns the specified selection |
| Parameters.SelectedKeepsError | sanhe_devops_tools/get_cf_parameter_overrides.py:86-89 | the first missing parameter ends the selection |
| Parameters.FirstMissing | sanhe_devops_tools/get_cf_parameter_overrides.py:83-89 | the first parameter absent from the data |
| Parameters.SelectedOk | sanhe_devops_tools/get_cf_parameter_overrides.py:83-89 | the selection succeeds exactly when every parameter is in the data |
| Parameters.Pairs | sanhe_devops_tools/get_cf_parameter_overrides.py:82-85 | each parameter with its value from the data, in order |
| Parameters.SelectedPairs | sanhe_devops_tools/get_cf_parameter_overrides.py:82-90 | with distinct names, the result is exactly the parameters in template order with their values, and nothing else |
| Parameters.SelectedError | sanhe_devops_tools/get_cf_parameter_overrides.py:86-89 | a failure names the first missing parameter |
| Parameters.NoParameters | sanhe_devops_tools/get_cf_parameter_overrides.py:75-79 | a template without `Parameters` selects nothing |
| Parameters.TwoParameters | tests/test_get_cf_parameter_overrides.py:11-13 | `ProjectName` and `Stage` are taken from data holding more keys |
| Parameters.Chunks | sanhe_devops_tools/get_cf_parameter_overrides.py:101-104 | one `key=value` word per parameter, in order |
| Parameters.OverrideArgs | sanhe_devops_tools/get_cf_parameter_overrides.py:101-106 | the loop and join give the words joined by single spaces |
| Parameters.OverrideArgsWords | sanhe_devops_tools/get_cf_parameter_overrides.py:101-106 | without spaces in names or values, splitting the argument gives back each name, `=` and value |
| Parameters.NoOverrides | sanhe_devops_tools/get_cf_parameter_overrides.py:106 | no parameters give the empty argument |
| JsonPath.StripRoot | sanhe_devops_tools/read_json_value.py:68-69 | a leading `$.` is removed once; other paths are unchanged |
| JsonPath.GetJsonValue | sanhe_devops_tools/read_json_value.py:67-80 | the loop returns the specified walk |
| JsonPath.WalkDescends | sanhe_devops_tools/read_json_value.py:74-80 | a value is found exactly when every segment names a member of an object on the way; otherwise a not-found or shape error |
| JsonPath.WalkAppend | sanhe_devops_tools/read_json_value.py:75-79 | walking joined segments is walking the first ones and then the rest |
| JsonPath.RootOptional | sanhe_devops_tools/read_json_value.py:68-69 | a path with `$.` reads what it reads without it |
| JsonPath.OneSegment | sanhe_devops_tools/read_json_value.py:75 | a dot-free path is one segment |
| JsonPath.TopLevel | sanhe_devops_tools/read_json_value.py:74-80 | a one-segment path reads the top-level member, or reports the path |
| JsonPath.Dotted | sanhe_devops_tools/read_json_value.py:74-80 | `a.b` reads member `b` of the object under `a` |
| JsonPath.ExampleName | tests/test_read_json_value.py:11-12 | `name` and `$.name` read `alice` |
| JsonPath.ExampleProfile | tests/test_read_json_value.py:14-21 | profile members named with spaces and hyphens are read with and without `$.` |
| OrderedMaps.Put | sanhe_devops_tools/config_lib.py:368 | an existing key keeps its place and takes the value; a new key goes last; other keys are unchanged |
| OrderedMaps.FromPairsSpec | sanhe_devops_tools/config_lib.py:301 | an `OrderedDict` of pairs has each key once, in first-seen order, with its last value |

## Left out

- ConfigLib.Schema.constructor: a class that binds one field object under two attribute names is not modelled. The constructor requires the registry's field objects to be distinct, which is what `Valid` and every mutating config operation rely on.
- Comments.StripCommentLine: an empty comment symbol is excluded by the precondition, here and in `StripLine`, `StripAll`, `StripLineAll` and `StripComments`. Python's `str.split('')` raises `ValueError` there, and the model has no such error.
- File and process I/O are not modelled: reading and writing files, `os.getcwd`/`abspath`, `sys.argv`, `print` and the `dump_*_config_file` writers. The operations take the parsed or read data as parameters.
- JSON parsing and serialisation are not modelled (`json.loads`, `json.dumps`, `to_json`, `__repr__`, `pprint`). Documents are values of the `Json` datatype. Floating-point numbers are not represented.
- The `CONFIG_*` file path properties and `_join_config_dir` are left out. They are path arithmetic around the file system.
- `add_metaclass` and `is_instance_or_subclass` are left out. They are Python class machinery; a class attribute is modelled as a field or not a field.
- `inject_var_and_apply_tag` and the template-processing driver of `inject_template.py` are left out. They only read files and call the modelled operations.
- Comments.SplitLines: `str.splitlines` is modelled for `\n` line breaks only. Other line boundaries (`\r`, `\r\n`, `\x0b` and the rest) are not recognised.
- Comments.StripComments: the iteration order of the `frozenset` of symbols is a parameter, given as a sequence.
- Text.UpperChar, Text.LowerChar: case conversion is modelled for ASCII letters only.
- JsonValue.PyStr: strings nested inside containers are quoted without Python's escape rules.
- Fields.Field.GetValue: a getter receives a snapshot of the config's names and stored values rather than the config object itself. A getter that reads other derivables through the object is not modelled.
- ConfigLib.Config.Update: the declared fields of a class are required to be distinct objects under distinct names (`Schema.Valid`). This is how `ConfigMeta` builds them. Aliasing between the tables of a parent and a child class is kept, since both share field objects.
- ConfigLib.New: keyword arguments are an ordered list of pairs, and a repeated name counts with its last value.
- Fields.Field.SetGetter: only derivables have a getter method; calling it on a constant is an attribute error in the source and is excluded by its precondition.
- Registry.SortByIndex: stability of the sort is not proved, only that the result is sorted and a permutation. Creation indexes are distinct in practice.
- Inject.Template.ApplyCommonTag: the common tags are required to be objects with a string `Key`, as documented for the parameter. The error a malformed common tag would raise is not modelled.
- Inject.Template.ApplyCommonTag: the template is a value held by the object. A resource without `Tags` receives the caller's common-tag list object itself, so later changes to that list show through the template. The value model stores a copy and does not capture that aliasing.
- Parameters.GetParametersData: the config data is modelled as a JSON object (a sequence of pairs). A config file whose top level is not an object is not modelled.
- Parameters.SelectedPairs: requires distinct parameter names, which holds because they are the keys of a parsed object.
- `Field.validate` on the bare base class raises `NotImplementedError`. The model has only `Constant` and `Derivable` fields.
