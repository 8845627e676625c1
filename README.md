# decl: declarative command-line and environment loading, in Dafny

This project models the two loaders of the Go package `decl`. Each one fills a
configuration record from the `arg:"..."` or `env:"..."` struct tags on its
fields.

* **Command line** (`args/args.go`):
  * `ParseArgsSpec` walks the record's fields and builds an index: short and
    long switches, defaults, positionals, the required ("missing") set and the
    capture-all positional.
  * `setSwitch` coerces one text into one field.
  * `LoadArgsSpecFrom` adds the help switches, scans the command line, checks
    the required switches and binds the leftover tokens to the positionals.
* **Environment** (`env/env.go`): `LoadEnvSpecFrom` loads every tagged field
  from a lookup function. It falls back to the tag's default, recurses into
  nested records tagged `*`, and panics on the first problem.

Both are imperative in Go, and the model keeps that form:

* `Args.ParsedArgs` is a class. Its fields are the index maps, the positional
  list, the missing set and the capture-all. It holds a reference to the
  caller's record, an `array<Value>` with one value per field. `SetSwitch`
  writes that array in place.
* The field loop, the alias loop, the token loop (with one token of lookahead)
  and the positional loop are `for`/`while` loops with invariants.
* `Env.LoadEnvSpecFrom` writes its array in place and recurses into nested
  records.
* Every method is proved to end in the state that a function of module
  `ArgsSpec` or `Env` describes:
  * `Build` (ParseArgsSpec) and `SetField` (setSwitch);
  * `ScanFrom`, `BindFrom` and `Load` (LoadArgsSpecFrom);
  * `LoadFrom` and `FieldStep` (LoadEnvSpecFrom).
* The lemmas in `ArgsProps` and `EnvProps` state what those functions promise.

Modules:

* `Text`: ASCII `strings.TrimSpace`, `ToLower`, `SplitN(s, sep, 2)`, `Split`.
* `Numbers`: `strconv.ParseInt` and `ParseUint` in base 10, 64 bits.
* `Kinds`:
  * the closed set of field kinds that replaces reflection: bool, int, uint,
    float, string, duration, time, `[]string`, nested record, other;
  * values;
  * the shared bool words, duration and time parsing;
  * `Oracles`, the library parsers taken as parameters.
* `ArgsSpec` and `Args`: the command-line parser.
* `ArgsProps`: the lemmas about the command-line parser.
* `Env`: the environment loader.
* `EnvProps`: the lemmas about the environment loader.

The parser's outcomes:

* A successful parse ends in `Success`.
* `ShowHelp`, which prints the usage text and calls `os.Exit(2)`, ends the
  parse in `HelpRequested`.
* Every returned error ends it in `Failure(err)`. The error carries the field
  index, token or text that the Go message names.

The record keeps whatever was written before a failure. The environment
loader's `log.Panicf` calls become an `EnvError` result. Its record likewise
keeps the writes made before the panic.

The Go code differs from its own intent in one place: where the `--help`
switch is registered (see Findings). `ArgsSpec.Load`, `AddHelp` and
`LoadArgsSpecFrom` therefore take a `HelpSlot`: `AsWritten` files the "help"
entry among the short switches, as args/args.go:261 does, and `Corrected`
among the long ones. Everything else in the model follows the code's own
branches, error cases and constants; the departures that remain are listed
under "Left out".

## Model

| member | source | states |
|---|---|---|
| Text.TrimSpace | args/args.go:83 | (definition) ASCII `strings.TrimSpace`; its properties are TrimSpaceShape, TrimSpaceEnds and TrimSpacePadded |
| Text.ToLower | args/args.go:83 | (definition) ASCII `strings.ToLower`; its properties are ToLowerAt and LowerIdempotent |
| Text.TrimSpaceShape | args/args.go:83 | TrimSpace removes exactly a white-space prefix and a white-space suffix |
| Text.TrimSpaceEnds | args/args.go:83 | what TrimSpace keeps neither starts nor ends with white space |
| Text.TrimSpacePadded | args/args.go:123 | padding a word with white space on both sides does not change what TrimSpace returns |
| Text.TrimSpaceLower | args/args.go:83 | trimming and lower-casing commute |
| Text.LowerIdempotent | args/args.go:83 | lower-casing twice is lower-casing once |
| Text.ToLowerAt | args/args.go:83 | ToLower lowers each character where it stands and keeps the length |
| Text.SplitOnce | args/args.go:182 | SplitN(s, "=", 2): with no `=`, the whole text and no default; otherwise s is the part before the first `=`, then `=`, then the rest |
| Text.Split | args/args.go:196 | the pieces between commas: at least one, none holding a comma |
| Text.SplitJoin | args/args.go:196 | joining the pieces of a split gives back the text |
| Text.JoinSplit | args/args.go:196 | splitting a join of comma-free pieces gives back the pieces |
| Numbers.ParseUint64 | args/args.go:130 | an accepted text is non-empty and digits only, every character a digit, with a value of at most 2^64-1 |
| Numbers.ParseInt64 | args/args.go:123 | an accepted text ends in a digit, with a value in [-2^63, 2^63-1] |
| Numbers.ParseUint64Format | args/args.go:130 | every uint64 written in decimal parses back to itself |
| Numbers.ParseInt64Format | args/args.go:123 | every int64 written in decimal parses back to itself |
| Numbers.DecimalValueFormat | args/args.go:123 | the decimal digits of n denote n |
| Numbers.ParseIntAgreesWithUint | args/args.go:123-130 | an unsigned text that fits int64 reads the same either way |
| Kinds.BoolWordSpec | args/args.go:84-92 | true words read as true, false words as false, and nothing else is a bool word |
| Kinds.BoolWord | args/args.go:84-92 | (definition) the bool a lower-case word spells; its property is BoolWordSpec |
| Kinds.DurationSeconds | args/args.go:98-107 | every int64 written in decimal, padded with white space, that the duration grammar rejects reads as that many whole seconds |
| Kinds.FirstLayout | args/args.go:112-119 | the first layout, in the order listed, that accepts the text; none when no layout does |
| Kinds.ParseTimestamp | args/args.go:111-120 | fails exactly when no layout accepts the trimmed text; otherwise it is the value the earliest accepting layout gives |
| ArgsSpec.SetField | args/args.go:55-148 | (definition) setSwitch on values; its properties are SetFieldFrame, SetFieldHelp and SetFieldWellKinded |
| ArgsSpec.AddAlias | args/args.go:197-217 | (definition) one alias, short when one character long; its properties are AddAliasesLookup and AddAliasesEntries |
| ArgsSpec.BuildStar | args/args.go:169-179 | (definition) a `*` field; its property is BuildFieldStar |
| ArgsSpec.BuildSwitch | args/args.go:182-218 | (definition) a switch field with its default and aliases; its property is BuildFieldSwitch |
| ArgsSpec.BuildField | args/args.go:163-244 | (definition) one pass of ParseArgsSpec's field loop; its properties are the Build*Step lemmas |
| ArgsSpec.BuildFrom | args/args.go:163-244 | (definition) ParseArgsSpec's field loop from one field on; its properties are the Build*From lemmas |
| ArgsSpec.Build | args/args.go:150-247 | (definition) ParseArgsSpec; its properties are BuildPositional, BuildCaptureAll, BuildMissing, BuildAliases, BuildDefaults and BuildValues |
| ArgsSpec.ScanFrom | args/args.go:264-333 | (definition) the token loop; its properties are ScanCollects, ScanMissingExact, ScanFrame and ScanWellKinded |
| ArgsSpec.BindFrom | args/args.go:343-363 | (definition) the positional loop; its properties are BindOutcomeFrom, BindValueFrom and BindFrameFrom |
| ArgsSpec.Finish | args/args.go:335-363 | (definition) the required check, then binding; its property is FinishMissing |
| ArgsSpec.Load | args/args.go:249-366 | (definition) LoadArgsSpecFrom, with the "help" entry in a given slot; its properties are LoadStages, LoadKeepsUnnamed, LoadLongHelp and LoadWellKinded |
| ArgsSpec.Coerce | args/args.go:66-145 | a value that setSwitch stores always has the field's kind |
| ArgsSpec.AddAliases | args/args.go:196-218 | registering aliases changes neither defaults nor positionals; a bool field leaves the missing set |
| ArgsSpec.AddAliasesEntries | args/args.go:196-217 | every entry after registering is an old one or one for this field |
| ArgsSpec.BuildFromIndexFor | args/args.go:163-244 | every index entry the build makes names a field of the record |
| ArgsSpec.WithHelpAsWritten | args/args.go:255-262 | as written: a help entry `h` is added among the short switches unless declared and, unless a long switch `help` is declared, a help entry `help` among the SHORT switches; the long switches and the other short entries are unchanged |
| ArgsSpec.WithHelp | args/args.go:255-262 | corrected: help entries `h` among the short and `help` among the long switches unless declared; declared switches keep their entries |
| ArgsSpec.HelpSwitches | args/args.go:255-262 | either way `h` becomes a switch, `help` a long one when corrected, and positionals, capture-all and missing set are untouched |
| ArgsSpec.Classify | args/args.go:272-332 | a switch that takes a value consumes this token's rest or, verbatim, the next token |
| Args.ParsedArgs.constructor | args/args.go:151-161 | the empty index: no switches, no positionals, nothing missing, capture-all -1 |
| Args.ParsedArgs.SetSwitch | args/args.go:55-148 | -1 asks for help; otherwise the field leaves the missing set, then gets the coerced value, or keeps its value when coercion fails |
| Args.ParsedArgs.RegisterAlias | args/args.go:197-217 | one alias: one character is a short switch, anything else a long one; a bool takes no value and leaves the missing set |
| Args.ParsedArgs.RegisterAliases | args/args.go:196-218 | the alias loop registers every alias, in order |
| Args.ParsedArgs.AddStar | args/args.go:169-179 | a `*` field becomes positional, and the capture-all when it is a list; it fails when a capture-all exists |
| Args.ParsedArgs.AddSwitch | args/args.go:182-218 | a default is recorded and set through setSwitch, failing with BadDefault; without a default the field is missing; then the aliases |
| Args.ParsedArgs.AddField | args/args.go:163-244 | one pass of the field loop: untagged fields are skipped; `*` or switch |
| Args.ParsedArgs.AddHelp | args/args.go:255-262 | adds the help switches, filing the "help" entry where the slot says (AsWritten: among the short switches, as the code does) |
| Args.ParsedArgs.Switch | args/args.go:272-328 | the switch branches of the token loop, with their errors and their lookahead |
| Args.ParsedArgs.Scan | args/args.go:264-333 | the token loop ends in the state ScanFrom describes |
| Args.ParsedArgs.Finish | args/args.go:335-366 | the required check, then the positional loop, end in the state Finish describes |
| Args.ParseArgsSpec | args/args.go:150-247 | the field loop builds the index and record that Build describes |
| Args.LoadArgsSpecFrom | args/args.go:249-366 | the whole parse, with the "help" entry in the given slot, ends in the outcome and record that Load describes |
| ArgsProps.CoerceBool | args/args.go:82-93 | for the trimmed, lower-cased text: empty toggles, true words set, false words clear, anything else is an error naming that text |
| ArgsProps.CoerceBoolCaseInsensitive | args/args.go:83 | case does not matter to a bool |
| ArgsProps.CoerceBoolPadded | args/args.go:83 | white space around a bool word does not matter |
| ArgsProps.ToggleTwice | args/args.go:85-86 | an empty value given twice to a bool leaves the record as it was |
| ArgsProps.CoerceIntFormat | args/args.go:122-127 | an int64 in decimal, padded with white space, reads back as itself |
| ArgsProps.CoerceUintFormat | args/args.go:129-134 | a uint64 in decimal, padded with white space, reads back as itself |
| ArgsProps.CoerceUintSigned | args/args.go:129-134 | an unsigned field accepts no sign, not even `+` |
| ArgsProps.CoerceDurationSeconds | args/args.go:98-109 | an int64 that the duration grammar rejects is that many seconds |
| ArgsProps.CoerceDurationFails | args/args.go:98-104 | when both readings reject the text, the switch fails naming it |
| ArgsProps.CoerceTimestamp | args/args.go:111-118 | a time takes what the first accepting layout gives |
| ArgsProps.CoerceTimestampFails | args/args.go:111-120 | no accepting layout fails with "any known time format" |
| ArgsProps.CoerceFloat | args/args.go:136-141 | a float is the float grammar's reading of the trimmed text, or an error naming the text |
| ArgsProps.CoerceOtherKinds | args/args.go:66-144 | strings are verbatim; a list always fails "Arrays are unsupported"; a record or other type fails only when set |
| ArgsProps.SetFieldFrame | args/args.go:61-147 | the field leaves the missing set even when coercion fails; only that field changes, and only on success |
| ArgsProps.SetFieldHelp | args/args.go:56-59 | the help switch changes nothing and asks for help |
| ArgsProps.StarsFromSpec | args/args.go:169-174 | StarsFrom lists exactly the `*` fields, increasing |
| ArgsProps.RequiredFromSpec | args/args.go:189-211 | RequiredFrom holds exactly the required switch fields |
| ArgsProps.BuildFieldStar | args/args.go:169-179 | a `*` field is appended to the positionals and, as a list, becomes the capture-all; after a capture-all it fails naming both |
| ArgsProps.BuildFieldSwitch | args/args.go:182-218 | a switch field leaves the positionals alone; only its default can fail; it ends up missing exactly when required |
| ArgsProps.PositionalStep | args/args.go:169-180 | one pass adds a positional exactly for a `*` field |
| ArgsProps.MissingStep | args/args.go:183-211 | one pass adds the field to the missing set exactly when it is required |
| ArgsProps.BuildStep | args/args.go:163-244 | the field loop continues on what one pass leaves and stops at its failure |
| ArgsProps.BuildPositionalFrom | args/args.go:163-180 | from any field on, the positionals gain exactly the `*` fields |
| ArgsProps.BuildPositional | args/args.go:163-180 | the positionals are exactly the `*` fields, in declaration order |
| ArgsProps.CaptureOkStep | args/args.go:169-179 | one pass keeps the capture-all a list `*` field with no `*` field after it |
| ArgsProps.BuildCaptureAllFrom | args/args.go:163-180 | the invariant over the rest of the field loop |
| ArgsProps.BuildConflictFrom | args/args.go:169-172 | a capture-all conflict names a list `*` field and a later `*` field |
| ArgsProps.BuildCaptureAll | args/args.go:169-179 | the capture-all is the one list `*` field, with no `*` field after it; declaring one after it fails, naming both |
| ArgsProps.BuildMissingFrom | args/args.go:183-211 | the missing set gains exactly the required fields from any point on |
| ArgsProps.BuildMissing | args/args.go:183-211 | after the build, missing = the non-bool switch fields without a default |
| ArgsProps.LastDeclarerSpec | args/args.go:196-217 | LastDeclarer is the last field declaring the alias, or none |
| ArgsProps.AddAliasesLookup | args/args.go:196-217 | each alias given is set to this field; every other alias keeps its entry |
| ArgsProps.AliasStep | args/args.go:196-217 | one pass keeps an alias's entry equal to what its last declarer set |
| ArgsProps.BuildAliasFrom | args/args.go:163-218 | the same over the rest of the field loop |
| ArgsProps.BuildAliases | args/args.go:196-217 | a one-character alias is short, any other long; its entry is the last declaring field, taking a value unless a bool; undeclared aliases are no switch |
| ArgsProps.DefaultStep | args/args.go:182-188 | one pass writes only its field, with its default; a bad default fails naming field, default and cause |
| ArgsProps.DefaultsMapStep | args/args.go:184 | one pass records the field's default, if it has one |
| ArgsProps.BuildDefaultKeysFrom | args/args.go:182-191 | the defaults map gains exactly the fields with a default |
| ArgsProps.BuildDefaultTextFrom | args/args.go:182-184 | each recorded default is the text after the first `=` |
| ArgsProps.BuildDefaults | args/args.go:182-191 | the defaults map holds exactly the fields with a default, each with its text |
| ArgsProps.BuildValuesFrom | args/args.go:182-191 | over the rest of the field loop, each field holds its defaulted value |
| ArgsProps.BuildBadDefaultFrom | args/args.go:185-188 | a BadDefault failure names a field with a default, the default, and setSwitch's error |
| ArgsProps.BuildValues | args/args.go:182-191 | each field with a default holds setSwitch's reading of it, others are untouched; a bad default fails naming why |
| ArgsProps.ScanCollects | args/args.go:264-333 | a scan that runs to the end has collected exactly Leftovers: the plain tokens in order and every token after `--`, skipping switches and the values they consume |
| ArgsProps.ScanMissingExact | args/args.go:264-333 | the scan removes from the missing set only fields its switches name; a scan that runs to the end leaves exactly the missing fields no switch named |
| ArgsProps.ScanFrame | args/args.go:264-333 | a field no switch names keeps its value through the scan, however the scan ends |
| ArgsProps.ScanLeftovers | args/args.go:264-333 | a run of plain tokens to the end, or up to a `--`, is collected in order, and after the `--` every token verbatim |
| ArgsProps.ClassifyLongAttached | args/args.go:272-299 | `--name=v`: unknown unless a long switch; v verbatim when it takes a value; otherwise "does not expect a value" |
| ArgsProps.ClassifyLongBare | args/args.go:272-299 | `--name`: set with "" when it takes no value; otherwise the next token, whatever it is, or "expects a value" at the end |
| ArgsProps.ClassifyShort | args/args.go:300-328 | `-cREST`: only `c` is looked up; the rest or the next token is the value; a non-value switch with a rest fails |
| ArgsProps.ClassifyDash | args/args.go:301-302 | a lone `-` is an invalid switch |
| ArgsProps.ScanHelp | args/args.go:255-258 | `-h` asks for help when no field declares `h`, wherever the "help" entry is filed |
| ArgsProps.ScanLongHelp | args/args.go:259-262 | corrected: `--help` asks for help when no field declares `help` |
| ArgsProps.LongHelpAsWritten | args/args.go:259-262 | as written: an undeclared `--help` fails as an unknown switch |
| ArgsProps.LoadLongHelp | args/args.go:249-299 | for every record in which no field declares `help` and that builds, `prog --help ...` fails with "Unknown switch --help" as written and asks for help when corrected |
| ArgsProps.BuildBindShape | args/args.go:163-180 | the positionals are increasing and the capture-all is the last of them |
| ArgsProps.BindOutcomeFrom | args/args.go:343-363 | binding succeeds iff every coercion succeeds and the token count matches (at least as many with a capture-all); too few names the first positional without a token; too many returns the surplus |
| ArgsProps.BindOutcomeStep | args/args.go:351-358 | the same for a scalar positional taking the first token |
| ArgsProps.BindOutcomeBase | args/args.go:343-346 | the same when no positional or no token is left; an empty capture-all also fails |
| ArgsProps.BindOutcomeCapture | args/args.go:347-350 | the same for the capture-all |
| ArgsProps.BindStep | args/args.go:343-359 | one pass of the positional loop |
| ArgsProps.BindsOkStep | args/args.go:351-358 | all coercions succeed iff this one does and the later ones do |
| ArgsProps.BindFrameFrom | args/args.go:343-359 | fields that are not positionals still to bind keep their value |
| ArgsProps.BindValueFrom | args/args.go:343-359 | on success, each scalar positional holds its token coerced, and the capture-all holds the remaining tokens in order |
| ArgsProps.FinishMissing | args/args.go:335-341 | a non-empty missing set fails, naming all of it, before any positional is bound |
| ArgsProps.LoadStages | args/args.go:249-366 | after a build and a scan that get through, the required check fails naming exactly the required switches the command line did not name; otherwise the Leftovers are bound to positionals in declaration order with the capture-all last |
| ArgsProps.LoadKeepsUnnamed | args/args.go:264-333 | a field no switch on the command line names keeps the value the build gave it, its default included, through the scan |
| ArgsProps.SetFieldWellKinded | args/args.go:81-145 | every write stores a value of the field's kind |
| ArgsProps.BuildWellKinded | args/args.go:163-244 | the build keeps every field holding a value of its kind |
| ArgsProps.ScanWellKinded | args/args.go:264-333 | so does the scan |
| ArgsProps.BindWellKinded | args/args.go:343-359 | so does the binding, the capture-all being a list |
| ArgsProps.LoadWellKinded | args/args.go:249-366 | whatever the outcome, every field still holds a value of its kind |
| Env.Select | env/env.go:40-48 | a non-empty variable is the text; an empty or unset one gives the default's text; an error exactly when the variable is empty and there is no default (EnvProps.SelectCases gives the error value) |
| Env.VarName | env/env.go:26-27 | (definition) the trimmed text before the first `=`; its property is EnvProps.TagParts |
| Env.TagDefault | env/env.go:26-27 | (definition) everything after the first `=`; its property is EnvProps.TagParts |
| Env.LoadFrom | env/env.go:16-103 | (definition) LoadEnvSpecFrom on values; its properties are LoadSucceeds, LoadKeeps, LoadFits and StarNeverRead |
| Env.EnvCoerce | env/env.go:50-101 | a value the loader stores always has the field's kind |
| Env.FieldStep | env/env.go:21-101 | one field changes only its own slot; a stop always carries a panic |
| Env.LoadEnvSpecFrom | env/env.go:16-103 | the field loop writes the record in place and stops at the first panic, as LoadFrom describes |
| Env.LoadField | env/env.go:21-101 | one tagged field, a nested record loaded through a recursive call, as FieldStep describes |
| EnvProps.SelectCases | env/env.go:40-48 | a non-empty variable wins over the default; an empty one gives way to it; with no default it is missing |
| EnvProps.SelectEmptyIsUnset | env/env.go:40-41 | a variable set to "" counts as unset |
| EnvProps.TagParts | env/env.go:26-27 | the name is the trimmed text before the first `=`, the default everything after it, verbatim |
| EnvProps.EnvBool | env/env.go:54-63 | a bool reads true or false exactly for the true or false words; anything else, including "", is refused with the normalised text |
| EnvProps.EnvNumbers | env/env.go:65-77 | ints and uints are the base-10 reading of the trimmed text, or refused |
| EnvProps.EnvIntFormat | env/env.go:65-70 | an int64 in decimal, padded, loads as itself |
| EnvProps.EnvDuration | env/env.go:86-97 | the duration grammar, then whole seconds, then refused |
| EnvProps.EnvUnsupported | env/env.go:99-100 | time, list, record and other types are refused |
| EnvProps.EnvAgreesWithArgs | env/env.go:50-101 | where env accepts a text the command line reads it the same; they differ on an empty bool and on time |
| EnvProps.LoadKeeps | env/env.go:20-25 | fields already passed and untagged fields are never written, panic or not |
| EnvProps.FieldStepNext | env/env.go:21-101 | a field that lets the load go on holds its nested record or its read text |
| EnvProps.LoadSucceeds | env/env.go:16-103 | a load without panic had a name in each tag, a value for each variable, a nested record behind each `*`, and each field holds its text's reading |
| EnvProps.LoadFits | env/env.go:50-101 | after a load without panic each loaded field holds a value of its kind |
| EnvProps.StarNeverRead | env/env.go:34-38 | the `*` entry looks up no variable named `*`, at any depth |
| EnvProps.StarNeverReadStep | env/env.go:34-38 | the same for one field |
| EnvProps.MissingNameFatal | env/env.go:26-30 | a tag with no name stops the load at its field |
| EnvProps.MissingVarFatal | env/env.go:40-44 | a required variable that is missing stops the load, before the type is looked at |

## Left out

- Help text: `ParsedArgs.String`, `ShowHelp` and the help lines built at args/args.go:219-243 are not modelled. Help appears only as the `HelpRequested` outcome; printing and `os.Exit(2)` are not modelled.
- `LoadArgsSpec` and `LoadEnvSpec`, and sample/sample.go: entry-point wiring only. `os.Args` and `os.Getenv` become parameters, the latter a map.
- Reflection: a field is a `Field` descriptor with a closed `Kind`. A Go type matched by none of the type-switch arms is `Other`.
- Library parsers: `time.ParseDuration`, `time.Parse(layout, ·)` and `strconv.ParseFloat` are `Oracles` parameters. Their grammars are not modelled, and neither is floating point itself.
- Args.ParsedArgs.SetSwitch: narrow integer fields (int8…int32, uint8…uint32) and float32 are modelled as int64, uint64 and real. The truncation `SetInt`/`SetUint` would apply is left out.
- Kinds.ParseDurationText: does not model int64 overflow of `Duration(v) * time.Second`.
- MissingRequired: carries the set of missing fields. The Go message lists their names in map order, which is not deterministic.
- Text.TrimSpace, Text.ToLower: ASCII only. The Unicode white space and case mappings of the `strings` package are left out. An alias's length is counted in characters, where Go counts bytes.
- The `wasSet` check in setSwitch (args/args.go:61-75) is rebuilt on every call, so it never fires. The model leaves it out; CoerceOtherKinds shows that a list field always fails.
- `ArgsSpec.Truth`: a bool field is read as false when it holds no bool. Well-kinded records never do this (ArgsProps.LoadWellKinded).
- Positional and capture-all fields of a list type other than `[]string` are left out. So are `reflect.Value.Set` panics on them.
- Env.LoadField: a nested record must be held by reference (a Go `*T` whose T is a struct). A `*` field of another shape is modelled as the `NotNested` panic. A nil reference (a Go runtime panic) is not distinguished from it.
- Env.LoadField: the nested record is copied into a fresh array, loaded and stored back. Aliasing of the same nested struct from two fields is not modelled.
- The parsers' per-kind arms are passed to the loops as a `Coercion` function value, `ArgsSpec.Arms(o)`. The index lemmas therefore hold for any arms. Where the Go methods are long, their bodies are split across several methods (Scan, Switch, Finish; AddField, AddStar, AddSwitch).

## Findings

| source | as written | input that shows it | evidently intended | confidence | as-written member | corrected member |
|---|---|---|---|---|---|---|
| args/args.go:259-262 | when no long switch `help` exists, the synthetic help entry is stored under key "help" in `ShortSwitches`. Short switches are looked up by one character only (args/args.go:304), so the entry is unreachable | a record declaring no `help` switch and osArgs `["prog", "--help"]`: the parse fails with "Unknown switch --help" | the entry goes into `LongSwitches`, so `--help` shows the help text as `-h` does (the comment at line 260 says so) | high; not executed | ArgsProps.LongHelpAsWritten (on ArgsSpec.WithHelpAsWritten), and ArgsProps.LoadLongHelp for the whole parse with slot AsWritten | ArgsSpec.WithHelp with ArgsProps.ScanLongHelp, and ArgsProps.LoadLongHelp with slot Corrected; Args.ParsedArgs.AddHelp and Args.LoadArgsSpecFrom run either |
