/** What the command-line parser of args/args.go computes, as functions: the
    switch index built from the `arg` tags (ParseArgsSpec), the coercion of a
    string into a field (setSwitch), the token scan, the required-switch check
    and the positional binding (LoadArgsSpecFrom). The methods in module Args
    do the same work step by step and are proved equal to these functions; the
    lemmas in module ArgsProps state what the functions promise. */
module ArgsSpec {
  import opened Text
  import opened Numbers
  import opened Kinds

  /** A switch: the field it sets (-1 for the synthetic help switch) and
      whether it takes a value. */
  datatype ArgInfo = ArgInfo(fieldIdx: int, needsVal: bool)

  datatype Error =
    | CaptureAllFollowed(captureAll: nat, field: nat)   // "X is a capture-all, Y cannot follow"
    | BadDefault(field: nat, default: string, cause: Error) // "Setting default value of ..."
    | CannotParse(field: nat, text: string)
    | NoKnownTimeFormat(field: nat, text: string)
    | ArraysUnsupported(field: nat)
    | UnsupportedType(field: nat, text: string)
    | UnknownSwitch(token: string)
    | InvalidSwitch(token: string)
    | UnexpectedValue(token: string)                    // "Switch X does not expect a value"
    | ValueExpected(token: string)                      // "Switch X expects a value"
    | MissingRequired(fields: set<nat>)
    | MissingPositional(field: nat)
    | Unconsumed(tokens: seq<string>)

  /** How one step ends: go on, show the help text and exit(2), or fail. */
  datatype Status = Continue | Help | Fail(err: Error)

  /** How a whole parse ends. */
  datatype Outcome = Success | HelpRequested | Failure(err: Error)

  /** The parts of ParsedArgs that ParseArgsSpec fills in. */
  datatype Index = Index(
    short: map<string, ArgInfo>,
    long: map<string, ArgInfo>,
    defaults: map<nat, string>,
    positional: seq<nat>,
    missing: set<nat>,
    captureAll: int)

  const EmptyIndex: Index := Index(map[], map[], map[], [], {}, -1)

  /** One value per field, each of the field's kind. */
  predicate WellKinded(fields: seq<Field>, vals: seq<Value>) {
    |vals| == |fields| && forall j :: 0 <= j < |fields| ==> Fits(fields[j].kind, vals[j])
  }

  /** An index whose entries all name fields of the record. */
  predicate IndexFor(ix: Index, fields: seq<Field>) {
    && (forall a :: a in ix.short ==> -1 <= ix.short[a].fieldIdx < |fields|)
    && (forall a :: a in ix.long ==> -1 <= ix.long[a].fieldIdx < |fields|)
    && (forall k :: 0 <= k < |ix.positional| ==> ix.positional[k] < |fields|)
    && -1 <= ix.captureAll < |fields|
    && (ix.captureAll >= 0 ==> fields[ix.captureAll].kind == List)
  }

  // ---------------------------------------------------------------- setSwitch

  /** The bool a field holds. A bool field always holds a BoolV (see
      ArgsProps.LoadWellKinded), so this is its value; anything else reads as
      Go's zero value, false. */
  function Truth(v: Value): bool {
    v.BoolV? && v.b
  }

  /** The per-kind arms of setSwitch: the value that `text` gives field `f` of
      kind `k` whose current value is `cur`. */
  function Coerce(o: Oracles, f: nat, k: Kind, cur: Value, text: string): (r: Result<Value, Error>)
    ensures r.Ok? ==> Fits(k, r.value)
  {
    match k
    case List => Err(ArraysUnsupported(f))
    case Bool =>
      var t := ToLower(TrimSpace(text));
      if t == "" then Ok(BoolV(!Truth(cur)))
      else if BoolWord(t).Some? then Ok(BoolV(BoolWord(t).value))
      else Err(CannotParse(f, t))
    case Str => Ok(StrV(text))
    case Duration =>
      var d := ParseDurationText(o, text);
      if d.Some? then Ok(DurationV(d.value)) else Err(CannotParse(f, text))
    case Timestamp =>
      var t := ParseTimestamp(o, TimeLayouts, text);
      if t.Some? then Ok(TimeV(t.value)) else Err(NoKnownTimeFormat(f, text))
    case Int =>
      var v := ParseInt64(TrimSpace(text));
      if v.Some? then Ok(IntV(v.value)) else Err(CannotParse(f, text))
    case Uint =>
      var v := ParseUint64(TrimSpace(text));
      if v.Some? then Ok(UintV(v.value)) else Err(CannotParse(f, text))
    case Float =>
      var x := o.parseFloat(TrimSpace(text));
      if x.Some? then Ok(FloatV(x.value)) else Err(CannotParse(f, text))
    case Struct(_) => Err(UnsupportedType(f, text))
    case Other(_) => Err(UnsupportedType(f, text))
  }

  /** setSwitch's per-kind arms as a value: the field, its kind, its current
      value and the text give the new value or an error. The loops below take
      it as a parameter, so what they promise about the index holds whatever
      the arms do; Arms(o) is the one the parser uses. */
  type Coercion = (nat, Kind, Value, string) -> Result<Value, Error>

  function Arms(o: Oracles): Coercion {
    (f: nat, k: Kind, cur: Value, text: string) => Coerce(o, f, k, cur, text)
  }

  /** The state setSwitch touches: the missing set and the record. */
  datatype Effect = Effect(status: Status, missing: set<nat>, vals: seq<Value>)

  /** setSwitch(f, text): -1 asks for help; any other field leaves the
      missing set first, then takes the coerced value unless coercion fails. */
  function SetField(co: Coercion, fields: seq<Field>, missing: set<nat>, vals: seq<Value>, f: int, text: string): (e: Effect)
    requires |vals| == |fields| && -1 <= f < |fields|
    ensures |e.vals| == |vals|
  {
    if f < 0 then Effect(Help, missing, vals)
    else
      match co(f, fields[f].kind, vals[f], text)
      case Ok(v) => Effect(Continue, missing - {f}, vals[f := v])
      case Err(err) => Effect(Fail(err), missing - {f}, vals)
  }

  // ------------------------------------------------------------ ParseArgsSpec

  /** Registers one alias of field `f`: one character goes to the short
      switches, anything else to the long ones; a bool switch takes no value
      and is never missing. */
  function AddAlias(ix: Index, f: nat, isBool: bool, sw: string): Index {
    var missing := if isBool then ix.missing - {f} else ix.missing;
    if |sw| == 1 then ix.(short := ix.short[sw := ArgInfo(f, !isBool)], missing := missing)
    else ix.(long := ix.long[sw := ArgInfo(f, !isBool)], missing := missing)
  }

  /** Registers the aliases in order, so a repeated alias keeps the last entry. */
  function AddAliases(ix: Index, f: nat, isBool: bool, aliases: seq<string>): (r: Index)
    ensures r.defaults == ix.defaults && r.positional == ix.positional && r.captureAll == ix.captureAll
    ensures r.missing == if isBool && aliases != [] then ix.missing - {f} else ix.missing
    decreases |aliases|
  {
    if aliases == [] then ix else AddAliases(AddAlias(ix, f, isBool, aliases[0]), f, isBool, aliases[1..])
  }

  lemma AddAliasesStep(ix: Index, f: nat, isBool: bool, aliases: seq<string>, k: nat)
    requires k < |aliases|
    ensures AddAliases(ix, f, isBool, aliases[k..]) == AddAliases(AddAlias(ix, f, isBool, aliases[k]), f, isBool, aliases[k + 1..])
  {
    assert aliases[k..][0] == aliases[k] && aliases[k..][1..] == aliases[k + 1..];
  }

  /** Every entry AddAliases leaves is an old one or one for field `f`. */
  lemma {:induction false} AddAliasesEntries(ix: Index, f: nat, isBool: bool, aliases: seq<string>)
    ensures var r := AddAliases(ix, f, isBool, aliases);
            && (forall a :: a in r.short ==> (a in ix.short && r.short[a] == ix.short[a]) || r.short[a] == ArgInfo(f, !isBool))
            && (forall a :: a in r.long ==> (a in ix.long && r.long[a] == ix.long[a]) || r.long[a] == ArgInfo(f, !isBool))
    decreases |aliases|
  {
    if aliases != [] {
      AddAliasesEntries(AddAlias(ix, f, isBool, aliases[0]), f, isBool, aliases[1..]);
    }
  }

  /** So registering the aliases of a field of the record keeps an index for the record. */
  lemma AddAliasesIndexFor(ix: Index, f: nat, isBool: bool, aliases: seq<string>, fields: seq<Field>)
    requires f < |fields|
    ensures IndexFor(ix, fields) ==> IndexFor(AddAliases(ix, f, isBool, aliases), fields)
  {
    AddAliasesEntries(ix, f, isBool, aliases);
  }

  /** The state ParseArgsSpec builds: how it ends, the index, the record. */
  datatype Built = Built(status: Status, ix: Index, vals: seq<Value>)

  /** A positional field, tagged `*`: none may follow the capture-all, which
      is the positional field of list kind. */
  function BuildStar(fields: seq<Field>, i: nat, ix: Index, vals: seq<Value>): (b: Built)
    requires i < |fields|
    ensures b.vals == vals && !b.status.Help?
  {
    if ix.captureAll >= 0 then Built(Fail(CaptureAllFollowed(ix.captureAll, i)), ix, vals)
    else Built(Continue, ix.(positional := ix.positional + [i],
                             captureAll := if fields[i].kind == List then i else ix.captureAll), vals)
  }

  /** A switch field with its aliases and its default, if it has one: the
      default is set through setSwitch, a field without one is missing until
      given, then every alias is registered. */
  function BuildSwitch(co: Coercion, fields: seq<Field>, i: nat, ix: Index, vals: seq<Value>,
                       aliases: seq<string>, dflt: Option<string>): (b: Built)
    requires i < |fields| && |vals| == |fields|
    ensures |b.vals| == |vals| && !b.status.Help?
  {
    var isBool := fields[i].kind == Bool;
    match dflt
    case Some(d) =>
      var e := SetField(co, fields, ix.missing, vals, i, d);
      var ix' := ix.(defaults := ix.defaults[i := d], missing := e.missing);
      if e.status.Fail? then Built(Fail(BadDefault(i, d, e.status.err)), ix', e.vals)
      else Built(Continue, AddAliases(ix', i, isBool, aliases), e.vals)
    case None =>
      Built(Continue, AddAliases(ix.(missing := ix.missing + {i}), i, isBool, aliases), vals)
  }

  /** One iteration of ParseArgsSpec's field loop, for field `i`: an untagged
      field is skipped; otherwise the tag is split at its first `=` into the
      comma-separated aliases and the default. */
  function BuildField(co: Coercion, fields: seq<Field>, i: nat, ix: Index, vals: seq<Value>): (b: Built)
    requires i < |fields| && |vals| == |fields|
    ensures |b.vals| == |vals| && !b.status.Help?
  {
    var tag := fields[i].argTag;
    if tag == "" then Built(Continue, ix, vals)
    else if tag == "*" then BuildStar(fields, i, ix, vals)
    else
      var (aliasText, dflt) := SplitOnce(tag, '=');
      BuildSwitch(co, fields, i, ix, vals, Split(aliasText, ','), dflt)
  }

  /** ParseArgsSpec's field loop from field `i` on. */
  function BuildFrom(co: Coercion, fields: seq<Field>, i: nat, ix: Index, vals: seq<Value>): (b: Built)
    requires i <= |fields| && |vals| == |fields|
    ensures |b.vals| == |vals| && !b.status.Help?
    decreases |fields| - i
  {
    if i == |fields| then Built(Continue, ix, vals)
    else
      var b := BuildField(co, fields, i, ix, vals);
      if b.status.Continue? then BuildFrom(co, fields, i + 1, b.ix, b.vals) else b
  }

  /** ParseArgsSpec: the index for `fields`, the record with its defaults applied. */
  function Build(co: Coercion, fields: seq<Field>, vals: seq<Value>): (b: Built)
    requires |vals| == |fields|
    ensures |b.vals| == |vals| && !b.status.Help?
  {
    BuildFrom(co, fields, 0, EmptyIndex, vals)
  }

  /** Each field adds only entries that name itself, so the index it builds
      names fields of the record only. */
  lemma BuildSwitchIndexFor(co: Coercion, fields: seq<Field>, i: nat, ix: Index, vals: seq<Value>,
                            aliases: seq<string>, dflt: Option<string>)
    requires i < |fields| && |vals| == |fields| && IndexFor(ix, fields)
    ensures IndexFor(BuildSwitch(co, fields, i, ix, vals, aliases, dflt).ix, fields)
  {
    var isBool := fields[i].kind == Bool;
    match dflt
    case Some(d) =>
      var e := SetField(co, fields, ix.missing, vals, i, d);
      AddAliasesIndexFor(ix.(defaults := ix.defaults[i := d], missing := e.missing), i, isBool, aliases, fields);
    case None =>
      AddAliasesIndexFor(ix.(missing := ix.missing + {i}), i, isBool, aliases, fields);
  }

  lemma BuildFieldIndexFor(co: Coercion, fields: seq<Field>, i: nat, ix: Index, vals: seq<Value>)
    requires i < |fields| && |vals| == |fields| && IndexFor(ix, fields)
    ensures IndexFor(BuildField(co, fields, i, ix, vals).ix, fields)
  {
    var tag := fields[i].argTag;
    if tag != "" && tag != "*" {
      var (aliasText, dflt) := SplitOnce(tag, '=');
      BuildSwitchIndexFor(co, fields, i, ix, vals, Split(aliasText, ','), dflt);
    }
  }

  lemma {:induction false} BuildFromIndexFor(co: Coercion, fields: seq<Field>, i: nat, ix: Index, vals: seq<Value>)
    requires i <= |fields| && |vals| == |fields| && IndexFor(ix, fields)
    ensures IndexFor(BuildFrom(co, fields, i, ix, vals).ix, fields)
    decreases |fields| - i
  {
    if i < |fields| {
      var b := BuildField(co, fields, i, ix, vals);
      BuildFieldIndexFor(co, fields, i, ix, vals);
      if b.status.Continue? {
        BuildFromIndexFor(co, fields, i + 1, b.ix, b.vals);
      }
    }
  }

  // --------------------------------------------------------- LoadArgsSpecFrom

  /** The entry of the synthetic help switch: no field, no value. */
  const HelpInfo: ArgInfo := ArgInfo(-1, false)

  /** The help switches as args/args.go:255-262 adds them: -h unless "h" is a
      short switch and, unless "help" is a long switch, an entry "help" that
      lands among the SHORT switches, where a one-character lookup never
      finds it (ArgsProps.LongHelpAsWritten). */
  function WithHelpAsWritten(ix: Index): (r: Index)
    ensures r.(short := ix.short) == ix
    ensures r.short.Keys == ix.short.Keys + {"h"} + (if "help" in ix.long then {} else {"help"})
    ensures "h" !in ix.short ==> r.short["h"] == HelpInfo
    ensures "help" !in ix.long ==> r.short["help"] == HelpInfo
    ensures forall a :: a in ix.short && (a != "help" || "help" in ix.long) ==> r.short[a] == ix.short[a]
  {
    var short := if "h" in ix.short then ix.short else ix.short["h" := HelpInfo];
    var short' := if "help" in ix.long then short else short["help" := HelpInfo];
    ix.(short := short')
  }

  /** The help switches LoadArgsSpecFrom is meant to add, with the "help"
      entry among the long switches, where `--help` looks for it: -h and
      --help ask for the help text unless a field declares them. */
  function WithHelp(ix: Index): (r: Index)
    ensures r.(short := ix.short, long := ix.long) == ix
    ensures r.short.Keys == ix.short.Keys + {"h"} && r.long.Keys == ix.long.Keys + {"help"}
    ensures "h" !in ix.short ==> r.short["h"] == HelpInfo
    ensures "help" !in ix.long ==> r.long["help"] == HelpInfo
    ensures forall a :: a in ix.short ==> r.short[a] == ix.short[a]
    ensures forall a :: a in ix.long ==> r.long[a] == ix.long[a]
  {
    var short := if "h" in ix.short then ix.short else ix.short["h" := HelpInfo];
    var long := if "help" in ix.long then ix.long else ix.long["help" := HelpInfo];
    ix.(short := short, long := long)
  }

  /** Where LoadArgsSpecFrom files the "help" entry: among the short switches,
      as args/args.go:261 does (AsWritten), or among the long ones, where
      `--help` is looked up (Corrected). */
  datatype HelpSlot = AsWritten | Corrected

  function HelpSwitches(ix: Index, slot: HelpSlot): (r: Index)
    ensures r.positional == ix.positional && r.captureAll == ix.captureAll && r.missing == ix.missing
    ensures "h" in r.short && (slot.Corrected? ==> "help" in r.long)
  {
    if slot.AsWritten? then WithHelpAsWritten(ix) else WithHelp(ix)
  }

  lemma WithHelpIndexFor(ix: Index, fields: seq<Field>, slot: HelpSlot)
    requires IndexFor(ix, fields)
    ensures IndexFor(HelpSwitches(ix, slot), fields)
  {
  }

  /** What the token at `i` makes the scan do. */
  datatype TokenStep =
    | Sentinel                                      // "--": the rest is positional
    | Leftover(token: string)                       // a positional token
    | Reject(err: Error)
    | Assign(fieldIdx: int, text: string, next: nat) // setSwitch(fieldIdx, text), go on at `next`

  /** The branches of the scan loop for `args[i]`, with one token of lookahead. */
  function Classify(ix: Index, args: seq<string>, i: nat): (s: TokenStep)
    requires i < |args|
    ensures s.Assign? ==> s.next == i + 1 || (s.next == i + 2 < |args| + 1 && s.text == args[i + 1])
  {
    var a := args[i];
    if a == "--" then Sentinel
    else if "--" <= a then
      var (name, attached) := SplitOnce(a[2..], '=');
      if name !in ix.long then Reject(UnknownSwitch(a))
      else
        var info := ix.long[name];
        match attached
        case Some(v) =>
          if !info.needsVal then Reject(UnexpectedValue(a)) else Assign(info.fieldIdx, v, i + 1)
        case None =>
          if !info.needsVal then Assign(info.fieldIdx, "", i + 1)
          else if i == |args| - 1 then Reject(ValueExpected(a))
          else Assign(info.fieldIdx, args[i + 1], i + 2)
    else if "-" <= a then
      if |a| == 1 then Reject(InvalidSwitch(a))
      else
        var name := a[1..2];
        if name !in ix.short then Reject(UnknownSwitch(a))
        else
          var info := ix.short[name];
          if info.needsVal then
            if |a| > 2 then Assign(info.fieldIdx, a[2..], i + 1)
            else if i == |args| - 1 then Reject(ValueExpected(a))
            else Assign(info.fieldIdx, args[i + 1], i + 2)
          else if |a| > 2 then Reject(UnexpectedValue(a))
          else Assign(info.fieldIdx, "", i + 1)
    else Leftover(a)
  }

  /** The state after the scan: how it ended, the missing set, the record and
      the positional tokens collected. */
  datatype Scanned = Scanned(status: Status, missing: set<nat>, vals: seq<Value>, pos: seq<string>)

  /** The scan loop of LoadArgsSpecFrom from token `i` on. */
  function ScanFrom(co: Coercion, fields: seq<Field>, ix: Index, args: seq<string>, i: nat,
                    missing: set<nat>, vals: seq<Value>, pos: seq<string>): (s: Scanned)
    requires |vals| == |fields| && IndexFor(ix, fields)
    ensures |s.vals| == |vals|
    decreases |args| - i
  {
    if i >= |args| then Scanned(Continue, missing, vals, pos)
    else
      match Classify(ix, args, i)
      case Sentinel => Scanned(Continue, missing, vals, pos + args[i + 1..])
      case Leftover(a) => ScanFrom(co, fields, ix, args, i + 1, missing, vals, pos + [a])
      case Reject(err) => Scanned(Fail(err), missing, vals, pos)
      case Assign(f, text, next) =>
        var e := SetField(co, fields, missing, vals, f, text);
        if e.status.Continue? then ScanFrom(co, fields, ix, args, next, e.missing, e.vals, pos)
        else Scanned(e.status, e.missing, e.vals, pos)
  }

  /** How LoadArgsSpecFrom ends, and the record it leaves behind. */
  datatype Finished = Finished(outcome: Outcome, vals: seq<Value>)

  /** The positional loop from the `k`-th positional field on: each field
      takes the first leftover token, the capture-all takes all of them. */
  function BindFrom(co: Coercion, fields: seq<Field>, ix: Index, k: nat,
                    missing: set<nat>, vals: seq<Value>, pos: seq<string>): (r: Finished)
    requires |vals| == |fields| && IndexFor(ix, fields) && k <= |ix.positional|
    ensures |r.vals| == |vals|
    decreases |ix.positional| - k
  {
    if k == |ix.positional| then
      if pos != [] then Finished(Failure(Unconsumed(pos)), vals) else Finished(Success, vals)
    else
      var p := ix.positional[k];
      if pos == [] then Finished(Failure(MissingPositional(p)), vals)
      else if p == ix.captureAll then
        BindFrom(co, fields, ix, k + 1, missing, vals[p := ListV(pos)], [])
      else
        var e := SetField(co, fields, missing, vals, p, pos[0]);
        if e.status.Fail? then Finished(Failure(e.status.err), e.vals)
        else BindFrom(co, fields, ix, k + 1, e.missing, e.vals, pos[1..])
  }

  /** After the scan: the required switches first, then the positionals. */
  function Finish(co: Coercion, fields: seq<Field>, ix: Index, missing: set<nat>,
                  vals: seq<Value>, pos: seq<string>): (r: Finished)
    requires |vals| == |fields| && IndexFor(ix, fields)
    ensures |r.vals| == |vals|
  {
    if missing != {} then Finished(Failure(MissingRequired(missing)), vals)
    else BindFrom(co, fields, ix, 0, missing, vals, pos)
  }

  /** LoadArgsSpecFrom(record, args): how the parse ends, and the record
      after it, with the "help" entry filed in `slot`. */
  function Load(co: Coercion, slot: HelpSlot, fields: seq<Field>, vals: seq<Value>, args: seq<string>): (r: Finished)
    requires |vals| == |fields|
    ensures |r.vals| == |vals|
  {
    var b := Build(co, fields, vals);
    if b.status.Fail? then Finished(Failure(b.status.err), b.vals)
    else
      BuildFromIndexFor(co, fields, 0, EmptyIndex, vals);
      WithHelpIndexFor(b.ix, fields, slot);
      var ix := HelpSwitches(b.ix, slot);
      var s := ScanFrom(co, fields, ix, args, 1, ix.missing, b.vals, []);
      match s.status
      case Help => Finished(HelpRequested, s.vals)
      case Fail(err) => Finished(Failure(err), s.vals)
      case Continue => Finish(co, fields, ix, s.missing, s.vals, s.pos)
  }
}
