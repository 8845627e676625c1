/** What LoadEnvSpecFrom promises, stated about LoadFrom: which fields it
    writes, where their text comes from, how each kind is read, and when it
    panics. */
module EnvProps {
  import opened Text
  import opened Numbers
  import opened Kinds
  import opened Env
  import ArgsSpec

  // ------------------------------------------------------------ value selection

  /** A variable that is set and not empty wins over the default; an empty
      or unset one gives way to the default; with no default it is required. */
  lemma SelectCases(env: map<string, string>, name: string, dflt: Option<string>)
    ensures Getenv(env, name) != "" ==> Select(env, name, dflt) == Ok(env[name])
    ensures Getenv(env, name) == "" && dflt.Some? ==> Select(env, name, dflt) == Ok(dflt.value)
    ensures Getenv(env, name) == "" && dflt.None? ==> Select(env, name, dflt) == Err(MissingVar(name))
  {
  }

  /** A variable set to the empty string counts as not set. */
  lemma SelectEmptyIsUnset(env: map<string, string>, name: string, dflt: Option<string>)
    ensures Select(env[name := ""], name, dflt) == Select(env - {name}, name, dflt)
  {
  }

  /** The name and the default of a tag `NAME=default`: the name is trimmed,
      the default is everything after the first `=`, kept verbatim. */
  lemma TagParts(pre: string, name: string, post: string, dflt: string)
    requires AllSpace(pre) && AllSpace(post)
    requires name != [] ==> !IsSpace(name[0]) && !IsSpace(name[|name| - 1])
    requires '=' !in pre + name + post
    ensures VarName(pre + name + post + "=" + dflt) == name
    ensures TagDefault(pre + name + post + "=" + dflt) == Some(dflt)
    ensures VarName(pre + name + post) == name && TagDefault(pre + name + post) == None
  {
    var head := pre + name + post;
    var tag := head + "=" + dflt;
    IndexOfAfter(head, '=', dflt);
    assert tag[..|head|] == head && tag[|head| + 1..] == dflt;
    TrimSpacePadded(pre, name, post);
  }

  // ---------------------------------------------------------------- the arms

  /** A bool is read from its trimmed, lower-cased text, with no toggle: an
      empty value and any word that is no bool word panic. */
  lemma EnvBool(o: Oracles, fd: Field, name: string, text: string)
    requires fd.kind == Bool
    ensures var t := ToLower(TrimSpace(text));
            && (EnvCoerce(o, fd, name, text) == Ok(BoolV(true)) <==> t in TrueWords)
            && (EnvCoerce(o, fd, name, text) == Ok(BoolV(false)) <==> t in FalseWords)
            && (t !in TrueWords && t !in FalseWords ==> EnvCoerce(o, fd, name, text) == Err(BadValue(name, t)))
            && (TrimSpace(text) == "" ==> EnvCoerce(o, fd, name, text) == Err(BadValue(name, "")))
  {
    var t := ToLower(TrimSpace(text));
    BoolWordSpec(t);
  }

  /** Integers and unsigned integers are the base-10 reading of the trimmed
      text; text that is no such number panics. */
  lemma EnvNumbers(o: Oracles, fd: Field, name: string, text: string)
    ensures fd.kind == Int ==>
              (ParseInt64(TrimSpace(text)).Some? ==> EnvCoerce(o, fd, name, text) == Ok(IntV(ParseInt64(TrimSpace(text)).value)))
              && (ParseInt64(TrimSpace(text)).None? ==> EnvCoerce(o, fd, name, text) == Err(BadValue(name, text)))
    ensures fd.kind == Uint ==>
              (ParseUint64(TrimSpace(text)).Some? ==> EnvCoerce(o, fd, name, text) == Ok(UintV(ParseUint64(TrimSpace(text)).value)))
              && (ParseUint64(TrimSpace(text)).None? ==> EnvCoerce(o, fd, name, text) == Err(BadValue(name, text)))
  {
  }

  /** An integer written in decimal, padded with white space, loads as itself. */
  lemma EnvIntFormat(o: Oracles, fd: Field, name: string, pre: string, n: int, post: string)
    requires fd.kind == Int && Int64Min <= n <= Int64Max
    requires AllSpace(pre) && AllSpace(post)
    ensures EnvCoerce(o, fd, name, pre + FormatInt(n) + post) == Ok(IntV(n))
  {
    ParseInt64Format(n);
    var s := FormatInt(n);
    assert s != [] && !IsSpace(s[0]) && !IsSpace(s[|s| - 1]) by {
      FormatIntEnds(n);
    }
    TrimSpacePadded(pre, s, post);
  }

  lemma FormatIntEnds(n: int)
    ensures var s := FormatInt(n); s != [] && !IsSpace(s[0]) && !IsSpace(s[|s| - 1])
  {
    FormatDecimalDigits(if n < 0 then -n else n);
  }

  lemma FormatDecimalDigits(n: nat)
    ensures var s := FormatDecimal(n); s != [] && IsDigit(s[0]) && IsDigit(s[|s| - 1])
  {
    DecimalValueFormat(n);
  }

  /** A duration that the duration grammar refuses but that is a plain
      integer is that many seconds; one that is neither panics. */
  lemma EnvDuration(o: Oracles, fd: Field, name: string, text: string)
    requires fd.kind == Duration
    ensures var t := TrimSpace(text);
            && (o.parseDuration(t).Some? ==> EnvCoerce(o, fd, name, text) == Ok(DurationV(o.parseDuration(t).value)))
            && (o.parseDuration(t).None? && ParseInt64(t).Some? ==>
                  EnvCoerce(o, fd, name, text) == Ok(DurationV(ParseInt64(t).value * Second)))
            && (o.parseDuration(t).None? && ParseInt64(t).None? ==> EnvCoerce(o, fd, name, text) == Err(BadValue(name, text)))
  {
  }

  /** Times, lists, records and any other type are refused. */
  lemma EnvUnsupported(o: Oracles, fd: Field, name: string, text: string)
    requires fd.kind.Timestamp? || fd.kind.List? || fd.kind.Struct? || fd.kind.Other?
    ensures EnvCoerce(o, fd, name, text) == Err(UnsupportedKind(fd.name))
  {
  }

  /** Where both loaders accept a text they read it alike, so a value given
      in the environment means what it means on the command line. They part
      on two points: a bool with no text is toggled by the parser and
      refused here, and a time is parsed there and refused here. */
  lemma EnvAgreesWithArgs(o: Oracles, fd: Field, name: string, f: nat, cur: Value, text: string)
    ensures EnvCoerce(o, fd, name, text).Ok? ==> ArgsSpec.Coerce(o, f, fd.kind, cur, text) == Ok(EnvCoerce(o, fd, name, text).value)
    ensures fd.kind == Bool && TrimSpace(text) == "" ==>
              EnvCoerce(o, fd, name, text).Err? && ArgsSpec.Coerce(o, f, fd.kind, cur, text).Ok?
    ensures fd.kind == Timestamp ==> EnvCoerce(o, fd, name, text).Err?
  {
    BoolWordSpec(ToLower(TrimSpace(text)));
  }

  // ------------------------------------------------------------ the whole load

  /** The loader writes nothing before field `i` once it is past it, and never
      writes a field without an `env` tag, panic or not. */
  lemma {:induction false} LoadKeeps(o: Oracles, fields: seq<Field>, env: map<string, string>, i: nat, vals: seq<Value>, j: nat)
    requires i <= |fields| == |vals| && j < |fields|
    requires j < i || fields[j].envTag == ""
    ensures LoadFrom(o, fields, env, i, vals).vals[j] == vals[j]
    decreases |fields| - i
  {
    if i < |fields| {
      match FieldStep(o, fields, env, i, vals)
      case Stop(run) =>
      case Next(vals') =>
        LoadKeeps(o, fields, env, i + 1, vals', j);
    }
  }

  /** What a step that goes on leaves in its field: nothing changes when the
      field is untagged, the loaded nested record behind `*`, and otherwise
      what the selected text reads as. */
  lemma FieldStepNext(o: Oracles, fields: seq<Field>, env: map<string, string>, i: nat, vals: seq<Value>)
    requires i < |fields| == |vals|
    ensures var s := FieldStep(o, fields, env, i, vals);
            var fd := fields[i];
            var name := VarName(fd.envTag);
            var sel := Select(env, name, TagDefault(fd.envTag));
            s.Next? && fd.envTag != "" ==>
              && name != ""
              && (name == "*" ==>
                    && Nests(fields, vals, i)
                    && LoadFrom(o, fd.kind.fields, env, 0, vals[i].vals).panic.None?
                    && s.vals[i] == StructV(LoadFrom(o, fd.kind.fields, env, 0, vals[i].vals).vals))
              && (name != "*" ==> sel.Ok? && EnvCoerce(o, fd, name, sel.value) == Ok(s.vals[i]))
  {
  }

  /** A load that does not panic found a name in every tag, a value for
      every variable, a well-formed text for every field and a nested record
      behind every `*`, and left in each tagged field what its text reads as. */
  lemma {:induction false} LoadSucceeds(o: Oracles, fields: seq<Field>, env: map<string, string>, i: nat, vals: seq<Value>, j: nat)
    requires i <= j < |fields| == |vals|
    ensures var r := LoadFrom(o, fields, env, i, vals);
            var fd := fields[j];
            var name := VarName(fd.envTag);
            var sel := Select(env, name, TagDefault(fd.envTag));
            r.panic.None? && fd.envTag != "" ==>
              && name != ""
              && (name == "*" ==>
                    && Nests(fields, vals, j)
                    && LoadFrom(o, fd.kind.fields, env, 0, vals[j].vals).panic.None?
                    && r.vals[j] == StructV(LoadFrom(o, fd.kind.fields, env, 0, vals[j].vals).vals))
              && (name != "*" ==> sel.Ok? && EnvCoerce(o, fd, name, sel.value) == Ok(r.vals[j]))
    decreases |fields| - i
  {
    match FieldStep(o, fields, env, i, vals)
    case Stop(run) =>
      assert LoadFrom(o, fields, env, i, vals) == run;
    case Next(vals') =>
      assert LoadFrom(o, fields, env, i, vals) == LoadFrom(o, fields, env, i + 1, vals');
      if i < j {
        LoadSucceeds(o, fields, env, i + 1, vals', j);
      } else {
        FieldStepNext(o, fields, env, i, vals);
        LoadKeeps(o, fields, env, i + 1, vals', j);
      }
  }

  /** A successful load leaves every field holding a value of its kind
      wherever it wrote one: the loaded record is still well formed. */
  lemma LoadFits(o: Oracles, fields: seq<Field>, env: map<string, string>, vals: seq<Value>, j: nat)
    requires j < |fields| == |vals|
    requires fields[j].envTag != "" && VarName(fields[j].envTag) != "*"
    ensures LoadFrom(o, fields, env, 0, vals).panic.None? ==> Fits(fields[j].kind, LoadFrom(o, fields, env, 0, vals).vals[j])
  {
    LoadSucceeds(o, fields, env, 0, vals, j);
  }

  /** The `*` entry performs no lookup of its own: no variable named `*` is
      ever read, at any depth. */
  lemma {:induction false} StarNeverRead(o: Oracles, fields: seq<Field>, env: map<string, string>, i: nat, vals: seq<Value>, s: string)
    requires i <= |fields| == |vals|
    ensures LoadFrom(o, fields, env, i, vals) == LoadFrom(o, fields, env["*" := s], i, vals)
    decreases Struct(fields), |fields| - i
  {
    if i < |fields| {
      StarNeverReadStep(o, fields, env, i, vals, s);
      match FieldStep(o, fields, env, i, vals)
      case Stop(run) =>
      case Next(vals') =>
        StarNeverRead(o, fields, env, i + 1, vals', s);
    }
  }

  lemma {:induction false} StarNeverReadStep(o: Oracles, fields: seq<Field>, env: map<string, string>, i: nat, vals: seq<Value>, s: string)
    requires i < |fields| == |vals|
    ensures FieldStep(o, fields, env, i, vals) == FieldStep(o, fields, env["*" := s], i, vals)
    decreases Struct(fields), 0
  {
    var fd := fields[i];
    var name := VarName(fd.envTag);
    if fd.envTag != "" && name == "*" && Nests(fields, vals, i) {
      StarNeverRead(o, fd.kind.fields, env, 0, vals[i].vals, s);
    } else if fd.envTag != "" && name != "" && name != "*" {
      assert Getenv(env["*" := s], name) == Getenv(env, name);
    }
  }

  /** The first tagged field whose tag has no name stops the load, whatever
      the environment holds. */
  lemma MissingNameFatal(o: Oracles, fields: seq<Field>, env: map<string, string>, vals: seq<Value>, i: nat)
    requires i < |fields| == |vals| && fields[i].envTag != "" && VarName(fields[i].envTag) == ""
    ensures LoadFrom(o, fields, env, i, vals) == EnvRun(Some(MissingName(fields[i].envTag)), vals)
  {
  }

  /** A required variable that is missing stops the load at its field, even
      when the field's type is one the loader could not have read anyway. */
  lemma MissingVarFatal(o: Oracles, fields: seq<Field>, env: map<string, string>, vals: seq<Value>, i: nat)
    requires i < |fields| == |vals| && fields[i].envTag != ""
    requires VarName(fields[i].envTag) !in {"", "*"}
    requires Getenv(env, VarName(fields[i].envTag)) == "" && TagDefault(fields[i].envTag).None?
    ensures LoadFrom(o, fields, env, i, vals) == EnvRun(Some(MissingVar(VarName(fields[i].envTag))), vals)
  {
  }
}
