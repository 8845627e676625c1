/** The environment loader of env/env.go: every field with an `env:"NAME"` or
    `env:"NAME=default"` tag is loaded from the variable NAME, with the
    default standing in when the variable is empty; `env:"*"` loads a nested
    record the same way. LoadFrom says what the loader computes; the method
    LoadEnvSpecFrom does it in place and is proved to compute that. */
module Env {
  import opened Text
  import opened Numbers
  import opened Kinds

  /** Why the loader panics (log.Panicf). */
  datatype EnvError =
    | MissingName(tag: string)              // "Missing env var name"
    | MissingVar(name: string)              // "missing required env var"
    | BadValue(name: string, text: string)  // "parsing NAME: ..."
    | UnsupportedKind(field: string)        // "Unsupported type ... for FIELD"
    | NotNested(field: string)              // `*` on a field that holds no nested record

  /** getenv: a variable that is not set reads as the empty string. */
  function Getenv(env: map<string, string>, name: string): (v: string)
    ensures name !in env ==> v == ""
  {
    if name in env then env[name] else ""
  }

  /** The text a field is loaded from: the variable when it is not empty,
      else the default when the tag gives one; without either the variable
      is required and missing. */
  function Select(env: map<string, string>, name: string, dflt: Option<string>): (r: Result<string, EnvError>)
    ensures r.Ok? ==> if Getenv(env, name) != "" then r.value == Getenv(env, name) else dflt == Some(r.value)
    ensures r.Err? <==> Getenv(env, name) == "" && dflt.None?
  {
    var v := Getenv(env, name);
    if v != "" then Ok(v)
    else if dflt.Some? then Ok(dflt.value)
    else Err(MissingVar(name))
  }

  /** The per-kind arms: strings verbatim, bools by their words (no toggle),
      numbers and durations from the trimmed text, every other kind refused. */
  function EnvCoerce(o: Oracles, fd: Field, name: string, text: string): (r: Result<Value, EnvError>)
    ensures r.Ok? ==> Fits(fd.kind, r.value)
  {
    match fd.kind
    case Str => Ok(StrV(text))
    case Bool =>
      var t := ToLower(TrimSpace(text));
      if BoolWord(t).Some? then Ok(BoolV(BoolWord(t).value)) else Err(BadValue(name, t))
    case Int =>
      var v := ParseInt64(TrimSpace(text));
      if v.Some? then Ok(IntV(v.value)) else Err(BadValue(name, text))
    case Uint =>
      var v := ParseUint64(TrimSpace(text));
      if v.Some? then Ok(UintV(v.value)) else Err(BadValue(name, text))
    case Float =>
      var x := o.parseFloat(TrimSpace(text));
      if x.Some? then Ok(FloatV(x.value)) else Err(BadValue(name, text))
    case Duration =>
      var d := ParseDurationText(o, text);
      if d.Some? then Ok(DurationV(d.value)) else Err(BadValue(name, text))
    case Timestamp => Err(UnsupportedKind(fd.name))
    case List => Err(UnsupportedKind(fd.name))
    case Struct(_) => Err(UnsupportedKind(fd.name))
    case Other(_) => Err(UnsupportedKind(fd.name))
  }

  /** The variable name of a tag: the trimmed text before the first `=`. */
  function VarName(tag: string): string {
    TrimSpace(SplitOnce(tag, '=').0)
  }

  /** The default of a tag: everything after the first `=`, when there is one. */
  function TagDefault(tag: string): Option<string> {
    SplitOnce(tag, '=').1
  }

  /** Whether field `i` is a `*` field holding a nested record of the right shape. */
  predicate Nests(fields: seq<Field>, vals: seq<Value>, i: nat)
    requires i < |fields| == |vals|
  {
    fields[i].kind.Struct? && vals[i].StructV? && |vals[i].vals| == |fields[i].kind.fields|
  }

  /** How a load ends: the panic, if any, and the record as the loader left
      it (the fields written before a panic keep their new values). */
  datatype EnvRun = EnvRun(panic: Option<EnvError>, vals: seq<Value>)

  /** What one field does: stop the load with a panic, or go on with the
      record it leaves. */
  datatype Step = Stop(run: EnvRun) | Next(vals: seq<Value>)

  /** LoadEnvSpecFrom(record, getenv) from field `i` on. */
  function LoadFrom(o: Oracles, fields: seq<Field>, env: map<string, string>, i: nat, vals: seq<Value>): (r: EnvRun)
    requires i <= |fields| && |vals| == |fields|
    ensures |r.vals| == |vals|
    decreases Struct(fields), |fields| - i
  {
    if i == |fields| then EnvRun(None, vals)
    else
      match FieldStep(o, fields, env, i, vals)
      case Stop(run) => run
      case Next(vals') => LoadFrom(o, fields, env, i + 1, vals')
  }

  /** The body of the field loop for field `i`: untagged fields are skipped,
      a tag without a name panics, `*` loads the nested record, any other
      name selects a text and reads it by the field's kind. Only field `i`
      may change. */
  function FieldStep(o: Oracles, fields: seq<Field>, env: map<string, string>, i: nat, vals: seq<Value>): (s: Step)
    requires i < |fields| == |vals|
    ensures s.Next? ==> |s.vals| == |vals| && s.vals == vals[i := s.vals[i]]
    ensures s.Stop? ==> s.run.panic.Some? && |s.run.vals| == |vals| && s.run.vals == vals[i := s.run.vals[i]]
    decreases Struct(fields), 0
  {
    var fd := fields[i];
    if fd.envTag == "" then Next(vals)
    else
      var name := VarName(fd.envTag);
      if name == "" then Stop(EnvRun(Some(MissingName(fd.envTag)), vals))
      else if name == "*" then
        if !Nests(fields, vals, i) then Stop(EnvRun(Some(NotNested(fd.name)), vals))
        else
          var inner := LoadFrom(o, fd.kind.fields, env, 0, vals[i].vals);
          var vals' := vals[i := StructV(inner.vals)];
          if inner.panic.Some? then Stop(EnvRun(inner.panic, vals')) else Next(vals')
      else
        match Select(env, name, TagDefault(fd.envTag))
        case Err(e) => Stop(EnvRun(Some(e), vals))
        case Ok(text) =>
          match EnvCoerce(o, fd, name, text)
          case Err(e) => Stop(EnvRun(Some(e), vals))
          case Ok(v) => Next(vals[i := v])
  }

  /** LoadEnvSpecFrom(record, getenv): loads the fields of `rec` in place,
      in declaration order, and reports the panic that stops it, if any. */
  method LoadEnvSpecFrom(o: Oracles, fields: seq<Field>, env: map<string, string>, rec: array<Value>)
      returns (panic: Option<EnvError>)
    requires rec.Length == |fields|
    modifies rec
    ensures EnvRun(panic, rec[..]) == LoadFrom(o, fields, env, 0, old(rec[..]))
    decreases Struct(fields)
  {
    ghost var goal := LoadFrom(o, fields, env, 0, rec[..]);
    var i := 0;
    while i < |fields|
      invariant 0 <= i <= |fields|
      invariant LoadFrom(o, fields, env, i, rec[..]) == goal
    {
      if fields[i].envTag != "" {
        panic := LoadField(o, fields, env, rec, i);
        if panic.Some? {
          return;
        }
      }
      i := i + 1;
    }
    panic := None;
  }

  /** One tagged field of LoadEnvSpecFrom, written in place. A nested record
      is loaded through an array of its own and stored back. */
  method LoadField(o: Oracles, fields: seq<Field>, env: map<string, string>, rec: array<Value>, i: nat)
      returns (panic: Option<EnvError>)
    requires i < |fields| == rec.Length && fields[i].envTag != ""
    modifies rec
    ensures var s := FieldStep(o, fields, env, i, old(rec[..]));
            && (s.Stop? ==> EnvRun(panic, rec[..]) == s.run)
            && (s.Next? ==> panic.None? && rec[..] == s.vals)
    decreases Struct(fields), 0
  {
    var fd := fields[i];
    var name := VarName(fd.envTag);
    if name == "" {
      return Some(MissingName(fd.envTag));
    }
    if name == "*" {
      if !Nests(fields, rec[..], i) {
        return Some(NotNested(fd.name));
      }
      var outer := rec[i].vals;
      var inner := new Value[|outer|](k requires 0 <= k < |outer| => outer[k]);
      assert inner[..] == outer;
      panic := LoadEnvSpecFrom(o, fd.kind.fields, env, inner);
      rec[i] := StructV(inner[..]);
      return;
    }
    match Select(env, name, TagDefault(fd.envTag))
    case Err(e) =>
      return Some(e);
    case Ok(text) =>
      match EnvCoerce(o, fd, name, text)
      case Err(e) =>
        return Some(e);
      case Ok(v) =>
        rec[i] := v;
        return None;
  }
}
