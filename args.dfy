/** The command-line parser of args/args.go as the imperative code it is: a
    ParsedArgs object whose maps and slices are filled in field by field, a
    setSwitch method that writes one field of the caller's record in place,
    and the scan loop with its one token of lookahead. Each method is proved
    to end in exactly the state the functions of ArgsSpec describe. The body
    of LoadArgsSpecFrom is split into Scan (the token loop) and Finish (the
    required-switch check and the positional loop) to keep each proof small. */
module Args {
  import opened Text
  import opened Kinds
  import opened ArgsSpec

  /** The index built for one record, holding a reference to the record:
      the caller's struct, one value per field. */
  class ParsedArgs {
    const fields: seq<Field>
    const oracles: Oracles
    const rec: array<Value>
    var short: map<string, ArgInfo>
    var long: map<string, ArgInfo>
    var defaults: map<nat, string>
    var positional: seq<nat>
    var missing: set<nat>
    var captureAll: int

    function Ix(): Index
      reads this
    {
      Index(short, long, defaults, positional, missing, captureAll)
    }

    ghost predicate Valid()
      reads this, rec
    {
      rec.Length == |fields| && IndexFor(Ix(), fields)
    }

    /** The empty index ParseArgsSpec starts from: no switches, no
        positionals, nothing missing, no capture-all. */
    constructor (fields: seq<Field>, oracles: Oracles, rec: array<Value>)
      requires rec.Length == |fields|
      ensures this.fields == fields && this.oracles == oracles && this.rec == rec
      ensures Ix() == EmptyIndex && Valid()
    {
      this.fields, this.oracles, this.rec := fields, oracles, rec;
      short, long, defaults := map[], map[], map[];
      positional, missing, captureAll := [], {}, -1;
    }

    /** setSwitch: field -1 is the help switch; any other field leaves the
        missing set, then takes the value coerced from `swVal`, or keeps its
        value when coercion fails. */
    method SetSwitch(fieldIdx: int, swVal: string) returns (status: Status)
      requires Valid() && -1 <= fieldIdx < |fields|
      modifies this`missing, rec
      ensures Valid()
      ensures var e := SetField(Arms(oracles), fields, old(missing), old(rec[..]), fieldIdx, swVal);
              status == e.status && missing == e.missing && rec[..] == e.vals
    {
      if fieldIdx < 0 {
        // ShowHelp: print the usage text and exit with status 2
        return Help;
      }
      missing := missing - {fieldIdx};
      match Coerce(oracles, fieldIdx, fields[fieldIdx].kind, rec[fieldIdx], swVal)
      case Ok(v) =>
        rec[fieldIdx] := v;
        status := Continue;
      case Err(err) =>
        status := Fail(err);
    }

    /** One alias of field `f`: a short switch if it is one character long,
        a long one otherwise. */
    method RegisterAlias(f: nat, isBool: bool, sw: string)
      requires Valid() && f < |fields|
      modifies this`short, this`long, this`missing
      ensures Valid()
      ensures Ix() == AddAlias(old(Ix()), f, isBool, sw)
    {
      if isBool {
        missing := missing - {f};
      }
      if |sw| == 1 {
        short := short[sw := ArgInfo(f, !isBool)];
      } else {
        long := long[sw := ArgInfo(f, !isBool)];
      }
    }

    /** The inner loop of ParseArgsSpec: every alias of field `f`, in order. */
    method RegisterAliases(f: nat, isBool: bool, aliases: seq<string>)
      requires Valid() && f < |fields|
      modifies this`short, this`long, this`missing
      ensures Valid()
      ensures Ix() == AddAliases(old(Ix()), f, isBool, aliases)
    {
      ghost var goal := AddAliases(Ix(), f, isBool, aliases);
      for k := 0 to |aliases|
        invariant Valid()
        invariant AddAliases(Ix(), f, isBool, aliases[k..]) == goal
      {
        AddAliasesStep(Ix(), f, isBool, aliases, k);
        RegisterAlias(f, isBool, aliases[k]);
      }
    }

    /** A field tagged `*`. */
    method AddStar(i: nat) returns (status: Status)
      requires Valid() && i < |fields|
      modifies this`positional, this`captureAll
      ensures Valid()
      ensures var b := BuildStar(fields, i, old(Ix()), rec[..]);
              status == b.status && Ix() == b.ix
    {
      if captureAll >= 0 {
        return Fail(CaptureAllFollowed(captureAll, i));
      }
      positional := positional + [i];
      if fields[i].kind == List {
        captureAll := i;
      }
      status := Continue;
    }

    /** A switch field: its default, if any, then its aliases. */
    method AddSwitch(i: nat, aliases: seq<string>, dflt: Option<string>) returns (status: Status)
      requires Valid() && i < |fields|
      modifies this`short, this`long, this`defaults, this`missing, rec
      ensures Valid()
      ensures var b := BuildSwitch(Arms(oracles), fields, i, old(Ix()), old(rec[..]), aliases, dflt);
              status == b.status && Ix() == b.ix && rec[..] == b.vals
    {
      if dflt.Some? {
        defaults := defaults[i := dflt.value];
        var st := SetSwitch(i, dflt.value);
        if st.Fail? {
          return Fail(BadDefault(i, dflt.value, st.err));
        }
      } else {
        missing := missing + {i};
      }
      RegisterAliases(i, fields[i].kind == Bool, aliases);
      status := Continue;
    }

    /** One pass of ParseArgsSpec's field loop: the `arg` tag of field `i`. */
    method AddField(i: nat) returns (status: Status)
      requires Valid() && i < |fields|
      modifies this, rec
      ensures Valid()
      ensures var b := BuildField(Arms(oracles), fields, i, old(Ix()), old(rec[..]));
              status == b.status && Ix() == b.ix && rec[..] == b.vals
    {
      var tag := fields[i].argTag;
      if tag == "" {
        return Continue;
      }
      if tag == "*" {
        status := AddStar(i);
        return;
      }
      var (aliasText, dflt) := SplitOnce(tag, '=');
      status := AddSwitch(i, Split(aliasText, ','), dflt);
    }

    /** The help switches, added by LoadArgsSpecFrom before the scan: `h`
        among the short switches unless declared and, unless a long switch
        `help` is declared, the "help" entry, filed where `slot` says. */
    method AddHelp(slot: HelpSlot)
      requires Valid()
      modifies this`short, this`long
      ensures Valid() && Ix() == HelpSwitches(old(Ix()), slot)
    {
      if "h" !in short {
        short := short["h" := HelpInfo];
      }
      if "help" !in long {
        if slot.AsWritten? {
          short := short["help" := HelpInfo];
        } else {
          long := long["help" := HelpInfo];
        }
      }
    }

    /** The token loop of LoadArgsSpecFrom for one token that starts with a
        dash and is not "--": a long switch `--name[=value]` or a short one
        `-x[value]`; `next` is the token after any value it consumed. */
    method Switch(ghost ix: Index, args: seq<string>, i: nat) returns (status: Status, next: nat)
      requires Valid() && IndexFor(ix, fields) && Ix() == ix.(missing := missing)
      requires i < |args| && args[i] != "--" && "-" <= args[i]
      modifies this`missing, rec
      ensures Valid() && Ix() == ix.(missing := missing)
      ensures match Classify(ix, args, i)
              case Reject(err) => status == Fail(err) && missing == old(missing) && rec[..] == old(rec[..])
              case Assign(f, text, n) =>
                var e := SetField(Arms(oracles), fields, old(missing), old(rec[..]), f, text);
                status == e.status && missing == e.missing && rec[..] == e.vals && next == n
              case _ => false
    {
      var a := args[i];
      if "--" <= a {
        var (name, attached) := SplitOnce(a[2..], '=');
        if name !in long {
          return Fail(UnknownSwitch(a)), i;
        }
        var info := long[name];
        if attached.Some? {
          if !info.needsVal {
            return Fail(UnexpectedValue(a)), i;
          }
          status := SetSwitch(info.fieldIdx, attached.value);
          next := i + 1;
        } else if info.needsVal {
          if i == |args| - 1 {
            return Fail(ValueExpected(a)), i;
          }
          status := SetSwitch(info.fieldIdx, args[i + 1]);
          next := i + 2;
        } else {
          status := SetSwitch(info.fieldIdx, "");
          next := i + 1;
        }
      } else {
        if |a| == 1 {
          return Fail(InvalidSwitch(a)), i;
        }
        var name := a[1..2];
        if name !in short {
          return Fail(UnknownSwitch(a)), i;
        }
        var info := short[name];
        if info.needsVal {
          if |a| > 2 {
            status := SetSwitch(info.fieldIdx, a[2..]);
            next := i + 1;
          } else {
            if i == |args| - 1 {
              return Fail(ValueExpected(a)), i;
            }
            status := SetSwitch(info.fieldIdx, args[i + 1]);
            next := i + 2;
          }
        } else {
          if |a| > 2 {
            return Fail(UnexpectedValue(a)), i;
          }
          status := SetSwitch(info.fieldIdx, "");
          next := i + 1;
        }
      }
    }

    /** The token loop of LoadArgsSpecFrom: the tokens after the program
        name, up to the end or up to "--", whose followers are all positional. */
    method Scan(args: seq<string>) returns (status: Status, posArgs: seq<string>)
      requires Valid()
      modifies this`missing, rec
      ensures Valid() && Ix() == old(Ix()).(missing := missing)
      ensures var s := ScanFrom(Arms(oracles), fields, old(Ix()), args, 1, old(missing), old(rec[..]), []);
              status == s.status && missing == s.missing && rec[..] == s.vals && posArgs == s.pos
    {
      ghost var ix := Ix();
      ghost var scanned := ScanFrom(Arms(oracles), fields, ix, args, 1, missing, rec[..], []);
      posArgs := [];
      var i := 1;
      while i < |args|
        invariant Valid() && Ix() == ix.(missing := missing)
        invariant ScanFrom(Arms(oracles), fields, ix, args, i, missing, rec[..], posArgs) == scanned
        decreases |args| - i
      {
        var a := args[i];
        if a == "--" {
          posArgs := posArgs + args[i + 1..];
          return Continue, posArgs;
        }
        if "-" <= a {
          var next;
          status, next := Switch(ix, args, i);
          if !status.Continue? {
            return;
          }
          i := next;
        } else {
          posArgs := posArgs + [a];
          i := i + 1;
        }
      }
      status := Continue;
    }

    /** The end of LoadArgsSpecFrom: every required switch must have been
        given; then each positional field takes the next leftover token, the
        capture-all takes all that remain, and none may be left over. */
    method Finish(ghost ix: Index, posArgs: seq<string>) returns (outcome: Outcome)
      requires Valid() && IndexFor(ix, fields) && Ix() == ix.(missing := missing)
      modifies this`missing, rec
      ensures var r := ArgsSpec.Finish(Arms(oracles), fields, ix, old(missing), old(rec[..]), posArgs);
              outcome == r.outcome && rec[..] == r.vals
    {
      if |missing| > 0 {
        return Failure(MissingRequired(missing));
      }
      ghost var goal := BindFrom(Arms(oracles), fields, ix, 0, missing, rec[..], posArgs);
      var rest := posArgs;
      for k := 0 to |positional|
        invariant Valid() && Ix() == ix.(missing := missing)
        invariant BindFrom(Arms(oracles), fields, ix, k, missing, rec[..], rest) == goal
      {
        var p := positional[k];
        if |rest| == 0 {
          return Failure(MissingPositional(p));
        }
        if p == captureAll {
          rec[p] := ListV(rest);
          rest := [];
        } else {
          var a := rest[0];
          rest := rest[1..];
          var st := SetSwitch(p, a);
          if st.Fail? {
            return Failure(st.err);
          }
        }
      }
      if |rest| > 0 {
        return Failure(Unconsumed(rest));
      }
      return Success;
    }
  }

  /** ParseArgsSpec: walks the fields in declaration order, collecting the
      positionals, applying defaults and registering every alias. */
  method ParseArgsSpec(fields: seq<Field>, oracles: Oracles, rec: array<Value>)
    returns (parsed: ParsedArgs, status: Status)
    requires rec.Length == |fields|
    modifies rec
    ensures fresh(parsed) && parsed.fields == fields && parsed.oracles == oracles && parsed.rec == rec
    ensures parsed.Valid()
    ensures var b := Build(Arms(oracles), fields, old(rec[..]));
            status == b.status && parsed.Ix() == b.ix && rec[..] == b.vals
  {
    parsed := new ParsedArgs(fields, oracles, rec);
    ghost var goal := Build(Arms(oracles), fields, rec[..]);
    for i := 0 to |fields|
      invariant parsed.Valid()
      invariant BuildFrom(Arms(oracles), fields, i, parsed.Ix(), rec[..]) == goal
    {
      status := parsed.AddField(i);
      if status.Fail? {
        return;
      }
    }
    status := Continue;
  }

  /** LoadArgsSpecFrom(record, osArgs): build the index, add the help switch,
      scan the tokens after the program name, then check the required
      switches and bind the positionals. On failure the record keeps whatever
      was written before it. `slot` says where the "help" entry is filed:
      AsWritten is the code as it stands. */
  method LoadArgsSpecFrom(fields: seq<Field>, oracles: Oracles, rec: array<Value>, osArgs: seq<string>, slot: HelpSlot)
    returns (outcome: Outcome)
    requires rec.Length == |fields|
    modifies rec
    ensures var r := Load(Arms(oracles), slot, fields, old(rec[..]), osArgs);
            outcome == r.outcome && rec[..] == r.vals
  {
    var parsed, st := ParseArgsSpec(fields, oracles, rec);
    if st.Fail? {
      return Failure(st.err);
    }
    parsed.AddHelp(slot);
    ghost var ix := parsed.Ix();
    var status, posArgs := parsed.Scan(osArgs);
    match status
    case Help =>
      outcome := HelpRequested;
    case Fail(err) =>
      outcome := Failure(err);
    case Continue =>
      outcome := parsed.Finish(ix, posArgs);
  }
}
