/** What the command-line parser promises, proved about the functions of
    ArgsSpec (and so, through the contracts of module Args, about the methods
    that implement them): how setSwitch reads each kind, what the index built
    from the tags holds, how the scan treats tokens, and how the positionals
    are bound. */
module ArgsProps {
  import opened Text
  import opened Numbers
  import opened Kinds
  import opened ArgsSpec

  // ---------------------------------------------------------------- setSwitch

  /** A bool switch reads its trimmed, lower-cased value: nothing toggles the
      field, a true word sets it, a false word clears it, and any other word
      is an error that names the normalised text. */
  lemma CoerceBool(o: Oracles, f: nat, cur: Value, text: string)
    requires cur.BoolV?
    ensures var t := ToLower(TrimSpace(text));
            var r := Coerce(o, f, Bool, cur, text);
            && (t == "" ==> r == Ok(BoolV(!cur.b)))
            && (t in TrueWords ==> r == Ok(BoolV(true)))
            && (t in FalseWords ==> r == Ok(BoolV(false)))
            && (t != "" && t !in TrueWords && t !in FalseWords ==> r == Err(CannotParse(f, t)))
  {
    BoolWordSpec(ToLower(TrimSpace(text)));
  }

  /** Case does not matter to a bool switch. */
  lemma CoerceBoolCaseInsensitive(o: Oracles, f: nat, cur: Value, text: string)
    requires cur.BoolV?
    ensures Coerce(o, f, Bool, cur, ToLower(text)) == Coerce(o, f, Bool, cur, text)
  {
    TrimSpaceLower(text);
    LowerIdempotent(TrimSpace(text));
  }

  /** Nor does white space around the word. */
  lemma CoerceBoolPadded(o: Oracles, f: nat, cur: Value, pre: string, w: string, post: string)
    requires cur.BoolV? && AllSpace(pre) && AllSpace(post)
    requires w != [] ==> !IsSpace(w[0]) && !IsSpace(w[|w| - 1])
    ensures Coerce(o, f, Bool, cur, pre + w + post) == Coerce(o, f, Bool, cur, w)
  {
    TrimSpacePadded(pre, w, post);
    TrimSpacePadded([], w, []);
    assert [] + w + [] == w;
  }

  /** An empty value given twice to a bool switch leaves the record as it was. */
  lemma ToggleTwice(o: Oracles, fields: seq<Field>, missing: set<nat>, vals: seq<Value>, f: nat)
    requires WellKinded(fields, vals) && f < |fields| && fields[f].kind == Bool
    ensures var e1 := SetField(Arms(o), fields, missing, vals, f, "");
            var e2 := SetField(Arms(o), fields, e1.missing, e1.vals, f, "");
            e1.status == Continue && e2.status == Continue && e2.vals == vals && e2.missing == missing - {f}
  {
    var e1 := SetField(Arms(o), fields, missing, vals, f, "");
    assert e1.vals[f] == BoolV(!vals[f].b);
    assert e1.vals[f := BoolV(!e1.vals[f].b)] == vals;
  }

  /** Signed integers: an int64 written in decimal, with white space around
      it, reads back as itself. */
  lemma CoerceIntFormat(o: Oracles, f: nat, cur: Value, pre: string, n: int, post: string)
    requires Int64Min <= n <= Int64Max && AllSpace(pre) && AllSpace(post)
    ensures Coerce(o, f, Int, cur, pre + FormatInt(n) + post) == Ok(IntV(n))
  {
    var w := FormatInt(n);
    assert IsDigit(w[|w| - 1]);
    TrimSpacePadded(pre, w, post);
    ParseInt64Format(n);
  }

  /** Unsigned integers: a uint64 in decimal, with white space around it,
      reads back as itself. */
  lemma CoerceUintFormat(o: Oracles, f: nat, cur: Value, pre: string, n: nat, post: string)
    requires n <= Uint64Max && AllSpace(pre) && AllSpace(post)
    ensures Coerce(o, f, Uint, cur, pre + FormatDecimal(n) + post) == Ok(UintV(n))
  {
    var w := FormatDecimal(n);
    assert IsDigit(w[0]) && IsDigit(w[|w| - 1]);
    TrimSpacePadded(pre, w, post);
    ParseUint64Format(n);
  }

  /** An unsigned field accepts no sign, not even `+`. */
  lemma CoerceUintSigned(o: Oracles, f: nat, cur: Value, sign: char, digits: string)
    requires sign == '-' || sign == '+'
    requires digits != [] && !IsSpace(digits[|digits| - 1])
    ensures Coerce(o, f, Uint, cur, [sign] + digits).Err?
  {
    var w := [sign] + digits;
    TrimSpacePadded([], w, []);
    assert [] + w + [] == w;
  }

  /** A duration the duration grammar rejects but that is a decimal int64 is
      that many seconds; when both reject it the switch fails. */
  lemma CoerceDurationSeconds(o: Oracles, f: nat, cur: Value, n: int)
    requires Int64Min <= n <= Int64Max && o.parseDuration(FormatInt(n)).None?
    ensures Coerce(o, f, Duration, cur, FormatInt(n)) == Ok(DurationV(n * Second))
  {
    var w := FormatInt(n);
    assert IsDigit(w[|w| - 1]);
    TrimSpacePadded([], w, []);
    assert [] + w + [] == w;
    ParseInt64Format(n);
    assert ParseDurationText(o, w) == Some(n * Second);
  }

  lemma CoerceDurationFails(o: Oracles, f: nat, cur: Value, text: string)
    requires o.parseDuration(TrimSpace(text)).None? && ParseInt64(TrimSpace(text)).None?
    ensures Coerce(o, f, Duration, cur, text) == Err(CannotParse(f, text))
  {
  }

  /** A time field takes what the first layout, in the order listed, that
      accepts the trimmed text gives; when no layout accepts it the switch
      fails naming the text as given. */
  lemma CoerceTimestamp(o: Oracles, f: nat, cur: Value, text: string, k: nat)
    requires k < |TimeLayouts| && o.parseTime(TimeLayouts[k], TrimSpace(text)).Some?
    requires forall j :: 0 <= j < k ==> o.parseTime(TimeLayouts[j], TrimSpace(text)).None?
    ensures Coerce(o, f, Timestamp, cur, text) == Ok(TimeV(o.parseTime(TimeLayouts[k], TrimSpace(text)).value))
  {
    var t := TrimSpace(text);
    var first := FirstLayout(o, TimeLayouts, 0, t);
    assert o.parseTime(TimeLayouts[k], t).Some?;
    assert first.Some? && first.value >= k;
    assert first == Some(k);
  }

  lemma CoerceTimestampFails(o: Oracles, f: nat, cur: Value, text: string)
    requires forall j :: 0 <= j < |TimeLayouts| ==> o.parseTime(TimeLayouts[j], TrimSpace(text)).None?
    ensures Coerce(o, f, Timestamp, cur, text) == Err(NoKnownTimeFormat(f, text))
  {
  }

  /** A float field takes what the float grammar gives for the trimmed text,
      and fails naming the text as given when the grammar rejects it. */
  lemma CoerceFloat(o: Oracles, f: nat, cur: Value, pre: string, w: string, post: string)
    requires AllSpace(pre) && AllSpace(post)
    requires w != [] ==> !IsSpace(w[0]) && !IsSpace(w[|w| - 1])
    ensures var r := Coerce(o, f, Float, cur, pre + w + post);
            && (o.parseFloat(w).Some? ==> r == Ok(FloatV(o.parseFloat(w).value)))
            && (o.parseFloat(w).None? ==> r == Err(CannotParse(f, pre + w + post)))
  {
    TrimSpacePadded(pre, w, post);
  }

  /** Strings are kept verbatim; a list field always fails, since the check
      for a list set twice can never fire; any other unsupported kind fails
      only now, when a value is set. */
  lemma CoerceOtherKinds(o: Oracles, f: nat, cur: Value, text: string, k: Kind)
    ensures Coerce(o, f, Str, cur, text) == Ok(StrV(text))
    ensures Coerce(o, f, List, cur, text) == Err(ArraysUnsupported(f))
    ensures k.Struct? || k.Other? ==> Coerce(o, f, k, cur, text) == Err(UnsupportedType(f, text))
  {
  }

  /** setSwitch on a field: the field leaves the missing set whatever happens
      next; only that field changes, and only when coercion succeeds. */
  lemma SetFieldFrame(co: Coercion, fields: seq<Field>, missing: set<nat>, vals: seq<Value>, f: nat, text: string)
    requires |vals| == |fields| && f < |fields|
    ensures var e := SetField(co, fields, missing, vals, f, text);
            var r := co(f, fields[f].kind, vals[f], text);
            && e.missing == missing - {f}
            && (r.Ok? ==> e.status == Continue && e.vals == vals[f := r.value])
            && (r.Err? ==> e.status == Fail(r.error) && e.vals == vals)
  {
  }

  /** The help switch changes nothing and asks for the help text. */
  lemma SetFieldHelp(co: Coercion, fields: seq<Field>, missing: set<nat>, vals: seq<Value>, text: string)
    requires |vals| == |fields|
    ensures SetField(co, fields, missing, vals, -1, text) == Effect(Help, missing, vals)
  {
  }

  // ------------------------------------------------------------ ParseArgsSpec

  /** A tag that declares switches: neither absent nor `*`. */
  predicate IsSwitchTag(tag: string) {
    tag != "" && tag != "*"
  }

  /** The aliases a switch tag declares: the part before the first `=`, split at commas. */
  function AliasesOf(tag: string): seq<string> {
    Split(SplitOnce(tag, '=').0, ',')
  }

  /** The default a switch tag gives: everything after the first `=`. */
  function DefaultOf(tag: string): Option<string> {
    SplitOnce(tag, '=').1
  }

  predicate HasDefault(fd: Field) {
    IsSwitchTag(fd.argTag) && DefaultOf(fd.argTag).Some?
  }

  /** A switch that must be given: no default, and not a bool. */
  predicate Required(fd: Field) {
    IsSwitchTag(fd.argTag) && DefaultOf(fd.argTag).None? && fd.kind != Bool
  }

  predicate Declares(fd: Field, a: string) {
    IsSwitchTag(fd.argTag) && a in AliasesOf(fd.argTag)
  }

  /** The table an alias lives in: one character is a short switch. */
  function TableFor(ix: Index, a: string): map<string, ArgInfo> {
    if |a| == 1 then ix.short else ix.long
  }

  /** The `*` fields from `i` on, in declaration order. */
  function StarsFrom(fields: seq<Field>, i: nat): (r: seq<nat>)
    decreases |fields| - i
  {
    if i >= |fields| then []
    else if fields[i].argTag == "*" then [i] + StarsFrom(fields, i + 1)
    else StarsFrom(fields, i + 1)
  }

  /** The required switches from `i` on. */
  function RequiredFrom(fields: seq<Field>, i: nat): set<nat>
    decreases |fields| - i
  {
    if i >= |fields| then {} else (if Required(fields[i]) then {i} else {}) + RequiredFrom(fields, i + 1)
  }

  /** StarsFrom lists exactly the `*` fields, in increasing order. */
  lemma {:induction false} StarsFromSpec(fields: seq<Field>, i: nat)
    ensures forall j :: j in StarsFrom(fields, i) <==> i <= j < |fields| && fields[j].argTag == "*"
    ensures forall m, n :: 0 <= m < n < |StarsFrom(fields, i)| ==> StarsFrom(fields, i)[m] < StarsFrom(fields, i)[n]
    decreases |fields| - i
  {
    if i < |fields| {
      StarsFromSpec(fields, i + 1);
      var rest := StarsFrom(fields, i + 1);
      if fields[i].argTag == "*" {
        var r := StarsFrom(fields, i);
        assert r == [i] + rest;
        forall m, n | 0 <= m < n < |r|
          ensures r[m] < r[n]
        {
          assert r[n] == rest[n - 1] && rest[n - 1] in rest;
          if m > 0 {
            assert r[m] == rest[m - 1];
          }
        }
      }
    }
  }

  lemma {:induction false} RequiredFromSpec(fields: seq<Field>, i: nat)
    ensures forall j :: j in RequiredFrom(fields, i) <==> i <= j < |fields| && Required(fields[j])
    decreases |fields| - i
  {
    if i < |fields| {
      RequiredFromSpec(fields, i + 1);
    }
  }

  /** One pass over a `*` field: it joins the positionals and, as a list,
      becomes the capture-all, unless a capture-all already exists. */
  lemma BuildFieldStar(co: Coercion, fields: seq<Field>, i: nat, ix: Index, vals: seq<Value>)
    requires i < |fields| && |vals| == |fields| && fields[i].argTag == "*"
    ensures var b := BuildField(co, fields, i, ix, vals);
            && (ix.captureAll >= 0 ==> b == Built(Fail(CaptureAllFollowed(ix.captureAll, i)), ix, vals))
            && (ix.captureAll < 0 ==>
                  b == Built(Continue, ix.(positional := ix.positional + [i],
                                           captureAll := if fields[i].kind == List then i else ix.captureAll), vals))
  {
  }

  /** One pass over a switch field: the positionals and the capture-all stay
      as they are, only a default can fail, and the field ends up missing
      exactly when it is required. */
  lemma BuildFieldSwitch(co: Coercion, fields: seq<Field>, i: nat, ix: Index, vals: seq<Value>)
    requires i < |fields| && |vals| == |fields| && IsSwitchTag(fields[i].argTag)
    ensures var b := BuildField(co, fields, i, ix, vals);
            && b.ix.positional == ix.positional && b.ix.captureAll == ix.captureAll
            && (b.status.Continue? || (b.status.Fail? && b.status.err.BadDefault?))
            && (b.status.Continue? ==> b.ix.missing == (ix.missing - {i}) + (if Required(fields[i]) then {i} else {}))
  {
    var fd := fields[i];
    var (aliasText, dflt) := SplitOnce(fd.argTag, '=');
    var aliases := Split(aliasText, ',');
    assert aliases == AliasesOf(fd.argTag) && dflt == DefaultOf(fd.argTag);
    assert aliases != [];
  }

  /** One pass: a `*` field joins the positionals, no other field does. */
  lemma PositionalStep(co: Coercion, fields: seq<Field>, i: nat, ix: Index, vals: seq<Value>)
    requires i < |fields| && |vals| == |fields|
    ensures var b1 := BuildField(co, fields, i, ix, vals);
            && (b1.status.Continue? && fields[i].argTag == "*" ==> b1.ix.positional == ix.positional + [i])
            && (b1.status.Continue? && fields[i].argTag != "*" ==> b1.ix.positional == ix.positional)
  {
    var b1 := BuildField(co, fields, i, ix, vals);
    var tag := fields[i].argTag;
    if tag == "*" {
      BuildFieldStar(co, fields, i, ix, vals);
    } else if tag != "" {
      BuildFieldSwitch(co, fields, i, ix, vals);
    } else {
      assert b1 == Built(Continue, ix, vals);
    }
  }

  /** One pass: the field enters the missing set exactly when it is required. */
  lemma MissingStep(co: Coercion, fields: seq<Field>, i: nat, ix: Index, vals: seq<Value>)
    requires i < |fields| && |vals| == |fields| && i !in ix.missing
    ensures var b1 := BuildField(co, fields, i, ix, vals);
            b1.status.Continue? ==> b1.ix.missing == ix.missing + (if Required(fields[i]) then {i} else {})
  {
    var b1 := BuildField(co, fields, i, ix, vals);
    var tag := fields[i].argTag;
    if tag == "*" {
      BuildFieldStar(co, fields, i, ix, vals);
    } else if tag != "" {
      BuildFieldSwitch(co, fields, i, ix, vals);
    } else {
      assert b1 == Built(Continue, ix, vals);
    }
  }

  /** One pass of the field loop, named: the rest of the loop runs on what
      it leaves when it continues. */
  lemma BuildStep(co: Coercion, fields: seq<Field>, i: nat, ix: Index, vals: seq<Value>) returns (b1: Built)
    requires i < |fields| && |vals| == |fields|
    ensures b1 == BuildField(co, fields, i, ix, vals) && |b1.vals| == |fields|
    ensures BuildFrom(co, fields, i, ix, vals) == if b1.status.Continue? then BuildFrom(co, fields, i + 1, b1.ix, b1.vals) else b1
  {
    b1 := BuildField(co, fields, i, ix, vals);
  }

  lemma {:induction false} BuildPositionalFrom(co: Coercion, fields: seq<Field>, i: nat, ix: Index, vals: seq<Value>)
    requires i <= |fields| && |vals| == |fields|
    ensures var b := BuildFrom(co, fields, i, ix, vals);
            b.status.Continue? ==> b.ix.positional == ix.positional + StarsFrom(fields, i)
    decreases |fields| - i
  {
    if i < |fields| {
      var b1 := BuildStep(co, fields, i, ix, vals);
      PositionalStep(co, fields, i, ix, vals);
      if b1.status.Continue? {
        BuildPositionalFrom(co, fields, i + 1, b1.ix, b1.vals);
        var b := BuildFrom(co, fields, i + 1, b1.ix, b1.vals);
        if b.status.Continue? {
          StarsStep(fields, i, ix.positional, b1.ix.positional, b.ix.positional);
        }
      }
    }
  }

  lemma StarsStep(fields: seq<Field>, i: nat, before: seq<nat>, mid: seq<nat>, after: seq<nat>)
    requires i < |fields|
    requires fields[i].argTag == "*" ==> mid == before + [i]
    requires fields[i].argTag != "*" ==> mid == before
    requires after == mid + StarsFrom(fields, i + 1)
    ensures after == before + StarsFrom(fields, i)
  {
    if fields[i].argTag == "*" {
      assert (before + [i]) + StarsFrom(fields, i + 1) == before + ([i] + StarsFrom(fields, i + 1));
    }
  }

  /** The positionals are the `*` fields, in declaration order. */
  lemma BuildPositional(co: Coercion, fields: seq<Field>, vals: seq<Value>)
    requires |vals| == |fields|
    ensures var b := Build(co, fields, vals);
            b.status.Continue? ==>
              && (forall j :: j in b.ix.positional <==> 0 <= j < |fields| && fields[j].argTag == "*")
              && (forall m, n :: 0 <= m < n < |b.ix.positional| ==> b.ix.positional[m] < b.ix.positional[n])
  {
    BuildPositionalFrom(co, fields, 0, EmptyIndex, vals);
    StarsFromSpec(fields, 0);
  }

  /** What ParseArgsSpec keeps true of the capture-all while it walks the
      fields: it is a list `*` field already passed, and no `*` field follows it. */
  predicate CaptureOk(fields: seq<Field>, ix: Index, i: nat) {
    && ix.captureAll < i <= |fields|
    && (ix.captureAll >= 0 ==>
          && fields[ix.captureAll].argTag == "*" && fields[ix.captureAll].kind == List
          && forall k :: ix.captureAll < k < i ==> fields[k].argTag != "*")
  }

  /** One pass keeps CaptureOk. */
  lemma CaptureOkStep(co: Coercion, fields: seq<Field>, i: nat, ix: Index, vals: seq<Value>)
    requires i < |fields| && |vals| == |fields| && CaptureOk(fields, ix, i)
    ensures var b1 := BuildField(co, fields, i, ix, vals);
            && (b1.status.Continue? ==> CaptureOk(fields, b1.ix, i + 1))
            && (b1.status.Continue? && fields[i].argTag == "*" && fields[i].kind == List ==> b1.ix.captureAll == i)
            && (b1.status.Continue? && ix.captureAll >= 0 ==> b1.ix.captureAll == ix.captureAll)
            && (b1.status.Fail? && b1.status.err.CaptureAllFollowed? ==>
                  var c, k := b1.status.err.captureAll, b1.status.err.field;
                  c < k < |fields| && fields[c].argTag == "*" && fields[c].kind == List && fields[k].argTag == "*")
  {
    var b1 := BuildField(co, fields, i, ix, vals);
    var fd := fields[i];
    if fd.argTag == "*" {
      BuildFieldStar(co, fields, i, ix, vals);
    } else if fd.argTag != "" {
      BuildFieldSwitch(co, fields, i, ix, vals);
    } else {
      assert b1 == Built(Continue, ix, vals);
    }
  }

  lemma {:induction false} BuildCaptureAllFrom(co: Coercion, fields: seq<Field>, i: nat, ix: Index, vals: seq<Value>)
    requires |vals| == |fields| && CaptureOk(fields, ix, i)
    ensures var b := BuildFrom(co, fields, i, ix, vals);
            && (b.status.Continue? ==> CaptureOk(fields, b.ix, |fields|))
            && (b.status.Continue? ==> forall j :: i <= j < |fields| && fields[j].argTag == "*" && fields[j].kind == List ==> b.ix.captureAll == j)
            && (b.status.Continue? && ix.captureAll >= 0 ==> b.ix.captureAll == ix.captureAll)
    decreases |fields| - i
  {
    if i < |fields| {
      var b1 := BuildStep(co, fields, i, ix, vals);
      CaptureOkStep(co, fields, i, ix, vals);
      if b1.status.Continue? {
        BuildCaptureAllFrom(co, fields, i + 1, b1.ix, b1.vals);
      }
    }
  }

  lemma {:induction false} BuildConflictFrom(co: Coercion, fields: seq<Field>, i: nat, ix: Index, vals: seq<Value>)
    requires |vals| == |fields| && CaptureOk(fields, ix, i)
    ensures var b := BuildFrom(co, fields, i, ix, vals);
            b.status.Fail? && b.status.err.CaptureAllFollowed? ==>
              var c, k := b.status.err.captureAll, b.status.err.field;
              c < k < |fields| && fields[c].argTag == "*" && fields[c].kind == List && fields[k].argTag == "*"
    decreases |fields| - i
  {
    if i < |fields| {
      var b1 := BuildStep(co, fields, i, ix, vals);
      CaptureOkStep(co, fields, i, ix, vals);
      if b1.status.Continue? {
        BuildConflictFrom(co, fields, i + 1, b1.ix, b1.vals);
      }
    }
  }

  /** The capture-all: it is a list `*` field, no `*` field follows it, and
      every list `*` field is it. Declaring a `*` field after it fails the
      build, naming both. */
  lemma BuildCaptureAll(co: Coercion, fields: seq<Field>, vals: seq<Value>)
    requires |vals| == |fields|
    ensures var b := Build(co, fields, vals);
            && (b.status.Continue? && b.ix.captureAll >= 0 ==>
                  && b.ix.captureAll < |fields|
                  && fields[b.ix.captureAll].argTag == "*" && fields[b.ix.captureAll].kind == List
                  && forall k :: b.ix.captureAll < k < |fields| ==> fields[k].argTag != "*")
            && (b.status.Continue? ==> forall j :: 0 <= j < |fields| && fields[j].argTag == "*" && fields[j].kind == List ==> b.ix.captureAll == j)
            && (b.status.Fail? && b.status.err.CaptureAllFollowed? ==>
                  var c, k := b.status.err.captureAll, b.status.err.field;
                  c < k < |fields| && fields[c].argTag == "*" && fields[c].kind == List && fields[k].argTag == "*")
  {
    BuildCaptureAllFrom(co, fields, 0, EmptyIndex, vals);
    BuildConflictFrom(co, fields, 0, EmptyIndex, vals);
  }

  lemma {:induction false} BuildMissingFrom(co: Coercion, fields: seq<Field>, i: nat, ix: Index, vals: seq<Value>)
    requires i <= |fields| && |vals| == |fields|
    requires forall j :: j in ix.missing ==> j < i
    ensures var b := BuildFrom(co, fields, i, ix, vals);
            b.status.Continue? ==> b.ix.missing == ix.missing + RequiredFrom(fields, i)
    decreases |fields| - i
  {
    if i < |fields| {
      var b1 := BuildStep(co, fields, i, ix, vals);
      MissingStep(co, fields, i, ix, vals);
      if b1.status.Continue? {
        var here: set<nat> := if Required(fields[i]) then {i} else {};
        assert b1.ix.missing == ix.missing + here;
        assert forall j :: j in b1.ix.missing ==> j < i + 1;
        BuildMissingFrom(co, fields, i + 1, b1.ix, b1.vals);
        assert RequiredFrom(fields, i) == here + RequiredFrom(fields, i + 1);
      }
    }
  }

  /** The missing set after the build is exactly the required switches. */
  lemma BuildMissing(co: Coercion, fields: seq<Field>, vals: seq<Value>)
    requires |vals| == |fields|
    ensures var b := Build(co, fields, vals);
            b.status.Continue? ==> forall j :: j in b.ix.missing <==> 0 <= j < |fields| && Required(fields[j])
  {
    BuildMissingFrom(co, fields, 0, EmptyIndex, vals);
    RequiredFromSpec(fields, 0);
  }


  /** The last field before `n` that declares alias `a`, if any. */
  function LastDeclarer(fields: seq<Field>, a: string, n: nat): (r: Option<nat>)
    requires n <= |fields|
    ensures r.Some? ==> r.value < n
  {
    if n == 0 then None
    else if Declares(fields[n - 1], a) then Some(n - 1)
    else LastDeclarer(fields, a, n - 1)
  }

  /** LastDeclarer is the last declaring field: it declares `a`, no later one
      does, and when there is none, no field does. */
  lemma {:induction false} LastDeclarerSpec(fields: seq<Field>, a: string, n: nat)
    requires n <= |fields|
    ensures var r := LastDeclarer(fields, a, n);
            && (r.Some? ==> Declares(fields[r.value], a) && forall k :: r.value < k < n ==> !Declares(fields[k], a))
            && (r.None? ==> forall k :: 0 <= k < n ==> !Declares(fields[k], a))
    decreases n
  {
    if n > 0 && !Declares(fields[n - 1], a) {
      LastDeclarerSpec(fields, a, n - 1);
    }
  }

  /** The switch table entry for alias `a` is the one the last field before
      `n` that declares `a` left: that field, taking a value unless it is a
      bool; with no such field, `a` is not a switch. */
  predicate TableMatches(fields: seq<Field>, ix: Index, a: string, n: nat)
    requires n <= |fields|
  {
    match LastDeclarer(fields, a, n)
    case None => a !in TableFor(ix, a)
    case Some(j) => a in TableFor(ix, a) && TableFor(ix, a)[a] == ArgInfo(j, fields[j].kind != Bool)
  }

  /** Registering aliases sets the entry of each alias given, and leaves every
      other alias's entry as it was. */
  lemma {:induction false} AddAliasesLookup(ix: Index, f: nat, isBool: bool, aliases: seq<string>, a: string)
    ensures var r := AddAliases(ix, f, isBool, aliases);
            && (a in aliases ==> a in TableFor(r, a) && TableFor(r, a)[a] == ArgInfo(f, !isBool))
            && (a !in aliases ==> (a in TableFor(r, a) <==> a in TableFor(ix, a)))
            && (a !in aliases && a in TableFor(ix, a) ==> TableFor(r, a)[a] == TableFor(ix, a)[a])
    decreases |aliases|
  {
    if aliases != [] {
      var ix1 := AddAlias(ix, f, isBool, aliases[0]);
      AddAliasesLookup(ix1, f, isBool, aliases[1..], a);
      assert a in aliases <==> a == aliases[0] || a in aliases[1..];
    }
  }

  /** One pass keeps the entry of alias `a` equal to what its last declarer left. */
  lemma AliasStep(co: Coercion, fields: seq<Field>, i: nat, ix: Index, vals: seq<Value>, a: string)
    requires i < |fields| && |vals| == |fields| && TableMatches(fields, ix, a, i)
    ensures var b1 := BuildField(co, fields, i, ix, vals);
            b1.status.Continue? ==> TableMatches(fields, b1.ix, a, i + 1)
  {
    var tag := fields[i].argTag;
    if IsSwitchTag(tag) {
      var (aliasText, dflt) := SplitOnce(tag, '=');
      var aliases := Split(aliasText, ',');
      assert aliases == AliasesOf(tag);
      var isBool := fields[i].kind == Bool;
      match dflt
      case Some(d) =>
        var e := SetField(co, fields, ix.missing, vals, i, d);
        AddAliasesLookup(ix.(defaults := ix.defaults[i := d], missing := e.missing), i, isBool, aliases, a);
      case None =>
        AddAliasesLookup(ix.(missing := ix.missing + {i}), i, isBool, aliases, a);
    }
  }

  lemma {:induction false} BuildAliasFrom(co: Coercion, fields: seq<Field>, i: nat, ix: Index, vals: seq<Value>, a: string)
    requires i <= |fields| && |vals| == |fields| && TableMatches(fields, ix, a, i)
    ensures var b := BuildFrom(co, fields, i, ix, vals);
            b.status.Continue? ==> TableMatches(fields, b.ix, a, |fields|)
    decreases |fields| - i
  {
    if i < |fields| {
      var b1 := BuildStep(co, fields, i, ix, vals);
      AliasStep(co, fields, i, ix, vals, a);
      if b1.status.Continue? {
        BuildAliasFrom(co, fields, i + 1, b1.ix, b1.vals, a);
      }
    }
  }

  /** The switch tables after the build: an alias of one character is a
      short switch, any other a long one; its entry names the last field that
      declares it, and takes a value unless that field is a bool; an alias
      that no field declares is not a switch. */
  lemma BuildAliases(co: Coercion, fields: seq<Field>, vals: seq<Value>, a: string)
    requires |vals| == |fields|
    ensures var b := Build(co, fields, vals);
            var last := LastDeclarer(fields, a, |fields|);
            && (b.status.Continue? && last.None? && |a| == 1 ==> a !in b.ix.short)
            && (b.status.Continue? && last.None? && |a| != 1 ==> a !in b.ix.long)
            && (b.status.Continue? && last.Some? && |a| == 1 ==> a in b.ix.short && b.ix.short[a] == ArgInfo(last.value, fields[last.value].kind != Bool))
            && (b.status.Continue? && last.Some? && |a| != 1 ==> a in b.ix.long && b.ix.long[a] == ArgInfo(last.value, fields[last.value].kind != Bool))
  {
    BuildAliasFrom(co, fields, 0, EmptyIndex, vals, a);
  }

  /** What the build makes of field `j` whose value is `v`: a field with a
      default takes the default as setSwitch reads it; any other field keeps
      its value. */
  function Defaulted(co: Coercion, fields: seq<Field>, j: nat, v: Value): (r: Result<Value, Error>)
    requires j < |fields|
  {
    if HasDefault(fields[j]) then co(j, fields[j].kind, v, DefaultOf(fields[j].argTag).value) else Ok(v)
  }

  /** One pass and the defaults: only field `i` changes, to its defaulted
      value; the defaults map records its default; a default that does not
      parse fails the build and names the field, the default and the cause. */
  lemma DefaultStep(co: Coercion, fields: seq<Field>, i: nat, ix: Index, vals: seq<Value>)
    requires i < |fields| && |vals| == |fields|
    ensures var b1 := BuildField(co, fields, i, ix, vals);
            var r := Defaulted(co, fields, i, vals[i]);
            && (b1.status.Continue? ==> r.Ok? && b1.vals == vals[i := r.value])
            && (b1.status.Fail? && b1.status.err.BadDefault? ==>
                  HasDefault(fields[i]) && r.Err? &&
                  b1.status.err == BadDefault(i, DefaultOf(fields[i].argTag).value, r.error))
  {
    var tag := fields[i].argTag;
    if IsSwitchTag(tag) {
      var (aliasText, dflt) := SplitOnce(tag, '=');
      assert dflt == DefaultOf(tag);
    } else {
      assert vals[i := vals[i]] == vals;
    }
  }

  /** One pass and the defaults map: it records the default of field `i`, if any. */
  lemma DefaultsMapStep(co: Coercion, fields: seq<Field>, i: nat, ix: Index, vals: seq<Value>)
    requires i < |fields| && |vals| == |fields|
    ensures var b1 := BuildField(co, fields, i, ix, vals);
            && (b1.status.Continue? && HasDefault(fields[i]) ==> b1.ix.defaults == ix.defaults[i := DefaultOf(fields[i].argTag).value])
            && (b1.status.Continue? && !HasDefault(fields[i]) ==> b1.ix.defaults == ix.defaults)
  {
    var tag := fields[i].argTag;
    if IsSwitchTag(tag) {
      var (aliasText, dflt) := SplitOnce(tag, '=');
      assert dflt == DefaultOf(tag);
    }
  }

  lemma {:induction false} BuildDefaultKeysFrom(co: Coercion, fields: seq<Field>, i: nat, ix: Index, vals: seq<Value>, j: nat)
    requires i <= |fields| && |vals| == |fields|
    requires j in ix.defaults ==> j < i
    ensures var b := BuildFrom(co, fields, i, ix, vals);
            && (b.status.Continue? && (j < i || j >= |fields|) ==> (j in b.ix.defaults <==> j in ix.defaults))
            && (b.status.Continue? && i <= j < |fields| ==> (j in b.ix.defaults <==> HasDefault(fields[j])))
    decreases |fields| - i
  {
    if i < |fields| {
      var b1 := BuildStep(co, fields, i, ix, vals);
      DefaultsMapStep(co, fields, i, ix, vals);
      if b1.status.Continue? {
        BuildDefaultKeysFrom(co, fields, i + 1, b1.ix, b1.vals, j);
      }
    }
  }

  lemma {:induction false} BuildDefaultTextFrom(co: Coercion, fields: seq<Field>, i: nat, ix: Index, vals: seq<Value>, j: nat)
    requires i <= |fields| && |vals| == |fields| && j < |fields|
    ensures var b := BuildFrom(co, fields, i, ix, vals);
            && (b.status.Continue? && j < i && j in ix.defaults ==> j in b.ix.defaults && b.ix.defaults[j] == ix.defaults[j])
            && (b.status.Continue? && i <= j && HasDefault(fields[j]) ==>
                  j in b.ix.defaults && b.ix.defaults[j] == DefaultOf(fields[j].argTag).value)
    decreases |fields| - i
  {
    if i < |fields| {
      var b1 := BuildStep(co, fields, i, ix, vals);
      DefaultsMapStep(co, fields, i, ix, vals);
      if b1.status.Continue? {
        BuildDefaultTextFrom(co, fields, i + 1, b1.ix, b1.vals, j);
      }
    }
  }

  /** The defaults map holds exactly the fields with a default, each with its default text. */
  lemma BuildDefaults(co: Coercion, fields: seq<Field>, vals: seq<Value>)
    requires |vals| == |fields|
    ensures var b := Build(co, fields, vals);
            b.status.Continue? ==>
              && (forall j :: j in b.ix.defaults <==> 0 <= j < |fields| && HasDefault(fields[j]))
              && (forall j :: j in b.ix.defaults ==> b.ix.defaults[j] == DefaultOf(fields[j].argTag).value)
  {
    forall j: nat {
      BuildDefaultKeysFrom(co, fields, 0, EmptyIndex, vals, j);
    }
    forall j | 0 <= j < |fields| {
      BuildDefaultTextFrom(co, fields, 0, EmptyIndex, vals, j);
    }
  }

  lemma {:induction false} BuildValuesFrom(co: Coercion, fields: seq<Field>, i: nat, ix: Index, vals: seq<Value>, j: nat)
    requires i <= |fields| && |vals| == |fields| && j < |fields|
    ensures var b := BuildFrom(co, fields, i, ix, vals);
            && (b.status.Continue? && j < i ==> b.vals[j] == vals[j])
            && (b.status.Continue? && i <= j ==> Defaulted(co, fields, j, vals[j]) == Ok(b.vals[j]))
    decreases |fields| - i
  {
    if i < |fields| {
      var b1 := BuildStep(co, fields, i, ix, vals);
      DefaultStep(co, fields, i, ix, vals);
      if b1.status.Continue? {
        BuildValuesFrom(co, fields, i + 1, b1.ix, b1.vals, j);
      }
    }
  }

  lemma {:induction false} BuildBadDefaultFrom(co: Coercion, fields: seq<Field>, i: nat, ix: Index, vals: seq<Value>)
    requires i <= |fields| && |vals| == |fields|
    ensures var b := BuildFrom(co, fields, i, ix, vals);
            b.status.Fail? && b.status.err.BadDefault? ==>
              var j := b.status.err.field;
              && i <= j < |fields| && HasDefault(fields[j])
              && b.status.err.default == DefaultOf(fields[j].argTag).value
              && Defaulted(co, fields, j, vals[j]) == Err(b.status.err.cause)
    decreases |fields| - i
  {
    if i < |fields| {
      var b1 := BuildStep(co, fields, i, ix, vals);
      DefaultStep(co, fields, i, ix, vals);
      if b1.status.Continue? {
        BuildBadDefaultFrom(co, fields, i + 1, b1.ix, b1.vals);
        var b := BuildFrom(co, fields, i + 1, b1.ix, b1.vals);
        if b.status.Fail? && b.status.err.BadDefault? {
          var j := b.status.err.field;
          assert b1.vals[j] == vals[j];
        }
      }
    }
  }

  /** The record after the build: each field with a default holds what
      setSwitch makes of the default, read against the field's initial
      value; every other field is untouched. A default that does not parse
      fails the build, naming the field, the default and why. */
  lemma BuildValues(co: Coercion, fields: seq<Field>, vals: seq<Value>)
    requires |vals| == |fields|
    ensures var b := Build(co, fields, vals);
            && (b.status.Continue? ==> forall j :: 0 <= j < |fields| ==>
                  && (HasDefault(fields[j]) ==>
                        co(j, fields[j].kind, vals[j], DefaultOf(fields[j].argTag).value) == Ok(b.vals[j]))
                  && (!HasDefault(fields[j]) ==> b.vals[j] == vals[j]))
            && (b.status.Fail? && b.status.err.BadDefault? ==>
                  var j := b.status.err.field;
                  && j < |fields| && HasDefault(fields[j])
                  && b.status.err.default == DefaultOf(fields[j].argTag).value
                  && co(j, fields[j].kind, vals[j], b.status.err.default) == Err(b.status.err.cause))
  {
    forall j | 0 <= j < |fields| {
      BuildValuesFrom(co, fields, 0, EmptyIndex, vals, j);
    }
    BuildBadDefaultFrom(co, fields, 0, EmptyIndex, vals);
  }

  // --------------------------------------------------------- LoadArgsSpecFrom

  /** A token that does not start with a dash: a leftover for the positionals. */
  predicate Plain(t: string) {
    !("-" <= t)
  }

  /** Leftover tokens are collected in the order they come, and after a `--`
      every token is collected as it is, dashes and all, and no switch is
      looked at again. */
  lemma {:induction false} ScanLeftovers(co: Coercion, fields: seq<Field>, ix: Index, args: seq<string>, i: nat, n: nat,
                                         missing: set<nat>, vals: seq<Value>, pos: seq<string>)
    requires |vals| == |fields| && IndexFor(ix, fields)
    requires i <= n <= |args| && forall k :: i <= k < n ==> Plain(args[k])
    ensures n == |args| ==> ScanFrom(co, fields, ix, args, i, missing, vals, pos) == Scanned(Continue, missing, vals, pos + args[i..])
    ensures n < |args| && args[n] == "--" ==>
              ScanFrom(co, fields, ix, args, i, missing, vals, pos) == Scanned(Continue, missing, vals, pos + args[i..n] + args[n + 1..])
    decreases n - i
  {
    if i < n {
      assert Classify(ix, args, i) == Leftover(args[i]);
      ScanLeftovers(co, fields, ix, args, i + 1, n, missing, vals, pos + [args[i]]);
      assert args[i..] == [args[i]] + args[i + 1..];
      assert args[i..n] == [args[i]] + args[i + 1..n];
      assert pos + [args[i]] + args[i + 1..] == pos + args[i..];
      assert pos + [args[i]] + args[i + 1..n] == pos + args[i..n];
    } else {
      assert args[i..n] == [];
    }
  }

  /** The tokens from `i` on that the scan hands to the positionals, read off
      the kind of each token alone: plain tokens in the order they come,
      every token after a `--` as it is, nothing from a switch or from the
      value it consumes; nothing after an error or the help switch. */
  function Leftovers(ix: Index, args: seq<string>, i: nat): seq<string>
    decreases |args| - i
  {
    if i >= |args| then []
    else
      match Classify(ix, args, i)
      case Sentinel => args[i + 1..]
      case Leftover(a) => [a] + Leftovers(ix, args, i + 1)
      case Reject(_) => []
      case Assign(f, _, next) => if f < 0 then [] else Leftovers(ix, args, next)
  }

  /** The fields the switches from `i` on name, up to an error or the help switch. */
  function Assigned(ix: Index, args: seq<string>, i: nat): set<nat>
    decreases |args| - i
  {
    if i >= |args| then {}
    else
      match Classify(ix, args, i)
      case Assign(f, _, next) => if f < 0 then {} else {f as nat} + Assigned(ix, args, next)
      case Leftover(_) => Assigned(ix, args, i + 1)
      case _ => {}
  }

  /** A scan that runs to the end has collected exactly the leftover tokens,
      in order, behind the ones it started with, whatever the switches
      between them. */
  lemma {:induction false} ScanCollects(co: Coercion, fields: seq<Field>, ix: Index, args: seq<string>, i: nat,
                                        missing: set<nat>, vals: seq<Value>, pos: seq<string>)
    requires |vals| == |fields| && IndexFor(ix, fields)
    ensures var s := ScanFrom(co, fields, ix, args, i, missing, vals, pos);
            s.status.Continue? ==> s.pos == pos + Leftovers(ix, args, i)
    decreases |args| - i
  {
    if i < |args| {
      match Classify(ix, args, i)
      case Sentinel =>
      case Leftover(a) =>
        ScanCollects(co, fields, ix, args, i + 1, missing, vals, pos + [a]);
        assert pos + [a] + Leftovers(ix, args, i + 1) == pos + ([a] + Leftovers(ix, args, i + 1));
      case Reject(err) =>
      case Assign(f, text, next) =>
        var e := SetField(co, fields, missing, vals, f, text);
        if e.status.Continue? {
          ScanCollects(co, fields, ix, args, next, e.missing, e.vals, pos);
        }
    }
  }

  /** The scan takes out of the missing set only fields a switch names, and
      each of them: a scan that runs to the end leaves exactly the fields
      that were missing and that no switch named. */
  lemma {:induction false} ScanMissingExact(co: Coercion, fields: seq<Field>, ix: Index, args: seq<string>, i: nat,
                                            missing: set<nat>, vals: seq<Value>, pos: seq<string>)
    requires |vals| == |fields| && IndexFor(ix, fields)
    ensures var s := ScanFrom(co, fields, ix, args, i, missing, vals, pos);
            && missing - Assigned(ix, args, i) <= s.missing <= missing
            && (s.status.Continue? ==> s.missing == missing - Assigned(ix, args, i))
    decreases |args| - i
  {
    if i < |args| {
      match Classify(ix, args, i)
      case Sentinel =>
      case Leftover(a) =>
        ScanMissingExact(co, fields, ix, args, i + 1, missing, vals, pos + [a]);
      case Reject(err) =>
      case Assign(f, text, next) =>
        var e := SetField(co, fields, missing, vals, f, text);
        if e.status.Continue? {
          ScanMissingExact(co, fields, ix, args, next, e.missing, e.vals, pos);
        }
    }
  }

  /** A field no switch names keeps its value through the scan, however it ends. */
  lemma {:induction false} ScanFrame(co: Coercion, fields: seq<Field>, ix: Index, args: seq<string>, i: nat,
                                     missing: set<nat>, vals: seq<Value>, pos: seq<string>, j: nat)
    requires |vals| == |fields| && IndexFor(ix, fields) && j < |fields| && j !in Assigned(ix, args, i)
    ensures ScanFrom(co, fields, ix, args, i, missing, vals, pos).vals[j] == vals[j]
    decreases |args| - i
  {
    if i < |args| {
      match Classify(ix, args, i)
      case Sentinel =>
      case Leftover(a) =>
        ScanFrame(co, fields, ix, args, i + 1, missing, vals, pos + [a], j);
      case Reject(err) =>
      case Assign(f, text, next) =>
        var e := SetField(co, fields, missing, vals, f, text);
        if e.status.Continue? {
          ScanFrame(co, fields, ix, args, next, e.missing, e.vals, pos, j);
        }
    }
  }

  /** A long switch `--name=value`, `name` holding no `=`: unknown unless
      `name` is a long switch; then the value is taken verbatim, everything
      after the first `=`, if the switch takes one, and is an error if not. */
  lemma ClassifyLongAttached(ix: Index, args: seq<string>, i: nat, name: string, v: string)
    requires i < |args| && args[i] == "--" + name + "=" + v && '=' !in name
    ensures var a := args[i];
            && (name !in ix.long ==> Classify(ix, args, i) == Reject(UnknownSwitch(a)))
            && (name in ix.long && ix.long[name].needsVal ==> Classify(ix, args, i) == Assign(ix.long[name].fieldIdx, v, i + 1))
            && (name in ix.long && !ix.long[name].needsVal ==> Classify(ix, args, i) == Reject(UnexpectedValue(a)))
  {
    var a := args[i];
    assert a == "--" + (name + "=" + v);
    assert a[..2] == "--" && a[2..] == name + "=" + v;
    assert a != "--";
    assert SplitOnce(a[2..], '=') == (name, Some(v)) by {
      var t := name + "=" + v;
      IndexOfAfter(name, '=', v);
      assert t[..|name|] == name && t[|name| + 1..] == v;
    }
  }

  /** A long switch `--name` with no `=`: a switch that takes no value is set
      with the empty text; one that takes a value consumes the next token,
      whatever it looks like, and fails when there is none. */
  lemma ClassifyLongBare(ix: Index, args: seq<string>, i: nat, name: string)
    requires i < |args| && args[i] == "--" + name && name != "" && '=' !in name
    ensures var a := args[i];
            && (name !in ix.long ==> Classify(ix, args, i) == Reject(UnknownSwitch(a)))
            && (name in ix.long && !ix.long[name].needsVal ==> Classify(ix, args, i) == Assign(ix.long[name].fieldIdx, "", i + 1))
            && (name in ix.long && ix.long[name].needsVal && i + 1 < |args| ==>
                  Classify(ix, args, i) == Assign(ix.long[name].fieldIdx, args[i + 1], i + 2))
            && (name in ix.long && ix.long[name].needsVal && i + 1 == |args| ==> Classify(ix, args, i) == Reject(ValueExpected(a)))
  {
    var a := args[i];
    assert a[..2] == "--" && a[2..] == name;
    assert a != "--" by {
      assert |a| > 2;
    }
  }

  /** A short switch `-c` followed by `rest`, `c` not a dash: only the
      character `c` is looked up; a switch that takes a value takes `rest`,
      or the next token when `rest` is empty, and fails when there is none;
      one that takes no value is an error when `rest` is not empty. */
  lemma ClassifyShort(ix: Index, args: seq<string>, i: nat, c: char, rest: string)
    requires i < |args| && args[i] == ['-', c] + rest && c != '-'
    ensures [c] !in ix.short ==> Classify(ix, args, i) == Reject(UnknownSwitch(args[i]))
    ensures [c] in ix.short ==>
              var info := ix.short[[c]];
              && (info.needsVal && rest != [] ==> Classify(ix, args, i) == Assign(info.fieldIdx, rest, i + 1))
              && (info.needsVal && rest == [] && i + 1 < |args| ==>
                    Classify(ix, args, i) == Assign(info.fieldIdx, args[i + 1], i + 2))
              && (info.needsVal && rest == [] && i + 1 == |args| ==> Classify(ix, args, i) == Reject(ValueExpected(args[i])))
              && (!info.needsVal && rest != [] ==> Classify(ix, args, i) == Reject(UnexpectedValue(args[i])))
              && (!info.needsVal && rest == [] ==> Classify(ix, args, i) == Assign(info.fieldIdx, "", i + 1))
  {
    var a := args[i];
    assert a[1..2] == [c] && a[2..] == rest;
    assert !("--" <= a) by {
      assert a[1] == c;
    }
    assert "-" <= a;
  }

  /** A lone dash is an invalid switch. */
  lemma ClassifyDash(ix: Index, args: seq<string>, i: nat)
    requires i < |args| && args[i] == "-"
    ensures Classify(ix, args, i) == Reject(InvalidSwitch("-"))
  {
  }

  /** `-h` asks for the help text when no field declares `h`, wherever it
      comes before any error, wherever the "help" entry is filed. */
  lemma ScanHelp(co: Coercion, fields: seq<Field>, ix: Index, slot: HelpSlot, args: seq<string>, i: nat,
                 missing: set<nat>, vals: seq<Value>, pos: seq<string>)
    requires |vals| == |fields| && IndexFor(ix, fields) && "h" !in ix.short
    requires i < |args| && args[i] == "-h"
    ensures IndexFor(HelpSwitches(ix, slot), fields)
    ensures ScanFrom(co, fields, HelpSwitches(ix, slot), args, i, missing, vals, pos).status == Help
  {
    WithHelpIndexFor(ix, fields, slot);
    var hx := HelpSwitches(ix, slot);
    ClassifyShort(hx, args, i, 'h', []);
    assert args[i] == ['-', 'h'] + [];
  }

  /** Corrected, `--help` asks for the help text when no field declares `help`. */
  lemma ScanLongHelp(co: Coercion, fields: seq<Field>, ix: Index, args: seq<string>, i: nat,
                     missing: set<nat>, vals: seq<Value>, pos: seq<string>)
    requires |vals| == |fields| && IndexFor(ix, fields) && "help" !in ix.long
    requires i < |args| && args[i] == "--help"
    ensures IndexFor(HelpSwitches(ix, Corrected), fields)
    ensures ScanFrom(co, fields, HelpSwitches(ix, Corrected), args, i, missing, vals, pos) == Scanned(Help, missing, vals, pos)
  {
    WithHelpIndexFor(ix, fields, Corrected);
    var hx := HelpSwitches(ix, Corrected);
    ClassifyLongBare(hx, args, i, "help");
  }

  /** As written, `--help` is an unknown switch when no field declares
      `help`: the entry meant for it is among the short switches, and the
      scan looks long switches up only among the long ones. */
  lemma LongHelpAsWritten(co: Coercion, fields: seq<Field>, ix: Index, args: seq<string>, i: nat,
                          missing: set<nat>, vals: seq<Value>, pos: seq<string>)
    requires |vals| == |fields| && IndexFor(ix, fields) && "help" !in ix.long
    requires i < |args| && args[i] == "--help"
    ensures IndexFor(HelpSwitches(ix, AsWritten), fields)
    ensures ScanFrom(co, fields, HelpSwitches(ix, AsWritten), args, i, missing, vals, pos) == Scanned(Fail(UnknownSwitch("--help")), missing, vals, pos)
  {
    WithHelpIndexFor(ix, fields, AsWritten);
    var hx := HelpSwitches(ix, AsWritten);
    assert "help" in hx.short && "help" !in hx.long;
    ClassifyLongBare(hx, args, i, "help");
  }

  /** The whole parse of a record in which no field declares `help`, with
      `--help` first on the command line: as written it fails with an
      unknown switch, corrected it asks for the help text; either way the
      record is left as the build left it. */
  lemma LoadLongHelp(co: Coercion, fields: seq<Field>, vals: seq<Value>, args: seq<string>)
    requires |vals| == |fields| && |args| > 1 && args[1] == "--help"
    requires forall j :: 0 <= j < |fields| ==> !Declares(fields[j], "help")
    requires Build(co, fields, vals).status.Continue?
    ensures Load(co, AsWritten, fields, vals, args) == Finished(Failure(UnknownSwitch("--help")), Build(co, fields, vals).vals)
    ensures Load(co, Corrected, fields, vals, args) == Finished(HelpRequested, Build(co, fields, vals).vals)
  {
    var b := Build(co, fields, vals);
    BuildFromIndexFor(co, fields, 0, EmptyIndex, vals);
    LastDeclarerSpec(fields, "help", |fields|);
    BuildAliases(co, fields, vals, "help");
    LongHelpAsWritten(co, fields, b.ix, args, 1, b.ix.missing, b.vals, []);
    ScanLongHelp(co, fields, b.ix, args, 1, b.ix.missing, b.vals, []);
  }

  /** Positional fields in declaration order. */
  predicate Increasing(p: seq<nat>) {
    forall m, n :: 0 <= m < n < |p| ==> p[m] < p[n]
  }

  /** The capture-all, when there is one, is the last positional field. */
  predicate CaptureLast(ix: Index) {
    ix.captureAll >= 0 ==> |ix.positional| > 0 && ix.positional[|ix.positional| - 1] == ix.captureAll
  }

  /** ParseArgsSpec lists the positionals in order and puts the capture-all last. */
  lemma BuildBindShape(co: Coercion, fields: seq<Field>, vals: seq<Value>)
    requires |vals| == |fields|
    ensures var b := Build(co, fields, vals);
            b.status.Continue? ==> Increasing(b.ix.positional) && CaptureLast(b.ix)
  {
    var b := Build(co, fields, vals);
    BuildPositional(co, fields, vals);
    BuildCaptureAll(co, fields, vals);
    if b.status.Continue? && b.ix.captureAll >= 0 {
      var c := b.ix.captureAll;
      var p := b.ix.positional;
      assert c in p;
      var m :| 0 <= m < |p| && p[m] == c;
      var last := p[|p| - 1];
      assert last in p;
      assert fields[last].argTag == "*";
    }
  }

  /** Every positional coercion that the leftover tokens reach succeeds. */
  predicate BindsOk(co: Coercion, fields: seq<Field>, ix: Index, k: nat, vals: seq<Value>, pos: seq<string>)
    requires |vals| == |fields| && IndexFor(ix, fields)
  {
    forall n :: k <= n < |ix.positional| && n - k < |pos| && ix.positional[n] != ix.captureAll ==>
      co(ix.positional[n], fields[ix.positional[n]].kind, vals[ix.positional[n]], pos[n - k]).Ok?
  }

  /** How the positional loop from the `k`-th positional on ends, given as
      `r`: it succeeds exactly when every coercion succeeds and the leftovers
      match the positionals in number (at least as many when a capture-all
      takes the rest); too few names the first positional left without a
      token, too many hands back the surplus. */
  predicate BindEnds(co: Coercion, fields: seq<Field>, ix: Index, k: nat, vals: seq<Value>, pos: seq<string>, r: Finished)
    requires |vals| == |fields| && IndexFor(ix, fields) && k <= |ix.positional|
  {
    var left := |ix.positional| - k;
    var capture := ix.captureAll >= 0 && k < |ix.positional|;
    && !r.outcome.HelpRequested?
    && (r.outcome.Success? <==> BindsOk(co, fields, ix, k, vals, pos) && (if capture then |pos| >= left else |pos| == left))
    && (BindsOk(co, fields, ix, k, vals, pos) && |pos| < left ==>
          r.outcome == Failure(MissingPositional(ix.positional[k + |pos|])))
    && (BindsOk(co, fields, ix, k, vals, pos) && !capture && |pos| > left ==>
          r.outcome == Failure(Unconsumed(pos[left..])))
  }

  lemma {:induction false} BindOutcomeFrom(co: Coercion, fields: seq<Field>, ix: Index, k: nat,
                                           missing: set<nat>, vals: seq<Value>, pos: seq<string>)
    requires |vals| == |fields| && IndexFor(ix, fields) && k <= |ix.positional|
    requires Increasing(ix.positional) && CaptureLast(ix)
    ensures BindEnds(co, fields, ix, k, vals, pos, BindFrom(co, fields, ix, k, missing, vals, pos))
    decreases |ix.positional| - k
  {
    var P := ix.positional;
    if k == |P| || pos == [] {
      BindOutcomeBase(co, fields, ix, k, missing, vals, pos);
    } else if P[k] == ix.captureAll {
      BindOutcomeCapture(co, fields, ix, k, missing, vals, pos);
    } else {
      var e := SetField(co, fields, missing, vals, P[k], pos[0]);
      if e.status.Continue? {
        BindOutcomeFrom(co, fields, ix, k + 1, e.missing, e.vals, pos[1..]);
      }
      BindOutcomeStep(co, fields, ix, k, missing, vals, pos);
    }
  }

  /** The step of BindOutcomeFrom: a positional field that is not the
      capture-all takes the first leftover token. */
  lemma BindOutcomeStep(co: Coercion, fields: seq<Field>, ix: Index, k: nat, missing: set<nat>, vals: seq<Value>, pos: seq<string>)
    requires |vals| == |fields| && IndexFor(ix, fields) && k < |ix.positional| && pos != []
    requires Increasing(ix.positional) && CaptureLast(ix) && ix.positional[k] != ix.captureAll
    requires var e := SetField(co, fields, missing, vals, ix.positional[k], pos[0]);
             e.status.Continue? ==> BindEnds(co, fields, ix, k + 1, e.vals, pos[1..], BindFrom(co, fields, ix, k + 1, e.missing, e.vals, pos[1..]))
    ensures BindEnds(co, fields, ix, k, vals, pos, BindFrom(co, fields, ix, k, missing, vals, pos))
  {
    var P := ix.positional;
    BindStep(co, fields, ix, k, missing, vals, pos);
    var e := SetField(co, fields, missing, vals, P[k], pos[0]);
    BindsOkStep(co, fields, ix, k, vals, pos, e.vals);
    if e.status.Continue? && |pos| > |P| - k {
      assert pos[1..][|P| - (k + 1)..] == pos[|P| - k..];
    }
  }

  lemma BindOutcomeBase(co: Coercion, fields: seq<Field>, ix: Index, k: nat, missing: set<nat>, vals: seq<Value>, pos: seq<string>)
    requires |vals| == |fields| && IndexFor(ix, fields) && k <= |ix.positional|
    requires k == |ix.positional| || pos == []
    ensures BindEnds(co, fields, ix, k, vals, pos, BindFrom(co, fields, ix, k, missing, vals, pos))
  {
    assert BindsOk(co, fields, ix, k, vals, pos);
    assert pos == [] ==> pos[0..] == pos;
  }

  lemma BindOutcomeCapture(co: Coercion, fields: seq<Field>, ix: Index, k: nat, missing: set<nat>, vals: seq<Value>, pos: seq<string>)
    requires |vals| == |fields| && IndexFor(ix, fields) && k < |ix.positional| && pos != []
    requires Increasing(ix.positional) && CaptureLast(ix) && ix.positional[k] == ix.captureAll
    ensures BindEnds(co, fields, ix, k, vals, pos, BindFrom(co, fields, ix, k, missing, vals, pos))
  {
    var P := ix.positional;
    assert k == |P| - 1;
    BindStep(co, fields, ix, k, missing, vals, pos);
    assert BindsOk(co, fields, ix, k, vals, pos);
  }

  /** One pass of the positional loop, named. */
  lemma BindStep(co: Coercion, fields: seq<Field>, ix: Index, k: nat, missing: set<nat>, vals: seq<Value>, pos: seq<string>)
    requires |vals| == |fields| && IndexFor(ix, fields) && k < |ix.positional| && pos != []
    ensures var p := ix.positional[k];
            var e := SetField(co, fields, missing, vals, p, pos[0]);
            && (p == ix.captureAll ==>
                  BindFrom(co, fields, ix, k, missing, vals, pos) == BindFrom(co, fields, ix, k + 1, missing, vals[p := ListV(pos)], []))
            && (p != ix.captureAll && e.status.Fail? ==>
                  BindFrom(co, fields, ix, k, missing, vals, pos) == Finished(Failure(e.status.err), e.vals))
            && (p != ix.captureAll && !e.status.Fail? ==>
                  BindFrom(co, fields, ix, k, missing, vals, pos) == BindFrom(co, fields, ix, k + 1, e.missing, e.vals, pos[1..]))
  {
  }

  /** One binding step: the coercions from the `k`-th positional on all
      succeed exactly when the `k`-th does and those after it do, on a record
      where only the `k`-th field has changed. */
  lemma BindsOkStep(co: Coercion, fields: seq<Field>, ix: Index, k: nat, vals: seq<Value>, pos: seq<string>, vals': seq<Value>)
    requires |vals| == |fields| && IndexFor(ix, fields) && k < |ix.positional| && pos != []
    requires Increasing(ix.positional) && ix.positional[k] != ix.captureAll
    requires |vals'| == |vals| && vals' == vals[ix.positional[k] := vals'[ix.positional[k]]]
    ensures var p := ix.positional[k];
            BindsOk(co, fields, ix, k, vals, pos) <==>
              co(p, fields[p].kind, vals[p], pos[0]).Ok? && BindsOk(co, fields, ix, k + 1, vals', pos[1..])
  {
    var P := ix.positional;
    if BindsOk(co, fields, ix, k, vals, pos) {
      forall n | k + 1 <= n < |P| && n - (k + 1) < |pos[1..]| && P[n] != ix.captureAll
        ensures co(P[n], fields[P[n]].kind, vals'[P[n]], pos[1..][n - (k + 1)]).Ok?
      {
        assert vals'[P[n]] == vals[P[n]];
        assert pos[1..][n - (k + 1)] == pos[n - k];
      }
    }
    if co(P[k], fields[P[k]].kind, vals[P[k]], pos[0]).Ok? && BindsOk(co, fields, ix, k + 1, vals', pos[1..]) {
      forall n | k <= n < |P| && n - k < |pos| && P[n] != ix.captureAll
        ensures co(P[n], fields[P[n]].kind, vals[P[n]], pos[n - k]).Ok?
      {
        if n > k {
          assert vals'[P[n]] == vals[P[n]];
          assert pos[1..][n - (k + 1)] == pos[n - k];
        }
      }
    }
  }

  /** Fields that are not among the positionals still to bind keep their value. */
  lemma {:induction false} BindFrameFrom(co: Coercion, fields: seq<Field>, ix: Index, k: nat,
                                         missing: set<nat>, vals: seq<Value>, pos: seq<string>, j: nat)
    requires |vals| == |fields| && IndexFor(ix, fields) && k <= |ix.positional| && j < |fields|
    requires j !in ix.positional[k..]
    ensures BindFrom(co, fields, ix, k, missing, vals, pos).vals[j] == vals[j]
    decreases |ix.positional| - k
  {
    var P := ix.positional;
    if k < |P| && pos != [] {
      var p := P[k];
      assert p == P[k..][0];
      assert P[k + 1..] == P[k..][1..];
      if p == ix.captureAll {
        BindFrameFrom(co, fields, ix, k + 1, missing, vals[p := ListV(pos)], [], j);
      } else {
        var e := SetField(co, fields, missing, vals, p, pos[0]);
        if e.status.Continue? {
          BindFrameFrom(co, fields, ix, k + 1, e.missing, e.vals, pos[1..], j);
        }
      }
    }
  }

  /** On success the `n`-th positional field holds its token coerced from the
      value it had, and the capture-all holds all the remaining tokens, in order. */
  lemma {:induction false} BindValueFrom(co: Coercion, fields: seq<Field>, ix: Index, k: nat,
                                         missing: set<nat>, vals: seq<Value>, pos: seq<string>, n: nat)
    requires |vals| == |fields| && IndexFor(ix, fields) && k <= n < |ix.positional|
    requires Increasing(ix.positional) && CaptureLast(ix)
    ensures var r := BindFrom(co, fields, ix, k, missing, vals, pos);
            var p := ix.positional[n];
            r.outcome.Success? ==>
              && n - k < |pos|
              && (p != ix.captureAll ==> co(p, fields[p].kind, vals[p], pos[n - k]) == Ok(r.vals[p]))
              && (p == ix.captureAll ==> r.vals[p] == ListV(pos[n - k..]))
    decreases |ix.positional| - k
  {
    var P := ix.positional;
    BindOutcomeFrom(co, fields, ix, k, missing, vals, pos);
    if pos != [] {
      var p := P[k];
      if p == ix.captureAll {
        if n == k {
          BindFrameFrom(co, fields, ix, k + 1, missing, vals[p := ListV(pos)], [], p);
        }
      } else {
        var e := SetField(co, fields, missing, vals, p, pos[0]);
        if e.status.Continue? {
          if n == k {
            BindFrameFrom(co, fields, ix, k + 1, e.missing, e.vals, pos[1..], p);
          } else {
            BindValueFrom(co, fields, ix, k + 1, e.missing, e.vals, pos[1..], n);
            assert e.vals[P[n]] == vals[P[n]];
            if n - k < |pos| {
              assert pos[1..][n - (k + 1)..] == pos[n - k..];
            }
          }
        }
      }
    }
  }

  /** After the scan, the required switches are checked before any
      positional is bound: a missing one fails with the whole missing set
      and leaves the record as the scan left it. */
  lemma FinishMissing(co: Coercion, fields: seq<Field>, ix: Index, missing: set<nat>, vals: seq<Value>, pos: seq<string>)
    requires |vals| == |fields| && IndexFor(ix, fields) && missing != {}
    ensures Finish(co, fields, ix, missing, vals, pos) == Finished(Failure(MissingRequired(missing)), vals)
  {
  }

  /** LoadArgsSpecFrom in terms of the command line: when the build and the
      scan get through, the required check sees exactly the required
      switches that no switch on the command line named, and only when there
      are none are the leftover tokens bound, to positionals listed in
      declaration order with the capture-all last. */
  lemma LoadStages(co: Coercion, slot: HelpSlot, fields: seq<Field>, vals: seq<Value>, args: seq<string>)
    requires |vals| == |fields|
    ensures var b := Build(co, fields, vals);
            b.status.Continue? ==>
              var ix := HelpSwitches(b.ix, slot);
              && IndexFor(ix, fields) && Increasing(ix.positional) && CaptureLast(ix)
              && var s := ScanFrom(co, fields, ix, args, 1, ix.missing, b.vals, []);
              var r := Load(co, slot, fields, vals, args);
              var left := b.ix.missing - Assigned(ix, args, 1);
              && (s.status.Continue? && left != {} ==> r == Finished(Failure(MissingRequired(left)), s.vals))
              && (s.status.Continue? && left == {} ==> r == BindFrom(co, fields, ix, 0, {}, s.vals, Leftovers(ix, args, 1)))
  {
    var b := Build(co, fields, vals);
    BuildFromIndexFor(co, fields, 0, EmptyIndex, vals);
    BuildBindShape(co, fields, vals);
    if b.status.Continue? {
      WithHelpIndexFor(b.ix, fields, slot);
      var ix := HelpSwitches(b.ix, slot);
      ScanMissingExact(co, fields, ix, args, 1, ix.missing, b.vals, []);
      ScanCollects(co, fields, ix, args, 1, ix.missing, b.vals, []);
      var s := ScanFrom(co, fields, ix, args, 1, ix.missing, b.vals, []);
      if s.status.Continue? {
        assert s.pos == Leftovers(ix, args, 1);
        assert Load(co, slot, fields, vals, args) == Finish(co, fields, ix, s.missing, s.vals, s.pos);
      }
    }
  }

  /** A field that no switch on the command line names keeps the value the
      build gave it (its default, if it has one) through the scan. */
  lemma LoadKeepsUnnamed(co: Coercion, slot: HelpSlot, fields: seq<Field>, vals: seq<Value>, args: seq<string>, j: nat)
    requires |vals| == |fields| && j < |fields|
    ensures var b := Build(co, fields, vals);
            b.status.Continue? ==>
              var ix := HelpSwitches(b.ix, slot);
              && IndexFor(ix, fields)
              && (j !in Assigned(ix, args, 1) ==> ScanFrom(co, fields, ix, args, 1, ix.missing, b.vals, []).vals[j] == b.vals[j])
  {
    var b := Build(co, fields, vals);
    BuildFromIndexFor(co, fields, 0, EmptyIndex, vals);
    if b.status.Continue? {
      WithHelpIndexFor(b.ix, fields, slot);
      var ix := HelpSwitches(b.ix, slot);
      if j !in Assigned(ix, args, 1) {
        ScanFrame(co, fields, ix, args, 1, ix.missing, b.vals, [], j);
      }
    }
  }

  // ------------------------------------------------------------ well-kinded

  /** Every write to a field stores a value of the field's kind, so a record
      whose fields hold values of their kinds keeps holding them. */
  lemma SetFieldWellKinded(o: Oracles, fields: seq<Field>, missing: set<nat>, vals: seq<Value>, f: int, text: string)
    requires WellKinded(fields, vals) && -1 <= f < |fields|
    ensures WellKinded(fields, SetField(Arms(o), fields, missing, vals, f, text).vals)
  {
  }

  lemma {:induction false} BuildWellKinded(o: Oracles, fields: seq<Field>, i: nat, ix: Index, vals: seq<Value>)
    requires i <= |fields| && WellKinded(fields, vals)
    ensures WellKinded(fields, BuildFrom(Arms(o), fields, i, ix, vals).vals)
    decreases |fields| - i
  {
    if i < |fields| {
      var b1 := BuildStep(Arms(o), fields, i, ix, vals);
      var tag := fields[i].argTag;
      if IsSwitchTag(tag) && DefaultOf(tag).Some? {
        SetFieldWellKinded(o, fields, ix.missing, vals, i, DefaultOf(tag).value);
      }
      assert WellKinded(fields, b1.vals);
      if b1.status.Continue? {
        BuildWellKinded(o, fields, i + 1, b1.ix, b1.vals);
      }
    }
  }

  lemma {:induction false} ScanWellKinded(o: Oracles, fields: seq<Field>, ix: Index, args: seq<string>, i: nat,
                                          missing: set<nat>, vals: seq<Value>, pos: seq<string>)
    requires WellKinded(fields, vals) && IndexFor(ix, fields)
    ensures WellKinded(fields, ScanFrom(Arms(o), fields, ix, args, i, missing, vals, pos).vals)
    decreases |args| - i
  {
    if i < |args| {
      match Classify(ix, args, i)
      case Sentinel =>
      case Leftover(a) =>
        ScanWellKinded(o, fields, ix, args, i + 1, missing, vals, pos + [a]);
      case Reject(err) =>
      case Assign(f, text, next) =>
        var e := SetField(Arms(o), fields, missing, vals, f, text);
        SetFieldWellKinded(o, fields, missing, vals, f, text);
        if e.status.Continue? {
          ScanWellKinded(o, fields, ix, args, next, e.missing, e.vals, pos);
        }
    }
  }

  lemma {:induction false} BindWellKinded(o: Oracles, fields: seq<Field>, ix: Index, k: nat,
                                          missing: set<nat>, vals: seq<Value>, pos: seq<string>)
    requires WellKinded(fields, vals) && IndexFor(ix, fields) && k <= |ix.positional|
    ensures WellKinded(fields, BindFrom(Arms(o), fields, ix, k, missing, vals, pos).vals)
    decreases |ix.positional| - k
  {
    if k < |ix.positional| && pos != [] {
      var p := ix.positional[k];
      if p == ix.captureAll {
        BindWellKinded(o, fields, ix, k + 1, missing, vals[p := ListV(pos)], []);
      } else {
        var e := SetField(Arms(o), fields, missing, vals, p, pos[0]);
        SetFieldWellKinded(o, fields, missing, vals, p, pos[0]);
        if e.status.Continue? {
          BindWellKinded(o, fields, ix, k + 1, e.missing, e.vals, pos[1..]);
        }
      }
    }
  }

  /** LoadArgsSpecFrom never stores a value of the wrong kind in a field:
      whatever the outcome, each field still holds a value of its kind. */
  lemma LoadWellKinded(o: Oracles, slot: HelpSlot, fields: seq<Field>, vals: seq<Value>, args: seq<string>)
    requires WellKinded(fields, vals)
    ensures WellKinded(fields, Load(Arms(o), slot, fields, vals, args).vals)
  {
    var b := Build(Arms(o), fields, vals);
    BuildWellKinded(o, fields, 0, EmptyIndex, vals);
    if b.status.Continue? {
      BuildFromIndexFor(Arms(o), fields, 0, EmptyIndex, vals);
      WithHelpIndexFor(b.ix, fields, slot);
      var ix := HelpSwitches(b.ix, slot);
      ScanWellKinded(o, fields, ix, args, 1, ix.missing, b.vals, []);
      var s := ScanFrom(Arms(o), fields, ix, args, 1, ix.missing, b.vals, []);
      if s.status.Continue? && s.missing == {} {
        BindWellKinded(o, fields, ix, 0, s.missing, s.vals, s.pos);
      }
    }
  }
}
