/** The fields of a configuration record and the values they hold, in place of
    Go reflection: each field carries a closed kind and its two struct tags
    (`arg` and `env`), and the record is one value per field. Also the
    string-to-value pieces that the argument parser and the environment
    loader share. */
module Kinds {
  import opened Text
  import opened Numbers

  /** The kinds of field the two loaders distinguish. `Struct` is a reference
      to a nested record; `Other` is any type neither loader supports. */
  datatype Kind =
    | Bool
    | Int       // int, int8 ... int64, modelled as int64
    | Uint      // uint, uint8 ... uint64, modelled as uint64
    | Float     // float32, float64
    | Str
    | Duration  // time.Duration, in nanoseconds
    | Timestamp // time.Time
    | List      // []string
    | Struct(fields: seq<Field>)
    | Other(typeName: string)

  /** A record field: its name, its kind and the text of its `arg:"..."` and
      `env:"..."` tags ("" when the tag is absent). */
  datatype Field = Field(name: string, kind: Kind, argTag: string, envTag: string)

  datatype Value =
    | BoolV(b: bool)
    | IntV(i: int)
    | UintV(u: nat)
    | FloatV(f: real)
    | StrV(s: string)
    | DurationV(nanos: int)
    | TimeV(t: int)
    | ListV(items: seq<string>)
    | StructV(vals: seq<Value>)
    | OtherV

  datatype Result<+T, +E> = Ok(value: T) | Err(error: E)

  /** A value that a field of kind `k` can hold. */
  predicate Fits(k: Kind, v: Value) {
    match k
    case Bool => v.BoolV?
    case Int => v.IntV?
    case Uint => v.UintV?
    case Float => v.FloatV?
    case Str => v.StrV?
    case Duration => v.DurationV?
    case Timestamp => v.TimeV?
    case List => v.ListV?
    case Struct(_) => v.StructV?
    case Other(_) => v.OtherV?
  }

  /** Go library parsers that this model does not describe: `time.ParseDuration`
      (giving nanoseconds), `time.Parse(layout, text)` (giving a point in time)
      and `strconv.ParseFloat(text, 64)`. Each may reject its input. */
  datatype Oracles = Oracles(
    parseDuration: string -> Option<int>,
    parseTime: (string, string) -> Option<int>,
    parseFloat: string -> Option<real>)

  const Second: int := 1_000_000_000

  /** The layouts tried, in order, for a time.Time field: time.RFC3339,
      RFC1123, RFC1123Z, RFC822, RFC822Z, UnixDate, DateTime, DateOnly, TimeOnly. */
  const TimeLayouts: seq<string> := [
    "2006-01-02T15:04:05Z07:00",
    "Mon, 02 Jan 2006 15:04:05 MST",
    "Mon, 02 Jan 2006 15:04:05 -0700",
    "02 Jan 06 15:04 MST",
    "02 Jan 06 15:04 -0700",
    "Mon Jan _2 15:04:05 MST 2006",
    "2006-01-02 15:04:05",
    "2006-01-02",
    "15:04:05"]

  const TrueWords: seq<string> := ["true", "t", "yes", "y", "1"]
  const FalseWords: seq<string> := ["false", "f", "no", "n", "0"]

  /** Whether `t` is one of `words`, compared in order. */
  function WordIn(t: string, words: seq<string>): bool {
    words != [] && (t == words[0] || WordIn(t, words[1..]))
  }

  lemma {:induction false} WordInSpec(t: string, words: seq<string>)
    ensures WordIn(t, words) <==> t in words
    decreases |words|
  {
    if words != [] {
      WordInSpec(t, words[1..]);
      assert words == [words[0]] + words[1..];
    }
  }

  /** The boolean a lower-case word spells, if it spells one. */
  function BoolWord(t: string): (r: Option<bool>) {
    if WordIn(t, TrueWords) then Some(true)
    else if WordIn(t, FalseWords) then Some(false)
    else None
  }

  /** BoolWord reads the true words as true and the false words as false,
      and nothing else; no word is both. */
  lemma BoolWordSpec(t: string)
    ensures BoolWord(t) == Some(true) <==> t in TrueWords
    ensures BoolWord(t) == Some(false) <==> t in FalseWords
    ensures BoolWord(t).None? <==> t !in TrueWords && t !in FalseWords
  {
    WordInSpec(t, TrueWords);
    WordInSpec(t, FalseWords);
  }

  /** A duration: the duration grammar first, then a plain int64 read as
      whole seconds. */
  function ParseDurationText(o: Oracles, s: string): (r: Option<int>)
    ensures o.parseDuration(TrimSpace(s)).Some? ==> r == o.parseDuration(TrimSpace(s))
    ensures o.parseDuration(TrimSpace(s)).None? && ParseInt64(TrimSpace(s)).Some? ==>
              r == Some(ParseInt64(TrimSpace(s)).value * Second)
    ensures o.parseDuration(TrimSpace(s)).None? && ParseInt64(TrimSpace(s)).None? ==> r.None?
  {
    var t := TrimSpace(s);
    match o.parseDuration(t)
    case Some(d) => Some(d)
    case None =>
      match ParseInt64(t)
      case Some(v) => Some(v * Second)
      case None => None
  }

  /** The seconds fallback: an int64 written in decimal, with white space
      around it, that the duration grammar rejects is that many seconds. */
  lemma DurationSeconds(o: Oracles, pre: string, n: int, post: string)
    requires Int64Min <= n <= Int64Max && AllSpace(pre) && AllSpace(post)
    requires o.parseDuration(FormatInt(n)).None?
    ensures ParseDurationText(o, pre + FormatInt(n) + post) == Some(n * Second)
  {
    var w := FormatInt(n);
    assert IsDigit(w[|w| - 1]);
    TrimSpacePadded(pre, w, post);
    ParseInt64Format(n);
  }

  /** The index of the first layout in `layouts[from..]` that accepts `t`. */
  function FirstLayout(o: Oracles, layouts: seq<string>, from: nat, t: string): (r: Option<nat>)
    requires from <= |layouts|
    ensures r.Some? ==> from <= r.value < |layouts| && o.parseTime(layouts[r.value], t).Some?
    ensures r.Some? ==> forall k :: from <= k < r.value ==> o.parseTime(layouts[k], t).None?
    ensures r.None? ==> forall k :: from <= k < |layouts| ==> o.parseTime(layouts[k], t).None?
    decreases |layouts| - from
  {
    if from == |layouts| then None
    else if o.parseTime(layouts[from], t).Some? then Some(from)
    else FirstLayout(o, layouts, from + 1, t)
  }

  /** A point in time: what the first of `layouts` that accepts the trimmed
      text gives; the parser uses TimeLayouts. */
  function ParseTimestamp(o: Oracles, layouts: seq<string>, s: string): (r: Option<int>)
    ensures r.None? <==> forall k :: 0 <= k < |layouts| ==> o.parseTime(layouts[k], TrimSpace(s)).None?
    ensures r.Some? ==> exists k :: 0 <= k < |layouts| && r == o.parseTime(layouts[k], TrimSpace(s)) &&
                          forall j :: 0 <= j < k ==> o.parseTime(layouts[j], TrimSpace(s)).None?
  {
    var t := TrimSpace(s);
    var first := FirstLayout(o, layouts, 0, t);
    if first.Some? then o.parseTime(layouts[first.value], t) else None
  }
}
