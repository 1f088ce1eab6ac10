/**
 * The data-loading script `scripts/load_data.js`: its command-line parser,
 * the cleaning and truncation of CSV rows into text chunks, and the retry
 * wrapper around a GraphRAG run. The CSV reader, the pipeline itself and the
 * timers are parameters.
 */
module LoadData {
  import opened Common
  import opened Strings

  // ---------------------------------------------------------------------------
  // parseInt

  predicate IsDigit(c: char, radix: nat) {
    if radix == 16 then '0' <= c <= '9' || 'a' <= c <= 'f' || 'A' <= c <= 'F'
    else '0' <= c <= '9'
  }

  function DigitValue(c: char): nat {
    if '0' <= c <= '9' then c as int - '0' as int
    else if 'a' <= c <= 'f' then c as int - 'a' as int + 10
    else if 'A' <= c <= 'F' then c as int - 'A' as int + 10
    else 0
  }

  /** Length of the run of digits `s` starts with. */
  function DigitRun(s: string, radix: nat): (n: nat)
    ensures n <= |s| && forall i :: 0 <= i < n ==> IsDigit(s[i], radix)
    ensures n < |s| ==> !IsDigit(s[n], radix)
    decreases |s|
  {
    if s != [] && IsDigit(s[0], radix) then 1 + DigitRun(s[1..], radix) else 0
  }

  /** The number a string of digits denotes. */
  function Value(d: string, radix: nat): nat
    decreases |d|
  {
    if d == [] then 0 else Value(d[..|d| - 1], radix) * radix + DigitValue(d[|d| - 1])
  }

  /** The value of the digits `u` starts with, if it starts with one. */
  function Digits(u: string, radix: nat): Option<nat> {
    var n := DigitRun(u, radix);
    if n == 0 then None else Some(Value(u[..n], radix))
  }

  /** After the sign: hexadecimal behind `0x` or `0X`, decimal otherwise. */
  function Unsigned(t: string): Option<nat> {
    if |t| >= 2 && t[0] == '0' && (t[1] == 'x' || t[1] == 'X') then Digits(t[2..], 16) else Digits(t, 10)
  }

  /**
   * `parseInt(value)` with no radix: leading white space, a sign, a `0x`
   * prefix for hexadecimal, then the longest run of digits; `None` is NaN
   * (as for `undefined`, or when no digit follows).
   */
  function ParseInt(v: Option<string>): Option<int> {
    if v.None? then None
    else
      var s := TrimStart(v.value);
      if s != [] && s[0] == '-' then
        var m := Unsigned(s[1..]);
        if m.None? then None else Some(-(m.value as int))
      else if s != [] && s[0] == '+' then
        var m := Unsigned(s[1..]);
        if m.None? then None else Some(m.value)
      else
        var m := Unsigned(s);
        if m.None? then None else Some(m.value)
  }

  lemma {:induction false} DigitRunAll(s: string)
    requires forall i :: 0 <= i < |s| ==> '0' <= s[i] <= '9'
    ensures DigitRun(s, 10) == |s|
    decreases |s|
  {
    if s != [] {
      DigitRunAll(s[1..]);
    }
  }

  lemma {:induction false} ValueNatToString(n: nat)
    ensures Value(NatToString(n), 10) == n
    decreases n
  {
    var d := [('0' as int + n % 10) as char];
    if n >= 10 {
      var s := NatToString(n);
      assert s == NatToString(n / 10) + d;
      assert s[..|s| - 1] == NatToString(n / 10);
      ValueNatToString(n / 10);
    }
  }

  /** A non-empty run of decimal digits reads as its value. */
  lemma UnsignedDecimal(s: string)
    requires s != [] && forall i :: 0 <= i < |s| ==> '0' <= s[i] <= '9'
    ensures Unsigned(s) == Some(Value(s, 10))
  {
    DigitRunAll(s);
    assert s[..|s|] == s;
    assert !(|s| >= 2 && s[0] == '0' && (s[1] == 'x' || s[1] == 'X')) by {
      if |s| >= 2 {
        assert '0' <= s[1] <= '9';
      }
    }
  }

  /** `parseInt` reads back the decimal rendering of any natural number. */
  lemma ParseIntNatToString(n: nat)
    ensures ParseInt(Some(NatToString(n))) == Some(n)
  {
    ParseIntDigits(NatToString(n));
    ValueNatToString(n);
  }

  /** A string that does not start with white space is its own `trimStart`. */
  lemma TrimStartKeeps(s: string)
    requires s == [] || !IsSpace(s[0])
    ensures TrimStart(s) == s
  {
  }

  /** `parseInt` reads a non-empty run of decimal digits as its value. */
  lemma ParseIntDigits(s: string)
    requires s != [] && forall i :: 0 <= i < |s| ==> '0' <= s[i] <= '9'
    ensures ParseInt(Some(s)) == Some(Value(s, 10))
  {
    assert '0' <= s[0] <= '9';
    TrimStartKeeps(s);
    UnsignedDecimal(s);
  }

  // ---------------------------------------------------------------------------
  // parseArgs

  /**
   * The script's options. A string option is `None` when a flag took its
   * value past the end of the arguments (`undefined`); a number option is
   * `None` when `parseInt` gave NaN.
   */
  datatype Options = Options(
    dataFile: Option<string>,
    mode: Option<string>,
    rows: Option<int>,
    delay: Option<int>,
    retries: Option<int>,
    algorithm: Option<string>,
    hierarchical: bool)

  const Defaults := Options(None, Some("standard"), Some(100), Some(1000), Some(3), Some("leiden"), false)

  /** What `parseArgs` ends in: the options, or the usage text and `process.exit(0)`. */
  datatype Parse = Parsed(options: Options) | ShowHelp

  predicate IsFlag(arg: string) {
    |arg| >= 2 && arg[..2] == "--"
  }

  /** `args[i]`, `undefined` past the end. */
  function ArgAt(args: seq<string>, i: nat): Option<string> {
    if i < |args| then Some(args[i]) else None
  }

  predicate HasFile(o: Options) {
    o.dataFile.Some? && o.dataFile.value != ""
  }

  /** What one argument does: move on to index `next` with new options, or ask for the usage text. */
  datatype ArgStep = Continue(next: nat, options: Options) | Help

  /** The `switch` on `args[i]`: a flag with a value skips that value, a first non-empty positional is the data file. */
  function StepAt(args: seq<string>, i: nat, o: Options): (s: ArgStep)
    requires i < |args|
    ensures s.Continue? ==> i < s.next <= i + 2
  {
    var arg := args[i];
    if IsFlag(arg) then
      var key := arg[2..];
      var value := ArgAt(args, i + 1);
      if key == "mode" then Continue(i + 2, o.(mode := value))
      else if key == "rows" then Continue(i + 2, o.(rows := ParseInt(value)))
      else if key == "delay" then Continue(i + 2, o.(delay := ParseInt(value)))
      else if key == "retries" then Continue(i + 2, o.(retries := ParseInt(value)))
      else if key == "algorithm" then Continue(i + 2, o.(algorithm := value))
      else if key == "hierarchical" then Continue(i + 1, o.(hierarchical := true))
      else if key == "help" then Help
      else Continue(i + 1, o)
    else if !HasFile(o) then Continue(i + 1, o.(dataFile := Some(arg)))
    else Continue(i + 1, o)
  }

  /** The arguments from `i` on, applied to `o`. */
  function ParseFrom(args: seq<string>, i: nat, o: Options): Parse
    decreases |args| - i
  {
    if i >= |args| then Parsed(o)
    else match StepAt(args, i, o)
      case Help => ShowHelp
      case Continue(next, o') => ParseFrom(args, next, o')
  }

  /** `parseArgs()` over `process.argv.slice(2)`. */
  function ParseArgs(args: seq<string>): Parse {
    ParseFrom(args, 0, Defaults)
  }

  /** With no arguments every option keeps its default. */
  lemma ParseNoArgs()
    ensures ParseArgs([]) == Parsed(Defaults)
  {
  }

  /** Once a non-empty data file is set, no later argument replaces it. */
  lemma {:induction false} ParseKeepsFile(args: seq<string>, i: nat, o: Options)
    requires HasFile(o)
    ensures ParseFrom(args, i, o).Parsed? ==> ParseFrom(args, i, o).options.dataFile == o.dataFile
    decreases |args| - i
  {
    if i < |args| {
      var st := StepAt(args, i, o);
      if st.Continue? {
        ParseKeepsFile(args, st.next, st.options);
      }
    }
  }


  /** A non-empty first argument that is not a flag is the data file, whatever follows. */
  lemma ParseFirstFile(args: seq<string>)
    requires |args| > 0 && !IsFlag(args[0]) && args[0] != ""
    ensures ParseArgs(args).Parsed? ==> ParseArgs(args).options.dataFile == Some(args[0])
  {
    ParseKeepsFile(args, 1, Defaults.(dataFile := Some(args[0])));
  }

  /** Every string option is its default, undefined, or one of the arguments. */
  predicate FromArgs(o: Options, args: seq<string>) {
    (o.dataFile.None? || o.dataFile.value in args)
    && (o.mode == Defaults.mode || o.mode.None? || o.mode.value in args)
    && (o.algorithm == Defaults.algorithm || o.algorithm.None? || o.algorithm.value in args)
  }

  /** One argument sets a string option only to itself or to the argument after it. */
  lemma StepFromArgs(args: seq<string>, i: nat, o: Options)
    requires i < |args| && FromArgs(o, args)
    ensures StepAt(args, i, o).Continue? ==> FromArgs(StepAt(args, i, o).options, args)
  {
    var st := StepAt(args, i, o);
    if st.Continue? {
      var o' := st.options;
      if !IsFlag(args[i]) {
        assert args[i] in args;
        assert o' == o || o' == o.(dataFile := Some(args[i]));
      } else {
        var v := ArgAt(args, i + 1);
        var key := args[i][2..];
        if key in {"rows", "delay", "retries"} {
          assert (o'.dataFile, o'.mode, o'.algorithm) == (o.dataFile, o.mode, o.algorithm);
        } else {
          assert v.Some? ==> v.value in args;
          assert o' in {o, o.(mode := v), o.(algorithm := v), o.(hierarchical := true)};
        }
      }
    }
  }

  lemma {:induction false} ParseFromArgs(args: seq<string>, i: nat, o: Options)
    requires FromArgs(o, args)
    ensures ParseFrom(args, i, o).Parsed? ==> FromArgs(ParseFrom(args, i, o).options, args)
    decreases |args| - i
  {
    if i < |args| {
      var st := StepAt(args, i, o);
      if st.Continue? {
        StepFromArgs(args, i, o);
        ParseFromArgs(args, st.next, st.options);
      }
    }
  }


  /** The parsed data file, mode and algorithm come from the command line or the defaults. */
  lemma ParseArgsFromArgs(args: seq<string>)
    ensures ParseArgs(args).Parsed? ==> FromArgs(ParseArgs(args).options, args)
  {
    ParseFromArgs(args, 0, Defaults);
  }

  /** The arguments from `i` on: one step, then the rest. */
  lemma ParseFromStep(args: seq<string>, i: nat, o: Options)
    requires i < |args|
    ensures StepAt(args, i, o).Help? ==> ParseFrom(args, i, o) == ShowHelp
    ensures StepAt(args, i, o).Continue? ==>
              ParseFrom(args, i, o) == ParseFrom(args, StepAt(args, i, o).next, StepAt(args, i, o).options)
  {
  }

  /** The loop of `parseArgs`, where a flag with a value moves `i` past it. */
  method ParseArgsLoop(args: seq<string>) returns (r: Parse)
    ensures r == ParseArgs(args)
  {
    var options := Defaults;
    ghost var total := ParseArgs(args);
    var i := 0;
    while i < |args|
      invariant ParseFrom(args, i, options) == total
      decreases |args| - i
    {
      ghost var st := StepAt(args, i, options);
      ParseFromStep(args, i, options);
      var arg := args[i];
      if IsFlag(arg) {
        var key := arg[2..];
        var value := ArgAt(args, i + 1);
        if key == "mode" {
          options := options.(mode := value);
          i := i + 1;
        } else if key == "rows" {
          options := options.(rows := ParseInt(value));
          i := i + 1;
        } else if key == "delay" {
          options := options.(delay := ParseInt(value));
          i := i + 1;
        } else if key == "retries" {
          options := options.(retries := ParseInt(value));
          i := i + 1;
        } else if key == "algorithm" {
          options := options.(algorithm := value);
          i := i + 1;
        } else if key == "hierarchical" {
          options := options.(hierarchical := true);
        } else if key == "help" {
          return ShowHelp;
        }
      } else if !HasFile(options) {
        options := options.(dataFile := Some(arg));
      }
      i := i + 1;
      assert st == Continue(i, options);
    }
    return Parsed(options);
  }

  // ---------------------------------------------------------------------------
  // cleanAndValidateText

  const MinTextLength := 10

  /**
   * `cleanAndValidateText(text)`: `None` for a non-string (`text` is `None`)
   * or an empty string; otherwise trimmed and with every run of white space
   * made one space, and `None` again if fewer than ten characters remain.
   */
  function CleanAndValidate(text: Option<string>): Option<string> {
    if text.None? || text.value == "" then None
    else
      var cleaned := CollapseWs(Trim(text.value));
      if |cleaned| < MinTextLength then None else Some(cleaned)
  }

  /** A cleaned text is long enough, single-spaced, trimmed, and keeps every other character in order. */
  lemma CleanLaws(text: Option<string>)
    ensures var r := CleanAndValidate(text);
            r.Some? ==> |r.value| >= MinTextLength && OnlySingleSpaces(r.value)
                        && !IsSpace(r.value[0]) && !IsSpace(r.value[|r.value| - 1])
                        && Squeeze(r.value) == Squeeze(text.value)
    ensures text.Some? && text.value != "" && CleanAndValidate(text).None? ==>
      |CollapseWs(Trim(text.value))| < MinTextLength
  {
    CleanKept(text);
    CleanDropped(text);
  }

  lemma CleanKept(text: Option<string>)
    ensures var r := CleanAndValidate(text);
            r.Some? ==> |r.value| >= MinTextLength && OnlySingleSpaces(r.value)
                        && !IsSpace(r.value[0]) && !IsSpace(r.value[|r.value| - 1])
                        && Squeeze(r.value) == Squeeze(text.value)
  {
    if text.Some? {
      assert text == Some(text.value);
      KeptOf(text.value);
    }
  }

  lemma KeptOf(x: string)
    ensures var r := CleanAndValidate(Some(x));
            r.Some? ==> |r.value| >= MinTextLength && OnlySingleSpaces(r.value)
                        && !IsSpace(r.value[0]) && !IsSpace(r.value[|r.value| - 1])
                        && Squeeze(r.value) == Squeeze(x)
  {
    var r := CleanAndValidate(Some(x));
    if r.Some? {
      KeptFull(x, r.value);
    }
  }

  lemma KeptFull(x: string, c: string)
    requires CleanAndValidate(Some(x)) == Some(c)
    ensures |c| >= MinTextLength && OnlySingleSpaces(c) && !IsSpace(c[0]) && !IsSpace(c[|c| - 1])
    ensures Squeeze(c) == Squeeze(x)
  {
    CleanedShape(x, Trim(x), c);
  }

  lemma CleanDropped(text: Option<string>)
    ensures text.Some? && text.value != "" && CleanAndValidate(text).None? ==>
      |CollapseWs(Trim(text.value))| < MinTextLength
  {
  }

  /** The shape of a text that was trimmed, collapsed and kept. */
  lemma CleanedShape(text: string, t: string, c: string)
    requires t == Trim(text) && c == CollapseWs(t) && |c| >= MinTextLength
    ensures OnlySingleSpaces(c) && !IsSpace(c[0]) && !IsSpace(c[|c| - 1]) && Squeeze(c) == Squeeze(text)
  {
    assert t != [] by {
      assert |c| <= |t|;
    }
    assert !IsSpace(t[0]) && !IsSpace(t[|t| - 1]);
    CollapsedLast(t, c);
    assert Squeeze(c) == Squeeze(text) by {
      CollapseSqueeze(t);
    }
    assert OnlySingleSpaces(c) by {
      CollapseSingleSpaces(t);
    }
  }

  lemma CollapsedLast(t: string, c: string)
    requires t != [] && c == CollapseWs(t) && !IsSpace(t[|t| - 1])
    ensures c != [] && !IsSpace(c[|c| - 1])
  {
    CollapseLast(t);
  }

  /** What `CleanAndValidate` keeps: ten characters or more, no white space at either end. */
  lemma KeptShape(text: string, cv: string)
    requires CleanAndValidate(Some(text)) == Some(cv)
    ensures |cv| >= MinTextLength && !IsSpace(cv[0]) && !IsSpace(cv[|cv| - 1])
  {
    CleanedShape(text, Trim(text), cv);
  }

  // ---------------------------------------------------------------------------
  // readCsvAndGetChunks

  /**
   * A CSV row: its columns by header, the value of its first column
   * (`row[Object.keys(row)[0]]`), and its `JSON.stringify` text.
   */
  datatype Row = Row(fields: map<string, string>, first: Option<string>, json: string)

  function Field(row: Row, key: string): Option<string> {
    if key in row.fields then Some(row.fields[key]) else None
  }

  predicate Truthy(v: Option<string>) {
    v.Some? && v.value != ""
  }

  /** `row.text || row.content || row.description || row[first key] || JSON.stringify(row)`. */
  function RowText(row: Row): string {
    if Truthy(Field(row, "text")) then row.fields["text"]
    else if Truthy(Field(row, "content")) then row.fields["content"]
    else if Truthy(Field(row, "description")) then row.fields["description"]
    else if Truthy(row.first) then row.first.value
    else row.json
  }

  /** The length limit of a mode. */
  function MaxLength(mode: Option<string>): nat {
    if mode == Some("ultra-slow") then 500 else if mode == Some("slow") then 800 else 1000
  }

  /** Cut to `max` characters and mark the cut with "...". */
  function Truncate(t: string, max: nat): (r: string)
    ensures |r| <= max + 3
    ensures |t| <= max ==> r == t
    ensures |t| > max ==> r == t[..max] + "..."
  {
    if |t| > max then t[..max] + "..." else t
  }

  /** The chunk a row gives, if any. */
  function RowChunk(row: Row, mode: Option<string>): Option<string> {
    TextChunk(RowText(row), mode)
  }

  /** The chunk made of a row's text. */
  function TextChunk(text: string, mode: Option<string>): Option<string> {
    if text == "" || IsBlank(text) then None
    else if mode == Some("fixed") then
      var cleaned := CleanAndValidate(Some(text));
      if cleaned.None? then None else Some(Truncate(cleaned.value, MaxLength(mode)))
    else Some(Truncate(Trim(text), MaxLength(mode)))
  }

  /** A chunk is never empty nor over the limit plus the three dots; uncut, it is trimmed; a "fixed" chunk has at least ten characters. */
  predicate ChunkShape(c: string, max: nat, fixed: bool) {
    c != [] && |c| <= max + 3
    && (fixed ==> |c| >= MinTextLength)
    && (|c| <= max ==> !IsSpace(c[0]) && !IsSpace(c[|c| - 1]))
  }

  /** Every chunk made of a row has the shape its mode promises. */
  lemma RowChunkLaws(row: Row, mode: Option<string>)
    ensures var c := RowChunk(row, mode);
            c.Some? ==> ChunkShape(c.value, MaxLength(mode), mode == Some("fixed"))
  {
    TextChunkLaws(RowText(row), mode);
  }

  lemma TextChunkLaws(text: string, mode: Option<string>)
    ensures var c := TextChunk(text, mode);
            c.Some? ==> ChunkShape(c.value, MaxLength(mode), mode == Some("fixed"))
  {
    var max := MaxLength(mode);
    if text == "" || IsBlank(text) {
      assert TextChunk(text, mode) == None;
    } else if mode == Some("fixed") {
      var cleaned := CleanAndValidate(Some(text));
      assert TextChunk(text, mode) == if cleaned.None? then None else Some(Truncate(cleaned.value, max));
      if cleaned.Some? {
        FixedShape(text, cleaned.value, max);
      }
    } else {
      var t := Trim(text);
      assert TextChunk(text, mode) == Some(Truncate(t, max));
      PlainShape(t, max);
    }
  }

  /** A "fixed" chunk: the cleaned text cut at the limit. */
  lemma FixedShape(text: string, cv: string, max: nat)
    requires CleanAndValidate(Some(text)) == Some(cv) && max >= MinTextLength
    ensures ChunkShape(Truncate(cv, max), max, true)
  {
    KeptShape(text, cv);
    TruncateKept(cv, max);
  }

  /** Any other chunk: the trimmed, non-blank text cut at the limit. */
  lemma PlainShape(t: string, max: nat)
    requires t != [] && !IsSpace(t[0]) && !IsSpace(t[|t| - 1])
    ensures ChunkShape(Truncate(t, max), max, false)
  {
    TruncateLaws(t, max);
    var c := Truncate(t, max);
    if |c| <= max {
      assert c == t;
    }
  }

  /** Cutting a kept text at a limit of ten or more leaves at least ten characters, trimmed when uncut. */
  lemma TruncateKept(cv: string, max: nat)
    requires |cv| >= MinTextLength && !IsSpace(cv[0]) && !IsSpace(cv[|cv| - 1]) && max >= MinTextLength
    ensures var c := Truncate(cv, max);
            c != [] && |c| >= MinTextLength && (|c| <= max ==> !IsSpace(c[0]) && !IsSpace(c[|c| - 1]))
  {
    TruncateLaws(cv, max);
    var c := Truncate(cv, max);
    if |c| <= max {
      assert c == cv;
    }
  }

  /** A cut of a non-empty trimmed text is non-empty, and trimmed when nothing was cut. */
  lemma TruncateLaws(t: string, max: nat)
    requires t != [] && !IsSpace(t[0]) && !IsSpace(t[|t| - 1])
    ensures var r := Truncate(t, max);
            r != [] && |r| >= (if |t| < max then |t| else max)
            && (|r| <= max ==> r == t)
  {
  }

  /** The chunks of all rows, in order, with no limit. */
  function Kept(rows: seq<Row>, mode: Option<string>): seq<string>
    decreases |rows|
  {
    if rows == [] then []
    else
      var prev := Kept(rows[..|rows| - 1], mode);
      var c := RowChunk(rows[|rows| - 1], mode);
      if c.Some? then prev + [c.value] else prev
  }

  /** The `data` handler over the rows: a row is looked at only while fewer than `rowLimit` chunks are held. */
  function Collect(rows: seq<Row>, rowLimit: Option<int>, mode: Option<string>): seq<string>
    decreases |rows|
  {
    if rows == [] then []
    else
      var prev := Collect(rows[..|rows| - 1], rowLimit, mode);
      var c := RowChunk(rows[|rows| - 1], mode);
      if rowLimit.Some? && |prev| < rowLimit.value && c.Some? then prev + [c.value] else prev
  }

  function Limit(rowLimit: Option<int>): nat {
    if rowLimit.None? || rowLimit.value < 0 then 0 else rowLimit.value
  }

  /** The handler keeps exactly the first `rowLimit` chunks (none for NaN or a negative limit). */
  lemma {:induction false} CollectTake(rows: seq<Row>, rowLimit: Option<int>, mode: Option<string>)
    ensures var k := Kept(rows, mode);
            Collect(rows, rowLimit, mode) == k[..if |k| < Limit(rowLimit) then |k| else Limit(rowLimit)]
    decreases |rows|
  {
    if rows != [] {
      var init := rows[..|rows| - 1];
      CollectTake(init, rowLimit, mode);
      TakeStep(Collect(init, rowLimit, mode), Kept(init, mode), RowChunk(rows[|rows| - 1], mode), rowLimit);
    }
  }

  /** One more row: the held chunks stay the first `rowLimit` kept ones. */
  lemma TakeStep(prev: seq<string>, k: seq<string>, c: Option<string>, rowLimit: Option<int>)
    requires prev == k[..if |k| < Limit(rowLimit) then |k| else Limit(rowLimit)]
    ensures var k' := if c.Some? then k + [c.value] else k;
            (if rowLimit.Some? && |prev| < rowLimit.value && c.Some? then prev + [c.value] else prev)
            == k'[..if |k'| < Limit(rowLimit) then |k'| else Limit(rowLimit)]
  {
    if c.Some? {
      var n := if |k| < Limit(rowLimit) then |k| else Limit(rowLimit);
      assert (k + [c.value])[..n] == k[..n];
    }
  }

  /** Every kept chunk is some row's chunk, in the order of the rows. */
  lemma {:induction false} KeptRows(rows: seq<Row>, mode: Option<string>, c: string)
    requires c in Kept(rows, mode)
    ensures exists i :: 0 <= i < |rows| && RowChunk(rows[i], mode) == Some(c)
    decreases |rows|
  {
    var init := rows[..|rows| - 1];
    var last := RowChunk(rows[|rows| - 1], mode);
    if last.Some? && c == last.value {
      assert RowChunk(rows[|rows| - 1], mode) == Some(c);
    } else {
      KeptRows(init, mode, c);
      var i :| 0 <= i < |init| && RowChunk(init[i], mode) == Some(c);
      assert rows[i] == init[i];
    }
  }

  lemma {:induction false} KeptLength(rows: seq<Row>, mode: Option<string>)
    ensures |Kept(rows, mode)| <= |rows|
    decreases |rows|
  {
    if rows != [] {
      KeptLength(rows[..|rows| - 1], mode);
    }
  }

  /** At most `rowLimit` chunks and one per row, each within its mode's length bound. */
  lemma CollectLaws(rows: seq<Row>, rowLimit: Option<int>, mode: Option<string>)
    ensures var r := Collect(rows, rowLimit, mode);
            |r| <= Limit(rowLimit) && |r| <= |rows|
            && forall c :: c in r ==> c != [] && |c| <= MaxLength(mode) + 3
  {
    CollectTake(rows, rowLimit, mode);
    KeptLength(rows, mode);
    var r := Collect(rows, rowLimit, mode);
    forall c | c in r
      ensures c != [] && |c| <= MaxLength(mode) + 3
    {
      var k := Kept(rows, mode);
      assert c in k;
      KeptRows(rows, mode, c);
      var i :| 0 <= i < |rows| && RowChunk(rows[i], mode) == Some(c);
      RowChunkLaws(rows[i], mode);
    }
  }

  /** The row handler of `readCsvAndGetChunks`. */
  method OnRow(row: Row, mode: Option<string>) returns (chunk: Option<string>)
    ensures chunk == RowChunk(row, mode)
  {
    var text := RowText(row);
    ghost var want := TextChunk(text, mode);
    if text == "" || IsBlank(text) {
      assert want == None;
      return None;
    }
    var processed := Trim(text);
    if mode == Some("fixed") {
      var cleaned := CleanAndValidate(Some(text));
      assert want == if cleaned.None? then None else Some(Truncate(cleaned.value, MaxLength(mode)));
      if cleaned.None? {
        return None;
      }
      processed := cleaned.value;
    } else {
      assert want == Some(Truncate(processed, MaxLength(mode)));
    }
    ghost var whole := processed;
    var maxLength := MaxLength(mode);
    if |processed| > maxLength {
      processed := processed[..maxLength] + "...";
    }
    assert processed == Truncate(whole, maxLength);
    return Some(processed);
  }

  /** `readCsvAndGetChunks(file, rowLimit, mode)` over the rows the CSV parser streams. */
  method ReadCsvChunks(rows: seq<Row>, rowLimit: Option<int>, mode: Option<string>) returns (chunks: seq<string>)
    ensures chunks == Collect(rows, rowLimit, mode)
  {
    chunks := [];
    for i := 0 to |rows|
      invariant chunks == Collect(rows[..i], rowLimit, mode)
    {
      assert rows[..i + 1][..i] == rows[..i];
      if rowLimit.Some? && |chunks| < rowLimit.value {
        var chunk := OnRow(rows[i], mode);
        if chunk.Some? {
          chunks := chunks + [chunk.value];
        }
      }
    }
    assert rows[..|rows|] == rows;
  }

  // ---------------------------------------------------------------------------
  // runGraphRAGWithRetry

  /** What one run of the pipeline gives: its results, or the error it throws. */
  datatype Attempt<R, E> = Success(value: R) | Failure(error: E)

  /** How the wrapper ends: results, a rethrown error, or `undefined` when no attempt is made. */
  datatype Ending<R, E> = Returned(value: R) | Thrown(error: E) | NoResult

  datatype RetryRun<R, E> = RetryRun(ending: Ending<R, E>, calls: nat, waits: seq<int>)

  /** Attempts `attempt` to `maxRetries`; `run(k)` is what attempt `k` gives. */
  function RetryFrom<R, E>(run: nat -> Attempt<R, E>, maxRetries: int, attempt: nat): RetryRun<R, E>
    requires attempt >= 1
    decreases maxRetries - attempt
  {
    if attempt > maxRetries then RetryRun(NoResult, 0, [])
    else match run(attempt)
      case Success(v) => RetryRun(Returned(v), 1, [])
      case Failure(e) =>
        if attempt == maxRetries then RetryRun(Thrown(e), 1, [])
        else
          var rest := RetryFrom(run, maxRetries, attempt + 1);
          RetryRun(rest.ending, rest.calls + 1, [attempt * 2000] + rest.waits)
  }

  /** `runGraphRAGWithRetry`; `maxRetries` is `None` for NaN, for which `attempt <= maxRetries` never holds. */
  function WithRetry<R, E>(run: nat -> Attempt<R, E>, maxRetries: Option<int>): RetryRun<R, E> {
    if maxRetries.None? then RetryRun(NoResult, 0, []) else RetryFrom(run, maxRetries.value, 1)
  }

  /**
   * From attempt `a` on: at most `maxRetries - a + 1` calls, each failed call
   * but the last followed by a wait of `k · 2000` ms after attempt `k`, and
   * no result only when there is no attempt left.
   */
  lemma {:induction false} RetryFromShape<R, E>(run: nat -> Attempt<R, E>, maxRetries: int, a: nat)
    requires a >= 1
    ensures var r := RetryFrom(run, maxRetries, a);
            (r.calls == 0 <==> a > maxRetries) && (r.ending.NoResult? <==> a > maxRetries)
            && (a <= maxRetries ==> r.calls <= maxRetries - a + 1)
            && |r.waits| == (if r.calls == 0 then 0 else r.calls - 1)
            && forall k :: 0 <= k < |r.waits| ==> r.waits[k] == (a + k) * 2000
    decreases maxRetries - a
  {
    if a <= maxRetries && run(a).Failure? && a < maxRetries {
      RetryFromShape(run, maxRetries, a + 1);
      var rest := RetryFrom(run, maxRetries, a + 1);
      var w := [a * 2000] + rest.waits;
      assert forall k :: 1 <= k < |w| ==> w[k] == rest.waits[k - 1] && (a + 1) + (k - 1) == a + k;
    }
  }

  /** The ending is decided by the last call: its results, or its error when it is attempt `maxRetries`; every earlier call failed. */
  lemma {:induction false} RetryFromEnding<R, E>(run: nat -> Attempt<R, E>, maxRetries: int, a: nat)
    requires a >= 1
    ensures var r := RetryFrom(run, maxRetries, a);
            var last := a + r.calls - 1;
            (forall k :: a <= k < last ==> run(k).Failure?)
            && (r.ending.Returned? ==> r.calls >= 1 && run(last) == Success(r.ending.value))
            && (r.ending.Thrown? ==> r.calls >= 1 && last == maxRetries && run(last) == Failure(r.ending.error))
    decreases maxRetries - a
  {
    if a <= maxRetries && run(a).Failure? && a < maxRetries {
      RetryFromEnding(run, maxRetries, a + 1);
    }
  }

  /** The wrapper: at most `maxRetries` runs, the first success returned, the last error rethrown, nothing returned when `maxRetries` is below one or NaN. */
  lemma WithRetryLaws<R, E>(run: nat -> Attempt<R, E>, maxRetries: Option<int>)
    ensures var r := WithRetry(run, maxRetries);
            (r.ending.NoResult? <==> maxRetries.None? || maxRetries.value < 1)
            && (r.ending.NoResult? ==> r.calls == 0)
            && (maxRetries.Some? ==> r.calls <= if maxRetries.value < 1 then 0 else maxRetries.value)
            && (forall k :: 1 <= k < r.calls ==> run(k).Failure?)
            && (r.ending.Returned? ==> run(r.calls) == Success(r.ending.value))
            && (r.ending.Thrown? ==> maxRetries == Some(r.calls) && run(r.calls) == Failure(r.ending.error))
            && forall k :: 0 <= k < |r.waits| ==> r.waits[k] == (k + 1) * 2000
  {
    if maxRetries.Some? {
      RetryFromShape(run, maxRetries.value, 1);
      RetryFromEnding(run, maxRetries.value, 1);
    }
  }

  /** `runGraphRAGWithRetry(docId, chunks, llm, maxRetries)`: the `for` loop with its early return and rethrow. */
  method RunWithRetry<R, E>(run: nat -> Attempt<R, E>, maxRetries: Option<int>)
    returns (ending: Ending<R, E>, calls: nat, waits: seq<int>)
    ensures RetryRun(ending, calls, waits) == WithRetry(run, maxRetries)
  {
    ending, calls, waits := NoResult, 0, [];
    if maxRetries.None? {
      return;
    }
    var max := maxRetries.value;
    ghost var total := RetryFrom(run, max, 1);
    var attempt := 1;
    while attempt <= max
      invariant attempt >= 1 && calls == attempt - 1
      invariant ending.NoResult?
      invariant var rest := RetryFrom(run, max, attempt);
                RetryRun(rest.ending, calls + rest.calls, waits + rest.waits) == total
      decreases max - attempt
    {
      var result := run(attempt);
      calls := calls + 1;
      if result.Success? {
        ending := Returned(result.value);
        return;
      }
      if attempt == max {
        ending := Thrown(result.error);
        return;
      }
      ghost var rest := RetryFrom(run, max, attempt + 1);
      ConcatAssoc(waits, [attempt * 2000], rest.waits);
      waits := waits + [attempt * 2000];
      attempt := attempt + 1;
    }
    assert waits + [] == waits;
  }
}
