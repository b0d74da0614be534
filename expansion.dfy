/**
 * The template language of `formatVersionNumber`: `${KEY}` or `${KEY, ARG}`
 * blocks, each replaced in turn, first block first, by a counter, a
 * calendar field, a formatted date or an environment value; `sizeTo` pads
 * numbers with zeros to the length of the trimmed ARG.
 */
module Expansion {
  import opened Wrappers
  import opened JavaLang
  import opened Builds
  import opened Override

  /**
   * The two copies of the loop differ in a few keys. The pipeline copy
   * (VersionNumberCommon) knows the week keys and substitutes the
   * project-start keys only when a start date is given; the freestyle copy
   * (VersionNumberBuilder) has no week keys and always has a start date.
   */
  datatype Dialect =
    | Pipeline(buildsThisWeek: Int32, pipelineStart: Option<Timestamp>)
    | Freestyle(freestyleStart: Timestamp)

  /**
   * What a replacement may read: the counters, the calendar fields of the
   * build date, the environment, and `formatDate`, which stands for
   * `SimpleDateFormat`: applied to `None` it is the locale's default format
   * of the build date, to `Some(pattern)` the build date in that pattern,
   * and `None` as a result means the pattern was rejected.
   */
  datatype FormatContext = FormatContext(
    dialect: Dialect,
    buildsToday: Int32, buildsThisMonth: Int32, buildsThisYear: Int32, buildsAllTime: Int32,
    buildDate: Timestamp,
    enVars: Env,
    formatDate: Option<string> -> Option<string>)

  /** The outcome of the loop: its text, an exception, or more replacements than the fuel allowed. */
  datatype Formatted = Done(text: string) | Thrown | OutOfFuel

  function ProjectStart(d: Dialect): Option<Timestamp>
  {
    match d
    case Pipeline(_, start) => start
    case Freestyle(start) => Some(start)
  }

  // ---------------------------------------------------------------- sizeTo

  /** `sizeTo(s, length)` as a function: zeros are put in front until `length` is reached. */
  function PadZeros(s: string, length: int): (r: string)
    ensures |r| == if length > |s| then length else |s|
    decreases length - |s|
  {
    if |s| < length then PadZeros("0" + s, length) else s
  }

  /** What `sizeTo` adds is zeros, all in front of the text it keeps. */
  lemma {:induction false} PadZerosShape(s: string, length: int)
    ensures PadZeros(s, length)[|PadZeros(s, length)| - |s|..] == s
    ensures forall i :: 0 <= i < |PadZeros(s, length)| - |s| ==> PadZeros(s, length)[i] == '0'
    decreases length - |s|
  {
    if |s| < length {
      PadZerosShape("0" + s, length);
      var r := PadZeros(s, length);
      assert r[|r| - |s|..] == r[|r| - |s| - 1..][1..];
    }
  }

  /** `sizeTo(s, length)`. */
  method SizeTo(s: string, length: int) returns (r: string)
    ensures r == PadZeros(s, length)
  {
    r := s;
    while |r| < length
      invariant PadZeros(r, length) == PadZeros(s, length)
      decreases length - |r|
    {
      r := "0" + r;
    }
  }

  /** A counter or calendar value: its decimal, zero-padded to the length of the argument. */
  function Padded(n: Int32, argumentString: string): (r: string)
    ensures |r| == if |argumentString| > |IntToString(n)| then |argumentString| else |IntToString(n)|
  {
    PadZeros(IntToString(n), |argumentString|)
  }

  // ----------------------------------------------------------- replacements

  /**
   * `BUILD_DATE_FORMATTED`: with an argument, the pattern is what lies
   * between its first two double quotes; when there are not two, the
   * `substring` call throws.
   */
  function DateFormatted(argumentString: string, formatDate: Option<string> -> Option<string>): (r: Option<string>)
    ensures argumentString == "" ==> r == formatDate(None)
  {
    if argumentString == "" then formatDate(None)
    else
      var open := IndexOf(argumentString, "\"", 0);
      var close := IndexOf(argumentString, "\"", open + 1);
      if open + 1 <= close then formatDate(Some(argumentString[open + 1..close])) else None
  }

  /**
   * The number a key stands for, when it is one of the numeric keys of the
   * dialect; every such value is written as its decimal, padded with zeros.
   */
  function NumberFor(expressionKey: string, ctx: FormatContext): (r: Option<Int32>)
    ensures r.Some? ==> expressionKey != "" && expressionKey != "BUILD_DATE_FORMATTED"
  {
    var date := ctx.buildDate;
    var start := ProjectStart(ctx.dialect);
    if expressionKey == "BUILD_DAY" then Some(date.dayOfMonth)
    else if expressionKey == "BUILD_WEEK" && ctx.dialect.Pipeline? then Some(date.weekOfYear)
    else if expressionKey == "BUILD_MONTH" then Some(Add32(date.month, 1))
    else if expressionKey == "BUILD_YEAR" then Some(date.year)
    else if expressionKey == "BUILDS_TODAY" then Some(ctx.buildsToday)
    else if expressionKey == "BUILDS_THIS_WEEK" && ctx.dialect.Pipeline? then Some(ctx.dialect.buildsThisWeek)
    else if expressionKey == "BUILDS_THIS_MONTH" then Some(ctx.buildsThisMonth)
    else if expressionKey == "BUILDS_THIS_YEAR" then Some(ctx.buildsThisYear)
    else if expressionKey == "BUILDS_ALL_TIME" then Some(ctx.buildsAllTime)
    else if expressionKey == "BUILDS_TODAY_Z" then Some(Sub32(ctx.buildsToday, 1))
    else if expressionKey == "BUILDS_THIS_MONTH_Z" then Some(Sub32(ctx.buildsThisMonth, 1))
    else if expressionKey == "BUILDS_THIS_YEAR_Z" then Some(Sub32(ctx.buildsThisYear, 1))
    else if expressionKey == "BUILDS_ALL_TIME_Z" then Some(Sub32(ctx.buildsAllTime, 1))
    else if expressionKey == "MONTHS_SINCE_PROJECT_START" && start.Some? then
      Some(Add32(Sub32(date.month, start.value.month), Mul32(Sub32(date.year, start.value.year), 12)))
    else if expressionKey == "YEARS_SINCE_PROJECT_START" && start.Some? then
      Some(Sub32(date.year, start.value.year))
    else None
  }

  /**
   * The value of a block with key `expressionKey`; `None` when computing it
   * throws. A key that is neither empty, nor the date, nor numeric is looked
   * up in the environment, and an unset variable gives the empty string.
   */
  function ReplaceValue(expressionKey: string, argumentString: string, ctx: FormatContext): (r: Option<string>)
    ensures r.None? ==> expressionKey == "BUILD_DATE_FORMATTED"
  {
    if expressionKey == "" then Some("")
    else if expressionKey == "BUILD_DATE_FORMATTED" then DateFormatted(argumentString, ctx.formatDate)
    else match NumberFor(expressionKey, ctx)
      case Some(n) => Some(Padded(n, argumentString))
      case None => Some(EnvValue(ctx, expressionKey))
  }

  /** The value of an environment variable, the empty string when it is unset. */
  function EnvValue(ctx: FormatContext, name: string): (r: string)
    ensures name !in ctx.enVars ==> r == ""
    ensures name in ctx.enVars ==> r == ctx.enVars[name]
  {
    if name in ctx.enVars then ctx.enVars[name] else ""
  }

  // ------------------------------------------------------------------ blocks

  /** A closed block: where it ends (one past its `}`), its key and its trimmed argument. */
  datatype Block = Block(blockEnd: nat, expressionKey: string, argumentString: string)

  /**
   * The block that starts at `blockStart`, as the loop splits it: up to the
   * first `}` after the start, the key ending at the first `,` if that
   * comes before the `}`. `None` when the block is never closed.
   */
  function BlockAt(vnf: string, blockStart: nat): (r: Option<Block>)
    requires OccursAt(vnf, "${", blockStart)
    ensures r.Some? ==> blockStart + 3 <= r.value.blockEnd <= |vnf| && vnf[r.value.blockEnd - 1] == '}'
  {
    OccursAtChars(vnf, "${", blockStart);
    var close := IndexOf(vnf, "}", blockStart);
    var blockEnd := close + 1;
    if blockEnd <= blockStart then None
    else
      OccursAtChars(vnf, "}", close);
      var argumentStart := IndexOf(vnf, ",", blockStart);
      if argumentStart > 0 && argumentStart < blockEnd then
        OccursAtChars(vnf, ",", argumentStart);
        Some(Block(blockEnd, vnf[blockStart + 2..argumentStart], Trim(vnf[argumentStart + 1..blockEnd - 1])))
      else
        Some(Block(blockEnd, vnf[blockStart + 2..blockEnd - 1], ""))
  }

  /** The first block start, `vnf.indexOf("${")`. */
  function FirstBlock(vnf: string): int
  {
    IndexOf(vnf, "${", 0)
  }

  /** One pass of the loop body: no block, an unclosed one, a value that throws, or the text with the first block replaced. */
  datatype Scan = NoBlock | Unclosed(prefix: string) | Failed | Replaced(next: string)

  /** The loop body on `vnf`: find the first block and replace it by its value. */
  function ScanFirst(vnf: string, ctx: FormatContext): (r: Scan)
    ensures r.NoBlock? <==> FirstBlock(vnf) < 0
  {
    var blockStart := FirstBlock(vnf);
    if blockStart < 0 then NoBlock
    else
      match BlockAt(vnf, blockStart)
      case None => Unclosed(vnf[..blockStart])
      case Some(block) =>
        match ReplaceValue(block.expressionKey, block.argumentString, ctx)
        case None => Failed
        case Some(value) => Replaced(vnf[..blockStart] + value + vnf[block.blockEnd..])
  }

  /** The loop body as a value, so that the loop can be stated once for any body. */
  function Scanner(ctx: FormatContext): (r: string -> Scan)
    ensures forall vnf :: r(vnf) == ScanFirst(vnf, ctx)
  {
    vnf => ScanFirst(vnf, ctx)
  }

  /**
   * Running a loop body until it finds no block: an unclosed block cuts the
   * text, a throwing value ends the loop with the exception, and `fuel`
   * bounds the number of replacements.
   */
  function Iterate(step: string -> Scan, vnf: string, fuel: nat): (r: Formatted)
    ensures r == OutOfFuel ==> step(vnf).Replaced?
    decreases fuel
  {
    match step(vnf)
    case NoBlock => Done(vnf)
    case Unclosed(prefix) => Done(prefix)
    case Failed => Thrown
    case Replaced(next) => if fuel == 0 then OutOfFuel else Iterate(step, next, fuel - 1)
  }

  /**
   * The loop of `formatVersionNumber` as a function: replace the first
   * block, then start again from the beginning of the new text.
   */
  function Expand(vnf: string, ctx: FormatContext, fuel: nat): (r: Formatted)
    ensures r == OutOfFuel ==> ScanFirst(vnf, ctx).Replaced?
  {
    Iterate(Scanner(ctx), vnf, fuel)
  }

  /** `Iterate` unfolded once: what one pass of the loop body leads to. */
  lemma IterateUnfolds(step: string -> Scan, vnf: string, fuel: nat)
    ensures Iterate(step, vnf, fuel) == match step(vnf)
      case NoBlock => Done(vnf)
      case Unclosed(prefix) => Done(prefix)
      case Failed => Thrown
      case Replaced(next) => if fuel == 0 then OutOfFuel else Iterate(step, next, fuel - 1)
  {
  }

  /** `Expand` unfolded once: what one pass of the loop body leads to. */
  lemma ExpandUnfolds(vnf: string, ctx: FormatContext, fuel: nat)
    ensures Expand(vnf, ctx, fuel) == match ScanFirst(vnf, ctx)
      case NoBlock => Done(vnf)
      case Unclosed(prefix) => Done(prefix)
      case Failed => Thrown
      case Replaced(next) => if fuel == 0 then OutOfFuel else Expand(next, ctx, fuel - 1)
  {
    assert Scanner(ctx)(vnf) == ScanFirst(vnf, ctx);
    IterateUnfolds(Scanner(ctx), vnf, fuel);
  }

  /**
   * The `do`/`while` loop for a given loop body: run it, and as long as it
   * replaced a block and fuel is left, run it again on the new text.
   */
  method RunScans(step: string -> Scan, format: string, fuel: nat) returns (r: Formatted)
    ensures r == Iterate(step, format, fuel)
  {
    var vnf := format;
    var remaining := fuel;
    var scan := step(vnf);
    while scan.Replaced? && remaining > 0
      invariant scan == step(vnf)
      invariant Iterate(step, vnf, remaining) == Iterate(step, format, fuel)
      decreases remaining
    {
      vnf := scan.next;
      remaining := remaining - 1;
      scan := step(vnf);
    }
    match scan
    case NoBlock => r := Done(vnf);
    case Unclosed(prefix) => r := Done(prefix);
    case Failed => r := Thrown;
    case Replaced(_) => r := OutOfFuel;
  }

  /** The loop of `formatVersionNumber`, after the format string has been prepared. */
  method ExpandBlocks(format: string, ctx: FormatContext, fuel: nat) returns (r: Formatted)
    ensures r == Expand(format, ctx, fuel)
  {
    r := RunScans(Scanner(ctx), format, fuel);
  }

  // ------------------------------------------------------------ properties

  /** A text without a block start comes out unchanged, whatever the fuel. */
  lemma NoBlockUnchanged(vnf: string, ctx: FormatContext, fuel: nat)
    requires !Contains(vnf, "${")
    ensures Expand(vnf, ctx, fuel) == Done(vnf)
  {
    IndexOfFindsAny(vnf, "${");
    ExpandUnfolds(vnf, ctx, fuel);
  }

  /** The text before the first block start holds no block start. */
  lemma BeforeFirstBlock(vnf: string)
    requires FirstBlock(vnf) >= 0
    ensures !Contains(vnf[..FirstBlock(vnf)], "${")
  {
    var blockStart := FirstBlock(vnf);
    var prefix := vnf[..blockStart];
    IndexOfIsFirst(vnf, "${", 0);
    forall i | 0 <= i < |prefix| && OccursAt(prefix, "${", i)
      ensures false
    {
      assert prefix[i..i + 2] == vnf[i..i + 2];
      assert OccursAt(vnf, "${", i);
    }
  }

  /** A property every text the loop body stops at has, holds of whatever the loop returns. */
  lemma {:induction false} IterateDoneHas(step: string -> Scan, vnf: string, fuel: nat, property: string -> bool)
    requires forall s :: step(s).NoBlock? ==> property(s)
    requires forall s :: step(s).Unclosed? ==> property(step(s).prefix)
    ensures Iterate(step, vnf, fuel).Done? ==> property(Iterate(step, vnf, fuel).text)
    decreases fuel
  {
    if step(vnf).Replaced? && fuel > 0 {
      IterateDoneHas(step, step(vnf).next, fuel - 1, property);
    }
  }

  /** Where the loop body stops, no block start is left. */
  lemma StopsWithoutBlock(vnf: string, ctx: FormatContext)
    ensures ScanFirst(vnf, ctx).NoBlock? ==> !Contains(vnf, "${")
    ensures ScanFirst(vnf, ctx).Unclosed? ==> !Contains(ScanFirst(vnf, ctx).prefix, "${")
  {
    if FirstBlock(vnf) < 0 {
      IndexOfFindsAny(vnf, "${");
    } else {
      BeforeFirstBlock(vnf);
    }
  }

  /** Whatever the loop returns holds no block start: every `${` was replaced, or the text was cut before it. */
  lemma ExpandLeavesNoBlock(vnf: string, ctx: FormatContext, fuel: nat)
    ensures Expand(vnf, ctx, fuel).Done? ==> !Contains(Expand(vnf, ctx, fuel).text, "${")
  {
    var step := Scanner(ctx);
    var noBlock := (s: string) => !Contains(s, "${");
    forall s ensures step(s).NoBlock? ==> noBlock(s) {
      StopsWithoutBlock(s, ctx);
    }
    forall s ensures step(s).Unclosed? ==> noBlock(step(s).prefix) {
      StopsWithoutBlock(s, ctx);
    }
    IterateDoneHas(step, vnf, fuel, noBlock);
  }

  /** A first block that is never closed cuts the text off where it starts. */
  lemma UnclosedBlockTruncates(vnf: string, ctx: FormatContext, fuel: nat)
    requires FirstBlock(vnf) >= 0
    requires forall i :: FirstBlock(vnf) <= i < |vnf| ==> vnf[i] != '}'
    ensures Expand(vnf, ctx, fuel) == Done(vnf[..FirstBlock(vnf)])
  {
    IndexOfAbsent(vnf, '}', FirstBlock(vnf));
    ExpandUnfolds(vnf, ctx, fuel);
  }

  // ------------------------------------------------------------ values

  /** A zero in front does not change the value of a string of digits. */
  lemma {:induction false} LeadingZeroValue(s: string)
    requires AllDigits(s)
    ensures AllDigits("0" + s) && DigitsValue("0" + s) == DigitsValue(s)
    decreases |s|
  {
    if s == [] {
      assert DigitsValue("0") == DigitsValue("0"[..0]) * 10 + DigitValue('0');
    } else {
      var front := s[..|s| - 1];
      LeadingZeroValue(front);
      assert ("0" + s)[..|s|] == "0" + front;
    }
  }

  /** `sizeTo` keeps the value of a string of digits. */
  lemma {:induction false} PadZerosValue(s: string, length: int)
    requires AllDigits(s)
    ensures AllDigits(PadZeros(s, length)) && DigitsValue(PadZeros(s, length)) == DigitsValue(s)
    decreases length - |s|
  {
    if |s| < length {
      LeadingZeroValue(s);
      PadZerosValue("0" + s, length);
    }
  }

  /**
   * A non-negative number written by a block reads back as itself, and is
   * exactly as long as the argument when its decimal is not longer.
   */
  lemma PaddedParses(n: Int32, argumentString: string)
    requires n >= 0
    ensures ParseInt(Padded(n, argumentString)) == Some(n)
    ensures |IntToString(n)| <= |argumentString| ==> |Padded(n, argumentString)| == |argumentString|
  {
    NatToDigitsValue(n);
    PadZerosValue(IntToString(n), |argumentString|);
  }

  /** A negative number padded past its length gets its zeros in front of the sign, and no longer parses. */
  lemma NegativePaddedIsNoNumber(n: Int32, argumentString: string)
    requires n < 0 && |IntToString(n)| < |argumentString|
    ensures Padded(n, argumentString)[0] == '0'
    ensures ParseInt(Padded(n, argumentString)) == None
  {
    var digits := IntToString(n);
    var r := Padded(n, argumentString);
    PadZerosShape(digits, |argumentString|);
    var k := |r| - |digits|;
    assert r[k] == r[k..][0] == '-';
  }

  /**
   * A numeric key is replaced by its number, written by `sizeTo`; the
   * numeric keys are neither the empty key nor the date key.
   */
  lemma NumericKeyIsPadded(expressionKey: string, argumentString: string, ctx: FormatContext)
    requires NumberFor(expressionKey, ctx).Some?
    ensures ReplaceValue(expressionKey, argumentString, ctx)
            == Some(Padded(NumberFor(expressionKey, ctx).value, argumentString))
  {
    assert expressionKey != "";
    assert expressionKey != "BUILD_DATE_FORMATTED";
  }

  /** Each `_Z` key is one less than its counter key, for counters from 1 on. */
  lemma ZeroBasedKeys(ctx: FormatContext)
    requires ctx.buildsToday >= 1 && ctx.buildsThisMonth >= 1 && ctx.buildsThisYear >= 1 && ctx.buildsAllTime >= 1
    ensures NumberFor("BUILDS_TODAY_Z", ctx) == Some(NumberFor("BUILDS_TODAY", ctx).value - 1)
    ensures NumberFor("BUILDS_THIS_MONTH_Z", ctx) == Some(NumberFor("BUILDS_THIS_MONTH", ctx).value - 1)
    ensures NumberFor("BUILDS_THIS_YEAR_Z", ctx) == Some(NumberFor("BUILDS_THIS_YEAR", ctx).value - 1)
    ensures NumberFor("BUILDS_ALL_TIME_Z", ctx) == Some(NumberFor("BUILDS_ALL_TIME", ctx).value - 1)
  {
  }

  /** The counter keys read the counters; the week counter exists in the pipeline dialect only. */
  lemma CounterKeys(ctx: FormatContext)
    ensures NumberFor("BUILDS_TODAY", ctx) == Some(ctx.buildsToday)
    ensures NumberFor("BUILDS_THIS_MONTH", ctx) == Some(ctx.buildsThisMonth)
    ensures NumberFor("BUILDS_THIS_YEAR", ctx) == Some(ctx.buildsThisYear)
    ensures NumberFor("BUILDS_ALL_TIME", ctx) == Some(ctx.buildsAllTime)
    ensures ctx.dialect.Pipeline? ==> NumberFor("BUILDS_THIS_WEEK", ctx) == Some(ctx.dialect.buildsThisWeek)
    ensures ctx.dialect.Freestyle? ==> NumberFor("BUILDS_THIS_WEEK", ctx).None?
  {
  }

  /**
   * The calendar keys: the day and year as the calendar gives them, the
   * month counted from 1, and, in the pipeline dialect only, the week of year.
   */
  lemma CalendarKeys(ctx: FormatContext)
    requires 0 <= ctx.buildDate.month <= 11
    ensures NumberFor("BUILD_DAY", ctx) == Some(ctx.buildDate.dayOfMonth)
    ensures NumberFor("BUILD_MONTH", ctx) == Some(ctx.buildDate.month + 1)
    ensures NumberFor("BUILD_YEAR", ctx) == Some(ctx.buildDate.year)
    ensures ctx.dialect.Pipeline? ==> NumberFor("BUILD_WEEK", ctx) == Some(ctx.buildDate.weekOfYear)
    ensures ctx.dialect.Freestyle? ==> NumberFor("BUILD_WEEK", ctx).None?
  {
  }

  /**
   * With a project start date, the months and years since it; the month
   * difference counts twelve for each year between the two dates. Without
   * one, neither key is numeric.
   */
  lemma ProjectStartKeys(ctx: FormatContext)
    requires var start := ProjectStart(ctx.dialect);
             start.Some? ==>
               && 0 <= ctx.buildDate.month <= 11 && 0 <= start.value.month <= 11
               && 0 <= ctx.buildDate.year <= 1_000_000 && 0 <= start.value.year <= 1_000_000
    ensures var start := ProjectStart(ctx.dialect);
            start.Some? ==>
              && NumberFor("MONTHS_SINCE_PROJECT_START", ctx)
                 == Some((ctx.buildDate.month - start.value.month) + (ctx.buildDate.year - start.value.year) * 12)
              && NumberFor("YEARS_SINCE_PROJECT_START", ctx) == Some(ctx.buildDate.year - start.value.year)
    ensures ProjectStart(ctx.dialect).None? ==>
              NumberFor("MONTHS_SINCE_PROJECT_START", ctx).None? && NumberFor("YEARS_SINCE_PROJECT_START", ctx).None?
  {
  }

  /** Every key the loop knows; any other key is looked up in the environment. */
  const KnownKeys: set<string> := {
    "", "BUILD_DATE_FORMATTED", "BUILD_DAY", "BUILD_WEEK", "BUILD_MONTH", "BUILD_YEAR",
    "BUILDS_TODAY", "BUILDS_THIS_WEEK", "BUILDS_THIS_MONTH", "BUILDS_THIS_YEAR", "BUILDS_ALL_TIME",
    "BUILDS_TODAY_Z", "BUILDS_THIS_MONTH_Z", "BUILDS_THIS_YEAR_Z", "BUILDS_ALL_TIME_Z",
    "MONTHS_SINCE_PROJECT_START", "YEARS_SINCE_PROJECT_START"
  }

  /**
   * A key the loop does not know, or a numeric key the dialect lacks, is
   * replaced by the environment value of that name, and by the empty string
   * when there is none; the argument is not used. An empty key is replaced
   * by the empty string.
   */
  lemma OtherKeysReadEnvironment(expressionKey: string, argumentString: string, ctx: FormatContext)
    requires expressionKey != "" && expressionKey != "BUILD_DATE_FORMATTED" && NumberFor(expressionKey, ctx).None?
    ensures ReplaceValue(expressionKey, argumentString, ctx) == Some(EnvValue(ctx, expressionKey))
    ensures expressionKey !in ctx.enVars ==> ReplaceValue(expressionKey, argumentString, ctx) == Some("")
    ensures ReplaceValue("", argumentString, ctx) == Some("")
  {
  }

  /** An unknown key is not numeric. */
  lemma UnknownKeyIsNotNumeric(expressionKey: string, ctx: FormatContext)
    requires expressionKey !in KnownKeys
    ensures NumberFor(expressionKey, ctx).None?
  {
  }

  /** With an argument, the date is formatted with the pattern between its first two double quotes. */
  lemma DatePatternBetweenQuotes(before: string, pattern: string, after: string,
                                 formatDate: Option<string> -> Option<string>)
    requires '"' !in before && '"' !in pattern
    ensures DateFormatted(before + "\"" + pattern + "\"" + after, formatDate) == formatDate(Some(pattern))
  {
    var arg := before + "\"" + pattern + "\"" + after;
    var open := |before|;
    var close := open + 1 + |pattern|;
    assert arg[..open] == before && arg[open] == '"';
    IndexOfChar(arg, '"', 0, open);
    assert arg[open + 1..close] == pattern && arg[close] == '"';
    IndexOfChar(arg, '"', open + 1, close);
  }

  /** An argument with fewer than two double quotes makes the date key throw. */
  lemma DateNeedsTwoQuotes(argumentString: string, formatDate: Option<string> -> Option<string>)
    requires argumentString != ""
    requires forall i :: 0 <= i < |argumentString| && argumentString[i] == '"' ==> '"' !in argumentString[i + 1..]
    ensures DateFormatted(argumentString, formatDate) == None
  {
    var open := IndexOf(argumentString, "\"", 0);
    if open >= 0 {
      OccursAtChar(argumentString, '"', open);
      IndexOfCharBeyond(argumentString, '"', open + 1, |argumentString|);
    }
  }

  // ----------------------------------------------------------- block syntax

  /** How a block is written: `${KEY}`, or `${KEY,ARG}` when it has an argument. */
  function BlockText(expressionKey: string, argument: Option<string>): string
  {
    "${" + expressionKey + (match argument case None => "" case Some(a) => "," + a) + "}"
  }

  /** The argument string the loop reads from a written argument: trimmed, or "" when there is none. */
  function ArgumentOf(argument: Option<string>): string
  {
    match argument
    case None => ""
    case Some(a) => Trim(a)
  }

  /** The pieces of a written block, by position. */
  lemma BlockTextParts(expressionKey: string, argument: Option<string>)
    ensures var text := BlockText(expressionKey, argument);
            var keyEnd := 2 + |expressionKey|;
            && keyEnd < |text| && text[..2] == "${" && text[2..keyEnd] == expressionKey
            && text[|text| - 1] == '}'
            && (argument.None? ==> keyEnd == |text| - 1)
            && (argument.Some? ==> text[keyEnd] == ',' && text[keyEnd + 1..|text| - 1] == argument.value)
  {
    var text := BlockText(expressionKey, argument);
    var mid := match argument case None => "" case Some(a) => "," + a;
    assert text == "${" + expressionKey + mid + "}";
    assert text[..2] == "${";
    assert text[2..2 + |expressionKey|] == expressionKey;
    if argument.Some? {
      assert text[3 + |expressionKey|..|text| - 1] == argument.value;
    }
  }

  /** Before its last character a written block holds no `}`, and its key part no `,`. */
  lemma BlockTextSeparators(expressionKey: string, argument: Option<string>)
    requires '}' !in expressionKey && ',' !in expressionKey
    requires argument.Some? ==> '}' !in argument.value
    ensures var text := BlockText(expressionKey, argument);
            && '}' !in text[..|text| - 1]
            && ',' !in text[..2 + |expressionKey|]
            && (argument.None? ==> ',' !in text)
  {
    var text := BlockText(expressionKey, argument);
    var mid := match argument case None => "" case Some(a) => "," + a;
    assert text == "${" + expressionKey + mid + "}";
    assert text[..|text| - 1] == "${" + expressionKey + mid;
    assert text[..2 + |expressionKey|] == "${" + expressionKey;
  }

  /** A stretch of the middle part of `pre + text + post` is that stretch of `text`. */
  lemma SliceOfMiddle(pre: string, text: string, post: string, i: nat, j: nat)
    requires i <= j <= |text|
    ensures (pre + text + post)[|pre| + i..|pre| + j] == text[i..j]
  {
    var vnf := pre + text + post;
    assert forall k :: 0 <= k < j - i ==> vnf[|pre| + i..|pre| + j][k] == text[i..j][k];
  }

  /** A text that starts with `${` and ends with its first `}` is found as a block start and closed at its end. */
  lemma CloseOfText(pre: string, text: string, post: string)
    requires |text| >= 2 && text[..2] == "${" && text[|text| - 1] == '}' && '}' !in text[..|text| - 1]
    ensures OccursAt(pre + text + post, "${", |pre|)
    ensures IndexOf(pre + text + post, "}", |pre|) == |pre| + |text| - 1
  {
    var vnf := pre + text + post;
    SliceOfMiddle(pre, text, post, 0, 2);
    SliceOfMiddle(pre, text, post, 0, |text| - 1);
    assert vnf[|pre| + |text| - 1] == text[|text| - 1];
    IndexOfChar(vnf, '}', |pre|, |pre| + |text| - 1);
  }

  /** The first `,` of the middle part of a text is where the search from its start lands. */
  lemma CommaOfText(pre: string, text: string, post: string, comma: nat)
    requires comma < |text| && text[comma] == ',' && ',' !in text[..comma]
    ensures IndexOf(pre + text + post, ",", |pre|) == |pre| + comma
  {
    var vnf := pre + text + post;
    SliceOfMiddle(pre, text, post, 0, comma);
    assert vnf[|pre| + comma] == text[comma];
    IndexOfChar(vnf, ',', |pre|, |pre| + comma);
  }

  /** A middle part without `,` is not where the search from its start lands. */
  lemma NoCommaInText(pre: string, text: string, post: string)
    requires ',' !in text
    ensures var argumentStart := IndexOf(pre + text + post, ",", |pre|);
            argumentStart == -1 || argumentStart >= |pre| + |text|
  {
    SliceOfMiddle(pre, text, post, 0, |text|);
    assert text[..|text|] == text;
    IndexOfCharBeyond(pre + text + post, ',', |pre|, |pre| + |text|);
  }

  /** A closed text with a `,` at `keyEnd` splits there: key before it, trimmed argument after it. */
  lemma BlockAtWithComma(pre: string, text: string, post: string, keyEnd: nat)
    requires 2 <= keyEnd < |text| - 1 && text[..2] == "${" && text[|text| - 1] == '}'
    requires '}' !in text[..|text| - 1] && text[keyEnd] == ',' && ',' !in text[..keyEnd]
    ensures OccursAt(pre + text + post, "${", |pre|)
    ensures BlockAt(pre + text + post, |pre|)
            == Some(Block(|pre| + |text|, text[2..keyEnd], Trim(text[keyEnd + 1..|text| - 1])))
  {
    CloseOfText(pre, text, post);
    CommaOfText(pre, text, post, keyEnd);
    SliceOfMiddle(pre, text, post, 2, keyEnd);
    SliceOfMiddle(pre, text, post, keyEnd + 1, |text| - 1);
  }

  /** A closed text without `,` is all key. */
  lemma BlockAtWithoutComma(pre: string, text: string, post: string)
    requires |text| >= 3 && text[..2] == "${" && text[|text| - 1] == '}'
    requires '}' !in text[..|text| - 1] && ',' !in text
    ensures OccursAt(pre + text + post, "${", |pre|)
    ensures BlockAt(pre + text + post, |pre|) == Some(Block(|pre| + |text|, text[2..|text| - 1], ""))
  {
    CloseOfText(pre, text, post);
    NoCommaInText(pre, text, post);
    SliceOfMiddle(pre, text, post, 2, |text| - 1);
  }

  /**
   * Splitting a written block gives back its key and trimmed argument, as
   * long as the key holds no `}` or `,` and the argument no `}`.
   */
  lemma BlockAtText(pre: string, expressionKey: string, argument: Option<string>, post: string)
    requires '}' !in expressionKey && ',' !in expressionKey
    requires argument.Some? ==> '}' !in argument.value
    ensures OccursAt(pre + BlockText(expressionKey, argument) + post, "${", |pre|)
    ensures BlockAt(pre + BlockText(expressionKey, argument) + post, |pre|)
            == Some(Block(|pre| + |BlockText(expressionKey, argument)|, expressionKey, ArgumentOf(argument)))
  {
    var text := BlockText(expressionKey, argument);
    BlockTextParts(expressionKey, argument);
    BlockTextSeparators(expressionKey, argument);
    if argument.Some? {
      BlockAtWithComma(pre, text, post, 2 + |expressionKey|);
    } else {
      BlockAtWithoutComma(pre, text, post);
    }
  }

  /** When the text before a block holds no block start, that block is the one the loop finds first. */
  lemma FirstBlockAfter(pre: string, rest: string)
    requires !Contains(pre, "${") && OccursAt(pre + rest, "${", |pre|)
    ensures FirstBlock(pre + rest) == |pre|
  {
    var vnf := pre + rest;
    forall j | 0 <= j < |pre|
      ensures !OccursAt(vnf, "${", j)
    {
      if j + 1 < |pre| {
        assert vnf[j..j + 2] == pre[j..j + 2];
        assert !OccursAt(pre, "${", j);
      } else {
        OccursAtChars(vnf, "${", |pre|);
        assert vnf[j + 1] == '$';
        assert vnf[j..j + 2][1] == '$';
      }
    }
    IndexOfAt(vnf, "${", 0, |pre|);
  }

  /**
   * One pass of the loop on `pre`, a written block and `post`: the block is
   * replaced by its value, or the value throws.
   */
  lemma ScanOfBlockText(pre: string, expressionKey: string, argument: Option<string>, post: string,
                        ctx: FormatContext)
    requires !Contains(pre, "${")
    requires '}' !in expressionKey && ',' !in expressionKey
    requires argument.Some? ==> '}' !in argument.value
    ensures ScanFirst(pre + BlockText(expressionKey, argument) + post, ctx)
            == match ReplaceValue(expressionKey, ArgumentOf(argument), ctx)
               case None => Failed
               case Some(value) => Replaced(pre + value + post)
  {
    var text := BlockText(expressionKey, argument);
    var vnf := pre + text + post;
    assert vnf[..|pre|] == pre;
    assert vnf[|pre| + |text|..] == post;
    assert pre + text + post == pre + (text + post);
    BlockAtText(pre, expressionKey, argument, post);
    FirstBlockAfter(pre, text + post);
    ScanOfClosedBlock(vnf, ctx, Block(|pre| + |text|, expressionKey, ArgumentOf(argument)));
  }

  /** One pass on a text whose first block start opens a closed block. */
  lemma ScanOfClosedBlock(vnf: string, ctx: FormatContext, block: Block)
    requires FirstBlock(vnf) >= 0 && OccursAt(vnf, "${", FirstBlock(vnf))
    requires BlockAt(vnf, FirstBlock(vnf)) == Some(block)
    ensures ScanFirst(vnf, ctx)
            == match ReplaceValue(block.expressionKey, block.argumentString, ctx)
               case None => Failed
               case Some(value) => Replaced(vnf[..FirstBlock(vnf)] + value + vnf[block.blockEnd..])
  {
  }

  /** A text without `$` holds no block start. */
  lemma NoDollarNoBlock(s: string)
    requires '$' !in s
    ensures !Contains(s, "${")
  {
    forall i | 0 <= i < |s| && OccursAt(s, "${", i)
      ensures false
    {
      OccursAtChars(s, "${", i);
    }
  }

  /**
   * The loop on `pre`, a written block and `post`: the block is replaced by
   * its value and the loop goes on from the start of the new text, or the
   * value throws.
   */
  lemma ExpandsBlockText(pre: string, expressionKey: string, argument: Option<string>, post: string,
                         ctx: FormatContext, fuel: nat)
    requires !Contains(pre, "${") && fuel >= 1
    requires '}' !in expressionKey && ',' !in expressionKey
    requires argument.Some? ==> '}' !in argument.value
    ensures Expand(pre + BlockText(expressionKey, argument) + post, ctx, fuel)
            == match ReplaceValue(expressionKey, ArgumentOf(argument), ctx)
               case None => Thrown
               case Some(value) => Expand(pre + value + post, ctx, fuel - 1)
  {
    ScanOfBlockText(pre, expressionKey, argument, post, ctx);
    ExpandUnfolds(pre + BlockText(expressionKey, argument) + post, ctx, fuel);
  }

  /** A text without a block start is left as it is by one pass. */
  lemma ScanWithoutBlock(vnf: string, ctx: FormatContext)
    requires !Contains(vnf, "${")
    ensures ScanFirst(vnf, ctx) == NoBlock
  {
    IndexOfFindsAny(vnf, "${");
  }

  /** A numeric block is replaced by its number, padded to its trimmed argument. */
  lemma ScanOfNumberBlock(pre: string, expressionKey: string, argument: string, post: string, ctx: FormatContext)
    requires !Contains(pre, "${")
    requires '}' !in expressionKey && ',' !in expressionKey && '}' !in argument
    requires NumberFor(expressionKey, ctx).Some?
    ensures ScanFirst(pre + BlockText(expressionKey, Some(argument)) + post, ctx)
            == Replaced(pre + Padded(NumberFor(expressionKey, ctx).value, Trim(argument)) + post)
  {
    ScanOfBlockText(pre, expressionKey, Some(argument), post, ctx);
    NumericKeyIsPadded(expressionKey, Trim(argument), ctx);
  }

  /** A date block is replaced by the date in the pattern its trimmed argument quotes, or throws. */
  lemma ScanOfDateBlock(pre: string, argument: string, post: string, ctx: FormatContext)
    requires !Contains(pre, "${") && '}' !in argument
    ensures ScanFirst(pre + BlockText("BUILD_DATE_FORMATTED", Some(argument)) + post, ctx)
            == match DateFormatted(Trim(argument), ctx.formatDate)
               case None => Failed
               case Some(date) => Replaced(pre + date + post)
  {
    assert '}' !in "BUILD_DATE_FORMATTED" && ',' !in "BUILD_DATE_FORMATTED";
    ScanOfBlockText(pre, "BUILD_DATE_FORMATTED", Some(argument), post, ctx);
  }

  lemma TodayKey(ctx: FormatContext)
    ensures '}' !in "BUILDS_TODAY" && ',' !in "BUILDS_TODAY"
    ensures NumberFor("BUILDS_TODAY", ctx) == Some(ctx.buildsToday)
  {
  }

  /** The argument ` XX` pads a one-digit number to two digits. */
  lemma TwoDigitsOf(n: Int32)
    requires 0 <= n <= 9
    ensures '}' !in " XX"
    ensures Padded(n, Trim(" XX")) == "0" + [DigitChar(n)]
  {
    TrimLeadingBlank("XX");
    TrimOfTrimmed("XX");
    assert IntToString(n) == [DigitChar(n)];
    assert PadZeros([DigitChar(n)], 2) == PadZeros("0" + [DigitChar(n)], 2);
  }

  /** `${BUILDS_TODAY, XX}` after a dollar-free text is replaced by a one-digit counter with a leading zero. */
  lemma TwoDigitCounterScan(pre: string, ctx: FormatContext)
    requires '$' !in pre && 0 <= ctx.buildsToday <= 9
    ensures ScanFirst(pre + BlockText("BUILDS_TODAY", Some(" XX")), ctx)
            == Replaced(pre + "0" + [DigitChar(ctx.buildsToday)])
  {
    var counter := BlockText("BUILDS_TODAY", Some(" XX"));
    assert pre + counter + "" == pre + counter;
    assert pre + ("0" + [DigitChar(ctx.buildsToday)]) + "" == pre + "0" + [DigitChar(ctx.buildsToday)];
    NoDollarNoBlock(pre);
    TodayKey(ctx);
    TwoDigitsOf(ctx.buildsToday);
    ScanOfNumberBlock(pre, "BUILDS_TODAY", " XX", "", ctx);
  }

  lemma DigitsHaveNoBlock(pre: string, n: Int32)
    requires '$' !in pre && 0 <= n <= 9
    ensures !Contains(pre + "0" + [DigitChar(n)], "${")
  {
    NoDollarNoBlock(pre + "0" + [DigitChar(n)]);
  }

  /** The argument ` "pattern"`, for a pattern without quotes or braces, formats the date with that pattern. */
  lemma QuotedPattern(pattern: string, formatDate: Option<string> -> Option<string>)
    requires '"' !in pattern && '}' !in pattern
    ensures '}' !in " \"" + pattern + "\""
    ensures DateFormatted(Trim(" \"" + pattern + "\""), formatDate) == formatDate(Some(pattern))
  {
    var quoted := "\"" + pattern + "\"";
    assert " \"" + pattern + "\"" == " " + quoted;
    TrimLeadingBlank(quoted);
    TrimOfTrimmed(quoted);
    assert "" + "\"" + pattern + "\"" + "" == quoted;
    DatePatternBetweenQuotes("", pattern, "", formatDate);
  }

  /** A leading `${BUILD_DATE_FORMATTED, "pattern"}` is replaced by the date in that pattern. */
  lemma LeadingDateScan(pattern: string, rest: string, ctx: FormatContext, date: string)
    requires '"' !in pattern && '}' !in pattern
    requires ctx.formatDate(Some(pattern)) == Some(date)
    ensures ScanFirst(BlockText("BUILD_DATE_FORMATTED", Some(" \"" + pattern + "\"")) + rest, ctx)
            == Replaced(date + rest)
  {
    var argument := " \"" + pattern + "\"";
    var text := BlockText("BUILD_DATE_FORMATTED", Some(argument));
    assert "" + text + rest == text + rest;
    assert "" + date + rest == date + rest;
    NoDollarNoBlock("");
    QuotedPattern(pattern, ctx.formatDate);
    ScanOfDateBlock("", argument, rest, ctx);
  }

  /** Two replacements and then no block: the loop ends with the second replacement's text. */
  lemma IterateTwice(step: string -> Scan, first: string, second: string, third: string, fuel: nat)
    requires step(first) == Replaced(second) && step(second) == Replaced(third) && step(third) == NoBlock
    requires fuel >= 2
    ensures Iterate(step, first, fuel) == Done(third)
  {
    assert Iterate(step, second, fuel - 1) == Done(third);
  }

  /**
   * A format like that of the pipeline tests, `${BUILD_DATE_FORMATTED, "pattern"}-${BUILDS_TODAY, XX}`:
   * the build date in that pattern, a dash, and the builds-today counter in
   * two digits, so "-01" for the first build of the day.
   */
  lemma DateAndTwoDigitCounter(pattern: string, ctx: FormatContext, date: string, fuel: nat)
    requires '"' !in pattern && '}' !in pattern
    requires ctx.formatDate(Some(pattern)) == Some(date) && '$' !in date
    requires 0 <= ctx.buildsToday <= 9 && fuel >= 2
    ensures Expand(BlockText("BUILD_DATE_FORMATTED", Some(" \"" + pattern + "\"")) + "-"
                   + BlockText("BUILDS_TODAY", Some(" XX")), ctx, fuel)
            == Done(date + "-" + "0" + [DigitChar(ctx.buildsToday)])
  {
    var counter := BlockText("BUILDS_TODAY", Some(" XX"));
    var first := BlockText("BUILD_DATE_FORMATTED", Some(" \"" + pattern + "\"")) + "-" + counter;
    var second := date + "-" + counter;
    var third := date + "-" + "0" + [DigitChar(ctx.buildsToday)];
    assert first == BlockText("BUILD_DATE_FORMATTED", Some(" \"" + pattern + "\"")) + ("-" + counter);
    assert second == date + ("-" + counter);
    LeadingDateScan(pattern, "-" + counter, ctx, date);
    TwoDigitCounterScan(date + "-", ctx);
    DigitsHaveNoBlock(date + "-", ctx.buildsToday);
    ScanWithoutBlock(third, ctx);
    var step := Scanner(ctx);
    assert step(first) == ScanFirst(first, ctx);
    assert step(second) == ScanFirst(second, ctx);
    assert step(third) == ScanFirst(third, ctx);
    IterateTwice(step, first, second, third, fuel);
  }

  /** The pipeline tests' format, `${BUILD_DATE_FORMATTED, "yy-MM-dd"}-${BUILDS_TODAY, XX}`. */
  lemma PipelineTestFormat(ctx: FormatContext, date: string, fuel: nat)
    requires ctx.formatDate(Some("yy-MM-dd")) == Some(date) && '$' !in date
    requires 0 <= ctx.buildsToday <= 9 && fuel >= 2
    ensures Expand(BlockText("BUILD_DATE_FORMATTED", Some(" \"yy-MM-dd\"")) + "-"
                   + BlockText("BUILDS_TODAY", Some(" XX")), ctx, fuel)
            == Done(date + "-0" + [DigitChar(ctx.buildsToday)])
  {
    assert " \"yy-MM-dd\"" == " \"" + "yy-MM-dd" + "\"";
    assert date + "-" + "0" + [DigitChar(ctx.buildsToday)] == date + "-0" + [DigitChar(ctx.buildsToday)];
    DateAndTwoDigitCounter("yy-MM-dd", ctx, date, fuel);
  }

  // ------------------------------------------------------------ termination

  /** The number of `$` in a text: every block start holds one. */
  function Dollars(s: string): (n: nat)
    ensures n <= |s|
  {
    if s == [] then 0 else (if s[0] == '$' then 1 else 0) + Dollars(s[1..])
  }

  /** The count of `$` adds up over a concatenation. */
  lemma {:induction false} DollarsAppend(a: string, b: string)
    ensures Dollars(a + b) == Dollars(a) + Dollars(b)
  {
    if a == [] {
      assert a + b == b;
    } else {
      assert (a + b)[0] == a[0] && (a + b)[1..] == a[1..] + b;
      DollarsAppend(a[1..], b);
    }
  }

  /** A text counts no `$` exactly when it holds none. */
  lemma {:induction false} NoDollarsCounted(s: string)
    ensures Dollars(s) == 0 <==> '$' !in s
  {
    if s != [] {
      NoDollarsCounted(s[1..]);
      assert s == [s[0]] + s[1..];
    }
  }

  /** Neither an environment value nor a formatted date holds a `$`. */
  ghost predicate ValuesDollarFree(ctx: FormatContext)
  {
    (forall name :: name in ctx.enVars ==> '$' !in ctx.enVars[name])
    && (forall pattern :: ctx.formatDate(pattern).Some? ==> '$' !in ctx.formatDate(pattern).value)
  }

  /** A padded number is made of zeros, digits and a minus sign only. */
  lemma PaddedHasNoDollar(n: Int32, argumentString: string)
    ensures '$' !in Padded(n, argumentString)
  {
    var digits := IntToString(n);
    var r := Padded(n, argumentString);
    PadZerosShape(digits, |argumentString|);
    forall i | 0 <= i < |r|
      ensures r[i] != '$'
    {
      if i >= |r| - |digits| {
        var k := i - (|r| - |digits|);
        assert r[i] == r[|r| - |digits|..][k];
        if n < 0 && k > 0 {
          assert digits[k] == digits[1..][k - 1];
        }
      }
    }
  }

  /** With dollar-free environment values and dates, no replacement holds a `$`. */
  lemma ReplaceValueHasNoDollar(expressionKey: string, argumentString: string, ctx: FormatContext)
    requires ValuesDollarFree(ctx)
    ensures ReplaceValue(expressionKey, argumentString, ctx).Some? ==> '$' !in ReplaceValue(expressionKey, argumentString, ctx).value
  {
    if expressionKey == "" {
    } else if expressionKey == "BUILD_DATE_FORMATTED" {
      DateFormattedHasNoDollar(argumentString, ctx);
    } else {
      var number := NumberFor(expressionKey, ctx);
      if number.Some? {
        PaddedHasNoDollar(number.value, argumentString);
      } else {
        assert ReplaceValue(expressionKey, argumentString, ctx) == Some(EnvValue(ctx, expressionKey));
      }
    }
  }

  lemma DateFormattedHasNoDollar(argumentString: string, ctx: FormatContext)
    requires ValuesDollarFree(ctx)
    ensures DateFormatted(argumentString, ctx.formatDate).Some? ==> '$' !in DateFormatted(argumentString, ctx.formatDate).value
  {
    if argumentString != "" {
      var open := IndexOf(argumentString, "\"", 0);
      var close := IndexOf(argumentString, "\"", open + 1);
      if open + 1 <= close {
        var pattern := Some(argumentString[open + 1..close]);
        assert DateFormatted(argumentString, ctx.formatDate) == ctx.formatDate(pattern);
      }
    }
  }

  /** A `$` anywhere is counted. */
  lemma DollarAt(s: string, i: nat)
    requires i < |s| && s[i] == '$'
    ensures Dollars(s) >= 1
  {
    assert s == s[..i] + s[i..];
    DollarsAppend(s[..i], s[i..]);
  }

  /** Replacing a stretch that starts with a `$` by a dollar-free value leaves fewer `$`. */
  lemma ReplacingDropsDollar(vnf: string, blockStart: nat, blockEnd: nat, value: string)
    requires blockStart < blockEnd <= |vnf| && vnf[blockStart] == '$' && '$' !in value
    ensures Dollars(vnf[..blockStart] + value + vnf[blockEnd..]) < Dollars(vnf)
  {
    var before, block, after := vnf[..blockStart], vnf[blockStart..blockEnd], vnf[blockEnd..];
    assert vnf == before + block + after;
    DollarsAppend(before + block, after);
    DollarsAppend(before, block);
    DollarsAppend(before + value, after);
    DollarsAppend(before, value);
    NoDollarsCounted(value);
    assert block[0] == '$';
  }

  /**
   * A found block holds a `$`, and each replacement removes one when no
   * value brings one in.
   */
  lemma ScanDropsDollar(vnf: string, ctx: FormatContext)
    requires ValuesDollarFree(ctx)
    ensures ScanFirst(vnf, ctx).Failed? || ScanFirst(vnf, ctx).Replaced? ==> Dollars(vnf) >= 1
    ensures ScanFirst(vnf, ctx).Replaced? ==> Dollars(ScanFirst(vnf, ctx).next) < Dollars(vnf)
  {
    var blockStart := FirstBlock(vnf);
    if blockStart >= 0 {
      OccursAtChars(vnf, "${", blockStart);
      DollarAt(vnf, blockStart);
      match BlockAt(vnf, blockStart)
      case None =>
      case Some(block) =>
        ReplaceValueHasNoDollar(block.expressionKey, block.argumentString, ctx);
        match ReplaceValue(block.expressionKey, block.argumentString, ctx)
        case None =>
        case Some(value) =>
          ReplacingDropsDollar(vnf, blockStart, block.blockEnd, value);
    }
  }

  /**
   * A loop body that only replaces while a measure is positive, and lowers
   * it with every replacement, ends within that many replacements.
   */
  lemma {:induction false} IterateEnds(step: string -> Scan, measure: string -> nat, vnf: string, fuel: nat)
    requires forall s :: step(s).Replaced? ==> measure(s) >= 1
    requires forall s :: step(s).Replaced? ==> measure(step(s).next) < measure(s)
    requires fuel >= measure(vnf)
    ensures Iterate(step, vnf, fuel) != OutOfFuel
    decreases fuel
  {
    if step(vnf).Replaced? {
      IterateEnds(step, measure, step(vnf).next, fuel - 1);
    }
  }

  /** A loop body that gives back its own input runs out of any fuel. */
  lemma {:induction false} IterateFixpoint(step: string -> Scan, vnf: string, fuel: nat)
    requires step(vnf) == Replaced(vnf)
    ensures Iterate(step, vnf, fuel) == OutOfFuel
    decreases fuel
  {
    if fuel > 0 {
      IterateFixpoint(step, vnf, fuel - 1);
    }
  }

  /**
   * `formatVersionNumber`'s `do`/`while` has no guard against a value that
   * brings a block back; it ends when no value holds a `$`, and then after
   * at most as many replacements as there are `$` in the text.
   */
  lemma ExpandTerminates(vnf: string, ctx: FormatContext, fuel: nat)
    requires ValuesDollarFree(ctx) && fuel >= Dollars(vnf)
    ensures Expand(vnf, ctx, fuel) != OutOfFuel
  {
    var step := Scanner(ctx);
    forall s
      ensures step(s).Replaced? ==> Dollars(s) >= 1
      ensures step(s).Replaced? ==> Dollars(step(s).next) < Dollars(s)
    {
      ScanDropsDollar(s, ctx);
    }
    IterateEnds(step, s => Dollars(s), vnf, fuel);
  }

  /** `${X}`, with `X` set to `${X}`, is replaced by itself. */
  lemma SelfReferenceScan(ctx: FormatContext)
    requires "X" in ctx.enVars && ctx.enVars["X"] == "${X}"
    ensures ScanFirst("${X}", ctx) == Replaced("${X}")
  {
    var vnf := "${X}";
    SelfReferenceText();
    BlockAtText("", "X", None, "");
    assert FirstBlock(vnf) == 0;
    SelfReferenceValue(ctx);
    ScanOfClosedBlock(vnf, ctx, Block(|vnf|, "X", ""));
    assert vnf[..0] + vnf + vnf[|vnf|..] == vnf;
  }

  lemma SelfReferenceText()
    ensures "${X}" == "" + BlockText("X", None) + ""
    ensures '}' !in "X" && ',' !in "X" && ArgumentOf(None) == ""
  {
  }

  lemma SelfReferenceValue(ctx: FormatContext)
    requires "X" in ctx.enVars && ctx.enVars["X"] == "${X}"
    ensures ReplaceValue("X", ArgumentOf(None), ctx) == Some("${X}")
  {
    assert NumberFor("X", ctx) == None;
  }

  /**
   * The loop has no guard against a variable whose value is a block that
   * names it: `${X}` with `X` set to `${X}` is replaced by itself forever.
   */
  lemma SelfReferenceNeverEnds(ctx: FormatContext, fuel: nat)
    requires "X" in ctx.enVars && ctx.enVars["X"] == "${X}"
    ensures Expand("${X}", ctx, fuel) == OutOfFuel
  {
    SelfReferenceScan(ctx);
    assert Scanner(ctx)("${X}") == Replaced("${X}");
    IterateFixpoint(Scanner(ctx), "${X}", fuel);
  }
}
