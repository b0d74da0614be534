# versionnumber: a Dafny model of the version-number engine

The Jenkins versionnumber plugin gives every build a version string built
from a format such as `1.0.${BUILDS_TODAY, XX}`. Each build gets five
counters:

- builds today, this week, this month and this year;
- builds all time.

A counter continues from the nearest earlier build that recorded a version.
It restarts at 1 when the calendar window changes, and does not move after a
failed build when failed builds are skipped. An override can replace it. This
project models the engine and proves its properties.

The engine exists in three revisions, and each is modelled as written:

- **Pipeline revision** (`VersionNumberCommon`): five counters, a legacy
  `skipFailedBuilds` switch and an all-time override only.
- **Freestyle revision** (`VersionNumberBuilder`): four counters and four
  override fields. A literal override is cleared after one use, so it is
  one-shot.
- **Strategy classes** (`AbstractBuildNumberGenerator` and one generator per
  window): a threshold result decides the increment.

The modules follow the program's structure. They are given bottom-up:

| module | what it models |
|---|---|
| `Wrappers` | `Option` |
| `JavaLang` | The Java library behaviour the code relies on: 32-bit `int` wrap-around, `Integer.parseInt` and `Integer.toString`, `String.trim`, `indexOf` and `startsWith`. |
| `EnvPattern` | `ENV_VAR_PATTERN` under `String.matches`: the whole string is `${NAME}` or `$NAME`. |
| `Builds` | Calendar fields, the `Result` levels with their ordering as a parameter, the counter records, and a build with its optional result and optional version action. |
| `History` | The walk back to the nearest build that carries a version. |
| `Override` | `makeValid`, `resolveOverride` (and the identical `getOverrideBuildsAllTime`), and `isValidOverride`. |
| `Generators` | `getNextNumber` and the five `resolveValue` windows. |
| `Expansion` | The `formatVersionNumber` loop and `sizeTo`, shared by both revisions through a dialect. |
| `Common` | The pipeline revision's `incBuild`, `isValidOverrideBuildsAllTime` and `formatVersionNumber`. |
| `Builder` | The freestyle `VersionNumberBuilder`: a class whose `incBuild` updates the four override fields in place. |
| `Step` | `VersionNumberStep`: a class whose `getWorstResultForIncrement` migrates and normalises the threshold setting in place. It also covers `getVersionPrefix` and the prefix that `Execution.run` prepends. |

Behaviour of the code worth knowing:

- **Environment fallback.** A key that is not built in is replaced by the
  variable's whole value. The argument is ignored: there is no `"+N"`/`"-N"`
  substring selection.
- **Self-reference.** Nothing guards against a variable whose value is its
  own reference. `Expansion.SelfReferenceNeverEnds` shows that such a
  template is rewritten forever.
- **Re-scanning.** After each replacement the loop searches again from the
  start of the text, so substituted text is scanned again. It is not treated
  as plain text.
- **Padding.** Built-in numbers are padded to the length of any trimmed
  argument, not only to a run of padding characters.
- **The legacy switch.** `skipFailedBuilds` is still carried in two places.
  The pipeline revision's `incBuild` uses it directly. The step's
  `getWorstResultForIncrement` migrates it to a threshold.
- **Missing result in the freestyle revision.** When failed builds are
  skipped, the freestyle `incBuild` compares the previous build's result with
  SUCCESS without a null check. The model returns `None` there, for the
  exception the code throws.

## Model

| member | source | states |
|---|---|---|
| EnvPattern.ReferenceName | src/main/java/org/jvnet/hudson/tools/versionnumber/AbstractBuildNumberGenerator.java:75-78 | The variable a matching override names is a non-empty word, and the override is exactly `${name}` or `$name`. |
| EnvPattern.ReferenceRoundTrip | src/main/java/org/jvnet/hudson/tools/versionnumber/VersionNumberCommon.java:41 | Both spellings of a reference built from a word match the pattern and give that word back as the variable name. |
| Override.MakeValid | src/main/java/org/jvnet/hudson/tools/versionnumber/VersionNumberCommon.java:333-357 | The result is empty, a canonical non-negative literal, or a reference. Null gives "". A reference result is the trimmed input. |
| Override.MakeValidOfInt | src/main/java/org/jvnet/hudson/tools/versionnumber/VersionNumberCommon.java:336-343 | A trimmed non-negative `int` becomes its canonical decimal, which parses back to the same value. A negative one becomes "". |
| Override.MakeValidOfOther | src/main/java/org/jvnet/hudson/tools/versionnumber/VersionNumberCommon.java:344-356 | Input that is not an `int` is kept trimmed when it is a reference, and becomes "" otherwise. |
| Override.MakeValidIdempotent | src/main/java/org/jvnet/hudson/tools/versionnumber/VersionNumberCommon.java:333-357 | Applying `makeValid` twice gives the same result as once. |
| Override.MakeValidKeepsLiteral | src/main/java/org/jvnet/hudson/tools/versionnumber/VersionNumberBuilder.java:157-181 | A canonical literal is a fixed point of `makeValid`. |
| Override.MakeValidKeepsReference | src/main/java/org/jvnet/hudson/tools/versionnumber/VersionNumberBuilder.java:157-181 | A reference is a fixed point of `makeValid`. |
| Override.MakeValidKeepsEmpty | src/main/java/org/jvnet/hudson/tools/versionnumber/VersionNumberBuilder.java:157-181 | "" is a fixed point of `makeValid`. |
| Override.LiteralIsCanonical | src/main/java/org/jvnet/hudson/tools/versionnumber/VersionNumberCommon.java:339-343 | A canonical literal is the `Integer.toString` of its own value. |
| Override.LiteralParses | src/main/java/org/jvnet/hudson/tools/versionnumber/AbstractBuildNumberGenerator.java:71-72 | A canonical literal is its own trim, parses to its digits' value, and is not a reference. |
| Override.ReferenceIsNoLiteral | src/main/java/org/jvnet/hudson/tools/versionnumber/AbstractBuildNumberGenerator.java:71-78 | A reference does not parse as an `int`, is its own trim, and is not a literal. So literal and reference are exclusive forms. |
| Override.ParseVariable | src/main/java/org/jvnet/hudson/tools/versionnumber/AbstractBuildNumberGenerator.java:78 | An unset variable fails to parse (null). A set one is parsed untrimmed. |
| Override.ResolveOverride | src/main/java/org/jvnet/hudson/tools/versionnumber/AbstractBuildNumberGenerator.java:63-90 | The result is None or at least 0. An override that `makeValid` empties gives None. |
| Override.ResolveLiteral | src/main/java/org/jvnet/hudson/tools/versionnumber/AbstractBuildNumberGenerator.java:68-73 | A literal resolves to its value when that is at least 0, to None when it is negative, and the same in every environment. |
| Override.ResolveOfLiteral | src/main/java/org/jvnet/hudson/tools/versionnumber/AbstractBuildNumberGenerator.java:71-73 | A canonical literal resolves to its digits' value. |
| Override.ResolveReference | src/main/java/org/jvnet/hudson/tools/versionnumber/AbstractBuildNumberGenerator.java:74-87 | `${NAME}` and `$NAME` both resolve to the variable's parsed value when that is at least 0, and to None otherwise. |
| Override.ResolveOfReference | src/main/java/org/jvnet/hudson/tools/versionnumber/AbstractBuildNumberGenerator.java:75-87 | Any matching override resolves to the parse of the variable it names, kept only when it is at least 0. |
| Override.ResolveAfterMakeValid | src/main/java/org/jvnet/hudson/tools/versionnumber/AbstractBuildNumberGenerator.java:67-68 | Normalising an override before resolving it does not change the result. The "Reset!" assignment only rebinds a local. |
| Override.ResolveNormalised | src/main/java/org/jvnet/hudson/tools/versionnumber/AbstractBuildNumberGenerator.java:70-89 | Once normalised, the result is None or at least 0, and "" gives None. |
| Override.NormalisedLiteral | src/main/java/org/jvnet/hudson/tools/versionnumber/AbstractBuildNumberGenerator.java:71-72 | A normalised literal resolves to its value. |
| Override.ParseExamples | src/test/java/org/jvnet/hudson/tools/versionnumber/VersionNumberBuilderTest.java:132-150 | "-10" and "20" parse, "2.0" and "Invalid" do not. These are the variable values of the freestyle override scenario. |
| Override.NegativeVariableExample | src/test/java/org/jvnet/hudson/tools/versionnumber/VersionNumberBuilderTest.java:132-150 | A variable holding -10 gives no override. |
| Override.FractionalVariableExample | src/test/java/org/jvnet/hudson/tools/versionnumber/VersionNumberBuilderTest.java:132-150 | A variable holding 2.0 gives no override. |
| Override.NonNumericVariableExample | src/test/java/org/jvnet/hudson/tools/versionnumber/VersionNumberBuilderTest.java:132-150 | A variable holding "Invalid" gives no override. |
| Override.UnsetVariableExample | src/test/java/org/jvnet/hudson/tools/versionnumber/VersionNumberBuilderTest.java:132-150 | An unset variable gives no override. |
| Override.NumericVariableExample | src/test/java/org/jvnet/hudson/tools/versionnumber/VersionNumberBuilderTest.java:132-150 | A variable holding 20 overrides with 20. |
| Override.IsValidOverride | src/main/java/org/jvnet/hudson/tools/versionnumber/AbstractBuildNumberGenerator.java:49-51 | A valid override is set, and `makeValid` does not reduce it to "". `IsValidOverrideBuildsAllTime` and the `Generators` lemmas use it as the test for an override. |
| History.NearestVersioned | src/main/java/org/jvnet/hudson/tools/versionnumber/VersionNumberCommon.java:130-153 | The position found carries a version action whose version starts with the prefix when one is given. No nearer build does. None means that no build qualifies. |
| History.PreviousBuildWithVersionNumber | src/main/java/org/jvnet/hudson/tools/versionnumber/VersionNumberCommon.java:130-153 | The `while` walk returns exactly the nearest qualifying build. |
| History.SkipsUnversioned | src/test/java/org/jvnet/hudson/tools/versionnumber/VersionNumberBuilderTest.java:87-105 | A build without a version action, such as one that failed early, is stepped over. |
| History.EmptyPrefixIsNoPrefix | src/main/java/org/jvnet/hudson/tools/versionnumber/VersionNumberCommon.java:138-146 | An empty prefix stops the walk wherever no prefix would. |
| Generators.PreviousBuildInfo | src/main/java/org/jvnet/hudson/tools/versionnumber/AbstractBuildNumberGenerator.java:35-39 | The counters returned are the ones the previous build's version action recorded. |
| Generators.BuildsToday | src/main/java/org/jvnet/hudson/tools/versionnumber/BuildsTodayGenerator.java:10-31 | Outside the same day, month and year the counter restarts at 1. Inside, an increment of 0 repeats the previous builds-today counter, and an increment of 1 adds one to it below `Integer.MAX_VALUE`. |
| Generators.BuildsThisWeek | src/main/java/org/jvnet/hudson/tools/versionnumber/BuildsThisWeekGenerator.java:10-30 | Outside the same week of the same year the counter restarts at 1. Inside, an increment of 0 repeats the previous builds-this-week counter, and an increment of 1 adds one to it below `Integer.MAX_VALUE`. |
| Generators.BuildsThisMonth | src/main/java/org/jvnet/hudson/tools/versionnumber/BuildsThisMonthGenerator.java:10-31 | Outside the same month of the same year the counter restarts at 1. Inside, an increment of 0 repeats the previous builds-this-month counter, and an increment of 1 adds one to it below `Integer.MAX_VALUE`. |
| Generators.BuildsThisYear | src/main/java/org/jvnet/hudson/tools/versionnumber/BuildsThisYearGenerator.java:10-28 | Outside the same year the counter restarts at 1. Inside, an increment of 0 repeats the previous builds-this-year counter, and an increment of 1 adds one to it below `Integer.MAX_VALUE`. |
| Generators.BuildsAllTime | src/main/java/org/jvnet/hudson/tools/versionnumber/BuildsAllTimeGenerator.java:8-18 | There is no window. An increment of 0 repeats the previous all-time counter, and an increment of 1 adds one to it below `Integer.MAX_VALUE`. |
| Generators.ResolveValue | src/main/java/org/jvnet/hudson/tools/versionnumber/BuildNumberGenerator.java:11 | The dispatch to a generator's class. Outside the generator's window the result is 1. Inside it, an increment of 0 repeats the generator's own counter. `ResolveValueRule` gives the whole rule. |
| Generators.GetNextNumber | src/main/java/org/jvnet/hudson/tools/versionnumber/AbstractBuildNumberGenerator.java:13-33 | A number taken from a valid override or given to a first build is never negative. `OverrideWins`, `FirstBuildIsOne` and `ContinuesFromPrevious` state each branch. |
| Generators.ResolveValueRule | src/main/java/org/jvnet/hudson/tools/versionnumber/BuildsTodayGenerator.java:10-31 | Every `resolveValue` continues its own counter by the increment inside its window and restarts at 1 outside it. The windows are day+month+year, week+year, month+year, year, and none for all time. |
| Generators.Increment | src/main/java/org/jvnet/hudson/tools/versionnumber/AbstractBuildNumberGenerator.java:21-27 | The increment is 0 or 1. It is 0 exactly when the previous result is set and worse than the threshold. |
| Generators.OverrideWins | src/main/java/org/jvnet/hudson/tools/versionnumber/AbstractBuildNumberGenerator.java:17-18 | A valid override is the next number, is at least 0, and is the same with or without a previous build. |
| Generators.FirstBuildIsOne | src/main/java/org/jvnet/hudson/tools/versionnumber/AbstractBuildNumberGenerator.java:14-20 | Without a valid override, a first build gets 1. |
| Generators.ContinuesFromPrevious | src/main/java/org/jvnet/hudson/tools/versionnumber/AbstractBuildNumberGenerator.java:20-29 | Without a valid override, the next number is the previous counter plus 1, or plus 0 after a result worse than the threshold, inside the window, and 1 outside it. |
| Generators.WindowsNest | src/main/java/org/jvnet/hudson/tools/versionnumber/BuildsTodayGenerator.java:21-23 | The same day is the same month, and the same month or week is the same year. |
| Generators.TodayContinuesMonthAndYear | src/main/java/org/jvnet/hudson/tools/versionnumber/BuildsThisMonthGenerator.java:22-24 | When the today counter continues, the month and year counters continue too. |
| Generators.ReadsOnlyItsWindow | src/main/java/org/jvnet/hudson/tools/versionnumber/BuildsThisWeekGenerator.java:21-23 | A generator's result depends only on its own counter and on whether its window matches. The week generator reads neither day nor month, and the year generator reads only the year. |
| Generators.OtherYearRestarts | src/main/java/org/jvnet/hudson/tools/versionnumber/BuildsThisYearGenerator.java:20-24 | In another year, the same day, week or month number restarts every windowed counter at 1. |
| Generators.ZeroIncrementCarriesForward | src/main/java/org/jvnet/hudson/tools/versionnumber/BuildsAllTimeGenerator.java:8-18 | Inside its window, an increment of 0 returns the previous counter unchanged. All time has no window, so for it this always holds. |
| Generators.ThresholdExamples | src/test/java/org/jvnet/hudson/tools/versionnumber/VersionNumberStepTest.java:127-213 | With SUCCESS as the threshold, only SUCCESS increments. Under the tests' ordering, FAILURE does not increment under UNSTABLE but does under FAILURE and ABORTED. A missing result increments. |
| Generators.EarlyFailureKeepsSequence | src/test/java/org/jvnet/hudson/tools/versionnumber/VersionNumberBuilderTest.java:76-105 | After a build that failed before it got a version, the walk finds the build before it, and the all-time number continues from that build's counter plus 1. |
| Common.IsValidOverrideBuildsAllTime | src/main/java/org/jvnet/hudson/tools/versionnumber/VersionNumberCommon.java:173-181 | The early rejection of a null or empty override agrees with `isValidOverride`. |
| Common.BuildIncrement | src/main/java/org/jvnet/hudson/tools/versionnumber/VersionNumberCommon.java:51-72 | `buildInc` is 0 or 1. It is 0 exactly when failed builds are skipped and the previous result is set and not SUCCESS. |
| Common.NextCounters | src/main/java/org/jvnet/hudson/tools/versionnumber/VersionNumberCommon.java:43-128 | The specification of the pipeline `incBuild`. A valid all-time override, or a first build, gives an all-time counter of at least 0. `FirstBuildCounters`, `ContinuesCounters`, `AllTimeCounter` and `MatchesGenerators` state the rest. |
| Common.IncBuild | src/main/java/org/jvnet/hudson/tools/versionnumber/VersionNumberCommon.java:43-128 | The step-by-step reassignment of the local counters yields exactly the counters of the specification function `NextCounters`. |
| Common.MatchesGenerators | src/main/java/org/jvnet/hudson/tools/versionnumber/VersionNumberCommon.java:64-124 | Each of the five counters is the matching generator's `getNextNumber`. Only the all-time generator gets the override. The threshold is one under which exactly the non-SUCCESS results are worse when skipping, and none otherwise. |
| Common.SkipIsSuccessThreshold | src/main/java/org/jvnet/hudson/tools/versionnumber/VersionNumberCommon.java:64-72 | With SUCCESS as the best result, "worse than SUCCESS" means "not SUCCESS", which is the legacy switch's test. |
| Common.FirstBuildCounters | src/main/java/org/jvnet/hudson/tools/versionnumber/VersionNumberCommon.java:45-62 | A first build gets 1 in every window. Its all-time counter is the valid override, or 1. |
| Common.ContinuesCounters | src/main/java/org/jvnet/hudson/tools/versionnumber/VersionNumberCommon.java:64-111 | After a previous build, each windowed counter is the previous counter plus the increment inside its window, and 1 outside it. The increment is 0 exactly when skipping and the previous result is set and not SUCCESS. |
| Common.AllTimeCounter | src/main/java/org/jvnet/hudson/tools/versionnumber/VersionNumberCommon.java:60-124 | A valid override is the all-time counter, at least 0, with or without a previous build. Otherwise the counter is the previous all-time value plus the increment. |
| Common.SkippedFailureKeepsCounters | src/main/java/org/jvnet/hudson/tools/versionnumber/VersionNumberCommon.java:64-124 | A skipped failure on the same day and in the same week repeats all five of the previous build's counters. |
| Common.FormatVersionNumber | src/main/java/org/jvnet/hudson/tools/versionnumber/VersionNumberCommon.java:220-320 | The loop's output is `Expand` of the environment-expanded format, in the pipeline dialect: the week keys exist, and the project-start keys need a start date. |
| Expansion.Padded | src/main/java/org/jvnet/hudson/tools/versionnumber/VersionNumberCommon.java:268-304 | A padded number is as long as the longer of its decimal and the argument. |
| Expansion.DateFormatted | src/main/java/org/jvnet/hudson/tools/versionnumber/VersionNumberCommon.java:258-267 | Without an argument the date is in the default format. `DatePatternBetweenQuotes` and `DateNeedsTwoQuotes` state the quoted case. |
| Expansion.NumberFor | src/main/java/org/jvnet/hudson/tools/versionnumber/VersionNumberCommon.java:268-305 | A numeric key is never the empty key or the date key, so it is reached only after those two tests fail. |
| Expansion.EnvValue | src/main/java/org/jvnet/hudson/tools/versionnumber/VersionNumberCommon.java:306-315 | A set variable gives its value, and an unset one gives "". |
| Expansion.ReplaceValue | src/main/java/org/jvnet/hudson/tools/versionnumber/VersionNumberCommon.java:253-315 | Only the date key can throw. |
| Expansion.ScanFirst | src/main/java/org/jvnet/hudson/tools/versionnumber/VersionNumberCommon.java:233-316 | One pass finds no block exactly when the text holds no `${`. |
| Expansion.Iterate | src/main/java/org/jvnet/hudson/tools/versionnumber/VersionNumberCommon.java:229-318 | The loop runs out of fuel only where its body has just replaced a block. A stop or a throw uses no fuel. |
| Expansion.Expand | src/main/java/org/jvnet/hudson/tools/versionnumber/VersionNumberCommon.java:229-318 | The `formatVersionNumber` loop runs out of fuel only where its body has just replaced a block. |
| Expansion.PadZeros | src/main/java/org/jvnet/hudson/tools/versionnumber/VersionNumberCommon.java:359-364 | Padding gives the longer of the two lengths. |
| Expansion.PadZerosShape | src/main/java/org/jvnet/hudson/tools/versionnumber/VersionNumberCommon.java:359-364 | The padded text ends with the original text and everything in front of it is '0'. |
| Expansion.SizeTo | src/main/java/org/jvnet/hudson/tools/versionnumber/VersionNumberCommon.java:359-364 | The `while` loop that prepends zeros computes `PadZeros`. |
| Expansion.PadZerosValue | src/main/java/org/jvnet/hudson/tools/versionnumber/VersionNumberCommon.java:359-364 | Padding a string of digits keeps its value. |
| Expansion.PaddedParses | src/test/java/org/jvnet/hudson/tools/versionnumber/VersionNumberStepTest.java:19-39 | A non-negative padded number parses back to itself. It is as long as the argument when its decimal is not longer. |
| Expansion.NegativePaddedIsNoNumber | src/main/java/org/jvnet/hudson/tools/versionnumber/VersionNumberCommon.java:359-364 | A padded negative number gets its zeros in front of the sign and no longer parses. |
| Expansion.BlockAt | src/main/java/org/jvnet/hudson/tools/versionnumber/VersionNumberCommon.java:235-252 | A closed block ends just after a `}` that lies at least three characters past the block start. |
| Expansion.RunScans | src/main/java/org/jvnet/hudson/tools/versionnumber/VersionNumberCommon.java:229-318 | The `do`/`while` loop computes `Iterate` of its body. |
| Expansion.ExpandBlocks | src/main/java/org/jvnet/hudson/tools/versionnumber/VersionNumberCommon.java:229-318 | The loop on a prepared format string computes `Expand`. |
| Expansion.IterateUnfolds | src/main/java/org/jvnet/hudson/tools/versionnumber/VersionNumberCommon.java:229-318 | One pass of the generic loop: stop, truncate, throw, or go on from the new text. |
| Expansion.ExpandUnfolds | src/main/java/org/jvnet/hudson/tools/versionnumber/VersionNumberCommon.java:229-318 | One pass of the loop: stop, truncate, throw, or go on from the new text. |
| Expansion.NoBlockUnchanged | src/main/java/org/jvnet/hudson/tools/versionnumber/VersionNumberBuilder.java:396-484 | A format without `${` comes out unchanged. The freestyle loop does not pre-expand, so this holds for its format string itself. |
| Expansion.BeforeFirstBlock | src/main/java/org/jvnet/hudson/tools/versionnumber/VersionNumberCommon.java:233 | The text before the first `${` holds no `${`. |
| Expansion.IterateDoneHas | src/main/java/org/jvnet/hudson/tools/versionnumber/VersionNumberCommon.java:229-318 | A property of every text where the loop body stops holds of whatever the loop returns. |
| Expansion.StopsWithoutBlock | src/main/java/org/jvnet/hudson/tools/versionnumber/VersionNumberCommon.java:233-241 | Where the loop body stops, the text, or what is left of it, holds no `${`. |
| Expansion.ExpandLeavesNoBlock | src/main/java/org/jvnet/hudson/tools/versionnumber/VersionNumberCommon.java:229-320 | A finished result holds no `${`. |
| Expansion.UnclosedBlockTruncates | src/main/java/org/jvnet/hudson/tools/versionnumber/VersionNumberCommon.java:236-240 | An unclosed first block cuts the output off where it starts. |
| Expansion.NumericKeyIsPadded | src/main/java/org/jvnet/hudson/tools/versionnumber/VersionNumberCommon.java:268-304 | A numeric key is replaced by its number, padded to the length of the trimmed argument. |
| Expansion.ZeroBasedKeys | src/main/java/org/jvnet/hudson/tools/versionnumber/VersionNumberCommon.java:286-293 | For counters from 1 on, each `_Z` key is one less than its counter key. |
| Expansion.CounterKeys | src/main/java/org/jvnet/hudson/tools/versionnumber/VersionNumberCommon.java:276-285 | The counter keys read the counters. The week counter key exists only in the pipeline dialect. |
| Expansion.CalendarKeys | src/main/java/org/jvnet/hudson/tools/versionnumber/VersionNumberCommon.java:268-275 | Day and year are read as the calendar gives them, the month counts from 1, and the week-of-year key exists only in the pipeline dialect. |
| Expansion.ProjectStartKeys | src/main/java/org/jvnet/hudson/tools/versionnumber/VersionNumberCommon.java:294-305 | With a start date, the months key counts 12 for each year between the dates, and the years key is the year difference. Without one, neither key is numeric. The freestyle dialect always has one (VersionNumberBuilder.java:459-469). |
| Expansion.OtherKeysReadEnvironment | src/main/java/org/jvnet/hudson/tools/versionnumber/VersionNumberCommon.java:306-315 | Any other key is replaced by the variable's whole value, or by "" when it is unset. The argument is ignored. An empty key gives "". |
| Expansion.UnknownKeyIsNotNumeric | src/main/java/org/jvnet/hudson/tools/versionnumber/VersionNumberCommon.java:256-315 | A key outside the known list is never numeric. |
| Expansion.DatePatternBetweenQuotes | src/main/java/org/jvnet/hudson/tools/versionnumber/VersionNumberCommon.java:258-267 | With an argument, the date pattern is what lies between its first two double quotes. |
| Expansion.DateNeedsTwoQuotes | src/main/java/org/jvnet/hudson/tools/versionnumber/VersionNumberCommon.java:264 | An argument with fewer than two double quotes makes the date key throw. |
| Expansion.BlockAtText | src/main/java/org/jvnet/hudson/tools/versionnumber/VersionNumberCommon.java:243-252 | Splitting a written `${KEY}` or `${KEY,ARG}` gives back its key and trimmed argument when the key holds no `}` or `,` and the argument no `}`. |
| Expansion.ScanOfClosedBlock | src/main/java/org/jvnet/hudson/tools/versionnumber/VersionNumberCommon.java:233-316 | When the first block start opens a closed block, one pass replaces that block by its value, or throws. |
| Expansion.ScanOfBlockText | src/main/java/org/jvnet/hudson/tools/versionnumber/VersionNumberCommon.java:233-316 | One pass on text whose first block is a written block replaces the block by its value, or throws. |
| Expansion.ExpandsBlockText | src/main/java/org/jvnet/hudson/tools/versionnumber/VersionNumberCommon.java:229-318 | The loop replaces the first written block and continues from the start of the new text. |
| Expansion.ScanOfNumberBlock | src/main/java/org/jvnet/hudson/tools/versionnumber/VersionNumberCommon.java:268-293 | A numeric block is replaced by its padded number. |
| Expansion.ScanOfDateBlock | src/main/java/org/jvnet/hudson/tools/versionnumber/VersionNumberCommon.java:258-267 | A date block is replaced by the date in the quoted pattern, or throws. |
| Expansion.DateAndTwoDigitCounter | src/test/java/org/jvnet/hudson/tools/versionnumber/VersionNumberStepTest.java:19-39 | `${BUILD_DATE_FORMATTED, "pattern"}-${BUILDS_TODAY, XX}` gives the date, a dash, and the counter in two digits. |
| Expansion.PipelineTestFormat | src/test/java/org/jvnet/hudson/tools/versionnumber/VersionNumberStepTest.java:19-39 | The pipeline test's format gives the `yy-MM-dd` date, then "-0" and the builds-today digit. |
| Expansion.ScanDropsDollar | src/main/java/org/jvnet/hudson/tools/versionnumber/VersionNumberCommon.java:316 | With no `$` in any environment value or date, each replacement removes a `$`. |
| Expansion.IterateEnds | src/main/java/org/jvnet/hudson/tools/versionnumber/VersionNumberCommon.java:229-318 | A loop body that lowers a measure with every replacement ends within that many replacements. |
| Expansion.IterateFixpoint | src/main/java/org/jvnet/hudson/tools/versionnumber/VersionNumberCommon.java:229-318 | A loop body that gives back its own input never ends. |
| Expansion.ExpandTerminates | src/main/java/org/jvnet/hudson/tools/versionnumber/VersionNumberCommon.java:229-318 | With no `$` in any environment value or date, the loop ends after at most as many replacements as the format has `$`. |
| Expansion.SelfReferenceNeverEnds | src/main/java/org/jvnet/hudson/tools/versionnumber/VersionNumberCommon.java:307-318 | `${X}` with X set to `${X}` is rewritten into itself forever; no guard stops it. |
| Builder.FreestyleIncrement | src/main/java/org/jvnet/hudson/tools/versionnumber/VersionNumberBuilder.java:248-255 | `buildInc` throws, as None, exactly when failed builds are skipped and the previous build has no result. Otherwise it is 0 or 1, and 0 exactly when skipping after a result other than SUCCESS. |
| Builder.ComputedInfo | src/main/java/org/jvnet/hudson/tools/versionnumber/VersionNumberBuilder.java:243-292 | The counter half of `incBuild` throws exactly when there is a previous build, failed builds are skipped, and that build has no result. `CountersWithoutOverrides` states the counters. |
| Builder.OverriddenCounter | src/main/java/org/jvnet/hudson/tools/versionnumber/VersionNumberBuilder.java:298-318 | An override never sets a negative counter. An override that `makeValid` rejects leaves the computed value. |
| Builder.FieldAfter | src/main/java/org/jvnet/hudson/tools/versionnumber/VersionNumberBuilder.java:298-317 | A field after its override block is empty or a reference. A field that is kept is `makeValid` of the old one. |
| Builder.OverridesAfter | src/main/java/org/jvnet/hudson/tools/versionnumber/VersionNumberBuilder.java:298-381 | Without overrides, the four fields stay as they are. |
| Builder.NextBuildInfo | src/main/java/org/jvnet/hudson/tools/versionnumber/VersionNumberBuilder.java:241-388 | `incBuild`'s result throws exactly when its counter half throws. Without overrides it is the computed counters. |
| Builder.ComputeCounters | src/main/java/org/jvnet/hudson/tools/versionnumber/VersionNumberBuilder.java:243-291 | The counter half of `incBuild` yields `ComputedInfo`: the windows of the previous build's counters. The result is None where the result test throws. |
| Builder.OverrideBlock | src/main/java/org/jvnet/hudson/tools/versionnumber/VersionNumberBuilder.java:298-318 | One override block. A non-empty field sets the save flag. The counter is the resolved override or the computed value. The field afterwards is `FieldAfter`. |
| Builder.VersionNumberBuilder.constructor | src/main/java/org/jvnet/hudson/tools/versionnumber/VersionNumberBuilder.java:92-113 | The settings are stored, each override field holds `makeValid` of its argument, and the fields are in normal form. |
| Builder.VersionNumberBuilder.PreviousBuildWithVersionNumber | src/main/java/org/jvnet/hudson/tools/versionnumber/VersionNumberBuilder.java:199-238 | The walk uses the value of the variable named by `environmentPrefixVariable` as the prefix. A failed environment read or an unset variable means no prefix. |
| Builder.VersionNumberBuilder.IncBuild | src/main/java/org/jvnet/hudson/tools/versionnumber/VersionNumberBuilder.java:241-388 | The result is `NextBuildInfo` of the fields on entry. When it throws, no field changes and nothing is saved. Otherwise each field becomes `FieldAfter` of its old value, the fields stay in normal form, and the save flag is set exactly when some field was non-empty on entry. When the fields were in normal form on entry, as the constructor leaves them, each reference is kept unchanged and every other field is cleared. |
| Builder.NormalFieldAfter | src/main/java/org/jvnet/hudson/tools/versionnumber/VersionNumberBuilder.java:298-317 | On a field in normal form, the override block keeps a reference unchanged and clears a literal or an empty field to "". |
| Builder.NormalOverridesAfter | src/main/java/org/jvnet/hudson/tools/versionnumber/VersionNumberBuilder.java:298-381 | The same for all four fields at once. |
| Builder.FieldAfterIsStable | src/main/java/org/jvnet/hudson/tools/versionnumber/VersionNumberBuilder.java:300-317 | A field after `incBuild` is empty or a reference, and a second `incBuild` keeps it. |
| Builder.FieldsAfterAreNormal | src/main/java/org/jvnet/hudson/tools/versionnumber/VersionNumberBuilder.java:295-381 | All four fields after `incBuild` are in the form `makeValid` gives. |
| Builder.LiteralOverrideIsOneShot | src/main/java/org/jvnet/hudson/tools/versionnumber/VersionNumberBuilder.java:302-306 | A literal sets its counter to its value and clears its field, so the next build computes that counter again. |
| Builder.ReferenceOverrideStays | src/main/java/org/jvnet/hudson/tools/versionnumber/VersionNumberBuilder.java:308-317 | A reference stays in its field. Its counter is the variable's value when that parses to at least 0, and the computed value otherwise. |
| Builder.JunkOverrideIsIgnored | src/main/java/org/jvnet/hudson/tools/versionnumber/VersionNumberBuilder.java:298-317 | An override that `makeValid` rejects leaves the computed counter and is cleared. |
| Builder.ThrowsOnMissingResult | src/main/java/org/jvnet/hudson/tools/versionnumber/VersionNumberBuilder.java:252 | `incBuild` throws exactly when failed builds are skipped and the previous build has no result. |
| Builder.CountersWithoutOverrides | src/main/java/org/jvnet/hudson/tools/versionnumber/VersionNumberBuilder.java:243-291 | Without overrides, a first build gets 1 everywhere. A later one continues each counter by the increment inside its window, where all time has no window, and restarts it at 1 outside. The increment is 0 exactly when skipping after a non-SUCCESS result. |
| Builder.AgreesWithPipeline | src/main/java/org/jvnet/hudson/tools/versionnumber/VersionNumberBuilder.java:243-291 | Without overrides, and where it does not throw, the freestyle revision gives the pipeline revision's counters (VersionNumberCommon.java:43-128) without the week. |
| Builder.FormatVersionNumber | src/main/java/org/jvnet/hudson/tools/versionnumber/VersionNumberBuilder.java:390-484 | The loop's output is `Expand` of the format string itself, with no pre-expansion, in the freestyle dialect: no week keys, and a start date is always present. |
| Step.ParseSetting | src/main/java/org/jvnet/hudson/tools/versionnumber/VersionNumberStep.java:124-138 | A setting the `switch` recognises is the name of the threshold it selects. |
| Step.SettingRoundTrip | src/main/java/org/jvnet/hudson/tools/versionnumber/VersionNumberStep.java:124-138 | Every threshold's name reads back as that threshold. |
| Step.StoredSetting | src/main/java/org/jvnet/hudson/tools/versionnumber/VersionNumberStep.java:115-137 | The setting left behind always names one of the five thresholds. |
| Step.WorstResult | src/main/java/org/jvnet/hudson/tools/versionnumber/VersionNumberStep.java:114-139 | The returned threshold is named by the setting that is stored. |
| Step.VersionNumberStep.Create | src/main/java/org/jvnet/hudson/tools/versionnumber/VersionNumberStep.java:92-97 | The constructor throws exactly for a null or empty format string. Otherwise it gives a fresh step with the defaults. |
| Step.VersionNumberStep.GetVersionPrefix | src/main/java/org/jvnet/hudson/tools/versionnumber/VersionNumberStep.java:107-112 | The result is null for a null or empty prefix, and the prefix otherwise. |
| Step.VersionNumberStep.GetWorstResultForIncrement | src/main/java/org/jvnet/hudson/tools/versionnumber/VersionNumberStep.java:114-139 | Clears the legacy switch, stores the name of the returned threshold, and leaves the prefix alone. The threshold is `WorstResult` of the old fields. |
| Step.WorstResultCases | src/main/java/org/jvnet/hudson/tools/versionnumber/VersionNumberStep.java:116-138 | The legacy switch gives SUCCESS. No setting gives NOT_BUILT. A threshold's own name gives that threshold, and any other setting gives SUCCESS. |
| Step.WorstResultIsStable | src/main/java/org/jvnet/hudson/tools/versionnumber/VersionNumberStep.java:114-139 | After one call, a second call stores the same setting and returns the same threshold. |
| Step.LegacySwitchKeepsMeaning | src/main/java/org/jvnet/hudson/tools/versionnumber/VersionNumberStep.java:116-120 | With SUCCESS as the best result, the migrated switch gives the generators the increment that the pipeline `incBuild` gives when skipping failed builds. |
| Step.PrefixedVersion | src/main/java/org/jvnet/hudson/tools/versionnumber/VersionNumberStep.java:201-203 | Without a prefix the version is the formatted string. With one, the version starts with the prefix and the rest is the formatted string. |
| Step.PrefixedBuildIsFound | src/test/java/org/jvnet/hudson/tools/versionnumber/VersionNumberStepTest.java:222-256 | A build that records a prefixed version is where the next walk with that prefix stops. |

## Left out

- Jenkins glue is a host framework and not behaviour of the engine. This
  covers `setUp` and its `Environment`, the descriptors and form checks,
  `Execution`'s injection, `addAction`, `setDisplayName` and logging.
- `build.getProject().save()` is persistence I/O. Only the `saveOverrides`
  flag is modelled.
- `SimpleDateFormat` is the `formatDate` parameter. It maps a pattern, or
  the default, to the formatted build date, or to a rejection.
- `parseDate` and `getProjectStartDate` are foreign date parsing. The start
  date is given as calendar fields.
- `java.util.Calendar` is abstract: a build's timestamp is its year, month,
  day of month and week of year.
- `EnvVars.expand`, which the pipeline revision applies before its loop, is
  the `expandEnv` parameter.
- The ordering of `hudson.model.Result` belongs to Jenkins core and is an
  `Ordinal` parameter. Facts the tests rely on are hypotheses (`SuccessIsBest`,
  `AgreesWithTests`).
- The option names of the threshold setting are taken from the result names.
  `VersionNumberCommon.WORST_RESULT_*` is referenced at
  VersionNumberStep.java:119-136 but not defined in this revision of
  VersionNumberCommon.java.
- `Execution.run` (VersionNumberStep.java:175-210) calls an `incBuild`
  overload that does not exist. It is not modelled beyond the prefix it
  prepends.
- The step's five overrides and its `versionPrefix` argument go to that
  missing overload and are not modelled. The step's start date does not go
  there: `Execution.run` passes `step.getProjectStartDate()` to
  `formatVersionNumber` (VersionNumberStep.java:189-190). It is modelled as
  the `projectStartDate: Option<Timestamp>` of `Common.FormatVersionNumber`,
  which becomes the start of the `Pipeline` dialect. `None` there stands for
  the null that `getProjectStartDate` returns when the date parses to the
  epoch (VersionNumberStep.java:99-105); the parsing itself is left out, as
  said above.
- Override.ParseVariable, Override.ResolveOverride, Builder.OverriddenCounter,
  Builder.OverrideBlock and Builder.VersionNumberBuilder.PreviousBuildWithVersionNumber
  look a variable up by its exact name. The source reads these through
  `EnvVars.get` (AbstractBuildNumberGenerator.java:78,
  VersionNumberCommon.java:206, VersionNumberBuilder.java:206, 311, 332, 353
  and 374), and Jenkins' `EnvVars` ignores case in its keys. So
  `${next_build_number}` with NEXT_BUILD_NUMBER set to 5 overrides with 5 in
  Jenkins and gives no override here. The format fallbacks compare keys with
  `equals`, so `Expansion.EnvValue`'s exact match is faithful.
- The pipeline revision builds a five-counter record while
  `VersionNumberBuildInfo` has four fields. `Builds.Counters` has five fields
  and `Builds.BuildInfo` four.
- The getters of `VersionNumberBuildInfo` are the datatype's field selectors,
  and they are immutable by construction.
- `VersionNumberAction` and `BuildNumberGenerator` carry no behaviour. A
  build's action is an optional record of counters and version string.
- A null environment map in `formatVersionNumber` or `incBuild` is not
  modelled. The environment is always a map.
- `Builder.VersionNumberBuilder.PreviousBuildWithVersionNumber` models an
  `IOException` or `InterruptedException` from reading the environment as
  `None`, and the exception's log line is left out.
- `Expansion.Expand`: a `fuel` bound on replacements stands for the
  unbounded `do`/`while`. Running out of fuel is the `OutOfFuel` outcome, and
  `Expansion.ExpandTerminates` gives enough fuel when no value brings a `$`
  back.
- `\w` is ASCII letters, digits and `_`. Java's `String.trim` removes
  characters up to U+0020.
- `Common.IncBuild`, `Common.NextCounters`, `Builder.VersionNumberBuilder.IncBuild`,
  `Builder.ComputeCounters`, `Builder.ComputedInfo`, `Builder.NextBuildInfo`,
  `Generators.GetNextNumber`, `Generators.ResolveValue`, the five window
  functions `Generators.BuildsToday`, `BuildsThisWeek`, `BuildsThisMonth`,
  `BuildsThisYear`, `BuildsAllTime`, and `Generators.PreviousBuildInfo`
  require that a previous build carries a version action, which is what the
  walk returns. On other builds `getPreviousBuildInfo` or `incBuild` would
  throw a null-pointer exception that is not modelled.
- `JavaLang.ParseInt` accepts only the ASCII digits '0'..'9'. Java's
  `Integer.parseInt` and `Integer.valueOf` also accept the other Unicode
  decimal digits, through `Character.digit`. So for an override such as
  "١٢" (Arabic-Indic digits) Java's `makeValid` gives "12", while
  `Override.MakeValid` gives "".
- `Expansion.PadZeros` and `Expansion.Padded` count lengths in Unicode
  characters. Java's `sizeTo` and `argumentString.length()` count UTF-16
  code units. An argument with a character outside the Basic Multilingual
  Plane therefore pads further in Java: with the counter at 1,
  `${BUILDS_TODAY, 😀}` gives "01" in Java and "1" in the model.
- `Generators.BuildsToday`, `BuildsThisWeek`, `BuildsThisMonth`,
  `BuildsThisYear` and `BuildsAllTime`: their own contracts state the
  increments 0 and 1 below `Integer.MAX_VALUE` only. The full rule, a
  32-bit wrapping sum for any increment, is `Generators.ResolveValueRule`.
