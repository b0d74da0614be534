/**
 * The build-number strategies: `AbstractBuildNumberGenerator.getNextNumber`
 * and the `resolveValue` of each window class (builds today, this week,
 * this month, this year, all time).
 */
module Generators {
  import opened Wrappers
  import opened JavaLang
  import opened Builds
  import opened Override
  import opened History

  /** Day of month, month and year agree. */
  predicate SameDay(cur: Timestamp, prev: Timestamp)
  {
    cur.dayOfMonth == prev.dayOfMonth && cur.month == prev.month && cur.year == prev.year
  }

  /** Week of year and year agree. */
  predicate SameWeek(cur: Timestamp, prev: Timestamp)
  {
    cur.weekOfYear == prev.weekOfYear && cur.year == prev.year
  }

  /** Month and year agree. */
  predicate SameMonth(cur: Timestamp, prev: Timestamp)
  {
    cur.month == prev.month && cur.year == prev.year
  }

  predicate SameYear(cur: Timestamp, prev: Timestamp)
  {
    cur.year == prev.year
  }

  /** `getPreviousBuildInfo(prevBuild)`: the counters the previous build's action recorded. */
  function PreviousBuildInfo(prevBuild: Build<Counters>): (r: Counters)
    requires prevBuild.action.Some?
    ensures prevBuild.action == Some(VersionAction(r, prevBuild.action.value.versionNumber))
  {
    prevBuild.action.value.info
  }

  /** `BuildsTodayGenerator.resolveValue`. */
  function BuildsToday(cur: Timestamp, prevBuild: Build<Counters>, increment: Int32): (r: Int32)
    requires prevBuild.action.Some?
    ensures !SameDay(cur, prevBuild.timestamp) ==> r == 1
    ensures SameDay(cur, prevBuild.timestamp) && increment == 0 ==> r == PreviousBuildInfo(prevBuild).buildsToday
    ensures SameDay(cur, prevBuild.timestamp) && increment == 1 && PreviousBuildInfo(prevBuild).buildsToday < INT_MAX
            ==> r == PreviousBuildInfo(prevBuild).buildsToday + 1
  {
    if SameDay(cur, prevBuild.timestamp)
    then Add32(PreviousBuildInfo(prevBuild).buildsToday, increment)
    else 1
  }

  /** `BuildsThisWeekGenerator.resolveValue`. */
  function BuildsThisWeek(cur: Timestamp, prevBuild: Build<Counters>, increment: Int32): (r: Int32)
    requires prevBuild.action.Some?
    ensures !SameWeek(cur, prevBuild.timestamp) ==> r == 1
    ensures SameWeek(cur, prevBuild.timestamp) && increment == 0 ==> r == PreviousBuildInfo(prevBuild).buildsThisWeek
    ensures SameWeek(cur, prevBuild.timestamp) && increment == 1 && PreviousBuildInfo(prevBuild).buildsThisWeek < INT_MAX
            ==> r == PreviousBuildInfo(prevBuild).buildsThisWeek + 1
  {
    if SameWeek(cur, prevBuild.timestamp)
    then Add32(PreviousBuildInfo(prevBuild).buildsThisWeek, increment)
    else 1
  }

  /** `BuildsThisMonthGenerator.resolveValue`. */
  function BuildsThisMonth(cur: Timestamp, prevBuild: Build<Counters>, increment: Int32): (r: Int32)
    requires prevBuild.action.Some?
    ensures !SameMonth(cur, prevBuild.timestamp) ==> r == 1
    ensures SameMonth(cur, prevBuild.timestamp) && increment == 0 ==> r == PreviousBuildInfo(prevBuild).buildsThisMonth
    ensures SameMonth(cur, prevBuild.timestamp) && increment == 1 && PreviousBuildInfo(prevBuild).buildsThisMonth < INT_MAX
            ==> r == PreviousBuildInfo(prevBuild).buildsThisMonth + 1
  {
    if SameMonth(cur, prevBuild.timestamp)
    then Add32(PreviousBuildInfo(prevBuild).buildsThisMonth, increment)
    else 1
  }

  /** `BuildsThisYearGenerator.resolveValue`. */
  function BuildsThisYear(cur: Timestamp, prevBuild: Build<Counters>, increment: Int32): (r: Int32)
    requires prevBuild.action.Some?
    ensures !SameYear(cur, prevBuild.timestamp) ==> r == 1
    ensures SameYear(cur, prevBuild.timestamp) && increment == 0 ==> r == PreviousBuildInfo(prevBuild).buildsThisYear
    ensures SameYear(cur, prevBuild.timestamp) && increment == 1 && PreviousBuildInfo(prevBuild).buildsThisYear < INT_MAX
            ==> r == PreviousBuildInfo(prevBuild).buildsThisYear + 1
  {
    if SameYear(cur, prevBuild.timestamp)
    then Add32(PreviousBuildInfo(prevBuild).buildsThisYear, increment)
    else 1
  }

  /** `BuildsAllTimeGenerator.resolveValue`: no timestamp is read. */
  function BuildsAllTime(cur: Timestamp, prevBuild: Build<Counters>, increment: Int32): (r: Int32)
    requires prevBuild.action.Some?
    ensures increment == 0 ==> r == PreviousBuildInfo(prevBuild).buildsAllTime
    ensures increment == 1 && PreviousBuildInfo(prevBuild).buildsAllTime < INT_MAX
            ==> r == PreviousBuildInfo(prevBuild).buildsAllTime + 1
  {
    Add32(PreviousBuildInfo(prevBuild).buildsAllTime, increment)
  }

  /** The concrete generator classes. */
  datatype Generator = TodayGenerator | ThisWeekGenerator | ThisMonthGenerator | ThisYearGenerator | AllTimeGenerator

  /** The abstract `resolveValue`, dispatched to the generator's class. */
  function ResolveValue(g: Generator, cur: Timestamp, prevBuild: Build<Counters>, increment: Int32): (r: Int32)
    requires prevBuild.action.Some?
    ensures !InWindow(g, cur, prevBuild.timestamp) ==> r == 1
    ensures InWindow(g, cur, prevBuild.timestamp) && increment == 0 ==> r == CounterOf(g, PreviousBuildInfo(prevBuild))
  {
    match g
    case TodayGenerator => BuildsToday(cur, prevBuild, increment)
    case ThisWeekGenerator => BuildsThisWeek(cur, prevBuild, increment)
    case ThisMonthGenerator => BuildsThisMonth(cur, prevBuild, increment)
    case ThisYearGenerator => BuildsThisYear(cur, prevBuild, increment)
    case AllTimeGenerator => BuildsAllTime(cur, prevBuild, increment)
  }

  /** The counting window of each generator: the calendar fields its `resolveValue` compares. */
  predicate InWindow(g: Generator, cur: Timestamp, prev: Timestamp)
  {
    match g
    case TodayGenerator => SameDay(cur, prev)
    case ThisWeekGenerator => SameWeek(cur, prev)
    case ThisMonthGenerator => SameMonth(cur, prev)
    case ThisYearGenerator => SameYear(cur, prev)
    case AllTimeGenerator => true
  }

  /** The stored counter each generator continues. */
  function CounterOf(g: Generator, info: Counters): Int32
  {
    match g
    case TodayGenerator => info.buildsToday
    case ThisWeekGenerator => info.buildsThisWeek
    case ThisMonthGenerator => info.buildsThisMonth
    case ThisYearGenerator => info.buildsThisYear
    case AllTimeGenerator => info.buildsAllTime
  }

  /**
   * Every generator follows one rule: inside its window it continues its
   * own counter by the increment, outside it restarts at 1.
   */
  lemma ResolveValueRule(g: Generator, cur: Timestamp, prevBuild: Build<Counters>, increment: Int32)
    requires prevBuild.action.Some?
    ensures ResolveValue(g, cur, prevBuild, increment)
            == if InWindow(g, cur, prevBuild.timestamp)
               then Add32(CounterOf(g, PreviousBuildInfo(prevBuild)), increment)
               else 1
  {
  }

  /**
   * The increment `getNextNumber` passes on: 0 exactly when the previous
   * build has a result worse than `worstResultForIncrement`.
   */
  function Increment(ordinal: Ordinal, result: Option<Result>, worstResultForIncrement: Result): (inc: Int32)
    ensures inc == 0 || inc == 1
    ensures inc == 0 <==> result.Some? && IsWorseThan(ordinal, result.value, worstResultForIncrement)
  {
    if result.Some? && IsWorseThan(ordinal, result.value, worstResultForIncrement) then 0 else 1
  }

  /**
   * `getNextNumber(build, vars, prevBuild, worstResultForIncrement, override)`:
   * a valid override wins, a first build gets 1, and otherwise the
   * generator continues from the previous build.
   */
  function GetNextNumber(g: Generator, cur: Timestamp, vars: Env, prevBuild: Option<Build<Counters>>,
                         ordinal: Ordinal, worstResultForIncrement: Result, override: Option<string>): (r: Int32)
    requires prevBuild.Some? ==> prevBuild.value.action.Some?
    ensures IsValidOverride(vars, override) || prevBuild.None? ==> r >= 0
  {
    if override.Some? && IsValidOverride(vars, override) then ResolveOverride(vars, override).value
    else if prevBuild.Some? then
      ResolveValue(g, cur, prevBuild.value, Increment(ordinal, prevBuild.value.result, worstResultForIncrement))
    else 1
  }

  /** A valid override is the next number, whatever the history holds, and is never negative. */
  lemma OverrideWins(g: Generator, cur: Timestamp, vars: Env, prevBuild: Option<Build<Counters>>,
                     ordinal: Ordinal, worst: Result, override: Option<string>)
    requires prevBuild.Some? ==> prevBuild.value.action.Some?
    requires IsValidOverride(vars, override)
    ensures GetNextNumber(g, cur, vars, prevBuild, ordinal, worst, override) == ResolveOverride(vars, override).value
    ensures GetNextNumber(g, cur, vars, prevBuild, ordinal, worst, override) >= 0
    ensures GetNextNumber(g, cur, vars, prevBuild, ordinal, worst, override)
            == GetNextNumber(g, cur, vars, None, ordinal, worst, override)
  {
  }

  /** Without a valid override, the first build of a job gets 1. */
  lemma FirstBuildIsOne(g: Generator, cur: Timestamp, vars: Env, ordinal: Ordinal, worst: Result,
                        override: Option<string>)
    requires !IsValidOverride(vars, override)
    ensures GetNextNumber(g, cur, vars, None, ordinal, worst, override) == 1
  {
  }

  /**
   * Without a valid override, a later build continues its window's counter
   * by 1, or by 0 when the previous result is worse than the threshold, and
   * restarts at 1 outside the window.
   */
  lemma ContinuesFromPrevious(g: Generator, cur: Timestamp, vars: Env, prevBuild: Build<Counters>,
                              ordinal: Ordinal, worst: Result, override: Option<string>)
    requires prevBuild.action.Some? && !IsValidOverride(vars, override)
    ensures var inc := if prevBuild.result.Some? && IsWorseThan(ordinal, prevBuild.result.value, worst) then 0 else 1;
            GetNextNumber(g, cur, vars, Some(prevBuild), ordinal, worst, override)
            == if InWindow(g, cur, prevBuild.timestamp)
               then Add32(CounterOf(g, PreviousBuildInfo(prevBuild)), inc)
               else 1
  {
    ResolveValueRule(g, cur, prevBuild, Increment(ordinal, prevBuild.result, worst));
  }

  /** The windows nest: the same day is the same month and year, the same week or month the same year. */
  lemma WindowsNest(cur: Timestamp, prev: Timestamp)
    ensures InWindow(TodayGenerator, cur, prev) ==> InWindow(ThisMonthGenerator, cur, prev)
    ensures InWindow(ThisMonthGenerator, cur, prev) ==> InWindow(ThisYearGenerator, cur, prev)
    ensures InWindow(ThisWeekGenerator, cur, prev) ==> InWindow(ThisYearGenerator, cur, prev)
  {
  }

  /** When the today counter continues, the month and year counters continue too. */
  lemma TodayContinuesMonthAndYear(cur: Timestamp, prevBuild: Build<Counters>, increment: Int32)
    requires prevBuild.action.Some? && SameDay(cur, prevBuild.timestamp)
    ensures BuildsToday(cur, prevBuild, increment) == Add32(PreviousBuildInfo(prevBuild).buildsToday, increment)
    ensures BuildsThisMonth(cur, prevBuild, increment) == Add32(PreviousBuildInfo(prevBuild).buildsThisMonth, increment)
    ensures BuildsThisYear(cur, prevBuild, increment) == Add32(PreviousBuildInfo(prevBuild).buildsThisYear, increment)
  {
  }

  /** Each generator reads only its own counter and the calendar fields of its window. */
  lemma ReadsOnlyItsWindow(g: Generator, cur: Timestamp, b1: Build<Counters>, b2: Build<Counters>, increment: Int32)
    requires b1.action.Some? && b2.action.Some?
    requires CounterOf(g, PreviousBuildInfo(b1)) == CounterOf(g, PreviousBuildInfo(b2))
    requires InWindow(g, cur, b1.timestamp) == InWindow(g, cur, b2.timestamp)
    ensures ResolveValue(g, cur, b1, increment) == ResolveValue(g, cur, b2, increment)
  {
    ResolveValueRule(g, cur, b1, increment);
    ResolveValueRule(g, cur, b2, increment);
  }

  /** The same week or month number in another year restarts the counter. */
  lemma OtherYearRestarts(cur: Timestamp, prevBuild: Build<Counters>, increment: Int32)
    requires prevBuild.action.Some? && cur.year != prevBuild.timestamp.year
    ensures BuildsToday(cur, prevBuild, increment) == 1
    ensures BuildsThisWeek(cur, prevBuild, increment) == 1
    ensures BuildsThisMonth(cur, prevBuild, increment) == 1
    ensures BuildsThisYear(cur, prevBuild, increment) == 1
  {
  }

  /** Inside its window, an increment of 0 carries the previous counter forward unchanged. */
  lemma ZeroIncrementCarriesForward(g: Generator, cur: Timestamp, prevBuild: Build<Counters>)
    requires prevBuild.action.Some? && InWindow(g, cur, prevBuild.timestamp)
    ensures ResolveValue(g, cur, prevBuild, 0) == CounterOf(g, PreviousBuildInfo(prevBuild))
  {
    ResolveValueRule(g, cur, prevBuild, 0);
  }

  /**
   * With SUCCESS as the threshold the increment is 0 after every result
   * other than SUCCESS; under the tests' ordering a FAILURE after FAILURE or
   * ABORTED as the threshold still increments, after UNSTABLE it does not.
   */
  lemma ThresholdExamples(ordinal: Ordinal)
    requires SuccessIsBest(ordinal) && AgreesWithTests(ordinal)
    ensures forall r: Result :: Increment(ordinal, Some(r), SUCCESS) == (if r == SUCCESS then 1 else 0)
    ensures Increment(ordinal, Some(FAILURE), UNSTABLE) == 0
    ensures Increment(ordinal, Some(FAILURE), FAILURE) == 1
    ensures Increment(ordinal, Some(FAILURE), ABORTED) == 1
    ensures Increment(ordinal, None, SUCCESS) == 1
  {
  }

  /**
   * A build that failed too early to get a version action does not break
   * the all-time sequence: the walk steps over it, and the next number
   * continues from the build before it.
   */
  lemma EarlyFailureKeepsSequence(cur: Timestamp, vars: Env, failed: Build<Counters>, last: Build<Counters>,
                                  older: seq<Build<Counters>>, ordinal: Ordinal, worst: Result,
                                  override: Option<string>)
    requires failed.action.None? && last.action.Some? && !IsValidOverride(vars, override)
    requires last.result.Some? ==> !IsWorseThan(ordinal, last.result.value, worst)
    ensures NearestVersioned([failed, last] + older, None) == Some(1)
    ensures GetNextNumber(AllTimeGenerator, cur, vars, Some(last), ordinal, worst, override)
            == Add32(PreviousBuildInfo(last).buildsAllTime, 1)
  {
    SkipsUnversioned(failed, [last] + older, None);
    assert [failed, last] + older == [failed] + ([last] + older);
  }
}
