/**
 * `VersionNumberCommon`, the revision the pipeline step uses: the counter
 * update of `incBuild` with five counters, the `skipFailedBuilds` switch and
 * an all-time override only, and the entry point of `formatVersionNumber`.
 * The ancestor walk is `History.PreviousBuildWithVersionNumber`, the
 * override helpers are those of module Override.
 */
module Common {
  import opened Wrappers
  import opened JavaLang
  import opened Builds
  import opened Override
  import opened Generators
  import opened Expansion

  /**
   * `isValidOverrideBuildsAllTime(envVars, buildsAllTime)`: a null or empty
   * override is turned down before it is resolved; every other one is valid
   * when `getOverrideBuildsAllTime` resolves it.
   */
  function IsValidOverrideBuildsAllTime(envVars: Env, buildsAllTime: Option<string>): (r: bool)
    ensures r <==> IsValidOverride(envVars, buildsAllTime)
  {
    if buildsAllTime.Some? && buildsAllTime.value != "" then ResolveOverride(envVars, buildsAllTime).Some?
    else
      assert MakeValid(buildsAllTime) == "";
      false
  }

  /** `buildInc`: 0 when failed builds are skipped and the previous build has a result other than SUCCESS. */
  function BuildIncrement(skipFailedBuilds: bool, result: Option<Result>): (inc: Int32)
    ensures inc == 0 || inc == 1
    ensures inc == 0 <==> skipFailedBuilds && result.Some? && result.value != SUCCESS
  {
    if skipFailedBuilds && result.Some? && result.value != SUCCESS then 0 else 1
  }

  /**
   * The counters `incBuild` returns: the generators' windows applied to the
   * previous build's counters with `buildInc`, all ones for a first build,
   * and a valid all-time override in place of the all-time counter.
   */
  function NextCounters(cur: Timestamp, envVars: Env, prevBuild: Option<Build<Counters>>,
                        skipFailedBuilds: bool, overrideBuildsAllTime: Option<string>): (r: Counters)
    requires prevBuild.Some? ==> prevBuild.value.action.Some?
    ensures IsValidOverride(envVars, overrideBuildsAllTime) || prevBuild.None? ==> r.buildsAllTime >= 0
  {
    var overridden := IsValidOverrideBuildsAllTime(envVars, overrideBuildsAllTime);
    match prevBuild
    case None =>
      Counters(1, 1, 1, 1, if overridden then ResolveOverride(envVars, overrideBuildsAllTime).value else 1)
    case Some(prev) =>
      var inc := BuildIncrement(skipFailedBuilds, prev.result);
      Counters(BuildsToday(cur, prev, inc), BuildsThisWeek(cur, prev, inc), BuildsThisMonth(cur, prev, inc),
               BuildsThisYear(cur, prev, inc),
               if overridden then ResolveOverride(envVars, overrideBuildsAllTime).value
               else BuildsAllTime(cur, prev, inc))
  }

  /**
   * `incBuild(build, environmentVariables, prevBuild, skipFailedBuilds,
   * overrideBuildsAllTime)`, with the build's timestamp as `cur` and
   * `prevBuild` as the walk found it (so it carries a version action).
   */
  method IncBuild(cur: Timestamp, environmentVariables: Env, prevBuild: Option<Build<Counters>>,
                  skipFailedBuilds: bool, overrideBuildsAllTime: Option<string>) returns (r: Counters)
    requires prevBuild.Some? ==> prevBuild.value.action.Some?
    ensures r == NextCounters(cur, environmentVariables, prevBuild, skipFailedBuilds, overrideBuildsAllTime)
  {
    var buildsToday: Int32 := 1;
    var buildsThisWeek: Int32 := 1;
    var buildsThisMonth: Int32 := 1;
    var buildsThisYear: Int32 := 1;
    var buildsAllTime: Int32 := 1;
    var buildInc: Int32 := 1;

    if IsValidOverrideBuildsAllTime(environmentVariables, overrideBuildsAllTime) {
      buildsAllTime := ResolveOverride(environmentVariables, overrideBuildsAllTime).value;
    }

    if prevBuild.Some? {
      var prev := prevBuild.value;
      if skipFailedBuilds {
        var result := prev.result;
        if result.Some? && result.value != SUCCESS {
          buildInc := 0;
        }
      }
      var curCal := cur;
      var todayCal := prev.timestamp;
      var info := prev.action.value.info;

      if curCal.dayOfMonth == todayCal.dayOfMonth && curCal.month == todayCal.month && curCal.year == todayCal.year {
        buildsToday := Add32(info.buildsToday, buildInc);
      } else {
        buildsToday := 1;
      }

      if curCal.weekOfYear == todayCal.weekOfYear && curCal.year == todayCal.year {
        buildsThisWeek := Add32(info.buildsThisWeek, buildInc);
      } else {
        buildsThisWeek := 1;
      }

      if curCal.month == todayCal.month && curCal.year == todayCal.year {
        buildsThisMonth := Add32(info.buildsThisMonth, buildInc);
      } else {
        buildsThisMonth := 1;
      }

      if curCal.year == todayCal.year {
        buildsThisYear := Add32(info.buildsThisYear, buildInc);
      } else {
        buildsThisYear := 1;
      }

      if !IsValidOverrideBuildsAllTime(environmentVariables, overrideBuildsAllTime) {
        buildsAllTime := Add32(info.buildsAllTime, buildInc);
      }
    }

    r := Counters(buildsToday, buildsThisWeek, buildsThisMonth, buildsThisYear, buildsAllTime);
  }

  /** The override each generator is given when it stands in for `incBuild`: only the all-time one has one. */
  function OverrideOf(g: Generator, overrideBuildsAllTime: Option<string>): Option<string>
  {
    if g == AllTimeGenerator then overrideBuildsAllTime else None
  }

  /**
   * `incBuild` is the generators' `getNextNumber` with a threshold under
   * which exactly the results other than SUCCESS are worse when failed
   * builds are skipped, and none is worse otherwise.
   */
  lemma {:induction false} MatchesGenerators(cur: Timestamp, envVars: Env, prevBuild: Option<Build<Counters>>,
                                             skipFailedBuilds: bool, overrideBuildsAllTime: Option<string>,
                                             ordinal: Ordinal, worst: Result)
    requires prevBuild.Some? ==> prevBuild.value.action.Some?
    requires forall r: Result :: IsWorseThan(ordinal, r, worst) <==> skipFailedBuilds && r != SUCCESS
    ensures forall g: Generator ::
              CounterOf(g, NextCounters(cur, envVars, prevBuild, skipFailedBuilds, overrideBuildsAllTime))
              == GetNextNumber(g, cur, envVars, prevBuild, ordinal, worst, OverrideOf(g, overrideBuildsAllTime))
  {
    var next := NextCounters(cur, envVars, prevBuild, skipFailedBuilds, overrideBuildsAllTime);
    assert !IsValidOverride(envVars, None) by {
      assert MakeValid(None) == "";
    }
    if prevBuild.Some? {
      var result := prevBuild.value.result;
      assert Increment(ordinal, result, worst) == BuildIncrement(skipFailedBuilds, result) by {
        if result.Some? {
          assert IsWorseThan(ordinal, result.value, worst) <==> skipFailedBuilds && result.value != SUCCESS;
        }
      }
    }
    forall g: Generator
      ensures CounterOf(g, next)
              == GetNextNumber(g, cur, envVars, prevBuild, ordinal, worst, OverrideOf(g, overrideBuildsAllTime))
    {
      match g
      case TodayGenerator =>
      case ThisWeekGenerator =>
      case ThisMonthGenerator =>
      case ThisYearGenerator =>
      case AllTimeGenerator =>
    }
  }

  /** With SUCCESS as the best result, skipping failed builds is the threshold SUCCESS. */
  lemma SkipIsSuccessThreshold(ordinal: Ordinal)
    requires SuccessIsBest(ordinal)
    ensures forall r: Result :: IsWorseThan(ordinal, r, SUCCESS) <==> r != SUCCESS
  {
  }

  /** A first build numbers every window 1, and all time 1 or the valid override. */
  lemma FirstBuildCounters(cur: Timestamp, envVars: Env, skipFailedBuilds: bool, overrideBuildsAllTime: Option<string>)
    ensures var next := NextCounters(cur, envVars, None, skipFailedBuilds, overrideBuildsAllTime);
            next.buildsToday == 1 && next.buildsThisWeek == 1 && next.buildsThisMonth == 1 && next.buildsThisYear == 1
            && next.buildsAllTime
               == if IsValidOverride(envVars, overrideBuildsAllTime)
                  then ResolveOverride(envVars, overrideBuildsAllTime).value else 1
  {
  }

  /**
   * After a previous build, each windowed counter continues the previous
   * one by the increment inside its window and restarts at 1 outside it;
   * the increment is 0 exactly when failed builds are skipped and the
   * previous result is set and not SUCCESS.
   */
  lemma ContinuesCounters(cur: Timestamp, envVars: Env, prevBuild: Build<Counters>, skipFailedBuilds: bool,
                          overrideBuildsAllTime: Option<string>)
    requires prevBuild.action.Some?
    ensures var inc := if skipFailedBuilds && prevBuild.result.Some? && prevBuild.result.value != SUCCESS then 0 else 1;
            var next := NextCounters(cur, envVars, Some(prevBuild), skipFailedBuilds, overrideBuildsAllTime);
            forall g: Generator :: g != AllTimeGenerator ==>
              CounterOf(g, next)
              == if InWindow(g, cur, prevBuild.timestamp) then Add32(CounterOf(g, PreviousBuildInfo(prevBuild)), inc) else 1
  {
    var inc := BuildIncrement(skipFailedBuilds, prevBuild.result);
    forall g: Generator | g != AllTimeGenerator {
      ResolveValueRule(g, cur, prevBuild, inc);
    }
  }

  /**
   * The all-time counter is a valid override whether or not there is a
   * previous build, and otherwise the previous all-time counter plus the
   * increment.
   */
  lemma AllTimeCounter(cur: Timestamp, envVars: Env, prevBuild: Option<Build<Counters>>, skipFailedBuilds: bool,
                       overrideBuildsAllTime: Option<string>)
    requires prevBuild.Some? ==> prevBuild.value.action.Some?
    ensures var next := NextCounters(cur, envVars, prevBuild, skipFailedBuilds, overrideBuildsAllTime);
            IsValidOverride(envVars, overrideBuildsAllTime) ==>
              next.buildsAllTime == ResolveOverride(envVars, overrideBuildsAllTime).value && next.buildsAllTime >= 0
    ensures var next := NextCounters(cur, envVars, prevBuild, skipFailedBuilds, overrideBuildsAllTime);
            !IsValidOverride(envVars, overrideBuildsAllTime) && prevBuild.Some? ==>
              next.buildsAllTime
              == Add32(PreviousBuildInfo(prevBuild.value).buildsAllTime,
                       BuildIncrement(skipFailedBuilds, prevBuild.value.result))
  {
  }

  /**
   * A skipped failure on the same day and in the same week takes no new
   * number: every counter is the previous build's, unless the all-time
   * override replaces that one.
   */
  lemma {:induction false} SkippedFailureKeepsCounters(cur: Timestamp, envVars: Env, prevBuild: Build<Counters>,
                                                       overrideBuildsAllTime: Option<string>)
    requires prevBuild.action.Some? && prevBuild.result.Some? && prevBuild.result.value != SUCCESS
    requires SameDay(cur, prevBuild.timestamp) && SameWeek(cur, prevBuild.timestamp)
    requires !IsValidOverride(envVars, overrideBuildsAllTime)
    ensures NextCounters(cur, envVars, Some(prevBuild), true, overrideBuildsAllTime) == PreviousBuildInfo(prevBuild)
  {
    var info := PreviousBuildInfo(prevBuild);
    Add32Zero(info.buildsToday);
    Add32Zero(info.buildsThisWeek);
    Add32Zero(info.buildsThisMonth);
    Add32Zero(info.buildsThisYear);
    Add32Zero(info.buildsAllTime);
  }

  lemma Add32Zero(x: Int32)
    ensures Add32(x, 0) == x
  {
  }

  // ------------------------------------------------------ formatVersionNumber

  /** What the pipeline loop reads: the five counters, an optional project start date, the environment. */
  function PipelineContext(projectStartDate: Option<Timestamp>, info: Counters, enVars: Env, buildDate: Timestamp,
                           formatDate: Option<string> -> Option<string>): FormatContext
  {
    FormatContext(Pipeline(info.buildsThisWeek, projectStartDate),
                  info.buildsToday, info.buildsThisMonth, info.buildsThisYear, info.buildsAllTime,
                  buildDate, enVars, formatDate)
  }

  /**
   * `formatVersionNumber(versionNumberFormatString, projectStartDate, info,
   * enVars, buildDate)`: `expandEnv` stands for `new EnvVars(enVars).expand`,
   * applied once before the loop; `fuel` bounds the number of replacements.
   */
  method FormatVersionNumber(versionNumberFormatString: string, projectStartDate: Option<Timestamp>, info: Counters,
                             enVars: Env, buildDate: Timestamp, formatDate: Option<string> -> Option<string>,
                             expandEnv: string -> string, fuel: nat) returns (r: Formatted)
    ensures r == Expand(expandEnv(versionNumberFormatString),
                        PipelineContext(projectStartDate, info, enVars, buildDate, formatDate), fuel)
  {
    var vnf := expandEnv(versionNumberFormatString);
    r := ExpandBlocks(vnf, PipelineContext(projectStartDate, info, enVars, buildDate, formatDate), fuel);
  }
}
