/**
 * What the engine reads about builds: calendar fields of a timestamp, the
 * build result, the counters and version string a version action recorded,
 * and the chain of earlier builds.
 */
module Builds {
  import opened Wrappers
  import opened JavaLang

  /**
   * The `Calendar.get` fields the engine compares and prints. `month` is
   * `Calendar.MONTH`, counted from 0; the others are as the calendar gives them.
   */
  datatype Timestamp = Timestamp(year: Int32, month: Int32, dayOfMonth: Int32, weekOfYear: Int32)

  /** `hudson.model.Result`. */
  datatype Result = SUCCESS | UNSTABLE | FAILURE | NOT_BUILT | ABORTED

  /** The ordinal Jenkins core gives each result; its order is not part of this model. */
  type Ordinal = Result -> int

  /** `r.isWorseThan(than)`. */
  predicate IsWorseThan(ordinal: Ordinal, r: Result, than: Result)
  {
    ordinal(r) > ordinal(than)
  }

  /** No result is better than SUCCESS, and only SUCCESS is as good. */
  predicate SuccessIsBest(ordinal: Ordinal)
  {
    forall r: Result :: r != SUCCESS ==> ordinal(r) > ordinal(SUCCESS)
  }

  /** The comparisons the pipeline tests rely on. */
  predicate AgreesWithTests(ordinal: Ordinal)
  {
    IsWorseThan(ordinal, FAILURE, UNSTABLE) && !IsWorseThan(ordinal, FAILURE, ABORTED)
  }

  /**
   * The five counters the pipeline code stores in a `VersionNumberBuildInfo`
   * (today, this week, this month, this year, all time).
   */
  datatype Counters = Counters(buildsToday: Int32, buildsThisWeek: Int32, buildsThisMonth: Int32,
                               buildsThisYear: Int32, buildsAllTime: Int32)

  /**
   * `VersionNumberBuildInfo` as its own file declares it, the four counters
   * the freestyle builder stores; its getters are the field names.
   */
  datatype BuildInfo = BuildInfo(buildsToday: Int32, buildsThisMonth: Int32, buildsThisYear: Int32,
                                 buildsAllTime: Int32)

  /** A `VersionNumberAction`: the counters and the version string given to a build. */
  datatype VersionAction<I> = VersionAction(info: I, versionNumber: string)

  /** A build: its timestamp, its result (`None` while it has none) and its version action, if any. */
  datatype Build<I> = Build(timestamp: Timestamp, result: Option<Result>, action: Option<VersionAction<I>>)

  /**
   * The ancestry of a build: element 0 is `build.getPreviousBuild()`, each
   * next element the previous build of the one before, oldest last.
   */
  type History<I> = seq<Build<I>>
}
