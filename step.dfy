/**
 * `VersionNumberStep`, the pipeline step's configuration: the mandatory
 * format string, the prefix, and the threshold setting that
 * `getWorstResultForIncrement` migrates from the legacy `skipFailedBuilds`
 * switch and normalises in place.
 */
module Step {
  import opened Wrappers
  import opened JavaLang
  import opened Builds
  import opened History
  import opened Generators
  import Common

  /**
   * The setting names of the five thresholds. `VersionNumberCommon.WORST_RESULT_*`
   * is referenced at VersionNumberStep.java:119-136 but not defined in this
   * revision of VersionNumberCommon.java; the pipeline tests spell four of
   * them as the result names, and NOT_BUILT is taken alike.
   */
  function SettingName(r: Result): string
  {
    match r
    case SUCCESS => "SUCCESS"
    case UNSTABLE => "UNSTABLE"
    case FAILURE => "FAILURE"
    case NOT_BUILT => "NOT_BUILT"
    case ABORTED => "ABORTED"
  }

  /** The `switch` of `getWorstResultForIncrement`: the result a setting names, `None` for the default branch. */
  function ParseSetting(setting: string): (r: Option<Result>)
    ensures r.Some? ==> SettingName(r.value) == setting
  {
    if setting == "NOT_BUILT" then Some(NOT_BUILT)
    else if setting == "ABORTED" then Some(ABORTED)
    else if setting == "FAILURE" then Some(FAILURE)
    else if setting == "UNSTABLE" then Some(UNSTABLE)
    else if setting == "SUCCESS" then Some(SUCCESS)
    else None
  }

  /** Every threshold's name reads back as that threshold. */
  lemma SettingRoundTrip(r: Result)
    ensures ParseSetting(SettingName(r)) == Some(r)
  {
  }

  /**
   * The setting `getWorstResultForIncrement` leaves behind: SUCCESS when the
   * legacy switch was on, NOT_BUILT for none, the setting itself when it
   * names a threshold, and SUCCESS otherwise.
   */
  function StoredSetting(skipFailedBuilds: bool, worstResultForIncrement: Option<string>): (r: string)
    ensures ParseSetting(r).Some?
  {
    var setting := if skipFailedBuilds then "SUCCESS"
                   else if worstResultForIncrement.None? then "NOT_BUILT"
                   else worstResultForIncrement.value;
    if ParseSetting(setting).Some? then setting else "SUCCESS"
  }

  /** The threshold `getWorstResultForIncrement` returns. */
  function WorstResult(skipFailedBuilds: bool, worstResultForIncrement: Option<string>): (r: Result)
    ensures SettingName(r) == StoredSetting(skipFailedBuilds, worstResultForIncrement)
  {
    match ParseSetting(StoredSetting(skipFailedBuilds, worstResultForIncrement))
    case Some(r) => r
    case None => assert false; SUCCESS
  }

  class VersionNumberStep {
    const versionNumberString: string
    var skipFailedBuilds: bool
    var worstResultForIncrement: Option<string>
    var versionPrefix: Option<string>

    /** The data-bound constructor for a format string it accepts; the setters keep their defaults. */
    constructor (versionNumberString: string)
      requires versionNumberString != ""
      ensures this.versionNumberString == versionNumberString
      ensures !skipFailedBuilds && worstResultForIncrement.None? && versionPrefix.None?
    {
      this.versionNumberString := versionNumberString;
      this.skipFailedBuilds := false;
      this.worstResultForIncrement := None;
      this.versionPrefix := None;
    }

    /** `new VersionNumberStep(versionNumberString)`: `None` when it throws for a null or empty string. */
    static method Create(versionNumberString: Option<string>) returns (r: Option<VersionNumberStep>)
      ensures r.None? <==> versionNumberString.None? || versionNumberString.value == ""
      ensures r.Some? ==> fresh(r.value) && r.value.versionNumberString == versionNumberString.value
      ensures r.Some? ==> !r.value.skipFailedBuilds && r.value.worstResultForIncrement.None?
                          && r.value.versionPrefix.None?
    {
      if versionNumberString.None? || versionNumberString.value == "" {
        return None;
      }
      var step := new VersionNumberStep(versionNumberString.value);
      return Some(step);
    }

    /** `getVersionPrefix()`: the prefix when it is set and not empty, `None` (null) otherwise. */
    function GetVersionPrefix(): (r: Option<string>)
      reads this
      ensures r.Some? <==> versionPrefix.Some? && versionPrefix.value != ""
      ensures r.Some? ==> r == versionPrefix
    {
      if versionPrefix.Some? && versionPrefix.value != "" then versionPrefix else None
    }

    /**
     * `getWorstResultForIncrement()`: clears the legacy switch, stores the
     * normalised setting and returns the threshold it names.
     */
    method GetWorstResultForIncrement() returns (r: Result)
      modifies this
      ensures r == WorstResult(old(skipFailedBuilds), old(worstResultForIncrement))
      ensures !skipFailedBuilds
      ensures worstResultForIncrement == Some(SettingName(r))
      ensures versionPrefix == old(versionPrefix)
    {
      if skipFailedBuilds {
        skipFailedBuilds := false;
        worstResultForIncrement := Some("SUCCESS");
      }
      if worstResultForIncrement.None? {
        worstResultForIncrement := Some("NOT_BUILT");
      }
      var setting := worstResultForIncrement.value;
      if setting == "NOT_BUILT" {
        return NOT_BUILT;
      } else if setting == "ABORTED" {
        return ABORTED;
      } else if setting == "FAILURE" {
        return FAILURE;
      } else if setting == "UNSTABLE" {
        return UNSTABLE;
      } else if setting == "SUCCESS" {
        return SUCCESS;
      }
      worstResultForIncrement := Some("SUCCESS");
      return SUCCESS;
    }
  }

  // ------------------------------------------------------------ properties

  /**
   * The legacy switch becomes SUCCESS, no setting NOT_BUILT, and a setting
   * that names no threshold SUCCESS; a threshold's own name is kept.
   */
  lemma WorstResultCases(skipFailedBuilds: bool, worstResultForIncrement: Option<string>)
    ensures skipFailedBuilds ==> WorstResult(skipFailedBuilds, worstResultForIncrement) == SUCCESS
    ensures !skipFailedBuilds && worstResultForIncrement.None? ==>
              WorstResult(skipFailedBuilds, worstResultForIncrement) == NOT_BUILT
    ensures !skipFailedBuilds && worstResultForIncrement.Some? ==>
              WorstResult(skipFailedBuilds, worstResultForIncrement)
              == match ParseSetting(worstResultForIncrement.value)
                 case Some(r) => r
                 case None => SUCCESS
  {
  }

  /** Once normalised, the setting stays: a second call returns the same threshold and stores the same setting. */
  lemma WorstResultIsStable(skipFailedBuilds: bool, worstResultForIncrement: Option<string>)
    ensures var stored := Some(StoredSetting(skipFailedBuilds, worstResultForIncrement));
            StoredSetting(false, stored) == stored.value
            && WorstResult(false, stored) == WorstResult(skipFailedBuilds, worstResultForIncrement)
  {
    var r := WorstResult(skipFailedBuilds, worstResultForIncrement);
    SettingRoundTrip(r);
  }

  /**
   * With SUCCESS as the best result, the migrated legacy switch keeps the
   * old meaning: the threshold it yields gives the increment that skipping
   * failed builds gave.
   */
  lemma LegacySwitchKeepsMeaning(ordinal: Ordinal, worstResultForIncrement: Option<string>, result: Option<Result>)
    requires SuccessIsBest(ordinal)
    ensures Increment(ordinal, result, WorstResult(true, worstResultForIncrement)) == Common.BuildIncrement(true, result)
  {
    WorstResultCases(true, worstResultForIncrement);
  }

  /** The prefix prepend of `Execution.run`: a set prefix is put in front of the formatted string. */
  function PrefixedVersion(versionPrefix: Option<string>, formatted: string): (r: string)
    ensures versionPrefix.None? ==> r == formatted
    ensures versionPrefix.Some? ==> StartsWith(r, versionPrefix.value) && r[|versionPrefix.value|..] == formatted
  {
    if versionPrefix.Some? then versionPrefix.value + formatted else formatted
  }

  /**
   * The version a step records under a prefix is one the next walk with
   * that prefix stops at: a build carrying it is the nearest match.
   */
  lemma PrefixedBuildIsFound<I>(b: Build<I>, versionPrefix: string, formatted: string, older: seq<Build<I>>)
    requires b.action.Some? && b.action.value.versionNumber == PrefixedVersion(Some(versionPrefix), formatted)
    ensures NearestVersioned([b] + older, Some(versionPrefix)) == Some(0)
  {
    assert ([b] + older)[0] == b;
  }
}
