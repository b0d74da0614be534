/**
 * `VersionNumberBuilder`, the freestyle build wrapper: four counters (no
 * week), four override fields that `incBuild` rewrites (a literal override
 * is used once and cleared, a reference stays), its own ancestor walk whose
 * prefix comes from an environment variable, and a copy of the format loop
 * without environment pre-expansion.
 */
module Builder {
  import opened Wrappers
  import opened JavaLang
  import opened EnvPattern
  import opened Builds
  import opened Override
  import opened Generators
  import opened History
  import opened Expansion
  import Common

  /** The four override fields: builds today, this month, this year, all time. */
  datatype Overrides = Overrides(today: string, thisMonth: string, thisYear: string, allTime: string)

  /** A field `makeValid` can have produced: empty, a canonical non-negative literal or a reference. */
  predicate IsNormalOverride(o: string)
  {
    o == "" || IsNonNegativeLiteral(o) || MatchesEnvVarPattern(o)
  }

  predicate AllNormal(o: Overrides)
  {
    IsNormalOverride(o.today) && IsNormalOverride(o.thisMonth) && IsNormalOverride(o.thisYear)
    && IsNormalOverride(o.allTime)
  }

  /** At least one field is set, which is when `incBuild` asks for the project to be saved. */
  predicate AnyOverride(o: Overrides)
  {
    o.today != "" || o.thisMonth != "" || o.thisYear != "" || o.allTime != ""
  }

  /**
   * `buildInc`. The test `!prevBuild.getResult().equals(SUCCESS)` is only
   * evaluated when failed builds are skipped, and throws when the previous
   * build has no result yet: that is `None`.
   */
  function FreestyleIncrement(skipFailedBuilds: bool, result: Option<Result>): (inc: Option<Int32>)
    ensures inc.None? <==> skipFailedBuilds && result.None?
    ensures inc.Some? ==> inc.value == 0 || inc.value == 1
    ensures inc.Some? ==> (inc.value == 0 <==> skipFailedBuilds && result.Some? && result.value != SUCCESS)
  {
    if !skipFailedBuilds then Some(1)
    else match result
      case None => None
      case Some(r) => Some(if r != SUCCESS then 0 else 1)
  }

  /** The counters `incBuild` computes before it looks at the overrides; `None` when it throws. */
  function ComputedInfo(cur: Timestamp, prevBuild: Option<Build<BuildInfo>>, skipFailedBuilds: bool): (r: Option<BuildInfo>)
    requires prevBuild.Some? ==> prevBuild.value.action.Some?
    ensures r.None? <==> prevBuild.Some? && skipFailedBuilds && prevBuild.value.result.None?
  {
    match prevBuild
    case None => Some(BuildInfo(1, 1, 1, 1))
    case Some(prev) =>
      match FreestyleIncrement(skipFailedBuilds, prev.result)
      case None => None
      case Some(inc) =>
        var info := prev.action.value.info;
        var t := prev.timestamp;
        Some(BuildInfo(if SameDay(cur, t) then Add32(info.buildsToday, inc) else 1,
                       if SameMonth(cur, t) then Add32(info.buildsThisMonth, inc) else 1,
                       if SameYear(cur, t) then Add32(info.buildsThisYear, inc) else 1,
                       Add32(info.buildsAllTime, inc)))
  }

  /** A counter after its override field: an override that resolves replaces the computed value. */
  function OverriddenCounter(o: string, enVars: Env, computed: Int32): (r: Int32)
    ensures r != computed ==> r >= 0
    ensures MakeValid(Some(o)) == "" ==> r == computed
  {
    if o == "" then computed
    else match ResolveOverride(enVars, Some(o))
      case Some(v) => v
      case None => computed
  }

  /** An override field after `incBuild`: a reference is kept in normal form, anything else is cleared. */
  function FieldAfter(o: string): (r: string)
    ensures r == "" || MatchesEnvVarPattern(r)
    ensures r != "" ==> r == MakeValid(Some(o))
  {
    if o == "" then ""
    else
      var v := MakeValid(Some(o));
      if MatchesEnvVarPattern(v) then v else ""
  }

  /** The four fields after `incBuild`; without overrides nothing changes. */
  function OverridesAfter(o: Overrides): (r: Overrides)
    ensures !AnyOverride(o) ==> r == o
  {
    Overrides(FieldAfter(o.today), FieldAfter(o.thisMonth), FieldAfter(o.thisYear), FieldAfter(o.allTime))
  }

  /** The `VersionNumberBuildInfo` that `incBuild` returns, `None` when it throws. */
  function NextBuildInfo(cur: Timestamp, enVars: Env, prevBuild: Option<Build<BuildInfo>>, skipFailedBuilds: bool,
                         o: Overrides): (r: Option<BuildInfo>)
    requires prevBuild.Some? ==> prevBuild.value.action.Some?
    ensures r.None? <==> ComputedInfo(cur, prevBuild, skipFailedBuilds).None?
    ensures !AnyOverride(o) ==> r == ComputedInfo(cur, prevBuild, skipFailedBuilds)
  {
    match ComputedInfo(cur, prevBuild, skipFailedBuilds)
    case None => None
    case Some(c) =>
      Some(BuildInfo(OverriddenCounter(o.today, enVars, c.buildsToday),
                     OverriddenCounter(o.thisMonth, enVars, c.buildsThisMonth),
                     OverriddenCounter(o.thisYear, enVars, c.buildsThisYear),
                     OverriddenCounter(o.allTime, enVars, c.buildsAllTime)))
  }

  /**
   * The first half of `incBuild`: the counters continued from the previous
   * build, before any override; `None` when the result test throws.
   */
  method ComputeCounters(cur: Timestamp, prevBuild: Option<Build<BuildInfo>>, skipFailedBuilds: bool)
    returns (r: Option<BuildInfo>)
    requires prevBuild.Some? ==> prevBuild.value.action.Some?
    ensures r == ComputedInfo(cur, prevBuild, skipFailedBuilds)
  {
    var buildsToday: Int32 := 1;
    var buildsThisMonth: Int32 := 1;
    var buildsThisYear: Int32 := 1;
    var buildsAllTime: Int32 := 1;
    var buildInc: Int32 := 1;

    if prevBuild.Some? {
      var prev := prevBuild.value;
      if skipFailedBuilds {
        if prev.result.None? {
          // `getResult()` is null: the `equals` call throws
          return None;
        }
        if prev.result.value != SUCCESS {
          buildInc := 0;
        }
      }
      var curCal := cur;
      var todayCal := prev.timestamp;
      var info := prev.action.value.info;

      if curCal.dayOfMonth == todayCal.dayOfMonth && curCal.month == todayCal.month && curCal.year == todayCal.year {
        buildsToday := Add32(info.buildsToday, buildInc);
      } else {
        buildsToday := 1;
      }

      if curCal.month == todayCal.month && curCal.year == todayCal.year {
        buildsThisMonth := Add32(info.buildsThisMonth, buildInc);
      } else {
        buildsThisMonth := 1;
      }

      if curCal.year == todayCal.year {
        buildsThisYear := Add32(info.buildsThisYear, buildInc);
      } else {
        buildsThisYear := 1;
      }

      buildsAllTime := Add32(info.buildsAllTime, buildInc);
    }

    r := Some(BuildInfo(buildsToday, buildsThisMonth, buildsThisYear, buildsAllTime));
  }

  /**
   * One override block of `incBuild`. A field that is not empty asks for
   * the project to be saved and is normalised again; a literal is parsed
   * and the field reset, a reference is looked up, and a value below 0 or
   * one that failed to parse leaves the computed counter in place.
   */
  method OverrideBlock(o: string, enVars: Env, computed: Int32) returns (counter: Int32, field: string, used: bool)
    ensures counter == OverriddenCounter(o, enVars, computed)
    ensures field == FieldAfter(o)
    ensures used <==> o != ""
  {
    counter, field, used := computed, o, false;
    if o != "" {
      used := true;
      field := MakeValid(Some(o));
      var newVal := computed;
      if !MatchesEnvVarPattern(field) {
        var parsed := ParseInt(field);
        if parsed.Some? {
          newVal := parsed.value;
          field := "";
        }
      } else {
        var parsed := ParseVariable(enVars, ReferenceName(field));
        if parsed.Some? {
          newVal := parsed.value;
        }
      }
      counter := if newVal >= 0 then newVal else computed;
    }
  }

  class VersionNumberBuilder {
    const versionNumberString: string
    /** `parseDate` of the configured start date, as calendar fields (the epoch when it does not parse). */
    const projectStartDate: Timestamp
    const environmentVariableName: string
    const environmentPrefixVariable: Option<string>
    const skipFailedBuilds: bool
    const useAsBuildDisplayName: bool

    var oBuildsToday: string
    var oBuildsThisMonth: string
    var oBuildsThisYear: string
    var oBuildsAllTime: string

    function OverrideFields(): Overrides
      reads this
    {
      Overrides(oBuildsToday, oBuildsThisMonth, oBuildsThisYear, oBuildsAllTime)
    }

    /** Every override field is in the form `makeValid` gives. */
    predicate Valid()
      reads this
    {
      AllNormal(OverrideFields())
    }

    /** The constructor keeps the settings and stores `makeValid` of each override. */
    constructor (versionNumberString: string, projectStartDate: Timestamp, environmentVariableName: string,
                 environmentPrefixVariable: Option<string>, buildsToday: Option<string>,
                 buildsThisMonth: Option<string>, buildsThisYear: Option<string>, buildsAllTime: Option<string>,
                 skipFailedBuilds: bool, useAsBuildDisplayName: bool)
      ensures this.versionNumberString == versionNumberString && this.projectStartDate == projectStartDate
      ensures this.environmentVariableName == environmentVariableName
      ensures this.environmentPrefixVariable == environmentPrefixVariable
      ensures this.skipFailedBuilds == skipFailedBuilds && this.useAsBuildDisplayName == useAsBuildDisplayName
      ensures OverrideFields()
              == Overrides(MakeValid(buildsToday), MakeValid(buildsThisMonth), MakeValid(buildsThisYear),
                           MakeValid(buildsAllTime))
      ensures Valid()
    {
      this.versionNumberString := versionNumberString;
      this.projectStartDate := projectStartDate;
      this.environmentVariableName := environmentVariableName;
      this.environmentPrefixVariable := environmentPrefixVariable;
      this.skipFailedBuilds := skipFailedBuilds;
      this.useAsBuildDisplayName := useAsBuildDisplayName;
      this.oBuildsToday := MakeValid(buildsToday);
      this.oBuildsThisMonth := MakeValid(buildsThisMonth);
      this.oBuildsThisYear := MakeValid(buildsThisYear);
      this.oBuildsAllTime := MakeValid(buildsAllTime);
    }

    /**
     * `getPreviousBuildWithVersionNumber(build)`: the prefix is the value of
     * the variable named `environmentPrefixVariable`; `environment` is the
     * build's environment, `None` when reading it failed, which means no
     * prefix, as does an unset variable.
     */
    method PreviousBuildWithVersionNumber(history: seq<Build<BuildInfo>>, environment: Option<Env>)
      returns (r: Option<nat>)
      ensures var prefix :=
                if environmentPrefixVariable.Some? && environment.Some?
                   && environmentPrefixVariable.value in environment.value
                then Some(environment.value[environmentPrefixVariable.value]) else None;
              r == NearestVersioned(history, prefix)
    {
      var envPrefix: Option<string> := None;
      if environmentPrefixVariable.Some? {
        if environment.Some? && environmentPrefixVariable.value in environment.value {
          envPrefix := Some(environment.value[environmentPrefixVariable.value]);
        }
      }
      r := History.PreviousBuildWithVersionNumber(history, envPrefix);
    }

    /**
     * `incBuild(build, enVars, log)` with the build's timestamp as `cur` and
     * `prevBuild` as the walk found it. `r` is `None` when it throws, and
     * then no field has changed; `saveOverrides` says whether the project
     * is saved.
     */
    method IncBuild(cur: Timestamp, enVars: Env, prevBuild: Option<Build<BuildInfo>>)
      returns (r: Option<BuildInfo>, saveOverrides: bool)
      requires prevBuild.Some? ==> prevBuild.value.action.Some?
      modifies this
      ensures r == NextBuildInfo(cur, enVars, prevBuild, skipFailedBuilds, old(OverrideFields()))
      ensures r.None? ==> OverrideFields() == old(OverrideFields()) && !saveOverrides
      ensures r.Some? ==> OverrideFields() == OverridesAfter(old(OverrideFields())) && Valid()
      ensures r.Some? && old(Valid()) ==> OverrideFields() == KeptReferences(old(OverrideFields()))
      ensures r.Some? ==> (saveOverrides <==> AnyOverride(old(OverrideFields())))
    {
      var computed := ComputeCounters(cur, prevBuild, skipFailedBuilds);
      if computed.None? {
        return None, false;
      }
      var buildsToday, buildsThisMonth, buildsThisYear, buildsAllTime :=
        computed.value.buildsToday, computed.value.buildsThisMonth, computed.value.buildsThisYear,
        computed.value.buildsAllTime;

      var usedToday, usedThisMonth, usedThisYear, usedAllTime;
      buildsToday, oBuildsToday, usedToday := OverrideBlock(oBuildsToday, enVars, buildsToday);
      buildsThisMonth, oBuildsThisMonth, usedThisMonth := OverrideBlock(oBuildsThisMonth, enVars, buildsThisMonth);
      buildsThisYear, oBuildsThisYear, usedThisYear := OverrideBlock(oBuildsThisYear, enVars, buildsThisYear);
      buildsAllTime, oBuildsAllTime, usedAllTime := OverrideBlock(oBuildsAllTime, enVars, buildsAllTime);
      saveOverrides := usedToday || usedThisMonth || usedThisYear || usedAllTime;
      FieldsAfterAreNormal(old(OverrideFields()));
      if old(Valid()) {
        NormalOverridesAfter(old(OverrideFields()));
      }
      assert OverrideFields() == OverridesAfter(old(OverrideFields()));
      r := Some(BuildInfo(buildsToday, buildsThisMonth, buildsThisYear, buildsAllTime));
    }
  }

  // ------------------------------------------------------------ properties

  /** A field after `incBuild` is empty or a reference, and a second `incBuild` keeps it. */
  lemma FieldAfterIsStable(o: string)
    ensures FieldAfter(o) == "" || MatchesEnvVarPattern(FieldAfter(o))
    ensures FieldAfter(FieldAfter(o)) == FieldAfter(o)
  {
    var f := FieldAfter(o);
    if f != "" {
      MakeValidKeepsReference(f);
    }
  }

  /** A field in normal form keeps a reference and loses anything else. */
  function KeptField(o: string): string
  {
    if MatchesEnvVarPattern(o) then o else ""
  }

  function KeptReferences(o: Overrides): Overrides
  {
    Overrides(KeptField(o.today), KeptField(o.thisMonth), KeptField(o.thisYear), KeptField(o.allTime))
  }

  /**
   * On a field in normal form, as the constructor leaves it, `incBuild`
   * keeps a reference unchanged and clears a literal.
   */
  lemma NormalFieldAfter(o: string)
    requires IsNormalOverride(o)
    ensures FieldAfter(o) == KeptField(o)
  {
    if IsNonNegativeLiteral(o) {
      MakeValidKeepsLiteral(o);
      LiteralParses(o);
    } else if MatchesEnvVarPattern(o) {
      MakeValidKeepsReference(o);
    }
  }

  lemma NormalOverridesAfter(o: Overrides)
    requires AllNormal(o)
    ensures OverridesAfter(o) == KeptReferences(o)
  {
    NormalFieldAfter(o.today);
    NormalFieldAfter(o.thisMonth);
    NormalFieldAfter(o.thisYear);
    NormalFieldAfter(o.allTime);
  }

  lemma FieldsAfterAreNormal(o: Overrides)
    ensures AllNormal(OverridesAfter(o))
  {
    FieldAfterIsStable(o.today);
    FieldAfterIsStable(o.thisMonth);
    FieldAfterIsStable(o.thisYear);
    FieldAfterIsStable(o.allTime);
  }

  /**
   * A literal override sets its counter to its value and clears its field,
   * so the next build computes that counter again.
   */
  lemma LiteralOverrideIsOneShot(o: string, enVars: Env, computed: Int32, later: Int32)
    requires IsNonNegativeLiteral(MakeValid(Some(o)))
    ensures OverriddenCounter(o, enVars, computed) == DigitsValue(MakeValid(Some(o)))
    ensures FieldAfter(o) == ""
    ensures OverriddenCounter(FieldAfter(o), enVars, later) == later
  {
    var v := MakeValid(Some(o));
    MakeValidKeepsEmpty();
    LiteralIsNoReference(v);
    ResolveAfterMakeValid(enVars, Some(o));
    ResolveOfLiteral(enVars, v);
  }

  /**
   * A reference override stays in its field; its counter is the variable's
   * value when that parses to at least 0, and the computed value otherwise.
   */
  lemma ReferenceOverrideStays(o: string, enVars: Env, computed: Int32)
    requires MatchesEnvVarPattern(MakeValid(Some(o)))
    ensures FieldAfter(o) == MakeValid(Some(o))
    ensures var p := ParseVariable(enVars, ReferenceName(MakeValid(Some(o))));
            OverriddenCounter(o, enVars, computed) == if p.Some? && p.value >= 0 then p.value else computed
  {
    var v := MakeValid(Some(o));
    MakeValidKeepsEmpty();
    ResolveAfterMakeValid(enVars, Some(o));
    ResolveOfReference(enVars, v);
  }

  /** An override `makeValid` rejects is ignored and cleared. */
  lemma JunkOverrideIsIgnored(o: string, enVars: Env, computed: Int32)
    requires MakeValid(Some(o)) == ""
    ensures OverriddenCounter(o, enVars, computed) == computed
    ensures FieldAfter(o) == ""
  {
    EmptyIsJunk();
  }

  /** `incBuild` throws exactly when failed builds are skipped and the previous build has no result. */
  lemma ThrowsOnMissingResult(cur: Timestamp, enVars: Env, prevBuild: Option<Build<BuildInfo>>,
                              skipFailedBuilds: bool, o: Overrides)
    requires prevBuild.Some? ==> prevBuild.value.action.Some?
    ensures NextBuildInfo(cur, enVars, prevBuild, skipFailedBuilds, o).None?
            <==> skipFailedBuilds && prevBuild.Some? && prevBuild.value.result.None?
  {
  }

  /**
   * Without overrides, a first build is numbered 1 everywhere, and a later
   * one continues each counter by the increment inside its window (all time
   * has none) and restarts it at 1 outside; the increment is 0 exactly when
   * failed builds are skipped and the previous build did not succeed.
   */
  lemma CountersWithoutOverrides(cur: Timestamp, enVars: Env, prevBuild: Option<Build<BuildInfo>>,
                                 skipFailedBuilds: bool)
    requires prevBuild.Some? ==> prevBuild.value.action.Some?
    requires skipFailedBuilds && prevBuild.Some? ==> prevBuild.value.result.Some?
    ensures var next := NextBuildInfo(cur, enVars, prevBuild, skipFailedBuilds, Overrides("", "", "", ""));
            next.Some?
            && (prevBuild.None? ==> next.value == BuildInfo(1, 1, 1, 1))
            && (prevBuild.Some? ==>
                  var prev := prevBuild.value;
                  var info := prev.action.value.info;
                  var inc := if skipFailedBuilds && prev.result.value != SUCCESS then 0 else 1;
                  next.value.buildsToday == (if SameDay(cur, prev.timestamp) then Add32(info.buildsToday, inc) else 1)
                  && next.value.buildsThisMonth
                     == (if SameMonth(cur, prev.timestamp) then Add32(info.buildsThisMonth, inc) else 1)
                  && next.value.buildsThisYear
                     == (if SameYear(cur, prev.timestamp) then Add32(info.buildsThisYear, inc) else 1)
                  && next.value.buildsAllTime == Add32(info.buildsAllTime, inc))
  {
  }

  /** The pipeline's record of a freestyle build, with `week` as its builds-this-week counter. */
  function WithWeek(b: Build<BuildInfo>, week: Int32): Build<Counters>
  {
    Build(b.timestamp, b.result,
          match b.action
          case None => None
          case Some(a) =>
            var i := a.info;
            Some(VersionAction(Counters(i.buildsToday, week, i.buildsThisMonth, i.buildsThisYear, i.buildsAllTime),
                               a.versionNumber)))
  }

  function WithoutWeek(c: Counters): BuildInfo
  {
    BuildInfo(c.buildsToday, c.buildsThisMonth, c.buildsThisYear, c.buildsAllTime)
  }

  /**
   * Without overrides, and where it does not throw, the freestyle revision
   * computes the pipeline revision's counters less the week.
   */
  lemma {:induction false} AgreesWithPipeline(cur: Timestamp, enVars: Env, prevBuild: Option<Build<BuildInfo>>,
                                              skipFailedBuilds: bool, week: Int32)
    requires prevBuild.Some? ==> prevBuild.value.action.Some?
    requires skipFailedBuilds && prevBuild.Some? ==> prevBuild.value.result.Some?
    ensures var pipelinePrev := if prevBuild.Some? then Some(WithWeek(prevBuild.value, week)) else None;
            NextBuildInfo(cur, enVars, prevBuild, skipFailedBuilds, Overrides("", "", "", ""))
            == Some(WithoutWeek(Common.NextCounters(cur, enVars, pipelinePrev, skipFailedBuilds, None)))
  {
    assert !Common.IsValidOverrideBuildsAllTime(enVars, None);
    if prevBuild.Some? {
      var prev := prevBuild.value;
      assert FreestyleIncrement(skipFailedBuilds, prev.result)
             == Some(Common.BuildIncrement(skipFailedBuilds, prev.result));
    }
  }

  // ------------------------------------------------------ formatVersionNumber

  /** What the freestyle loop reads: four counters, the project start date (always set), the environment. */
  function FreestyleContext(projectStartDate: Timestamp, info: BuildInfo, enVars: Env, buildDate: Timestamp,
                            formatDate: Option<string> -> Option<string>): FormatContext
  {
    FormatContext(Freestyle(projectStartDate),
                  info.buildsToday, info.buildsThisMonth, info.buildsThisYear, info.buildsAllTime,
                  buildDate, enVars, formatDate)
  }

  /**
   * `formatVersionNumber(versionNumberFormatString, projectStartDate, info,
   * enVars, buildDate, log)`: the loop runs on the format string itself;
   * `fuel` bounds the number of replacements.
   */
  method FormatVersionNumber(versionNumberFormatString: string, projectStartDate: Timestamp, info: BuildInfo,
                             enVars: Env, buildDate: Timestamp, formatDate: Option<string> -> Option<string>,
                             fuel: nat) returns (r: Formatted)
    ensures r == Expand(versionNumberFormatString,
                        FreestyleContext(projectStartDate, info, enVars, buildDate, formatDate), fuel)
  {
    var vnf := versionNumberFormatString;
    r := ExpandBlocks(vnf, FreestyleContext(projectStartDate, info, enVars, buildDate, formatDate), fuel);
  }
}
