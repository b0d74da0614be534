/**
 * Override strings: `makeValid` normalises what a user typed into one of
 * three forms, and `resolveOverride` turns the normal form into the counter
 * value to use, reading a referenced environment variable at use time.
 * The environment is the build's variables, a map from name to value.
 */
module Override {
  import opened Wrappers
  import opened JavaLang
  import opened EnvPattern

  type Env = map<string, string>

  /** The spelling `Integer.toString` gives of a non-negative `int`. */
  predicate IsNonNegativeLiteral(s: string)
  {
    |s| >= 1 && AllDigits(s) && (s[0] == '0' ==> s == "0") && DigitsValue(s) <= INT_MAX
  }

  /**
   * `makeValid(buildNum)`: `None` is Java's null. The trimmed input is
   * kept as its canonical decimal if it is a non-negative `int`, kept as is
   * if it is an environment reference, and replaced by "" otherwise.
   */
  function MakeValid(buildNum: Option<string>): (r: string)
    ensures r == "" || IsNonNegativeLiteral(r) || MatchesEnvVarPattern(r)
    ensures buildNum.None? ==> r == ""
    ensures buildNum.Some? && MatchesEnvVarPattern(r) ==> r == Trim(buildNum.value)
  {
    match buildNum
    case None => ""
    case Some(s) =>
      var t := Trim(s);
      match ParseInt(t)
      case Some(n) => if n < 0 then "" else (NatToDigitsValue(n); IntToString(n))
      case None => if MatchesEnvVarPattern(t) then t else ""
  }

  /** A reference is never an `int` literal, and is its own trim. */
  lemma ReferenceIsNoLiteral(s: string)
    requires MatchesEnvVarPattern(s)
    ensures ParseInt(s) == None && Trim(s) == s && !IsNonNegativeLiteral(s)
  {
    assert !IsDigit(s[0]);
    TrimOfTrimmed(s);
  }

  /** A canonical literal survives trimming and parses back to its value. */
  lemma LiteralParses(s: string)
    requires IsNonNegativeLiteral(s)
    ensures Trim(s) == s
    ensures ParseInt(s) == Some(DigitsValue(s)) && !MatchesEnvVarPattern(s)
  {
    assert !IsTrimmed(s[0]) && !IsTrimmed(s[|s| - 1]);
    TrimOfTrimmed(s);
    LiteralIsNoReference(s);
  }

  lemma LiteralIsNoReference(s: string)
    requires IsNonNegativeLiteral(s)
    ensures ParseInt(s) == Some(DigitsValue(s)) && !MatchesEnvVarPattern(s)
  {
    assert s[0] != '$';
  }

  /** The empty string is neither a literal nor a reference and stays "". */
  lemma EmptyIsJunk()
    ensures Trim("") == "" && ParseInt("") == None && !MatchesEnvVarPattern("")
  {
    TrimOfTrimmed("");
  }

  /** A canonical literal is the `Integer.toString` of its value. */
  lemma {:induction false} LiteralIsCanonical(s: string)
    requires IsNonNegativeLiteral(s)
    ensures IntToString(DigitsValue(s)) == s
    decreases |s|
  {
    var n := DigitsValue(s);
    var front := s[..|s| - 1];
    if |s| == 1 {
      assert s == [s[0]] && front == [];
      assert DigitsValue(front) == 0;
      assert n == DigitValue(s[0]);
      assert DigitChar(n) == s[0];
    } else {
      assert s[0] != '0';
      assert front[0] == s[0];
      assert DigitsValue(front) * 10 <= n;
      assert DigitsValue(front) >= 1 by {
        if DigitsValue(front) == 0 { ZeroValueMeansZeros(front); }
      }
      LiteralIsCanonical(front);
      assert n / 10 == DigitsValue(front) && n % 10 == DigitValue(s[|s| - 1]);
      assert s == front + [s[|s| - 1]];
    }
  }

  lemma {:induction false} ZeroValueMeansZeros(s: string)
    requires AllDigits(s) && DigitsValue(s) == 0 && |s| >= 1
    ensures s[0] == '0'
    decreases |s|
  {
    if |s| > 1 {
      ZeroValueMeansZeros(s[..|s| - 1]);
    }
  }

  lemma MakeValidKeepsLiteral(r: string)
    requires IsNonNegativeLiteral(r)
    ensures MakeValid(Some(r)) == r
  {
    LiteralParses(r);
    LiteralIsCanonical(r);
  }

  lemma MakeValidKeepsReference(r: string)
    requires MatchesEnvVarPattern(r)
    ensures MakeValid(Some(r)) == r
  {
    ReferenceIsNoLiteral(r);
  }

  lemma MakeValidKeepsEmpty()
    ensures MakeValid(Some("")) == ""
  {
    EmptyIsJunk();
  }

  /** `makeValid` applied to its own output changes nothing. */
  lemma {:induction false} MakeValidIdempotent(buildNum: Option<string>)
    ensures MakeValid(Some(MakeValid(buildNum))) == MakeValid(buildNum)
  {
    var r := MakeValid(buildNum);
    if r == "" {
      MakeValidKeepsEmpty();
    } else if IsNonNegativeLiteral(r) {
      MakeValidKeepsLiteral(r);
    } else {
      MakeValidKeepsReference(r);
    }
  }

  /** A trimmed non-negative `int` keeps its value through `makeValid`; a negative one is dropped. */
  lemma {:induction false} MakeValidOfInt(s: string, n: Int32)
    requires ParseInt(Trim(s)) == Some(n)
    ensures n >= 0 ==> MakeValid(Some(s)) == IntToString(n) && ParseInt(MakeValid(Some(s))) == Some(n)
    ensures n < 0 ==> MakeValid(Some(s)) == ""
  {
    if n >= 0 {
      ParseIntToString(n);
    }
  }

  /** `makeValid` keeps a reference, and drops what is neither an `int` nor a reference. */
  lemma {:induction false} MakeValidOfOther(s: string)
    requires ParseInt(Trim(s)) == None
    ensures MatchesEnvVarPattern(Trim(s)) ==> MakeValid(Some(s)) == Trim(s)
    ensures !MatchesEnvVarPattern(Trim(s)) ==> MakeValid(Some(s)) == ""
  {
  }

  /** `Integer.parseInt(envVars.get(name))`: an unset variable is null and fails to parse. */
  function ParseVariable(env: Env, name: string): (r: Option<Int32>)
    ensures name !in env ==> r == None
    ensures name in env ==> r == ParseInt(env[name])
  {
    if name in env then ParseInt(env[name]) else None
  }

  /**
   * `resolveOverride(envVars, override)` (and the identical
   * `getOverrideBuildsAllTime`): the normalised override is parsed as a
   * literal, or, when it is a reference, the variable's untrimmed value is
   * parsed; a failure or a negative value gives `None` (Java's null). The
   * "Reset!" in the source only rebinds a local, so nothing else changes.
   */
  function ResolveOverride(env: Env, override: Option<string>): (r: Option<Int32>)
    ensures r.Some? ==> r.value >= 0
    ensures MakeValid(override) == "" ==> r == None
  {
    ResolveNormalised(env, MakeValid(override))
  }

  /** What `resolveOverride` does once its argument has been through `makeValid`. */
  function ResolveNormalised(env: Env, v: string): (r: Option<Int32>)
    ensures r.Some? ==> r.value >= 0
    ensures v == "" ==> r == None
  {
    var parsed :=
      if !MatchesEnvVarPattern(v) then ParseInt(v)
      else ParseVariable(env, ReferenceName(v));
    EmptyIsJunk();
    if parsed.None? || parsed.value < 0 then None else parsed
  }

  lemma NormalisedLiteral(env: Env, v: string)
    requires IsNonNegativeLiteral(v)
    ensures ResolveNormalised(env, v) == Some(DigitsValue(v))
  {
    LiteralIsNoReference(v);
  }

  /** `isValidOverride(envVars, override)`. */
  predicate IsValidOverride(env: Env, override: Option<string>)
    ensures IsValidOverride(env, override) ==> override.Some? && MakeValid(override) != ""
  {
    ResolveOverride(env, override).Some?
  }

  /** A literal override resolves to its value whatever the environment holds. */
  lemma {:induction false} ResolveLiteral(env: Env, s: string, n: Int32)
    requires ParseInt(Trim(s)) == Some(n)
    ensures n >= 0 ==> ResolveOverride(env, Some(s)) == Some(n)
    ensures n < 0 ==> ResolveOverride(env, Some(s)) == None
  {
    MakeValidOfInt(s, n);
    ResolveAfterMakeValid(env, Some(s));
    var r := MakeValid(Some(s));
    if n >= 0 {
      NatToDigitsValue(n);
      assert IsNonNegativeLiteral(r);
      ResolveOfLiteral(env, r);
    } else {
      MakeValidKeepsEmpty();
    }
  }

  lemma ResolveOfLiteral(env: Env, r: string)
    requires IsNonNegativeLiteral(r)
    ensures ResolveOverride(env, Some(r)) == Some(DigitsValue(r))
  {
    MakeValidKeepsLiteral(r);
    NormalisedLiteral(env, r);
  }

  /**
   * A reference `${NAME}` or `$NAME` resolves to the variable's value when
   * that parses to a non-negative `int`, and to `None` otherwise.
   */
  lemma {:induction false} ResolveReference(env: Env, name: string)
    requires IsWord(name)
    ensures var expected :=
              if ParseVariable(env, name).Some? && ParseVariable(env, name).value >= 0
              then ParseVariable(env, name) else None;
            ResolveOverride(env, Some("${" + name + "}")) == expected
            && ResolveOverride(env, Some("$" + name)) == expected
  {
    ReferenceRoundTrip(name);
    ResolveOfReference(env, "${" + name + "}");
    ResolveOfReference(env, "$" + name);
  }

  lemma ResolveOfReference(env: Env, s: string)
    requires MatchesEnvVarPattern(s)
    ensures var p := ParseVariable(env, ReferenceName(s));
            ResolveOverride(env, Some(s)) == if p.Some? && p.value >= 0 then p else None
  {
    MakeValidKeepsReference(s);
  }

  /** Normalising an override first does not change what it resolves to. */
  lemma {:induction false} ResolveAfterMakeValid(env: Env, override: Option<string>)
    ensures ResolveOverride(env, Some(MakeValid(override))) == ResolveOverride(env, override)
  {
    MakeValidIdempotent(override);
  }

  /** The environment of the freestyle job's override scenario. */
  function ExampleEnv(): Env
  {
    map["ENVVAL_OF_TODAY" := "-10", "ENVVAL_OF_THIS_WEEK" := "2.0",
        "ENVVAL_OF_THIS_MONTH" := "Invalid", "ENVVAL_OF_ALL_TIME" := "20"]
  }

  lemma ParseExamples()
    ensures ParseInt("-10") == Some(-10) && ParseInt("20") == Some(20)
  {
    assert "-10"[1..] == "10" && "10"[..1] == "1" && "1"[..0] == "";
    assert DigitsValue("10") == 10;
    assert "20"[..1] == "2" && "2"[..0] == "";
    assert DigitsValue("20") == 20;
  }

  /** A negative variable value gives no override. */
  lemma NegativeVariableExample()
    ensures ResolveOverride(ExampleEnv(), Some("${ENVVAL_OF_TODAY}")) == None
  {
    assert "${ENVVAL_OF_TODAY}" == "${" + "ENVVAL_OF_TODAY" + "}";
    ReferenceRoundTrip("ENVVAL_OF_TODAY");
    ResolveOfReference(ExampleEnv(), "${ENVVAL_OF_TODAY}");
    ParseExamples();
  }

  /** A fractional variable value gives no override. */
  lemma FractionalVariableExample()
    ensures ResolveOverride(ExampleEnv(), Some("${ENVVAL_OF_THIS_WEEK}")) == None
  {
    assert "${ENVVAL_OF_THIS_WEEK}" == "${" + "ENVVAL_OF_THIS_WEEK" + "}";
    ReferenceRoundTrip("ENVVAL_OF_THIS_WEEK");
    ResolveOfReference(ExampleEnv(), "${ENVVAL_OF_THIS_WEEK}");
    assert !IsDigit("2.0"[1]);
  }

  /** A non-numeric variable value gives no override. */
  lemma NonNumericVariableExample()
    ensures ResolveOverride(ExampleEnv(), Some("${ENVVAL_OF_THIS_MONTH}")) == None
  {
    assert "${ENVVAL_OF_THIS_MONTH}" == "${" + "ENVVAL_OF_THIS_MONTH" + "}";
    ReferenceRoundTrip("ENVVAL_OF_THIS_MONTH");
    ResolveOfReference(ExampleEnv(), "${ENVVAL_OF_THIS_MONTH}");
  }

  /** An unset variable gives no override. */
  lemma UnsetVariableExample()
    ensures ResolveOverride(ExampleEnv(), Some("${ENVVAL_OF_THIS_YEAR}")) == None
  {
    assert "${ENVVAL_OF_THIS_YEAR}" == "${" + "ENVVAL_OF_THIS_YEAR" + "}";
    ReferenceRoundTrip("ENVVAL_OF_THIS_YEAR");
    ResolveOfReference(ExampleEnv(), "${ENVVAL_OF_THIS_YEAR}");
  }

  /** A variable holding "20" overrides with 20. */
  lemma NumericVariableExample()
    ensures ResolveOverride(ExampleEnv(), Some("${ENVVAL_OF_ALL_TIME}")) == Some(20)
  {
    assert "${ENVVAL_OF_ALL_TIME}" == "${" + "ENVVAL_OF_ALL_TIME" + "}";
    ReferenceRoundTrip("ENVVAL_OF_ALL_TIME");
    ResolveOfReference(ExampleEnv(), "${ENVVAL_OF_ALL_TIME}");
    ParseExamples();
  }
}
