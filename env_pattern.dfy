/**
 * The override syntax `ENV_VAR_PATTERN`, `^(?:\$\{(\w+)\})|(?:\$(\w+))$`, as
 * `String.matches` reads it: the WHOLE string is either `${NAME}` or
 * `$NAME`, where NAME is one or more of `[A-Za-z0-9_]`.
 */
module EnvPattern {
  /** Java's `\w` without UNICODE_CHARACTER_CLASS. */
  predicate IsWordChar(c: char)
  {
    ('a' <= c <= 'z') || ('A' <= c <= 'Z') || ('0' <= c <= '9') || c == '_'
  }

  predicate IsWord(s: string)
  {
    |s| >= 1 && forall i :: 0 <= i < |s| ==> IsWordChar(s[i])
  }

  /** The first alternative, `${NAME}`. */
  predicate IsBracedReference(s: string)
  {
    |s| >= 4 && s[0] == '$' && s[1] == '{' && s[|s| - 1] == '}' && IsWord(s[2..|s| - 1])
  }

  /** The second alternative, `$NAME`. */
  predicate IsBareReference(s: string)
  {
    |s| >= 2 && s[0] == '$' && IsWord(s[1..])
  }

  /** `s.matches(ENV_VAR_PATTERN)`. */
  predicate MatchesEnvVarPattern(s: string)
  {
    IsBracedReference(s) || IsBareReference(s)
  }

  /**
   * The variable a matching string refers to: `m.group(1)` when the braced
   * alternative matched, `m.group(2)` otherwise.
   */
  function ReferenceName(s: string): (name: string)
    requires MatchesEnvVarPattern(s)
    ensures IsWord(name)
    ensures s == "${" + name + "}" || s == "$" + name
  {
    if IsBracedReference(s) then s[2..|s| - 1] else s[1..]
  }

  /** Both spellings of a reference match, and name the variable they were built from. */
  lemma {:induction false} ReferenceRoundTrip(name: string)
    requires IsWord(name)
    ensures MatchesEnvVarPattern("${" + name + "}") && ReferenceName("${" + name + "}") == name
    ensures MatchesEnvVarPattern("$" + name) && ReferenceName("$" + name) == name
  {
    var braced := "${" + name + "}";
    assert braced[2..|braced| - 1] == name;
    var bare := "$" + name;
    assert bare[1..] == name;
    assert !IsWordChar('{');
    assert !IsBracedReference(bare) by {
      if |name| >= 3 {
        assert bare[1] == name[0];
      }
    }
  }
}
