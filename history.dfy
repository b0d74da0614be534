/** `getPreviousBuildWithVersionNumber`: the walk back through the ancestry. */
module History {
  import opened Wrappers
  import opened JavaLang
  import opened Builds

  /**
   * The walk stops at `b`: it carries a version action and, when a prefix
   * is given, its version string starts with that prefix.
   */
  predicate CarriesVersion<I>(b: Build<I>, prefix: Option<string>)
  {
    b.action.Some? && (prefix.None? || StartsWith(b.action.value.versionNumber, prefix.value))
  }

  /** The position of the nearest build the walk stops at, if there is one. */
  function NearestVersioned<I>(history: History<I>, prefix: Option<string>): (r: Option<nat>)
    ensures r.Some? ==> r.value < |history| && CarriesVersion(history[r.value], prefix)
    ensures forall j :: 0 <= j < |history| && (r.None? || j < r.value) ==> !CarriesVersion(history[j], prefix)
    decreases |history|
  {
    if history == [] then None
    else if CarriesVersion(history[0], prefix) then Some(0)
    else
      match NearestVersioned(history[1..], prefix)
      case None => None
      case Some(k) => Some(k + 1)
  }

  /**
   * The loop of `getPreviousBuildWithVersionNumber(build, envPrefix)`: the
   * position in `history` of the build it returns, `None` for null.
   */
  method PreviousBuildWithVersionNumber<I>(history: History<I>, envPrefix: Option<string>)
    returns (r: Option<nat>)
    ensures r == NearestVersioned(history, envPrefix)
  {
    var i := 0;
    while i < |history|
      invariant 0 <= i <= |history|
      invariant forall j :: 0 <= j < i ==> !CarriesVersion(history[j], envPrefix)
    {
      var prevAction := history[i].action;
      if prevAction.Some? {
        if envPrefix.Some? {
          if StartsWith(prevAction.value.versionNumber, envPrefix.value) {
            return Some(i);
          }
        } else {
          return Some(i);
        }
      }
      i := i + 1;
    }
    return None;
  }

  /** An empty prefix stops the walk wherever no prefix would. */
  lemma {:induction false} EmptyPrefixIsNoPrefix<I>(history: History<I>)
    ensures NearestVersioned(history, Some("")) == NearestVersioned(history, None)
    decreases |history|
  {
    if history != [] {
      EmptyPrefixIsNoPrefix(history[1..]);
    }
  }

  /** A build without a version action, such as one that failed early, is stepped over. */
  lemma SkipsUnversioned<I>(b: Build<I>, history: History<I>, prefix: Option<string>)
    requires b.action.None?
    ensures NearestVersioned([b] + history, prefix)
            == match NearestVersioned(history, prefix)
               case None => None
               case Some(k) => Some(k + 1)
  {
    assert ([b] + history)[1..] == history;
  }
}
