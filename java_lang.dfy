/**
 * The parts of java.lang the version-number engine relies on: 32-bit `int`
 * arithmetic, `Integer.parseInt` / `Integer.valueOf`, `Integer.toString`,
 * and `String.trim`, `indexOf` and `startsWith`.
 */
module JavaLang {
  import opened Wrappers

  const INT_MIN: int := -0x8000_0000
  const INT_MAX: int := 0x7FFF_FFFF

  /** A Java `int`. */
  type Int32 = x: int | -0x8000_0000 <= x <= 0x7FFF_FFFF

  /** Two's-complement wrap-around of a mathematical integer into an `int`. */
  function Wrap32(x: int): (r: Int32)
    ensures INT_MIN <= x <= INT_MAX ==> r == x
    ensures (r - x) % 0x1_0000_0000 == 0
  {
    (x - INT_MIN) % 0x1_0000_0000 + INT_MIN
  }

  /** Java `a + b` on `int`. */
  function Add32(a: Int32, b: Int32): Int32 { Wrap32(a + b) }

  /** Java `a - b` on `int`. */
  function Sub32(a: Int32, b: Int32): Int32 { Wrap32(a - b) }

  /** Java `a * b` on `int`. */
  function Mul32(a: Int32, b: Int32): Int32 { Wrap32(a * b) }

  // ---------------------------------------------------------------- digits

  predicate IsDigit(c: char) { '0' <= c <= '9' }

  predicate AllDigits(s: string) { forall i :: 0 <= i < |s| ==> IsDigit(s[i]) }

  function DigitValue(c: char): (d: nat)
    requires IsDigit(c)
    ensures d < 10
  {
    (c as int) - ('0' as int)
  }

  function DigitChar(d: nat): (c: char)
    requires d < 10
    ensures IsDigit(c) && DigitValue(c) == d
  {
    ('0' as int + d) as char
  }

  /** The value of a string of decimal digits, most significant first. */
  function DigitsValue(s: string): nat
    requires AllDigits(s)
    decreases |s|
  {
    if s == [] then 0 else DigitsValue(s[..|s| - 1]) * 10 + DigitValue(s[|s| - 1])
  }

  /** The canonical decimal spelling of a natural number: no leading zero. */
  function NatToDigits(n: nat): (r: string)
    ensures |r| >= 1 && AllDigits(r)
    ensures r[0] == '0' <==> n == 0
    decreases n
  {
    if n < 10 then [DigitChar(n)] else NatToDigits(n / 10) + [DigitChar(n % 10)]
  }

  /** `Integer.toString(n)`: canonical decimal, with a leading '-' when negative. */
  function IntToString(n: int): (r: string)
    ensures |r| >= 1
    ensures r[0] == '-' <==> n < 0
    ensures n >= 0 ==> AllDigits(r) && (r[0] == '0' ==> r == "0")
    ensures n < 0 ==> |r| >= 2 && AllDigits(r[1..]) && r[1] != '0'
  {
    if n < 0 then "-" + NatToDigits(-n) else NatToDigits(n)
  }

  /**
   * `Integer.parseInt(s)` (and `Integer.valueOf(s)`, `new Integer(s)`)
   * restricted to ASCII digits: an optional '+' or '-', then at least one
   * digit '0'..'9', denoting a value in the `int` range; no whitespace is
   * allowed. `None` stands for the `NumberFormatException`. Java also takes
   * the other Unicode decimal digits that `Character.digit` knows; those are
   * rejected here.
   */
  function ParseInt(s: string): (r: Option<Int32>)
    ensures r.Some? ==> |s| >= 1 && (s[0] == '-' || s[0] == '+' || IsDigit(s[0]))
    ensures r.Some? ==> AllDigits(s[1..])
    ensures |s| >= 1 && AllDigits(s) && DigitsValue(s) <= INT_MAX ==> r == Some(DigitsValue(s))
    ensures |s| >= 1 && AllDigits(s) && DigitsValue(s) > INT_MAX ==> r == None
  {
    if |s| == 0 then None
    else
      var body := if s[0] == '-' || s[0] == '+' then s[1..] else s;
      if |body| == 0 || !AllDigits(body) then None
      else
        var magnitude: int := DigitsValue(body);
        var v := if s[0] == '-' then -magnitude else magnitude;
        if INT_MIN <= v <= INT_MAX then Some(v) else None
  }

  lemma {:induction false} DigitsValueAppend(s: string, c: char)
    requires AllDigits(s) && IsDigit(c)
    ensures AllDigits(s + [c]) && DigitsValue(s + [c]) == DigitsValue(s) * 10 + DigitValue(c)
  {
    assert (s + [c])[..|s + [c]| - 1] == s;
  }

  lemma {:induction false} NatToDigitsValue(n: nat)
    ensures DigitsValue(NatToDigits(n)) == n
    decreases n
  {
    if n >= 10 {
      NatToDigitsValue(n / 10);
      DigitsValueAppend(NatToDigits(n / 10), DigitChar(n % 10));
    } else {
      assert DigitsValue([DigitChar(n)]) == DigitsValue([]) * 10 + DigitValue(DigitChar(n));
    }
  }

  /** Parsing the spelling `Integer.toString` gives of an `int` gives it back. */
  lemma {:induction false} ParseIntToString(n: Int32)
    ensures ParseInt(IntToString(n)) == Some(n)
  {
    if n < 0 {
      NatToDigitsValue(-(n as int));
      assert IntToString(n)[1..] == NatToDigits(-(n as int));
    } else {
      NatToDigitsValue(n);
    }
  }

  // --------------------------------------------------------------- strings

  /** Java's whitespace for `String.trim`: every character up to U+0020. */
  predicate IsTrimmed(c: char) { c <= ' ' }

  function TrimStart(s: string): (r: string)
    ensures |r| <= |s|
    ensures r == [] || !IsTrimmed(r[0])
    decreases |s|
  {
    if |s| > 0 && IsTrimmed(s[0]) then TrimStart(s[1..]) else s
  }

  function TrimEnd(s: string): (r: string)
    ensures |r| <= |s|
    ensures r == [] || (r[0] == s[0] && !IsTrimmed(r[|r| - 1]))
    decreases |s|
  {
    if |s| > 0 && IsTrimmed(s[|s| - 1]) then TrimEnd(s[..|s| - 1]) else s
  }

  /** `String.trim`: drops leading and trailing characters up to U+0020. */
  function Trim(s: string): (r: string)
    ensures |r| <= |s|
    ensures r == [] || (!IsTrimmed(r[0]) && !IsTrimmed(r[|r| - 1]))
  {
    TrimEnd(TrimStart(s))
  }

  /** What `TrimStart` keeps is a suffix, and everything it drops is whitespace. */
  lemma {:induction false} TrimStartIsSuffix(s: string)
    ensures TrimStart(s) == s[|s| - |TrimStart(s)|..]
    ensures forall i :: 0 <= i < |s| - |TrimStart(s)| ==> IsTrimmed(s[i])
    decreases |s|
  {
    if |s| > 0 && IsTrimmed(s[0]) {
      TrimStartIsSuffix(s[1..]);
      assert s[1..][|s| - 1 - |TrimStart(s)|..] == s[|s| - |TrimStart(s)|..];
      forall i | 1 <= i < |s| - |TrimStart(s)|
        ensures IsTrimmed(s[i])
      {
        assert s[i] == s[1..][i - 1];
      }
    }
  }

  /** What `TrimEnd` keeps is a prefix, and everything it drops is whitespace. */
  lemma {:induction false} TrimEndIsPrefix(s: string)
    ensures TrimEnd(s) == s[..|TrimEnd(s)|]
    ensures forall i :: |TrimEnd(s)| <= i < |s| ==> IsTrimmed(s[i])
    decreases |s|
  {
    if |s| > 0 && IsTrimmed(s[|s| - 1]) {
      TrimEndIsPrefix(s[..|s| - 1]);
      assert s[..|s| - 1][..|TrimEnd(s)|] == s[..|TrimEnd(s)|];
      forall i | |TrimEnd(s)| <= i < |s| - 1
        ensures IsTrimmed(s[i])
      {
        assert s[i] == s[..|s| - 1][i];
      }
    }
  }

  /** `String.trim` returns the substring between the dropped whitespace on either side. */
  lemma TrimIsSubstring(s: string)
    ensures Trim(s) == s[|s| - |TrimStart(s)|..|s| - |TrimStart(s)| + |Trim(s)|]
    ensures forall i :: 0 <= i < |s| - |TrimStart(s)| ==> IsTrimmed(s[i])
    ensures forall i :: |s| - |TrimStart(s)| + |Trim(s)| <= i < |s| ==> IsTrimmed(s[i])
  {
    var t := TrimStart(s);
    var k := |s| - |t|;
    TrimStartIsSuffix(s);
    TrimEndIsPrefix(t);
    assert Trim(s) == t[..|Trim(s)|];
    var n := |Trim(s)|;
    assert t[..n] == s[k..k + n];
    forall i | k + n <= i < |s|
      ensures IsTrimmed(s[i])
    {
      assert s[i] == t[i - k];
    }
  }

  /** A string that starts and ends with a visible character is its own trim. */
  lemma {:induction false} TrimOfTrimmed(s: string)
    requires s == [] || (!IsTrimmed(s[0]) && !IsTrimmed(s[|s| - 1]))
    ensures Trim(s) == s
  {
  }

  /** A blank in front changes nothing about the trim. */
  lemma TrimLeadingBlank(s: string)
    ensures Trim(" " + s) == Trim(s)
  {
    assert (" " + s)[1..] == s;
  }

  /** `s.startsWith(p)`. */
  predicate StartsWith(s: string, p: string) { |p| <= |s| && s[..|p|] == p }

  /** The non-empty needle `pat` occurs in `s` at position `i`. */
  predicate OccursAt(s: string, pat: string, i: int)
  {
    0 <= i && i + |pat| <= |s| && s[i..i + |pat|] == pat
  }

  /**
   * `s.indexOf(pat, from)` for a non-empty needle and a non-negative start:
   * the first position at or after `from` where `pat` occurs, or -1. That
   * it is the first is `IndexOfIsFirst`.
   */
  function IndexOf(s: string, pat: string, from: nat): (r: int)
    requires |pat| > 0
    ensures r == -1 || (from <= r && OccursAt(s, pat, r))
    decreases |s| - from
  {
    if from >= |s| then -1
    else if OccursAt(s, pat, from) then from
    else IndexOf(s, pat, from + 1)
  }

  /** No occurrence lies between `from` and the one `IndexOf` reports, nor after `from` when it reports none. */
  lemma {:induction false} IndexOfIsFirst(s: string, pat: string, from: nat)
    requires |pat| > 0
    ensures forall i :: from <= i && (IndexOf(s, pat, from) == -1 || i < IndexOf(s, pat, from)) ==> !OccursAt(s, pat, i)
    decreases |s| - from
  {
    if from < |s| && !OccursAt(s, pat, from) {
      IndexOfIsFirst(s, pat, from + 1);
    }
  }

  /** An occurrence with none before it, from `from` on, is what `IndexOf` reports. */
  lemma {:induction false} IndexOfAt(s: string, pat: string, from: nat, i: nat)
    requires |pat| > 0 && from <= i && OccursAt(s, pat, i)
    requires forall j :: from <= j < i ==> !OccursAt(s, pat, j)
    ensures IndexOf(s, pat, from) == i
    decreases i - from
  {
    if from < i {
      IndexOfAt(s, pat, from + 1, i);
    }
  }

  /** A character that does not occur from `from` on is not found. */
  lemma IndexOfAbsent(s: string, c: char, from: nat)
    requires forall j :: from <= j < |s| ==> s[j] != c
    ensures IndexOf(s, [c], from) == -1
  {
    var r := IndexOf(s, [c], from);
    if r != -1 {
      OccursAtChars(s, [c], r);
    }
  }

  /** An occurrence of a needle gives its first two characters at their positions. */
  lemma OccursAtChars(s: string, pat: string, i: int)
    requires OccursAt(s, pat, i) && |pat| > 0
    ensures s[i] == pat[0]
    ensures |pat| > 1 ==> s[i + 1] == pat[1]
  {
    assert s[i] == s[i..i + |pat|][0];
    if |pat| > 1 {
      assert s[i + 1] == s[i..i + |pat|][1];
    }
  }

  /** A one-character needle occurs exactly where that character stands. */
  lemma OccursAtChar(s: string, c: char, j: int)
    ensures OccursAt(s, [c], j) <==> 0 <= j < |s| && s[j] == c
  {
    if 0 <= j < |s| {
      assert s[j..j + 1] == [s[j]];
    }
  }

  /** `s.indexOf(c, from)` finds the first `c` at or after `from`. */
  lemma IndexOfChar(s: string, c: char, from: nat, i: nat)
    requires from <= i < |s| && s[i] == c && c !in s[from..i]
    ensures IndexOf(s, [c], from) == i
  {
    forall j | from <= j < i
      ensures !OccursAt(s, [c], j)
    {
      OccursAtChar(s, c, j);
      assert s[j] == s[from..i][j - from];
    }
    OccursAtChar(s, c, i);
    IndexOfAt(s, [c], from, i);
  }

  /** A character missing from `s[from..end]` is found no earlier than `end`, if at all. */
  lemma IndexOfCharBeyond(s: string, c: char, from: nat, end: nat)
    requires from <= end <= |s| && c !in s[from..end]
    ensures IndexOf(s, [c], from) == -1 || IndexOf(s, [c], from) >= end
  {
    forall j | from <= j < end
      ensures s[j] != c
    {
      assert s[j] == s[from..end][j - from];
    }
    var r := IndexOf(s, [c], from);
    if r != -1 {
      OccursAtChar(s, c, r);
    }
  }

  /** `s` contains the non-empty needle `pat`. */
  predicate Contains(s: string, pat: string)
  {
    exists i :: 0 <= i < |s| && OccursAt(s, pat, i)
  }

  lemma IndexOfFindsAny(s: string, pat: string)
    requires |pat| > 0
    ensures IndexOf(s, pat, 0) >= 0 <==> Contains(s, pat)
  {
    var r := IndexOf(s, pat, 0);
    IndexOfIsFirst(s, pat, 0);
    if r >= 0 {
      assert OccursAt(s, pat, r);
    }
  }
}
