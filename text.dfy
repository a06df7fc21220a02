/**
 * The few Python string builtins the fixer relies on: `str.lower`, the
 * substring test `in`, `str.startswith`/`str.endswith`, `str.strip`,
 * `str.rfind` and `str(int)`.
 */
module Text {

  // ---------------------------------------------------------------------
  // Lower-casing
  // ---------------------------------------------------------------------

  /**
   * Python's lower-case mapping, restricted to the characters whose lower
   * case is an ASCII letter: 'A'..'Z' and U+212A KELVIN SIGN (lowered to 'k').
   * Every other character is left alone (see README for why this is exact
   * for the marker test).
   */
  function LowerChar(c: char): char {
    if 'A' <= c <= 'Z' then (c as int + 32) as char
    else if c == '\U{212A}' then 'k'
    else c
  }

  /**
   * `LowerChar` applied to every character: it agrees with Python's
   * `s.lower()` on A-Z and U+212A only, which is all the marker test needs.
   */
  function Lower(s: string): string {
    seq(|s|, k requires 0 <= k < |s| => LowerChar(s[k]))
  }

  /** Lower-casing commutes with taking a slice. */
  lemma LowerSlice(s: string, i: int, j: int)
    requires 0 <= i <= j <= |s|
    ensures Lower(s[i..j]) == Lower(s)[i..j]
  {
    assert forall k :: 0 <= k < j - i ==> Lower(s[i..j])[k] == Lower(s)[i..j][k];
  }

  // ---------------------------------------------------------------------
  // Substrings, prefixes, suffixes
  // ---------------------------------------------------------------------

  /** `sub` occurs in `s` starting at index `k`. */
  ghost predicate OccursAt(s: string, sub: string, k: int) {
    0 <= k && k + |sub| <= |s| && s[k..k + |sub|] == sub
  }

  /** Python's `sub in s`. */
  predicate Contains(s: string, sub: string)
    decreases |s|
  {
    sub <= s || (s != [] && Contains(s[1..], sub))
  }

  lemma {:induction false} OccursImpliesContains(s: string, sub: string, k: int)
    requires OccursAt(s, sub, k)
    ensures Contains(s, sub)
    decreases k
  {
    if k == 0 {
      assert s[..|sub|] == sub;
    } else {
      assert s[1..][k - 1..k - 1 + |sub|] == s[k..k + |sub|];
      OccursImpliesContains(s[1..], sub, k - 1);
    }
  }

  lemma {:induction false} ContainsImpliesOccurs(s: string, sub: string)
    requires Contains(s, sub)
    ensures exists k :: OccursAt(s, sub, k)
    decreases |s|
  {
    if sub <= s {
      assert OccursAt(s, sub, 0);
    } else {
      ContainsImpliesOccurs(s[1..], sub);
      var k :| OccursAt(s[1..], sub, k);
      assert s[1..][k..k + |sub|] == s[k + 1..k + 1 + |sub|];
      assert OccursAt(s, sub, k + 1);
    }
  }

  /** The substring test holds exactly when some index is an occurrence. */
  lemma ContainsIff(s: string, sub: string)
    ensures Contains(s, sub) <==> exists k :: OccursAt(s, sub, k)
  {
    if Contains(s, sub) {
      ContainsImpliesOccurs(s, sub);
    }
    forall k | OccursAt(s, sub, k)
      ensures Contains(s, sub)
    {
      OccursImpliesContains(s, sub, k);
    }
  }

  /** Python's `s.endswith(suffix)`; `s.startswith(prefix)` is `prefix <= s`. */
  predicate EndsWith(s: string, suffix: string) {
    |suffix| <= |s| && s[|s| - |suffix|..] == suffix
  }

  /** `s.startswith(prefix)` holds exactly when `s` is `prefix` followed by something. */
  lemma StartsWithIff(s: string, prefix: string)
    ensures prefix <= s <==> exists t :: s == prefix + t
  {
    if prefix <= s {
      assert s == prefix + s[|prefix|..];
    }
  }

  /** `s.endswith(suffix)` holds exactly when `s` is something followed by `suffix`. */
  lemma EndsWithIff(s: string, suffix: string)
    ensures EndsWith(s, suffix) <==> exists t :: s == t + suffix
  {
    if EndsWith(s, suffix) {
      assert s == s[..|s| - |suffix|] + suffix;
    }
    forall t | s == t + suffix
      ensures EndsWith(s, suffix)
    {
      assert s[|t|..] == suffix;
    }
  }

  // ---------------------------------------------------------------------
  // Whitespace trimming
  // ---------------------------------------------------------------------

  /** The characters Python's `str.isspace()` accepts, which `str.strip()` removes. */
  predicate IsSpace(c: char) {
    || ('\t' <= c <= '\r')
    || ('\U{1C}' <= c <= ' ')
    || c == '\U{85}' || c == '\U{A0}' || c == '\U{1680}'
    || ('\U{2000}' <= c <= '\U{200A}')
    || c == '\U{2028}' || c == '\U{2029}' || c == '\U{202F}' || c == '\U{205F}'
    || c == '\U{3000}'
  }

  ghost predicate AllSpace(s: string) {
    forall k :: 0 <= k < |s| ==> IsSpace(s[k])
  }

  /** Python's `s.lstrip()`. */
  function StripLeft(s: string): string {
    if s != [] && IsSpace(s[0]) then StripLeft(s[1..]) else s
  }

  /** Python's `s.rstrip()`. */
  function StripRight(s: string): string {
    if s != [] && IsSpace(s[|s| - 1]) then StripRight(s[..|s| - 1]) else s
  }

  /** Python's `s.strip()` with no argument. */
  function Strip(s: string): string {
    StripRight(StripLeft(s))
  }

  /** `lstrip` removes a whitespace prefix and leaves text that does not start with whitespace. */
  lemma {:induction false} StripLeftSpec(s: string)
    ensures var r := StripLeft(s);
      && |r| <= |s| && r == s[|s| - |r|..]
      && (forall k :: 0 <= k < |s| - |r| ==> IsSpace(s[k]))
      && (r != [] ==> !IsSpace(r[0]))
  {
    if s != [] && IsSpace(s[0]) {
      var t := s[1..];
      StripLeftSpec(t);
      var r := StripLeft(t);
      forall k | 0 <= k < |s| - |r|
        ensures IsSpace(s[k])
      {
        if k > 0 {
          assert s[k] == t[k - 1];
        }
      }
      assert s[|s| - |r|..] == t[|t| - |r|..];
    }
  }

  /** `rstrip` removes a whitespace suffix and leaves text that does not end with whitespace. */
  lemma {:induction false} StripRightSpec(s: string)
    ensures var r := StripRight(s);
      && |r| <= |s| && r == s[..|r|]
      && (forall k :: |r| <= k < |s| ==> IsSpace(s[k]))
      && (r != [] ==> !IsSpace(r[|r| - 1]))
  {
    if s != [] && IsSpace(s[|s| - 1]) {
      var t := s[..|s| - 1];
      StripRightSpec(t);
      var r := StripRight(t);
      forall k | |r| <= k < |s|
        ensures IsSpace(s[k])
      {
        if k < |t| {
          assert s[k] == t[k];
        }
      }
      assert s[..|r|] == t[..|r|];
    }
  }

  /**
   * `r` is `s` with whitespace padding removed: `r` sits in `s` at offset `i`,
   * everything before and after it is whitespace, and `r` neither starts nor
   * ends with whitespace.
   */
  ghost predicate TrimmedAt(s: string, r: string, i: int) {
    && 0 <= i && i + |r| <= |s|
    && s[i..i + |r|] == r
    && (forall k :: 0 <= k < i ==> IsSpace(s[k]))
    && (forall k :: i + |r| <= k < |s| ==> IsSpace(s[k]))
    && (r != [] ==> !IsSpace(r[0]) && !IsSpace(r[|r| - 1]))
  }

  /** `strip` trims: its result is the padding-free middle of `s`. */
  lemma StripSpec(s: string)
    ensures TrimmedAt(s, Strip(s), |s| - |StripLeft(s)|)
  {
    var left := StripLeft(s);
    StripLeftSpec(s);
    StripRightSpec(left);
    var r := StripRight(left);
    assert forall k :: |s| - |left| + |r| <= k < |s| ==> s[k] == left[k - (|s| - |left|)];
  }

  /** At most one string is `s` trimmed: the trimming relation is functional. */
  lemma TrimmedUnique(s: string, r1: string, i1: int, r2: string, i2: int)
    requires TrimmedAt(s, r1, i1) && TrimmedAt(s, r2, i2)
    ensures r1 == r2
  {
    if r1 != [] {
      assert s[i1] == r1[0] && s[i1 + |r1| - 1] == r1[|r1| - 1];
    }
    if r2 != [] {
      assert s[i2] == r2[0] && s[i2 + |r2| - 1] == r2[|r2| - 1];
    }
  }

  /** `Strip` computes the trimming relation: any trimming of `s` is `Strip(s)`. */
  lemma StripOfTrimmed(s: string, r: string, i: int)
    requires TrimmedAt(s, r, i)
    ensures Strip(s) == r
  {
    StripSpec(s);
    TrimmedUnique(s, r, i, Strip(s), |s| - |StripLeft(s)|);
  }

  /** Stripping twice is stripping once. */
  lemma StripIdempotent(s: string)
    ensures Strip(Strip(s)) == Strip(s)
  {
    var r := Strip(s);
    StripSpec(s);
    assert TrimmedAt(r, r, 0) by {
      assert r[0..|r|] == r;
    }
    StripOfTrimmed(r, r, 0);
  }

  /** A trimming of `x` is also a trimming of `x` padded with whitespace. */
  lemma TrimmedPadded(a: string, x: string, b: string, r: string, i: int)
    requires AllSpace(a) && AllSpace(b) && TrimmedAt(x, r, i)
    ensures TrimmedAt(a + x + b, r, |a| + i)
  {
    var s := a + x + b;
    var j := |a| + i;
    assert s[j..j + |r|] == x[i..i + |r|];
    assert forall k :: 0 <= k < |a| ==> s[k] == a[k];
    assert forall k :: |a| <= k < |a| + |x| ==> s[k] == x[k - |a|];
    assert forall k :: |a| + |x| <= k < |s| ==> s[k] == b[k - |a| - |x|];
  }

  /** Whitespace added on either side does not change the stripped text. */
  lemma StripPadded(a: string, x: string, b: string)
    requires AllSpace(a) && AllSpace(b)
    ensures Strip(a + x + b) == Strip(x)
  {
    var r, i := Strip(x), |x| - |StripLeft(x)|;
    StripSpec(x);
    TrimmedPadded(a, x, b, r, i);
    StripOfTrimmed(a + x + b, r, |a| + i);
  }

  /** Text with no whitespace at either end is left as it is. */
  lemma StripUnpadded(s: string)
    requires s != [] ==> !IsSpace(s[0]) && !IsSpace(s[|s| - 1])
    ensures Strip(s) == s
  {
    assert TrimmedAt(s, s, 0) by {
      assert s[0..|s|] == s;
    }
    StripOfTrimmed(s, s, 0);
  }

  // ---------------------------------------------------------------------
  // Searching for a character
  // ---------------------------------------------------------------------

  /** Python's `s.rfind(c)`: the index of the last `c` in `s`, or -1. */
  function RFind(s: string, c: char): (r: int)
    ensures -1 <= r < |s|
    ensures r >= 0 ==> s[r] == c
    ensures forall k :: r < k < |s| ==> s[k] != c
  {
    if s == [] then -1
    else if s[|s| - 1] == c then |s| - 1
    else RFind(s[..|s| - 1], c)
  }

  // ---------------------------------------------------------------------
  // Decimal rendering of a natural number
  // ---------------------------------------------------------------------

  function DigitChar(d: nat): (c: char)
    requires d < 10
    ensures '0' <= c <= '9'
  {
    ('0' as int + d) as char
  }

  /** Python's `str(n)` (or `f"{n}"`) for a non-negative integer. */
  function Str(n: nat): (r: string)
    ensures |r| >= 1
    ensures n >= 10 ==> |r| >= 2
    ensures forall k :: 0 <= k < |r| ==> '0' <= r[k] <= '9'
  {
    if n < 10 then [DigitChar(n)] else Str(n / 10) + [DigitChar(n % 10)]
  }

  /** The number a string of decimal digits denotes. */
  function DigitsValue(s: string): nat
    requires forall k :: 0 <= k < |s| ==> '0' <= s[k] <= '9'
  {
    if s == [] then 0 else DigitsValue(s[..|s| - 1]) * 10 + (s[|s| - 1] as int - '0' as int)
  }

  /** `str(n)` denotes `n`. */
  lemma {:induction false} StrValue(n: nat)
    ensures DigitsValue(Str(n)) == n
    decreases n
  {
    var s := Str(n);
    if n < 10 {
      assert s[..|s| - 1] == [];
    } else {
      assert s[..|s| - 1] == Str(n / 10);
      StrValue(n / 10);
      assert s[|s| - 1] == DigitChar(n % 10);
    }
  }

  /** `str(n)` is the canonical numeral: "0" for zero, no leading zero otherwise. */
  lemma {:induction false} StrCanonical(n: nat)
    ensures n == 0 ==> Str(n) == "0"
    ensures n > 0 ==> Str(n)[0] != '0'
    decreases n
  {
    if n >= 10 {
      StrCanonical(n / 10);
      assert Str(n)[0] == Str(n / 10)[0];
    } else {
      assert Str(n) == [DigitChar(n)];
    }
  }

  /** Different numbers are rendered differently. */
  lemma StrInjective(a: nat, b: nat)
    requires Str(a) == Str(b)
    ensures a == b
  {
    StrValue(a);
    StrValue(b);
  }
}
