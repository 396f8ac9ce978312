/**
 * Version ordering and release-branch naming.
 *
 * `isVersionGreater` relies on `localeCompare` with the `numeric` option and
 * `base` sensitivity. This module replaces the locale collation with a
 * simplified primary-strength comparison: a run of decimal digits compares by
 * its numeric value, letters compare without regard to case, and the other
 * ASCII characters follow the order of the Unicode root collation
 * (whitespace, then punctuation and symbols, then digits, then letters).
 */
module Version {
  import opened JsString

  /** Whitespace, punctuation and symbols of ASCII in root-collation order; all sort before the digits. */
  const PunctuationOrder: string := "\t\n\U{000B}\U{000C}\r _-,;:!?.'\"()[]{}@*/\\&#%`^+<=>|~$"

  predicate IsDigit(c: char) {
    '0' <= c <= '9'
  }

  /**
   * The primary weight of a single character; all digits share one weight.
   * Characters outside the listed ASCII order (control characters and every
   * non-ASCII character) fall back to a weight above all the letters,
   * ordered by code point.
   */
  function Weight(c: char): (w: nat)
    ensures IsDigit(c) ==> w == |PunctuationOrder|
  {
    if IsDigit(c) then |PunctuationOrder|
    else if 'a' <= c <= 'z' then |PunctuationOrder| + 1 + (c as int - 'a' as int)
    else if 'A' <= c <= 'Z' then |PunctuationOrder| + 1 + (c as int - 'A' as int)
    else if IndexOf(PunctuationOrder, c) >= 0 then IndexOf(PunctuationOrder, c)
    else 100 + c as int
  }

  /** The number of decimal digits at the front of `s`. */
  function LeadingDigits(s: string): (n: nat)
    ensures n <= |s|
    ensures forall i :: 0 <= i < n ==> IsDigit(s[i])
    ensures n < |s| ==> !IsDigit(s[n])
  {
    if s != [] && IsDigit(s[0]) then 1 + LeadingDigits(s[1..]) else 0
  }

  /** The numeric value of a string of decimal digits. */
  function Value(ds: string): nat
    requires forall i :: 0 <= i < |ds| ==> IsDigit(ds[i])
  {
    if ds == [] then 0
    else
      assert IsDigit(ds[|ds| - 1]);
      10 * Value(ds[..|ds| - 1]) + (ds[|ds| - 1] as int - '0' as int)
  }

  /** The collation key of the first element of `s`: a digit run, or one character. */
  datatype Key = Key(weight: nat, number: nat)

  predicate KeyLess(x: Key, y: Key) {
    x.weight < y.weight || (x.weight == y.weight && x.number < y.number)
  }

  function Head(s: string): Key
    requires s != []
  {
    if IsDigit(s[0]) then Key(Weight(s[0]), Value(s[..LeadingDigits(s)])) else Key(Weight(s[0]), 0)
  }

  /** What follows the first element of `s`. */
  function Rest(s: string): (r: string)
    requires s != []
    ensures |r| < |s| && r == s[|s| - |r|..]
  {
    if IsDigit(s[0]) then s[LeadingDigits(s)..] else s[1..]
  }

  /**
   * Three-way comparison in the manner of `localeCompare`: -1, 0 or 1. The
   * strings are compared element by element, and a string that runs out first
   * sorts first.
   */
  function Compare(a: string, b: string): (r: int)
    ensures r == -1 || r == 0 || r == 1
    ensures a == [] && b != [] ==> r == -1
    ensures a != [] && b == [] ==> r == 1
    decreases |a| + |b|
  {
    if a == [] then (if b == [] then 0 else -1)
    else if b == [] then 1
    else if KeyLess(Head(a), Head(b)) then -1
    else if KeyLess(Head(b), Head(a)) then 1
    else Compare(Rest(a), Rest(b))
  }

  /** `isVersionGreater(currentVersion, releaseVersion)`: `localeCompare` returned exactly 1. */
  predicate IsVersionGreater(currentVersion: string, releaseVersion: string): (r: bool)
    ensures r <==> Compare(releaseVersion, currentVersion) == -1
  {
    CompareAntisymmetric(currentVersion, releaseVersion);
    Compare(currentVersion, releaseVersion) == 1
  }

  /** Lower-casing leaves the leading digit run of a string as it is. */
  lemma LowerDigitRun(s: string)
    ensures LeadingDigits(ToLower(s)) == LeadingDigits(s)
    ensures ToLower(s)[..LeadingDigits(s)] == s[..LeadingDigits(s)]
  {
    var t, n := ToLower(s), LeadingDigits(s);
    forall i | 0 <= i < n
      ensures t[i] == s[i]
    {
      ToLowerAt(s, i);
      LowerCharOfDigit(s[i]);
    }
    assert t[..n] == s[..n];
    if n < |s| {
      ToLowerAt(s, n);
      LowerCharOfDigit(s[n]);
      DigitRunHead(t, n);
    } else {
      DigitRunAll(t);
    }
  }

  /** Lower-casing keeps digits and makes no digit out of anything else. */
  lemma LowerCharOfDigit(c: char)
    ensures IsDigit(LowerChar(c)) <==> IsDigit(c)
    ensures IsDigit(c) ==> LowerChar(c) == c
  {
  }

  /** Lower-casing keeps the key of the first element and lower-cases what follows it. */
  lemma LowerHeadRest(s: string)
    requires s != []
    ensures ToLower(s) != [] && Head(ToLower(s)) == Head(s) && Rest(ToLower(s)) == ToLower(Rest(s))
  {
    ToLowerAt(s, 0);
    if IsDigit(s[0]) {
      LowerDigitRun(s);
      ToLowerSuffix(s, LeadingDigits(s));
    } else {
      ToLowerSuffix(s, 1);
    }
  }

  /**
   * The comparison is made at base sensitivity: it does not see the case of
   * letters, so lower-casing both operands never changes its answer.
   */
  lemma {:induction false} CompareIgnoresCase(a: string, b: string)
    ensures Compare(ToLower(a), ToLower(b)) == Compare(a, b)
    decreases |a| + |b|
  {
    if a != [] && b != [] {
      LowerHeadRest(a);
      LowerHeadRest(b);
      CompareIgnoresCase(Rest(a), Rest(b));
    }
  }

  /** Swapping the operands negates the comparison. */
  lemma {:induction false} CompareAntisymmetric(a: string, b: string)
    ensures Compare(a, b) == -Compare(b, a)
    decreases |a| + |b|
  {
    if a != [] && b != [] && !KeyLess(Head(a), Head(b)) && !KeyLess(Head(b), Head(a)) {
      CompareAntisymmetric(Rest(a), Rest(b));
    }
  }

  /** Every string compares equal to itself. */
  lemma {:induction false} CompareReflexive(a: string)
    ensures Compare(a, a) == 0
    decreases |a|
  {
    if a != [] {
      CompareReflexive(Rest(a));
    }
  }

  /** Comparison is transitive. */
  lemma {:induction false} CompareTransitive(a: string, b: string, c: string)
    requires Compare(a, b) == 1 && Compare(b, c) == 1
    ensures Compare(a, c) == 1
    decreases |a| + |b| + |c|
  {
    if c != [] && !KeyLess(Head(b), Head(a)) && !KeyLess(Head(a), Head(b))
       && !KeyLess(Head(c), Head(b)) && !KeyLess(Head(b), Head(c)) {
      CompareTransitive(Rest(a), Rest(b), Rest(c));
    }
  }

  /** No version is greater than itself. */
  lemma VersionGreaterIrreflexive(a: string)
    ensures !IsVersionGreater(a, a)
  {
    CompareReflexive(a);
  }

  /** Two versions are never each greater than the other. */
  lemma VersionGreaterAsymmetric(a: string, b: string)
    ensures !(IsVersionGreater(a, b) && IsVersionGreater(b, a))
  {
    CompareAntisymmetric(a, b);
  }

  /** Being greater is transitive, so `IsVersionGreater` is a strict order. */
  lemma VersionGreaterTransitive(a: string, b: string, c: string)
    requires IsVersionGreater(a, b) && IsVersionGreater(b, c)
    ensures IsVersionGreater(a, c)
  {
    CompareTransitive(a, b, c);
  }

  /** A common prefix that does not end inside a digit run does not affect the comparison. */
  lemma {:induction false} CompareCommonPrefix(p: string, x: string, y: string)
    requires p == [] || !IsDigit(p[|p| - 1])
    ensures Compare(p + x, p + y) == Compare(x, y)
    decreases |p|
  {
    if p != [] {
      HeadRestOfPrefix(p, x);
      HeadRestOfPrefix(p, y);
      assert !KeyLess(Head(p), Head(p));
      calc {
        Compare(p + x, p + y);
        Compare(Rest(p) + x, Rest(p) + y);
        { CompareCommonPrefix(Rest(p), x, y); }
        Compare(x, y);
      }
    } else {
      assert p + x == x && p + y == y;
    }
  }

  /** The first element of `p + x` lies within `p` when `p` ends with a non-digit. */
  lemma HeadRestOfPrefix(p: string, x: string)
    requires p != [] && !IsDigit(p[|p| - 1])
    ensures Head(p + x) == Head(p) && Rest(p + x) == Rest(p) + x
    ensures Rest(p) == [] || !IsDigit(Rest(p)[|Rest(p)| - 1])
  {
    assert (p + x)[0] == p[0];
    if IsDigit(p[0]) {
      LeadingDigitsOfPrefix(p, x);
      SliceOfAppend(p, x, LeadingDigits(p));
    } else {
      SliceOfAppend(p, x, 1);
    }
  }

  lemma {:induction false} LeadingDigitsOfPrefix(p: string, x: string)
    requires p != [] && !IsDigit(p[|p| - 1])
    ensures LeadingDigits(p + x) == LeadingDigits(p)
  {
    if IsDigit(p[0]) {
      assert |p| > 1;
      assert (p + x)[1..] == p[1..] + x;
      LeadingDigitsOfPrefix(p[1..], x);
    }
  }

  /** The first element of a string that starts with `n` digits and then a non-digit. */
  lemma {:induction false} DigitRunHead(s: string, n: nat)
    requires n < |s| && !IsDigit(s[n])
    requires forall i :: 0 <= i < n ==> IsDigit(s[i])
    ensures LeadingDigits(s) == n
  {
    if n > 0 {
      DigitRunHead(s[1..], n - 1);
    }
  }

  /**
   * Versions that agree up to a numeric field compare by that field's value:
   * `v0.2022.04.11...` is greater than `v0.2022.04.10...`, and `...09.10...`
   * is greater than `...09.9...`.
   */
  lemma GreaterFieldIsGreater(p: string, m: string, n: string, x: string, y: string)
    requires p == [] || !IsDigit(p[|p| - 1])
    requires m != [] && forall i :: 0 <= i < |m| ==> IsDigit(m[i])
    requires n != [] && forall i :: 0 <= i < |n| ==> IsDigit(n[i])
    requires x == [] || !IsDigit(x[0])
    requires y == [] || !IsDigit(y[0])
    requires Value(m) > Value(n)
    ensures IsVersionGreater(p + (m + x), p + (n + y))
    ensures !IsVersionGreater(p + (n + y), p + (m + x))
  {
    CompareCommonPrefix(p, m + x, n + y);
    GreaterRunFirst(m, n, x, y);
    CompareAntisymmetric(p + (m + x), p + (n + y));
  }

  /** Strings that start with digit runs of different values compare by those values. */
  lemma GreaterRunFirst(m: string, n: string, x: string, y: string)
    requires m != [] && forall i :: 0 <= i < |m| ==> IsDigit(m[i])
    requires n != [] && forall i :: 0 <= i < |n| ==> IsDigit(n[i])
    requires x == [] || !IsDigit(x[0])
    requires y == [] || !IsDigit(y[0])
    requires Value(m) > Value(n)
    ensures Compare(m + x, n + y) == 1
  {
    DigitRunOf(m, x);
    DigitRunOf(n, y);
    assert KeyLess(Head(n + y), Head(m + x)) && !KeyLess(Head(m + x), Head(n + y));
  }

  /** A digit string followed by a non-digit is a whole digit run. */
  lemma DigitRunOf(m: string, x: string)
    requires m != [] && forall i :: 0 <= i < |m| ==> IsDigit(m[i])
    requires x == [] || !IsDigit(x[0])
    ensures Head(m + x) == Key(|PunctuationOrder|, Value(m)) && Rest(m + x) == x
  {
    var s := m + x;
    if x == [] {
      DigitRunAll(s);
    } else {
      DigitRunHead(s, |m|);
    }
    assert s[..|m|] == m && s[|m|..] == x;
  }

  lemma {:induction false} DigitRunAll(s: string)
    requires forall i :: 0 <= i < |s| ==> IsDigit(s[i])
    ensures LeadingDigits(s) == |s|
  {
    if s != [] {
      DigitRunAll(s[1..]);
    }
  }

  /**
   * `p` is the part of `version` that names its release branch: the text
   * before the first `_`, or the empty string when there is no `_` (there
   * `indexOf` gives -1 and `substring(0, -1)` is clamped to `substring(0, 0)`).
   */
  ghost predicate IsBranchStem(version: string, p: string) {
    p <= version && '_' !in p
    && ('_' in version ==> |p| < |version| && version[|p|] == '_')
    && ('_' !in version ==> p == [])
  }

  /** The branch stem of a version is determined by the version. */
  lemma BranchStemUnique(version: string, p: string, q: string)
    requires IsBranchStem(version, p) && IsBranchStem(version, q)
    ensures p == q
  {
  }

  /**
   * `branchFromVersion`: `origin/<channel>_release/` followed by the branch
   * stem of the version, so `v0.2022.04.11.09.09.stable_01` on channel
   * `stable` gives `origin/stable_release/v0.2022.04.11.09.09.stable`.
   */
  function BranchFromVersion(version: string, channel: string): (r: string)
    ensures exists p :: IsBranchStem(version, p) && r == "origin/" + channel + "_release/" + p
  {
    var p := Substring(version, 0, IndexOf(version, '_'));
    assert IsBranchStem(version, p);
    "origin/" + channel + "_release/" + p
  }

  /** Two versions that agree up to their first `_` map to the same branch. */
  lemma SameStemSameBranch(v: string, w: string, channel: string)
    requires exists p :: IsBranchStem(v, p) && IsBranchStem(w, p)
    ensures BranchFromVersion(v, channel) == BranchFromVersion(w, channel)
  {
    var p :| IsBranchStem(v, p) && IsBranchStem(w, p);
    var pv :| IsBranchStem(v, pv) && BranchFromVersion(v, channel) == "origin/" + channel + "_release/" + pv;
    var pw :| IsBranchStem(w, pw) && BranchFromVersion(w, channel) == "origin/" + channel + "_release/" + pw;
    BranchStemUnique(v, p, pv);
    BranchStemUnique(w, p, pw);
  }
}
