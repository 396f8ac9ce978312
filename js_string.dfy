/**
 * The ECMAScript string operations the changelog generator relies on:
 * `trim`, `toLowerCase`, `substring`, `indexOf` and `split`, over strings
 * as sequences of characters.
 */
module JsString {

  /** The line terminators of ECMAScript (LF, CR, LINE SEPARATOR, PARAGRAPH SEPARATOR). */
  const LineTerminators: set<char> := {'\n', '\r', '\U{2028}', '\U{2029}'}

  predicate IsLineTerminator(c: char) {
    c in LineTerminators
  }

  /** The characters `String.prototype.trim` removes: WhiteSpace and LineTerminator. */
  predicate IsWhitespace(c: char) {
    IsLineTerminator(c) || c == '\t' || c == '\U{000B}' || c == '\U{000C}' || c == ' '
    || c == '\U{00A0}' || c == '\U{FEFF}' || c == '\U{1680}' || ('\U{2000}' <= c <= '\U{200A}')
    || c == '\U{202F}' || c == '\U{205F}' || c == '\U{3000}'
  }

  predicate AllWhitespace(s: string) {
    forall i :: 0 <= i < |s| ==> IsWhitespace(s[i])
  }

  /** A string `trim` leaves unchanged: empty, or no whitespace at either end. */
  predicate IsTrimmed(s: string) {
    s == [] || (!IsWhitespace(s[0]) && !IsWhitespace(s[|s| - 1]))
  }

  function TrimStart(s: string): (r: string)
    ensures |r| <= |s|
  {
    if s != [] && IsWhitespace(s[0]) then TrimStart(s[1..]) else s
  }

  function TrimEnd(s: string): (r: string)
    ensures |r| <= |s|
  {
    if s != [] && IsWhitespace(s[|s| - 1]) then TrimEnd(s[..|s| - 1]) else s
  }

  /** `TrimStart` removes the leading whitespace and nothing else. */
  lemma {:induction false} TrimStartSpec(s: string)
    ensures TrimStart(s) == s[|s| - |TrimStart(s)|..]
    ensures AllWhitespace(s[..|s| - |TrimStart(s)|])
    ensures TrimStart(s) == [] || !IsWhitespace(TrimStart(s)[0])
  {
    if s != [] && IsWhitespace(s[0]) {
      TrimStartSpec(s[1..]);
      assert s[1..][|s| - 1 - |TrimStart(s)|..] == s[|s| - |TrimStart(s)|..];
    }
  }

  /** `TrimEnd` removes the trailing whitespace and nothing else. */
  lemma {:induction false} TrimEndSpec(s: string)
    ensures TrimEnd(s) == s[..|TrimEnd(s)|]
    ensures AllWhitespace(s[|TrimEnd(s)|..])
    ensures TrimEnd(s) == [] || !IsWhitespace(TrimEnd(s)[|TrimEnd(s)| - 1])
  {
    if s != [] && IsWhitespace(s[|s| - 1]) {
      var t := s[..|s| - 1];
      TrimEndSpec(t);
      var n := |TrimEnd(s)|;
      assert t[..n] == s[..n];
      assert s[n..] == t[n..] + [s[|s| - 1]];
    }
  }

  /** `String.prototype.trim`: whitespace is cut away at both ends. */
  function Trim(s: string): string {
    TrimEnd(TrimStart(s))
  }

  /**
   * What `trim` keeps has no whitespace at either end, and it is a stretch of
   * the string with only whitespace around it.
   */
  lemma TrimSpec(s: string)
    ensures IsTrimmed(Trim(s))
    ensures exists a :: 0 <= a <= |s| - |Trim(s)| && Trim(s) == s[a..a + |Trim(s)|]
                        && AllWhitespace(s[..a]) && AllWhitespace(s[a + |Trim(s)|..])
  {
    var t := TrimStart(s);
    var r := TrimEnd(t);
    TrimStartSpec(s);
    TrimEndSpec(t);
    var a := |s| - |t|;
    assert r == s[a..a + |r|];
    assert s[a + |r|..] == t[|r|..];
  }

  /**
   * The stretch `trim` keeps (see `TrimIsSlice`) starts at or before every
   * non-whitespace character and reaches past each of them.
   */
  lemma TrimKeepsInner(s: string, i: nat, j: nat)
    requires i <= j < |s| && !IsWhitespace(s[i]) && !IsWhitespace(s[j])
    ensures |s| - |TrimStart(s)| <= i && j < |s| - |TrimStart(s)| + |Trim(s)|
  {
    var t := TrimStart(s);
    var a := |s| - |t|;
    var r := TrimEnd(t);
    TrimStartSpec(s);
    TrimEndSpec(t);
    NotInBlankPrefix(s, a, i);
    assert t[j - a] == s[j];
    NotInBlankSuffix(t, |r|, j - a);
  }

  /** What `trim` keeps is the stretch of the string that starts where `TrimStart` cut. */
  lemma TrimIsSlice(s: string)
    ensures |s| - |TrimStart(s)| + |Trim(s)| <= |s|
    ensures Trim(s) == s[|s| - |TrimStart(s)|..|s| - |TrimStart(s)| + |Trim(s)|]
  {
    var t := TrimStart(s);
    TrimStartSpec(s);
    TrimEndSpec(t);
    SliceOfSuffix(s, |s| - |t|, |TrimEnd(t)|);
  }

  /** A prefix of a suffix is a slice. */
  lemma SliceOfSuffix(s: string, a: nat, n: nat)
    requires a + n <= |s|
    ensures s[a..][..n] == s[a..a + n]
  {
  }

  /** Cutting a concatenation inside its first part. */
  lemma SliceOfAppend(p: string, x: string, n: nat)
    requires n <= |p|
    ensures (p + x)[..n] == p[..n] && (p + x)[n..] == p[n..] + x
  {
  }

  /** A non-whitespace character lies after a blank prefix. */
  lemma NotInBlankPrefix(s: string, a: nat, i: nat)
    requires a <= |s| && i < |s| && AllWhitespace(s[..a]) && !IsWhitespace(s[i])
    ensures a <= i
  {
  }

  /** A non-whitespace character lies before a blank suffix. */
  lemma NotInBlankSuffix(s: string, b: nat, j: nat)
    requires b <= |s| && j < |s| && AllWhitespace(s[b..]) && !IsWhitespace(s[j])
    ensures j < b
  {
  }

  /** `trim` changes nothing in a string that has no whitespace at either end. */
  lemma TrimOfTrimmed(s: string)
    requires IsTrimmed(s)
    ensures Trim(s) == s
  {
  }

  /** `trim` yields the empty string exactly when the string is all whitespace. */
  lemma TrimEmptyIffBlank(s: string)
    ensures Trim(s) == [] <==> AllWhitespace(s)
  {
    TrimSpec(s);
  }

  /** ASCII upper-case letters are folded; every other character is kept. */
  function LowerChar(c: char): char {
    if 'A' <= c <= 'Z' then (c as int - 'A' as int + 'a' as int) as char else c
  }

  /** `String.prototype.toLowerCase`, restricted to the ASCII letters. */
  function ToLower(s: string): (r: string)
    ensures |r| == |s|
  {
    if s == [] then [] else [LowerChar(s[0])] + ToLower(s[1..])
  }

  /** Lower-casing twice is lower-casing once. */
  lemma {:induction false} ToLowerIdempotent(s: string)
    ensures ToLower(ToLower(s)) == ToLower(s)
  {
    if s != [] {
      ToLowerIdempotent(s[1..]);
    }
  }

  /**
   * Lower-casing works character by character, and leaves no upper-case
   * ASCII letter behind.
   */
  lemma {:induction false} ToLowerAt(s: string, i: nat)
    requires i < |s|
    ensures ToLower(s)[i] == LowerChar(s[i])
    ensures !('A' <= ToLower(s)[i] <= 'Z')
  {
    if i > 0 {
      ToLowerAt(s[1..], i - 1);
    }
  }

  /** Lower-casing a suffix gives the same suffix of the lower-cased string. */
  lemma {:induction false} ToLowerSuffix(s: string, k: nat)
    requires k <= |s|
    ensures ToLower(s[k..]) == ToLower(s)[k..]
  {
    if k == 0 {
      assert s[k..] == s;
    } else {
      ToLowerSuffix(s[1..], k - 1);
      assert s[1..][k - 1..] == s[k..];
      assert ToLower(s) == [LowerChar(s[0])] + ToLower(s[1..]);
    }
  }

  /** Clamps an index of `substring` into `[0, n]`. */
  function Clamp(i: int, n: nat): (r: nat)
    ensures r <= n
    ensures 0 <= i <= n ==> r == i
  {
    if i < 0 then 0 else if i > n then n else i
  }

  /**
   * `String.prototype.substring(start, end)`: both indices are clamped into
   * the string, and they are swapped when `start` exceeds `end`.
   */
  function Substring(s: string, start: int, end: int): (r: string)
    ensures 0 <= start <= end <= |s| ==> r == s[start..end]
    ensures start == 0 ==> r <= s
    ensures start == 0 && end <= 0 ==> r == []
  {
    var a, b := Clamp(start, |s|), Clamp(end, |s|);
    if a <= b then s[a..b] else s[b..a]
  }

  /** `String.prototype.indexOf` for one character: its first position, or -1. */
  function IndexOf(s: string, c: char): (r: int)
    ensures -1 <= r < |s|
    ensures r == -1 <==> c !in s
    ensures r >= 0 ==> s[r] == c && c !in s[..r]
  {
    if s == [] then -1
    else if s[0] == c then 0
    else
      var k := IndexOf(s[1..], c);
      assert s[1..][..k + 1] == s[1..k + 2] by { }
      if k < 0 then -1 else k + 1
  }

  /**
   * Cuts `s` at every character in `seps`, dropping the cut characters: the
   * pieces of `split` with a one-character separator, and the lines of a text
   * when `seps` is the set of line terminators.
   */
  function SplitOn(s: string, seps: set<char>): (r: seq<string>)
    ensures |r| >= 1
    ensures forall k, i :: 0 <= k < |r| && 0 <= i < |r[k]| ==> r[k][i] !in seps
  {
    if s == [] then [[]]
    else
      var rest := SplitOn(s[1..], seps);
      if s[0] in seps then [[]] + rest else [[s[0]] + rest[0]] + rest[1..]
  }

  /** The characters of `s` that lie in `seps`, in order: the characters `SplitOn` cuts at. */
  function CutsOf(s: string, seps: set<char>): (cuts: string)
    ensures |cuts| <= |s|
  {
    if s == [] then [] else (if s[0] in seps then [s[0]] else []) + CutsOf(s[1..], seps)
  }

  /** The pieces joined back together, with `cuts[k]` put between piece `k` and piece `k + 1`. */
  function Interleave(pieces: seq<string>, cuts: string): string
    requires |pieces| == |cuts| + 1
  {
    if cuts == [] then pieces[0] else pieces[0] + [cuts[0]] + Interleave(pieces[1..], cuts[1..])
  }

  /** Putting a character in front of the first piece puts it in front of the joined text. */
  lemma InterleaveCons(c: char, pieces: seq<string>, cuts: string)
    requires |pieces| == |cuts| + 1
    ensures Interleave([[c] + pieces[0]] + pieces[1..], cuts) == [c] + Interleave(pieces, cuts)
  {
    var q := [[c] + pieces[0]] + pieces[1..];
    assert q[0] == [c] + pieces[0] && q[1..] == pieces[1..];
  }

  /**
   * The pieces of `SplitOn` are the text between the cut characters, in
   * order: there is one piece more than there are cuts, and putting each cut
   * character back between its two pieces gives the text back.
   */
  lemma {:induction false} InterleaveSplit(s: string, seps: set<char>)
    ensures |SplitOn(s, seps)| == |CutsOf(s, seps)| + 1
    ensures Interleave(SplitOn(s, seps), CutsOf(s, seps)) == s
  {
    if s != [] {
      InterleaveSplit(s[1..], seps);
      var rest, cuts := SplitOn(s[1..], seps), CutsOf(s[1..], seps);
      if s[0] in seps {
        var p, c := [[]] + rest, [s[0]] + cuts;
        assert SplitOn(s, seps) == p && CutsOf(s, seps) == c;
        assert p[0] == [] && p[1..] == rest && c[0] == s[0] && c[1..] == cuts;
        assert [] + [s[0]] + s[1..] == s;
      } else {
        assert SplitOn(s, seps) == [[s[0]] + rest[0]] + rest[1..];
        assert CutsOf(s, seps) == [] + cuts == cuts;
        InterleaveCons(s[0], rest, cuts);
        assert [s[0]] + s[1..] == s;
      }
    }
  }

  /** `Array.prototype.join` with a one-character separator. */
  function JoinWith(pieces: seq<string>, sep: char): (r: string)
    ensures |pieces| == 1 ==> r == pieces[0]
  {
    if pieces == [] then []
    else if |pieces| == 1 then pieces[0]
    else pieces[0] + [sep] + JoinWith(pieces[1..], sep)
  }

  /** Joining the pieces of a split with the separator gives back the text. */
  lemma {:induction false} JoinSplit(s: string, sep: char)
    ensures JoinWith(SplitOn(s, {sep}), sep) == s
  {
    if s != [] {
      JoinSplit(s[1..], sep);
      var rest, r := SplitOn(s[1..], {sep}), SplitOn(s, {sep});
      if s[0] == sep {
        assert r == [[]] + rest && |r| >= 2 && r[0] == [] && r[1..] == rest;
        assert JoinWith(r, sep) == [] + [sep] + JoinWith(rest, sep);
      } else {
        assert r == [[s[0]] + rest[0]] + rest[1..];
        if |rest| == 1 {
          assert |r| == 1 && r[0] == [s[0]] + rest[0];
          assert JoinWith(rest, sep) == rest[0];
        } else {
          assert r[0] == [s[0]] + rest[0] && r[1..] == rest[1..];
          assert JoinWith(r, sep) == r[0] + [sep] + JoinWith(rest[1..], sep);
          assert JoinWith(rest, sep) == rest[0] + [sep] + JoinWith(rest[1..], sep);
        }
      }
      assert [s[0]] + s[1..] == s;
    }
  }

  /** Splitting a joined list of separator-free pieces gives back the pieces. */
  lemma {:induction false} SplitJoin(pieces: seq<string>, sep: char)
    requires |pieces| >= 1
    requires forall k :: 0 <= k < |pieces| ==> sep !in pieces[k]
    ensures SplitOn(JoinWith(pieces, sep), {sep}) == pieces
  {
    if |pieces| == 1 {
      SplitPiece(pieces[0], sep);
    } else {
      SplitJoin(pieces[1..], sep);
      SplitPrefix(pieces[0], JoinWith(pieces[1..], sep), sep);
      assert [pieces[0]] + pieces[1..] == pieces;
    }
  }

  /** A separator-free string splits into itself alone. */
  lemma {:induction false} SplitPiece(p: string, sep: char)
    requires sep !in p
    ensures SplitOn(p, {sep}) == [p]
  {
    if p != [] {
      SplitPiece(p[1..], sep);
      assert [p[0]] + p[1..] == p;
    }
  }

  /** Splitting `p + [sep] + t`, with no separator in `p`, puts `p` in front of the pieces of `t`. */
  lemma {:induction false} SplitPrefix(p: string, t: string, sep: char)
    requires sep !in p
    ensures SplitOn(p + [sep] + t, {sep}) == [p] + SplitOn(t, {sep})
  {
    if p == [] {
      assert p + [sep] + t == [sep] + t;
      assert ([sep] + t)[1..] == t;
    } else {
      SplitPrefix(p[1..], t, sep);
      assert (p + [sep] + t)[1..] == p[1..] + [sep] + t;
      assert [p[0]] + p[1..] == p;
    }
  }
}
