/**
 * Extraction of changelog entries from pull-request descriptions.
 *
 * Each tag is searched for with a regular expression `^TAG:(.*)` under the
 * flags `g` and `m`: `^` matches at the start of the text and after each line
 * terminator, and `.` matches anything but a line terminator. A match is
 * therefore a line (a piece of the text between line terminators) that starts
 * with `TAG:`, and the captured text is the rest of that line.
 */
module Extractor {
  import opened Wrappers
  import opened JsString

  /** The tags a description may use; the last two are legacy spellings. */
  datatype Tag = NewFeature | Improvement | BugFix | Image | LegacyNew | LegacyFixes

  function Literal(tag: Tag): string {
    match tag
    case NewFeature => "CHANGELOG-NEW-FEATURE"
    case Improvement => "CHANGELOG-IMPROVEMENT"
    case BugFix => "CHANGELOG-BUG-FIX"
    case Image => "CHANGELOG-IMAGE"
    case LegacyNew => "CHANGELOG-NEW"
    case LegacyFixes => "CHANGELOG-FIXES"
  }

  /** What a tagged line starts with: the tag followed directly by a colon. */
  function Pattern(tag: Tag): string {
    Literal(tag) + ":"
  }

  /**
   * Template text at `i`..`j`: two opening braces at `i`, two closing braces
   * at `j`, and no line terminator between them.
   */
  predicate TemplateAt(v: string, i: nat, j: nat) {
    i + 2 <= j && j + 2 <= |v|
    && v[i] == '{' && v[i + 1] == '{' && v[j] == '}' && v[j + 1] == '}'
    && forall k :: i + 2 <= k < j ==> !IsLineTerminator(v[k])
  }

  /** Whether `w` holds `}}` before any line terminator. */
  predicate ClosesOnLine(w: string) {
    |w| >= 2 && ((w[0] == '}' && w[1] == '}') || (!IsLineTerminator(w[0]) && ClosesOnLine(w[1..])))
  }

  /** Whether `/{{.*}}/` matches somewhere in `v`, scanning for `{{` from the left. */
  predicate HasTemplate(v: string) {
    |v| >= 2 && ((v[0] == '{' && v[1] == '{' && ClosesOnLine(v[2..])) || HasTemplate(v[1..]))
  }

  /** `}}` at `j` in `w`, with no line terminator before it. */
  predicate ClosesAt(w: string, j: nat) {
    j + 2 <= |w| && w[j] == '}' && w[j + 1] == '}'
    && forall k :: 0 <= k < j ==> !IsLineTerminator(w[k])
  }

  lemma {:induction false} ClosesOnLineIff(w: string)
    ensures ClosesOnLine(w) <==> exists j | 0 <= j <= |w| :: ClosesAt(w, j)
  {
    if |w| >= 2 {
      ClosesOnLineIff(w[1..]);
      if w[0] == '}' && w[1] == '}' {
        assert ClosesAt(w, 0);
      } else if ClosesOnLine(w) {
        var j :| 0 <= j <= |w[1..]| && ClosesAt(w[1..], j);
        assert ClosesAt(w, j + 1);
      }
      if exists j | 0 <= j <= |w| :: ClosesAt(w, j) {
        var j :| 0 <= j <= |w| && ClosesAt(w, j);
        if j > 0 {
          assert !IsLineTerminator(w[0]);
          assert ClosesAt(w[1..], j - 1);
          assert ClosesOnLine(w[1..]);
        }
        assert ClosesOnLine(w);
      }
    }
  }

  /** The scanner agrees with the regular expression: `HasTemplate` holds exactly when template text occurs. */
  lemma {:induction false} HasTemplateIff(v: string)
    ensures HasTemplate(v) <==> exists i, j | 0 <= i <= j <= |v| :: TemplateAt(v, i, j)
  {
    if |v| >= 2 {
      HasTemplateIff(v[1..]);
      ClosesOnLineIff(v[2..]);
      if v[0] == '{' && v[1] == '{' && ClosesOnLine(v[2..]) {
        var j :| 0 <= j <= |v[2..]| && ClosesAt(v[2..], j);
        assert TemplateAt(v, 0, j + 2);
      } else if HasTemplate(v[1..]) {
        var i, j :| 0 <= i <= j <= |v[1..]| && TemplateAt(v[1..], i, j);
        assert TemplateAt(v, i + 1, j + 1);
      }
      if exists i, j | 0 <= i <= j <= |v| :: TemplateAt(v, i, j) {
        var i, j :| 0 <= i <= j <= |v| && TemplateAt(v, i, j);
        if i == 0 {
          assert ClosesAt(v[2..], j - 2);
        } else {
          assert TemplateAt(v[1..], i - 1, j - 1);
        }
      }
    }
  }

  /** A value worth keeping: not empty and not template text. */
  predicate IsItem(v: string) {
    v != [] && !HasTemplate(v)
  }

  /** The trimmed rest of a line that starts with a pattern. */
  function Candidate(line: string, pattern: string): string
    requires pattern <= line
  {
    Trim(line[|pattern|..])
  }

  /** Whether a line yields an entry for a pattern: it starts with it, and what follows is worth keeping. */
  predicate Yields(line: string, pattern: string) {
    pattern <= line && IsItem(Candidate(line, pattern))
  }

  /** The lines of a text: the pieces between line terminators. */
  function Lines(description: string): (lines: seq<string>)
    ensures |lines| >= 1
    ensures forall k :: 0 <= k < |lines| ==> SingleLine(lines[k])
  {
    SplitOn(description, LineTerminators)
  }

  /**
   * The lines are the text between the line terminators, in order: there is
   * one line more than there are terminators, and putting each terminator
   * back between its two lines gives the description again.
   */
  lemma LinesRejoin(description: string)
    ensures |Lines(description)| == |CutsOf(description, LineTerminators)| + 1
    ensures Interleave(Lines(description), CutsOf(description, LineTerminators)) == description
  {
    InterleaveSplit(description, LineTerminators);
  }

  /** The entries the lines yield for a pattern, in line order. */
  function ItemsOf(lines: seq<string>, pattern: string): (items: seq<string>)
    ensures |items| <= |lines|
  {
    if lines == [] then []
    else
      var line := lines[|lines| - 1];
      ItemsOf(lines[..|lines| - 1], pattern) + (if Yields(line, pattern) then [Candidate(line, pattern)] else [])
  }

  /**
   * The entries a description yields for the tag: at most one per line, so no
   * more than one more than the line terminators it holds.
   */
  function Matches(description: string, tag: Tag): (r: seq<string>)
    ensures |r| <= |CutsOf(description, LineTerminators)| + 1
  {
    InterleaveSplit(description, LineTerminators);
    ItemsOf(Lines(description), Pattern(tag))
  }

  /** `parseMatchesFromDescription`: one pass over the matches, keeping the entries. */
  method ParseMatchesFromDescription(prDescription: string, tag: Tag) returns (changelogItems: seq<string>)
    ensures changelogItems == Matches(prDescription, tag)
  {
    var lines, pattern := Lines(prDescription), Pattern(tag);
    changelogItems := [];
    for i := 0 to |lines|
      invariant changelogItems == ItemsOf(lines[..i], pattern)
    {
      assert lines[..i + 1][..i] == lines[..i];
      var line := lines[i];
      if pattern <= line {
        var matchString := Trim(line[|pattern|..]);
        if matchString != [] && !HasTemplate(matchString) {
          changelogItems := changelogItems + [matchString];
        }
      }
    }
    assert lines[..|lines|] == lines;
  }

  /** The positions of the yielding lines, in increasing order. */
  function YieldingLines(lines: seq<string>, pattern: string): (idx: seq<nat>)
    ensures forall k :: 0 <= k < |idx| ==> idx[k] < |lines| && Yields(lines[idx[k]], pattern)
    ensures forall k1, k2 :: 0 <= k1 < k2 < |idx| ==> idx[k1] < idx[k2]
  {
    if lines == [] then []
    else
      var n := |lines| - 1;
      var prev := YieldingLines(lines[..n], pattern);
      assert forall k :: 0 <= k < |prev| ==> lines[..n][prev[k]] == lines[prev[k]];
      prev + (if Yields(lines[n], pattern) then [n] else [])
  }

  /** Every yielding line is among the positions. */
  lemma {:induction false} YieldingLinesComplete(lines: seq<string>, pattern: string)
    ensures forall j :: 0 <= j < |lines| && Yields(lines[j], pattern) ==> j in YieldingLines(lines, pattern)
  {
    if lines != [] {
      var n := |lines| - 1;
      YieldingLinesComplete(lines[..n], pattern);
      assert forall j :: 0 <= j < n ==> lines[..n][j] == lines[j];
    }
  }

  /**
   * The entries are the candidates of the yielding lines, one for one and in
   * line order.
   */
  lemma {:induction false} ItemsFromYieldingLines(lines: seq<string>, pattern: string)
    ensures |ItemsOf(lines, pattern)| == |YieldingLines(lines, pattern)|
    ensures forall k :: 0 <= k < |ItemsOf(lines, pattern)| ==>
              ItemsOf(lines, pattern)[k] == Candidate(lines[YieldingLines(lines, pattern)[k]], pattern)
  {
    if lines != [] {
      var n := |lines| - 1;
      ItemsFromYieldingLines(lines[..n], pattern);
      var idx, prev := YieldingLines(lines, pattern), YieldingLines(lines[..n], pattern);
      var items, before := ItemsOf(lines, pattern), ItemsOf(lines[..n], pattern);
      assert forall k :: 0 <= k < |prev| ==>
          idx[k] == prev[k] && items[k] == before[k] && lines[..n][prev[k]] == lines[prev[k]];
    }
  }

  /** Whether a string lies within one line. */
  predicate SingleLine(v: string) {
    forall k :: 0 <= k < |v| ==> !IsLineTerminator(v[k])
  }

  /** Trimming keeps a string within its line. */
  lemma TrimmedSingleLine(w: string)
    requires SingleLine(w)
    ensures SingleLine(Trim(w))
  {
    TrimIsSlice(w);
    var a := |w| - |TrimStart(w)|;
    forall k | 0 <= k < |Trim(w)|
      ensures !IsLineTerminator(Trim(w)[k])
    {
      assert Trim(w)[k] == w[a + k];
    }
  }

  /** An entry a line yields is worth keeping, trimmed, and as the regular expression's `.` demands, within the line. */
  lemma CandidateIsEntry(line: string, pattern: string)
    requires Yields(line, pattern) && SingleLine(line)
    ensures IsItem(Candidate(line, pattern)) && IsTrimmed(Candidate(line, pattern)) && SingleLine(Candidate(line, pattern))
  {
    var rest := line[|pattern|..];
    forall k | 0 <= k < |rest|
      ensures !IsLineTerminator(rest[k])
    {
      assert rest[k] == line[|pattern| + k];
    }
    TrimmedSingleLine(rest);
    TrimSpec(rest);
  }

  /** Every entry found for a tag is worth keeping, trimmed, and within one line. */
  lemma {:induction false} ItemsAreEntries(lines: seq<string>, pattern: string)
    requires forall k :: 0 <= k < |lines| ==> SingleLine(lines[k])
    ensures forall x :: x in ItemsOf(lines, pattern) ==> IsItem(x) && IsTrimmed(x) && SingleLine(x)
  {
    if lines != [] {
      var n := |lines| - 1;
      assert forall k :: 0 <= k < n ==> lines[..n][k] == lines[k];
      ItemsAreEntries(lines[..n], pattern);
      if Yields(lines[n], pattern) {
        CandidateIsEntry(lines[n], pattern);
      }
    }
  }

  /** The entries of a description are worth keeping, trimmed, and each within one line. */
  lemma MatchesAreEntries(description: string, tag: Tag)
    ensures forall x :: x in Matches(description, tag) ==> IsItem(x) && IsTrimmed(x) && SingleLine(x)
  {
    ItemsAreEntries(Lines(description), Pattern(tag));
  }

  /** A pattern holds its colon only at the end. */
  lemma ColonOnlyAtEnd(tag: Tag)
    ensures forall k :: 0 <= k < |Pattern(tag)| - 1 ==> Pattern(tag)[k] != ':'
    ensures Pattern(tag)[|Pattern(tag)| - 1] == ':'
  {
    var lit := Literal(tag);
    assert forall k :: 0 <= k < |lit| ==> lit[k] != ':';
    assert forall k :: 0 <= k < |lit| ==> Pattern(tag)[k] == lit[k];
  }

  /** Two prefixes of one line agree where both are defined. */
  lemma CommonPrefix(p: string, q: string, line: string)
    requires p <= line && q <= line
    ensures forall k :: 0 <= k < |p| && k < |q| ==> p[k] == q[k]
  {
  }

  /** Two different patterns of the same length differ right after `CHANGELOG-`. */
  lemma SameLengthPatternsDiffer(t: Tag, u: Tag)
    requires t != u && |Pattern(t)| == |Pattern(u)|
    ensures Pattern(t)[10] != Pattern(u)[10]
  {
  }

  /** No line starts with two different tags; in particular `CHANGELOG-NEW:` never matches a `CHANGELOG-NEW-FEATURE:` line. */
  lemma PatternsExclusive(line: string, t: Tag, u: Tag)
    requires t != u
    ensures !(Pattern(t) <= line && Pattern(u) <= line)
  {
    var p, q := Pattern(t), Pattern(u);
    if p <= line && q <= line {
      ColonOnlyAtEnd(t);
      ColonOnlyAtEnd(u);
      CommonPrefix(p, q, line);
      if |p| == |q| {
        SameLengthPatternsDiffer(t, u);
      }
    }
  }

  /** Template text lying inside a slice is template text of the slice. */
  lemma TemplateInSlice(w: string, i: nat, j: nat, a: nat, n: nat)
    requires TemplateAt(w, i, j) && a <= i && j + 2 <= a + n <= |w|
    ensures TemplateAt(w[a..a + n], i - a, j - a)
  {
    var v := w[a..a + n];
    forall k | i - a + 2 <= k < j - a
      ensures !IsLineTerminator(v[k])
    {
      assert v[k] == w[k + a];
    }
  }

  /** Trimming never removes template text, since braces are not whitespace. */
  lemma TrimKeepsTemplate(w: string, i: nat, j: nat)
    requires TemplateAt(w, i, j)
    ensures HasTemplate(Trim(w))
  {
    var v := Trim(w);
    TrimKeepsInner(w, i, j + 1);
    TrimIsSlice(w);
    var a := |w| - |TrimStart(w)|;
    TemplateInSlice(w, i, j, a, |v|);
    HasTemplateIff(v);
  }

  /** An entry filled in from a template placeholder never survives. */
  lemma TemplateLineYieldsNothing(pattern: string, before: string, text: string, after: string)
    requires forall k :: 0 <= k < |text| ==> !IsLineTerminator(text[k])
    ensures !Yields(pattern + before + "{{" + text + "}}" + after, pattern)
  {
    var line := pattern + before + "{{" + text + "}}" + after;
    var rest := before + "{{" + text + "}}" + after;
    assert line == pattern + rest;
    assert line[|pattern|..] == rest;
    var i, j := |before|, |before| + 2 + |text|;
    assert rest[i] == '{' && rest[i + 1] == '{' && rest[j] == '}' && rest[j + 1] == '}';
    forall k | i + 2 <= k < j
      ensures !IsLineTerminator(rest[k])
    {
      assert rest[k] == text[k - i - 2];
    }
    assert TemplateAt(rest, i, j);
    TrimKeepsTemplate(rest, i, j);
  }

  /** The changelog sections. */
  datatype Bucket = NewFeatures | Improvements | BugFixes | Images

  /** The section a tag's entries go to; a legacy tag goes to the section of its current spelling. */
  function BucketOf(tag: Tag): Bucket {
    match tag
    case NewFeature => NewFeatures
    case LegacyNew => NewFeatures
    case Improvement => Improvements
    case BugFix => BugFixes
    case LegacyFixes => BugFixes
    case Image => Images
  }

  /** The changelog: each section holds entries or is absent (`undefined`). */
  datatype Changelog = Changelog(
    newFeatures: Option<seq<string>>,
    improvements: Option<seq<string>>,
    bugFixes: Option<seq<string>>,
    images: Option<seq<string>>)
  {
    function Get(b: Bucket): Option<seq<string>> {
      match b
      case NewFeatures => newFeatures
      case Improvements => improvements
      case BugFixes => bugFixes
      case Images => images
    }
  }

  /** The changelog with every section absent. */
  const NoChangelog := Changelog(None, None, None, None)

  /**
   * The entries one description contributes to a section, in the order they
   * are pushed: a section's current tag first, then its legacy alias.
   */
  function DescriptionItems(description: string, b: Bucket): seq<string> {
    SectionItems(Found(description), b)
  }

  /** The entries a description yields, tag by tag. */
  function Found(description: string): Tag -> seq<string> {
    tag => Matches(description, tag)
  }

  /** The entries of a section, given the entries of each tag: the current tag's first, then its legacy alias's. */
  function SectionItems(found: Tag -> seq<string>, b: Bucket): seq<string> {
    match b
    case NewFeatures => found(NewFeature) + found(LegacyNew)
    case Improvements => found(Improvement)
    case BugFixes => found(BugFix) + found(LegacyFixes)
    case Images => found(Image)
  }

  /** A section's entries are exactly the entries of the tags that go to it. */
  lemma SectionItemsByTag(found: Tag -> seq<string>, b: Bucket, x: string)
    ensures x in SectionItems(found, b) <==> exists t :: BucketOf(t) == b && x in found(t)
  {
    if x in SectionItems(found, b) {
      match b
      case NewFeatures =>
        if x in found(NewFeature) {
          assert BucketOf(NewFeature) == b;
        } else {
          assert BucketOf(LegacyNew) == b;
        }
      case Improvements =>
        assert BucketOf(Improvement) == b;
      case BugFixes =>
        if x in found(BugFix) {
          assert BucketOf(BugFix) == b;
        } else {
          assert BucketOf(LegacyFixes) == b;
        }
      case Images =>
        assert BucketOf(Image) == b;
    }
  }

  /** The lists joined one after another. */
  function Concat(parts: seq<seq<string>>): seq<string> {
    if parts == [] then [] else Concat(parts[..|parts| - 1]) + parts[|parts| - 1]
  }

  /** Joining two runs of lists is joining each run and then the results. */
  lemma {:induction false} ConcatAppend(first: seq<seq<string>>, second: seq<seq<string>>)
    ensures Concat(first + second) == Concat(first) + Concat(second)
  {
    if second == [] {
      assert first + second == first;
    } else {
      var n := |second| - 1;
      assert (first + second)[..|first + second| - 1] == first + second[..n];
      ConcatAppend(first, second[..n]);
    }
  }

  /** A value is in the joined list exactly when it is in one of the lists. */
  lemma {:induction false} ConcatMembership(parts: seq<seq<string>>, x: string)
    ensures x in Concat(parts) <==> exists i :: 0 <= i < |parts| && x in parts[i]
  {
    if parts != [] {
      var n := |parts| - 1;
      ConcatMembership(parts[..n], x);
      if x in Concat(parts[..n]) {
        var i :| 0 <= i < n && x in parts[..n][i];
        assert parts[..n][i] == parts[i];
      }
      if exists i :: 0 <= i < |parts| && x in parts[i] {
        var i :| 0 <= i < |parts| && x in parts[i];
        if i < n {
          assert parts[..n][i] == parts[i];
        }
      }
    }
  }

  /** The last value of the joined list is the last value of the last non-empty list. */
  lemma ConcatLast(parts: seq<seq<string>>, i: nat)
    requires i < |parts| && parts[i] != []
    requires forall j :: i < j < |parts| ==> parts[j] == []
    ensures Concat(parts) != [] && Concat(parts)[|Concat(parts)| - 1] == parts[i][|parts[i]| - 1]
  {
    var upTo, after := parts[..i + 1], parts[i + 1..];
    assert parts == upTo + after;
    ConcatAppend(upTo, after);
    assert forall j :: 0 <= j < |after| ==> after[j] == parts[i + 1 + j];
    ConcatNothing(after);
    assert upTo[..i] + [parts[i]] == upTo;
  }

  /** Joining empty lists gives the empty list. */
  lemma {:induction false} ConcatNothing(parts: seq<seq<string>>)
    requires forall i :: 0 <= i < |parts| ==> parts[i] == []
    ensures Concat(parts) == []
  {
    if parts != [] {
      var n := |parts| - 1;
      assert forall i :: 0 <= i < n ==> parts[..n][i] == parts[i];
      ConcatNothing(parts[..n]);
    }
  }

  /** What each description contributes to a section, description by description. */
  function Contributions(descriptions: seq<string>, b: Bucket): (parts: seq<seq<string>>)
    ensures |parts| == |descriptions|
    ensures forall i :: 0 <= i < |descriptions| ==> parts[i] == DescriptionItems(descriptions[i], b)
  {
    seq(|descriptions|, i requires 0 <= i < |descriptions| => DescriptionItems(descriptions[i], b))
  }

  /** The entries all descriptions contribute to a section, in description order. */
  function Collected(descriptions: seq<string>, b: Bucket): seq<string> {
    Concat(Contributions(descriptions, b))
  }

  /** Processing descriptions one list after another collects the entries one list after another. */
  lemma CollectedAppend(first: seq<string>, second: seq<string>, b: Bucket)
    ensures Collected(first + second, b) == Collected(first, b) + Collected(second, b)
  {
    assert Contributions(first + second, b) == Contributions(first, b) + Contributions(second, b);
    ConcatAppend(Contributions(first, b), Contributions(second, b));
  }

  /** An entry is collected exactly when some description contributes it. */
  lemma CollectedMembership(descriptions: seq<string>, b: Bucket, x: string)
    ensures x in Collected(descriptions, b)
            <==> exists i :: 0 <= i < |descriptions| && x in DescriptionItems(descriptions[i], b)
  {
    ConcatMembership(Contributions(descriptions, b), x);
  }

  /** Descriptions that contribute nothing to a section leave it empty. */
  lemma CollectedNothing(descriptions: seq<string>, b: Bucket)
    requires forall i :: 0 <= i < |descriptions| ==> DescriptionItems(descriptions[i], b) == []
    ensures Collected(descriptions, b) == []
  {
    ConcatNothing(Contributions(descriptions, b));
  }

  /** A section with its entries, or absent (never empty) when there are none. */
  function Section(items: seq<string>): (r: Option<seq<string>>)
    ensures r.None? <==> items == []
    ensures r.Some? ==> r.value == items
  {
    if |items| > 0 then Some(items) else None
  }

  /** The image section keeps only the last image, since only one can be shown. */
  function LastImage(items: seq<string>): (r: Option<seq<string>>)
    ensures r.None? <==> items == []
    ensures r.Some? ==> r.value == [items[|items| - 1]]
  {
    if |items| > 0 then Some([items[|items| - 1]]) else None
  }

  /**
   * The changelog of a list of descriptions. A section that is present is
   * never empty, and the image section holds a single image.
   */
  function ExtractChangelog(descriptions: seq<string>): (r: Changelog)
    ensures r.newFeatures.Some? ==> r.newFeatures.value != []
    ensures r.improvements.Some? ==> r.improvements.value != []
    ensures r.bugFixes.Some? ==> r.bugFixes.value != []
    ensures r.images.Some? ==> |r.images.value| == 1
  {
    Changelog(
      Section(Collected(descriptions, NewFeatures)),
      Section(Collected(descriptions, Improvements)),
      Section(Collected(descriptions, BugFixes)),
      LastImage(Collected(descriptions, Images)))
  }

  /** An entry is collected for a section exactly when some description has it under a tag of that section. */
  lemma CollectedByTag(descriptions: seq<string>, b: Bucket, x: string)
    ensures x in Collected(descriptions, b)
            <==> exists i, t :: 0 <= i < |descriptions| && BucketOf(t) == b && x in Matches(descriptions[i], t)
  {
    CollectedMembership(descriptions, b, x);
    if exists i :: 0 <= i < |descriptions| && x in DescriptionItems(descriptions[i], b) {
      var i :| 0 <= i < |descriptions| && x in DescriptionItems(descriptions[i], b);
      SectionItemsByTag(Found(descriptions[i]), b, x);
      var t :| BucketOf(t) == b && x in Found(descriptions[i])(t);
      assert x in Matches(descriptions[i], t);
    }
    if exists i, t :: 0 <= i < |descriptions| && BucketOf(t) == b && x in Matches(descriptions[i], t) {
      var i, t :| 0 <= i < |descriptions| && BucketOf(t) == b && x in Matches(descriptions[i], t);
      SectionItemsByTag(Found(descriptions[i]), b, x);
      assert x in Found(descriptions[i])(t);
    }
  }

  /**
   * A text section holds an entry exactly when some description has it under
   * a tag of that section, current or legacy.
   */
  lemma SectionMembership(descriptions: seq<string>, b: Bucket, x: string)
    requires b != Images
    ensures (ExtractChangelog(descriptions).Get(b).Some? && x in ExtractChangelog(descriptions).Get(b).value)
            <==> exists i, t :: 0 <= i < |descriptions| && BucketOf(t) == b && x in Matches(descriptions[i], t)
  {
    CollectedByTag(descriptions, b, x);
  }

  /** There is no image section exactly when no description has an image. */
  lemma NoImageSection(descriptions: seq<string>)
    ensures ExtractChangelog(descriptions).images.None?
            <==> forall i :: 0 <= i < |descriptions| ==> Matches(descriptions[i], Image) == []
  {
    if forall i :: 0 <= i < |descriptions| ==> Matches(descriptions[i], Image) == [] {
      CollectedNothing(descriptions, Images);
    } else {
      var i :| 0 <= i < |descriptions| && Matches(descriptions[i], Image) != [];
      CollectedMembership(descriptions, Images, Matches(descriptions[i], Image)[0]);
    }
  }

  /** The last image collected is the last image of the last description that has one. */
  lemma LastCollectedImage(descriptions: seq<string>, i: nat)
    requires i < |descriptions| && Matches(descriptions[i], Image) != []
    requires forall j :: i < j < |descriptions| ==> Matches(descriptions[j], Image) == []
    ensures var images, all := Matches(descriptions[i], Image), Collected(descriptions, Images);
            all != [] && all[|all| - 1] == images[|images| - 1]
  {
    var parts := Contributions(descriptions, Images);
    forall j | i < j < |parts|
      ensures parts[j] == []
    {
      ImageContribution(descriptions[j]);
    }
    ImageContribution(descriptions[i]);
    ConcatLast(parts, i);
  }

  /** What a description contributes to the image section is its image entries. */
  lemma ImageContribution(description: string)
    ensures DescriptionItems(description, Images) == Matches(description, Image)
  {
  }

  /**
   * The image shown is the last image of the last description that has one:
   * an image in a later description replaces every earlier one.
   */
  lemma ShownImage(descriptions: seq<string>, i: nat)
    requires i < |descriptions| && Matches(descriptions[i], Image) != []
    requires forall j :: i < j < |descriptions| ==> Matches(descriptions[j], Image) == []
    ensures var images, shown := Matches(descriptions[i], Image), ExtractChangelog(descriptions).images;
            shown.Some? && |shown.value| == 1 && shown.value[0] == images[|images| - 1]
  {
    LastCollectedImage(descriptions, i);
  }

  /** Taking one more description appends what it contributes, to every section. */
  lemma CollectedStep(descriptions: seq<string>, i: nat, b: Bucket)
    requires i < |descriptions|
    ensures Collected(descriptions[..i + 1], b) == Collected(descriptions[..i], b) + DescriptionItems(descriptions[i], b)
  {
    var parts := Contributions(descriptions[..i + 1], b);
    assert parts[..i] == Contributions(descriptions[..i], b);
  }

  /** One iteration of `parseChangelogFromPrDescriptions`: pushes a description's entries onto the sections. */
  method PushDescription(prDescription: string, changelogNewFeatures: seq<string>, changelogImprovements: seq<string>,
                         changelogBugFixes: seq<string>, changelogImages: seq<string>)
    returns (newFeaturesOut: seq<string>, improvementsOut: seq<string>, bugFixesOut: seq<string>, imagesOut: seq<string>)
    ensures newFeaturesOut == changelogNewFeatures + DescriptionItems(prDescription, NewFeatures)
    ensures improvementsOut == changelogImprovements + DescriptionItems(prDescription, Improvements)
    ensures bugFixesOut == changelogBugFixes + DescriptionItems(prDescription, BugFixes)
    ensures imagesOut == changelogImages + DescriptionItems(prDescription, Images)
  {
    var newFeatures := ParseMatchesFromDescription(prDescription, NewFeature);
    newFeaturesOut := changelogNewFeatures + newFeatures;
    var improvements := ParseMatchesFromDescription(prDescription, Improvement);
    improvementsOut := changelogImprovements + improvements;
    var bugFixes := ParseMatchesFromDescription(prDescription, BugFix);
    bugFixesOut := changelogBugFixes + bugFixes;
    var images := ParseMatchesFromDescription(prDescription, Image);
    imagesOut := changelogImages + images;
    // the legacy tags go into the current sections
    var legacyNew := ParseMatchesFromDescription(prDescription, LegacyNew);
    newFeaturesOut := newFeaturesOut + legacyNew;
    var legacyFixes := ParseMatchesFromDescription(prDescription, LegacyFixes);
    bugFixesOut := bugFixesOut + legacyFixes;
    assert newFeaturesOut == changelogNewFeatures + (newFeatures + legacyNew);
    assert bugFixesOut == changelogBugFixes + (bugFixes + legacyFixes);
  }

  /** `parseChangelogFromPrDescriptions`: accumulates the four sections over the descriptions. */
  method ParseChangelogFromPrDescriptions(prDescriptions: seq<string>) returns (changelog: Changelog)
    ensures changelog == ExtractChangelog(prDescriptions)
  {
    var changelogNewFeatures: seq<string> := [];
    var changelogImprovements: seq<string> := [];
    var changelogBugFixes: seq<string> := [];
    var changelogImages: seq<string> := [];
    for i := 0 to |prDescriptions|
      invariant changelogNewFeatures == Collected(prDescriptions[..i], NewFeatures)
      invariant changelogImprovements == Collected(prDescriptions[..i], Improvements)
      invariant changelogBugFixes == Collected(prDescriptions[..i], BugFixes)
      invariant changelogImages == Collected(prDescriptions[..i], Images)
    {
      CollectedStep(prDescriptions, i, NewFeatures);
      CollectedStep(prDescriptions, i, Improvements);
      CollectedStep(prDescriptions, i, BugFixes);
      CollectedStep(prDescriptions, i, Images);
      changelogNewFeatures, changelogImprovements, changelogBugFixes, changelogImages :=
        PushDescription(prDescriptions[i], changelogNewFeatures, changelogImprovements, changelogBugFixes, changelogImages);
    }
    assert prDescriptions[..|prDescriptions|] == prDescriptions;
    changelog := Changelog(
      Section(changelogNewFeatures),
      Section(changelogImprovements),
      Section(changelogBugFixes),
      LastImage(changelogImages));
  }
}
