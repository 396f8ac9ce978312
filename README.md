# generate-changelog, modelled in Dafny

`generate-changelog` is a GitHub Action that writes the changelog of a
release. It takes the version being released (`v0.2022.04.11.09.09.stable_01`)
and its channel (`stable`). It then:

1. walks the repository's releases, newest first, and picks the previous
   release of the same channel;
2. asks `git log` for the commits on the current release branch that are not
   on the previous one;
3. fetches the body of the pull request behind each commit;
4. reads the changelog entries out of those bodies. An entry is a line
   starting with `CHANGELOG-NEW-FEATURE:`, `CHANGELOG-IMPROVEMENT:`,
   `CHANGELOG-BUG-FIX:` or `CHANGELOG-IMAGE:`, or with one of the legacy tags
   `CHANGELOG-NEW:` and `CHANGELOG-FIXES:`.

The result has four sections. A section with no entries is absent. Only the
last image is kept.

The model is split into these modules:

- `Wrappers`: `Option` and `Result`.
- `JsString`: the JavaScript string built-ins the code relies on (`trim`,
  `toLowerCase`, `substring`, `indexOf`, `split`).
- `Version`: `isVersionGreater` and `branchFromVersion`.
- `ReleaseSelector`: the release-selection loop.
- `Commits`: turning the `git log` output into a commit list, and the loop
  that collects pull-request bodies.
- `Extractor`: `parseMatchesFromDescription` and
  `parseChangelogFromPrDescriptions`.
- `GenerateChangelog`: the whole run.

The two loops that build lists (`parseMatchesFromDescription`,
`parseChangelogFromPrDescriptions`), the selection loop and the body
collection loop are methods. Each is proved equal to a specification function
(`Matches`, `ExtractChangelog`, `FirstEligible`, `Bodies`), and the
properties are proved about those functions.

Outside calls are parameters of `GenerateChangelog.GenerateChangelog`:

- the release list the hosting service answers;
- the text `git log` prints for a pair of branches, as a function `log`;
- the answer to the pull-request query, as a map from commit hash to the
  bodies of its associated pull requests (no key: the query returned no
  object for that commit).

## Model

| member | source | states |
|---|---|---|
| `JsString.TrimStartSpec` | src/generate-changelog.ts:88 | trimming the front removes exactly a whitespace prefix and stops at a non-whitespace character |
| `JsString.TrimEndSpec` | src/generate-changelog.ts:88 | trimming the back removes exactly a whitespace suffix and stops at a non-whitespace character |
| `JsString.TrimSpec` | src/generate-changelog.ts:207 | the trimmed text has no whitespace at either end and is a contiguous piece of the input |
| `JsString.TrimKeepsInner` | src/generate-changelog.ts:207 | trimming never cuts off a non-whitespace character: any such character lies inside the trimmed slice |
| `JsString.TrimOfTrimmed` | src/generate-changelog.ts:207 | trimming text that is already trimmed changes nothing |
| `JsString.TrimEmptyIffBlank` | src/generate-changelog.ts:88 | the trimmed text is empty exactly when the input is all whitespace |
| `JsString.ToLowerAt` | src/generate-changelog.ts:58 | lower-casing maps each character on its own and leaves no upper-case ASCII letter |
| `JsString.ToLowerIdempotent` | src/generate-changelog.ts:58 | lower-casing twice is the same as lower-casing once |
| `JsString.ToLowerSuffix` | src/generate-changelog.ts:58 | lower-casing commutes with taking a suffix |
| `JsString.Substring` | src/generate-changelog.ts:60 | `substring` is the plain slice for indices in range, a prefix when it starts at 0, and empty when the end is not positive (clamping) |
| `JsString.IndexOf` | src/generate-changelog.ts:124 | `indexOf` gives -1 exactly when the character is absent, otherwise the position of its first occurrence |
| `JsString.JoinSplit` | src/generate-changelog.ts:89 | splitting on a separator and joining with it gives the input back |
| `JsString.SplitJoin` | src/generate-changelog.ts:89 | joining pieces free of the separator and splitting again gives the pieces back |
| `JsString.InterleaveSplit` | src/generate-changelog.ts:89 | for any set of separator characters, the pieces are the text between the cut characters, in order: there is one piece more than there are cuts, and putting each cut back between its two pieces gives the text back |
| `Version.Compare` | src/generate-changelog.ts:112-115 | the comparison answers -1, 0 or 1, and the empty string sorts before any other |
| `Version.CompareAntisymmetric` | src/generate-changelog.ts:112-115 | swapping the operands negates the comparison |
| `Version.CompareReflexive` | src/generate-changelog.ts:112-115 | every version compares equal to itself |
| `Version.CompareTransitive` | src/generate-changelog.ts:112-115 | "greater" is transitive |
| `Version.CompareIgnoresCase` | src/generate-changelog.ts:112-115 | at base sensitivity the case of letters never decides: lower-casing both operands keeps the answer |
| `Version.IsVersionGreater` | src/generate-changelog.ts:107-117 | `isVersionGreater(current, release)` holds exactly when the comparison answers 1, which is exactly when comparing the other way round answers -1 |
| `Version.VersionGreaterIrreflexive` | src/generate-changelog.ts:107-117 | no version is greater than itself |
| `Version.VersionGreaterAsymmetric` | src/generate-changelog.ts:107-117 | two versions are never each greater than the other |
| `Version.VersionGreaterTransitive` | src/generate-changelog.ts:107-117 | `isVersionGreater` is transitive |
| `Version.CompareCommonPrefix` | src/generate-changelog.ts:112-115 | a shared prefix that does not end inside a number does not affect the comparison |
| `Version.GreaterFieldIsGreater` | src/generate-changelog.ts:105-117 | with `numeric: true`, two versions that agree up to a number field are ordered by that field's value, not its text (`..._10` is greater than `..._9`) |
| `Version.BranchFromVersion` | src/generate-changelog.ts:119-126 | the branch is `origin/<channel>_release/` plus the version up to its first `_`, or plus nothing when the version has no `_` |
| `Version.BranchStemUnique` | src/generate-changelog.ts:121-126 | the part of a version that names its branch is determined by the version |
| `Version.SameStemSameBranch` | src/generate-changelog.ts:119-126 | cherrypicks of one release (`..._00`, `..._01`) share a release branch |
| `ReleaseSelector.FamilyPrefix` | src/generate-changelog.ts:59-61 | the family of a version is the version without its last three characters (the `_NN` suffix), and empty for a version shorter than three |
| `ReleaseSelector.Eligible` | src/generate-changelog.ts:57-63 | the three tests: the lower-cased name starts with the channel, the version is outside the current family, and the current version is greater. A release that passes them is never the current version itself, and its name is at least as long as the channel |
| `ReleaseSelector.FirstSetSpec` | src/generate-changelog.ts:55-69 | the first-hit search finds a hit with no hit before it, and finds nothing exactly when there is no hit |
| `ReleaseSelector.FirstEligibleSpec` | src/generate-changelog.ts:54-69 | the chosen release passes the channel, family and version tests, no release listed before it does, and none is chosen exactly when none passes |
| `ReleaseSelector.SelectPreviousRelease` | src/generate-changelog.ts:54-69 | the loop stops at the first release that passes the three tests and returns its version, or returns nothing when none passes |
| `ReleaseSelector.SiblingNeverSelected` | src/generate-changelog.ts:52-61 | an earlier cherrypick of the current release is never chosen as the previous release |
| `ReleaseSelector.OnlySiblingsMeansNotFound` | src/generate-changelog.ts:54-73 | when every release belongs to the current release's family, no previous release is found |
| `ReleaseSelector.ShortVersionNotFound` | src/generate-changelog.ts:59-61 | a current version of at most three characters has an empty family (`substring(0, 0)` or a clamped negative end), which every version starts with, so nothing is found |
| `ReleaseSelector.UpperCaseChannelNotFound` | src/generate-changelog.ts:57-58 | release names are lower-cased but the channel is not, so a channel holding an upper-case letter matches no release |
| `Commits.RemoveEmpty` | src/generate-changelog.ts:90 | the filter keeps exactly the non-empty pieces |
| `Commits.RemoveEmptyAppend` | src/generate-changelog.ts:90 | filtering a concatenation filters each part and keeps the parts in order, so the order and repetitions of the kept pieces are those of the input |
| `Commits.RemoveEmptyOne` | src/generate-changelog.ts:90 | a single piece is kept exactly when it is non-empty |
| `Commits.CommitList` | src/generate-changelog.ts:87-90 | every commit in the list is non-empty and holds no newline |
| `Commits.NoCommitsIffBlank` | src/generate-changelog.ts:87-96 | the commit list is empty (the early-return case) exactly when the `git log` output is blank |
| `Commits.CommitListOfLog` | src/generate-changelog.ts:82-90 | the hashes `git log` prints one per line come back as the same list, in the same order |
| `Commits.Bodies` | src/generate-changelog.ts:160-167 | the bodies collected: when the collection succeeds there are never more bodies than commits |
| `Commits.CollectBodies` | src/generate-changelog.ts:160-167 | the loop returns the bodies that `Bodies` describes, or fails at the commit where the source throws |
| `Commits.FailurePersists` | src/generate-changelog.ts:161-163 | once a commit lookup fails, the later commits do not change the outcome |
| `Commits.BodiesSucceedIffResolved` | src/generate-changelog.ts:160-167 | collection succeeds exactly when every commit has an object in the response |
| `Commits.BodiesFailureIsFirstMissing` | src/generate-changelog.ts:161-162 | a failure names a commit missing from the response, and every earlier commit is present |
| `Commits.OneBodyPerCommit` | src/generate-changelog.ts:160-167 | when every commit has a pull request, there is one body per commit: the first pull request's body, in commit order |
| `Commits.CommitsWithoutPullRequestsAddNothing` | src/generate-changelog.ts:163-165 | commits with no associated pull request contribute no body |
| `Commits.BodiesAppend` | src/generate-changelog.ts:160-167 | over two runs of commits that both resolve, the bodies are the first run's followed by the second run's, so commit order is kept |
| `Commits.BodiesOfOne` | src/generate-changelog.ts:161-165 | one commit fails when the response has no object for it, gives its first pull request's body when it has one, and gives nothing when it has none |
| `Extractor.HasTemplateIff` | src/generate-changelog.ts:17 | the left-to-right scan for template text agrees with "`{{`, then `}}` later on the same line" |
| `Extractor.ClosesOnLineIff` | src/generate-changelog.ts:17 | the scan for closing braces agrees with "`}}` occurs before any line terminator" |
| `Extractor.Lines` | src/generate-changelog.ts:203 | the description is cut at every line terminator, so no line holds one (what `^` under the `m` flag and `.` mean) |
| `Extractor.LinesRejoin` | src/generate-changelog.ts:203 | the lines are the text between the line terminators, in order: one more line than terminators, and putting the terminators back gives the description |
| `Extractor.Matches` | src/generate-changelog.ts:201-217 | the entries a description yields for a tag: at most one per line, so never more than the line terminators plus one |
| `Extractor.ParseMatchesFromDescription` | src/generate-changelog.ts:199-217 | the loop returns the entries the description yields for the tag, in line order |
| `Extractor.YieldingLines` | src/generate-changelog.ts:203-214 | the positions of the lines that yield an entry, strictly increasing |
| `Extractor.YieldingLinesComplete` | src/generate-changelog.ts:203-214 | every line that starts with the tag and carries a non-empty non-template value is among those positions |
| `Extractor.ItemsFromYieldingLines` | src/generate-changelog.ts:206-213 | the entries are the trimmed values of the yielding lines, one per line and in line order |
| `Extractor.CandidateIsEntry` | src/generate-changelog.ts:207-212 | a kept value is non-empty, trimmed, free of template text and within one line |
| `Extractor.ItemsAreEntries` | src/generate-changelog.ts:206-213 | every entry of a list of lines is non-empty, trimmed, free of template text and within one line |
| `Extractor.MatchesAreEntries` | src/generate-changelog.ts:201-217 | every entry found in a description is non-empty, trimmed, free of template text and within one line |
| `Extractor.PatternsExclusive` | src/generate-changelog.ts:6-14 | no line starts with two different tags, so a line goes to at most one tag (`CHANGELOG-NEW:` never catches a `CHANGELOG-NEW-FEATURE:` line) |
| `Extractor.TrimKeepsTemplate` | src/generate-changelog.ts:207-210 | template text in a value survives trimming |
| `Extractor.TemplateLineYieldsNothing` | src/generate-changelog.ts:207-210 | a tagged line whose value holds `{{...}}` on that line yields no entry, whatever surrounds it |
| `Extractor.SectionItemsByTag` | src/generate-changelog.ts:229-237 | a section gets exactly the entries of the tags that go to it: current and legacy spelling together |
| `Extractor.ConcatAppend` | src/generate-changelog.ts:228-238 | collecting two runs of descriptions is collecting each and joining the results |
| `Extractor.ConcatMembership` | src/generate-changelog.ts:228-238 | an entry is collected exactly when one of the lists holds it |
| `Extractor.ConcatLast` | src/generate-changelog.ts:228-245 | the last entry collected is the last entry of the last non-empty list |
| `Extractor.ConcatNothing` | src/generate-changelog.ts:228-238 | empty lists collect nothing |
| `Extractor.CollectedAppend` | src/generate-changelog.ts:228-238 | a section's entries over two runs of descriptions are those of the first run followed by those of the second |
| `Extractor.CollectedMembership` | src/generate-changelog.ts:228-238 | an entry is in a section exactly when some description contributes it |
| `Extractor.CollectedNothing` | src/generate-changelog.ts:228-238 | when no description contributes to a section, it collects nothing |
| `Extractor.CollectedStep` | src/generate-changelog.ts:228-238 | one more description appends its contribution to every section |
| `Extractor.Section` | src/generate-changelog.ts:241-243 | a text section is absent exactly when it has no entries, and holds all its entries otherwise |
| `Extractor.LastImage` | src/generate-changelog.ts:244-245 | the image section is absent exactly when there is no image, and holds only the last image otherwise |
| `Extractor.CollectedByTag` | src/generate-changelog.ts:228-238 | an entry is collected for a section exactly when some description has it under a tag of that section |
| `Extractor.SectionMembership` | src/generate-changelog.ts:222-246 | a text section of the changelog holds an entry exactly when some description has it under a current or legacy tag of that section |
| `Extractor.NoImageSection` | src/generate-changelog.ts:245 | the changelog has no image section exactly when no description has an image |
| `Extractor.LastCollectedImage` | src/generate-changelog.ts:228-245 | the last image collected is the last image of the last description that has one |
| `Extractor.ShownImage` | src/generate-changelog.ts:244-245 | the one image shown is the last image of the last description that has one; later images replace earlier ones |
| `Extractor.PushDescription` | src/generate-changelog.ts:229-237 | one iteration appends to each section that description's entries: current tag first, then legacy tag |
| `Extractor.ExtractChangelog` | src/generate-changelog.ts:240-246 | the changelog the loop builds: a section that is present is never empty, and the image section holds a single image |
| `Extractor.ParseChangelogFromPrDescriptions` | src/generate-changelog.ts:222-247 | the loop and the final object build the changelog `ExtractChangelog` describes |
| `GenerateChangelog.PreviousVersion` | src/generate-changelog.ts:54-73 | a previous version exists exactly when a release passes the three tests and the first such has a non-empty version (the empty string is falsy), and it is that first passing release's version |
| `GenerateChangelog.PreviousVersionIsOlder` | src/generate-changelog.ts:52-69 | the previous release is strictly older than the current version and not in its family |
| `GenerateChangelog.GenerateChangelog` | src/generate-changelog.ts:41-102 | the run fails exactly when there is no previous version. Otherwise it compares the two release branches. With no new commits it returns an empty changelog without querying. With new commits it fails on the first commit missing from the query answer, or returns the changelog extracted from the bodies |

## Left out

- The GraphQL calls: authentication, the release query (`getReleases`) and the query text built from the commit hashes. The model takes the releases and the query answer as inputs. The release query's limit of 100 releases is the caller's business.
- The shell call to `git log` is the parameter `log`, so what the repository holds is not modelled. The model also does not check that the command succeeded, which the code does not check either.
- `core.info` logging, `async`/`await` and exceptions as JavaScript objects. Each thrown error is a `Failure` value of `GenerateChangelog.Error`.
- Dereferencing the query answer for a commit it has no object for throws a `TypeError`. The model follows the code and fails the whole run. It does not skip that commit.
- `Version.Compare`: `localeCompare` with `numeric: true` and `sensitivity: 'base'` is modelled as a simplified root collation. Each digit run compares as one number. Letters compare case-blind, after punctuation and digits, and ASCII punctuation follows the root-collation order. Accented letters, ignorable characters, leading-zero tie-breaks and non-ASCII scripts are not modelled.
- `JsString.ToLower`: only ASCII letters are folded. Unicode case mapping is not modelled.
- `JsString.Substring`: JavaScript's `length` and `substring` count UTF-16 code units, while the model counts Unicode characters. The two differ only for characters outside the Basic Multilingual Plane (above U+FFFF), which version strings such as `v0.2022.04.11.09.09.stable_01` never contain.
- `JsString.Trim` removes the ECMAScript WhiteSpace and LineTerminator characters, written out as a fixed list: tab, VT, FF, space, U+00A0, U+FEFF, the Unicode space separators, LF, CR, U+2028 and U+2029. Nothing is taken from a Unicode database.
- A version with no `_` is not rejected. `indexOf` gives -1, `substring(0, -1)` gives the empty string, and the branch is `origin/<channel>_release/`. The model follows the code (`Version.BranchFromVersion`) rather than treating this as an input error.
- Regular expressions are not modelled in general. Only the two shapes the code uses are: `^TAG:(.*)` under `gm`, which is a line-by-line prefix test, and `{{.*}}`, which is the template scan.
- `src/main.ts` and `src/github.ts` (the action entry point and an earlier variant of the pipeline) are not part of this model.
