/**
 * Selection of the previous release: the newest release of the same channel
 * that is older than the current version and is not an earlier cherrypick of
 * the same release.
 */
module ReleaseSelector {
  import opened Wrappers
  import opened JsString
  import opened Version

  /** A release as listed by the hosting service: its display name and its tag. */
  datatype ReleaseInfo = ReleaseInfo(name: string, version: string)

  /**
   * The release family of a version: the version without its `_NN`
   * cherrypick suffix, i.e. `substring(0, length - 1 - 2)`. JavaScript clamps
   * a negative end to 0, so a version shorter than three characters has the
   * empty family prefix, which every version starts with.
   */
  function FamilyPrefix(currentVersion: string): (r: string)
    ensures |currentVersion| >= 3 ==> r == currentVersion[..|currentVersion| - 3]
    ensures |currentVersion| < 3 ==> r == []
  {
    Substring(currentVersion, 0, |currentVersion| - 1 - 2)
  }

  /**
   * The three tests a release must pass to be taken as the previous release.
   * A release that passes them is never the current version itself, and its
   * name is at least as long as the channel.
   */
  predicate Eligible(release: ReleaseInfo, currentVersion: string, channel: string): (r: bool)
    ensures r ==> release.version != currentVersion && |channel| <= |release.name|
  {
    VersionGreaterIrreflexive(currentVersion);
    channel <= ToLower(release.name)
    && !(FamilyPrefix(currentVersion) <= release.version)
    && IsVersionGreater(currentVersion, release.version)
  }

  /** Whether each release passes the three tests, in list order. */
  function EligibleFlags(releases: seq<ReleaseInfo>, currentVersion: string, channel: string): (flags: seq<bool>)
    ensures |flags| == |releases|
    ensures forall j :: 0 <= j < |releases| ==> flags[j] == Eligible(releases[j], currentVersion, channel)
  {
    seq(|releases|, j requires 0 <= j < |releases| => Eligible(releases[j], currentVersion, channel))
  }

  /** The first position at or after `from` whose flag is set, if there is one. */
  function FirstSet(flags: seq<bool>, from: nat): (r: Option<nat>)
    ensures r.Some? ==> from <= r.value < |flags|
    decreases |flags| - from
  {
    if from >= |flags| then None
    else if flags[from] then Some(from)
    else FirstSet(flags, from + 1)
  }

  /**
   * `FirstSet` finds a set flag with no set flag between `from` and it, and
   * finds nothing exactly when no flag from `from` on is set.
   */
  lemma {:induction false} FirstSetSpec(flags: seq<bool>, from: nat)
    ensures var r := FirstSet(flags, from);
            r.Some? ==> flags[r.value] && forall j :: from <= j < r.value ==> !flags[j]
    ensures FirstSet(flags, from).None? <==> forall j :: from <= j < |flags| ==> !flags[j]
    decreases |flags| - from
  {
    if from < |flags| && !flags[from] {
      FirstSetSpec(flags, from + 1);
    }
  }

  /** The position of the first eligible release in list order, if there is one. */
  function FirstEligible(releases: seq<ReleaseInfo>, currentVersion: string, channel: string): (r: Option<nat>)
    ensures r.Some? ==> r.value < |releases|
  {
    FirstSet(EligibleFlags(releases, currentVersion, channel), 0)
  }

  /**
   * The first eligible release: eligible itself, with no eligible release
   * before it; and there is none exactly when no release is eligible.
   */
  lemma FirstEligibleSpec(releases: seq<ReleaseInfo>, currentVersion: string, channel: string)
    ensures var r := FirstEligible(releases, currentVersion, channel);
            r.Some? ==> Eligible(releases[r.value], currentVersion, channel)
                        && forall j :: 0 <= j < r.value ==> !Eligible(releases[j], currentVersion, channel)
    ensures FirstEligible(releases, currentVersion, channel).None?
            <==> forall j :: 0 <= j < |releases| ==> !Eligible(releases[j], currentVersion, channel)
  {
    FirstSetSpec(EligibleFlags(releases, currentVersion, channel), 0);
  }

  /**
   * The loop of `generateChangelog` that walks the releases, newest first,
   * and stops at the first eligible one; `None` when none is eligible.
   */
  method SelectPreviousRelease(releases: seq<ReleaseInfo>, currentVersion: string, channel: string)
    returns (lastReleaseVersion: Option<string>)
    ensures lastReleaseVersion.None? <==> FirstEligible(releases, currentVersion, channel).None?
    ensures lastReleaseVersion.Some? ==>
              lastReleaseVersion.value == releases[FirstEligible(releases, currentVersion, channel).value].version
  {
    ghost var flags := EligibleFlags(releases, currentVersion, channel);
    lastReleaseVersion := None;
    var i := 0;
    while i < |releases|
      invariant 0 <= i <= |releases|
      invariant FirstEligible(releases, currentVersion, channel) == FirstSet(flags, i)
    {
      var release := releases[i];
      assert flags[i] == Eligible(release, currentVersion, channel);
      if channel <= ToLower(release.name) && !(FamilyPrefix(currentVersion) <= release.version) {
        if IsVersionGreater(currentVersion, release.version) {
          lastReleaseVersion := Some(release.version);
          break;
        }
      }
      i := i + 1;
    }
  }

  /**
   * The chosen release never belongs to the family of the current version:
   * a sibling cherrypick (`..._00` for the current `..._01`) is never chosen.
   */
  lemma SiblingNeverSelected(releases: seq<ReleaseInfo>, currentVersion: string, channel: string, suffix: string)
    requires |currentVersion| >= 3
    requires FirstEligible(releases, currentVersion, channel).Some?
    ensures releases[FirstEligible(releases, currentVersion, channel).value].version
            != currentVersion[..|currentVersion| - 3] + suffix
  {
    FirstEligibleSpec(releases, currentVersion, channel);
    var family := currentVersion[..|currentVersion| - 3];
    assert family <= family + suffix;
  }

  /** When every release is an earlier cherrypick of the current one, there is no previous release. */
  lemma OnlySiblingsMeansNotFound(releases: seq<ReleaseInfo>, currentVersion: string, channel: string)
    requires |currentVersion| >= 3
    requires forall j :: 0 <= j < |releases| ==> currentVersion[..|currentVersion| - 3] <= releases[j].version
    ensures FirstEligible(releases, currentVersion, channel).None?
  {
    FirstEligibleSpec(releases, currentVersion, channel);
  }

  /** A current version of at most three characters has no previous release. */
  lemma ShortVersionNotFound(releases: seq<ReleaseInfo>, currentVersion: string, channel: string)
    requires |currentVersion| <= 3
    ensures FirstEligible(releases, currentVersion, channel).None?
  {
    FirstEligibleSpec(releases, currentVersion, channel);
  }

  /**
   * Release names are lower-cased before the channel test but the channel is
   * not, so a channel with an upper-case letter matches no release at all.
   */
  lemma UpperCaseChannelNotFound(releases: seq<ReleaseInfo>, currentVersion: string, channel: string, i: nat)
    requires i < |channel| && 'A' <= channel[i] <= 'Z'
    ensures FirstEligible(releases, currentVersion, channel).None?
  {
    forall j | 0 <= j < |releases|
      ensures !(channel <= ToLower(releases[j].name))
    {
      if i < |releases[j].name| {
        ToLowerAt(releases[j].name, i);
      }
    }
    FirstEligibleSpec(releases, currentVersion, channel);
  }
}
