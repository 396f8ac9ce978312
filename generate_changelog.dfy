/**
 * `generateChangelog`: finds the previous release, lists the commits that are
 * new since it, fetches the pull-request bodies behind them and extracts the
 * changelog from those bodies.
 *
 * The calls to the outside world are parameters: the releases the hosting
 * service lists (newest first), the output of the `git log` call for a pair
 * of branches, and the answer of the pull-request query.
 */
module GenerateChangelog {
  import opened Wrappers
  import opened Version
  import opened ReleaseSelector
  import opened Commits
  import opened Extractor

  /** Why no changelog could be produced; each stands for an exception the source throws. */
  datatype Error =
    | NoPreviousRelease              // no release qualifies as the previous one
    | UnresolvedCommit(oid: string)  // the query has no commit object for this hash

  /** The version of the previous release, when one qualifies and its version is not empty. */
  function PreviousVersion(releases: seq<ReleaseInfo>, currentVersion: string, channel: string): (r: Option<string>)
    ensures r.Some? ==> r.value != []
    ensures r.Some? ==> FirstEligible(releases, currentVersion, channel).Some?
                        && r.value == releases[FirstEligible(releases, currentVersion, channel).value].version
    ensures r.Some? <==> exists k :: 0 <= k < |releases| && FirstEligible(releases, currentVersion, channel) == Some(k)
                                     && releases[k].version != []
  {
    match FirstEligible(releases, currentVersion, channel)
    case None => None
    case Some(k) => if releases[k].version == [] then None else Some(releases[k].version)
  }

  /**
   * The previous release is strictly older than the current version (and not
   * newer than it) and belongs to another release family.
   */
  lemma PreviousVersionIsOlder(releases: seq<ReleaseInfo>, currentVersion: string, channel: string)
    requires PreviousVersion(releases, currentVersion, channel).Some?
    ensures var previous := PreviousVersion(releases, currentVersion, channel).value;
            IsVersionGreater(currentVersion, previous)
            && !IsVersionGreater(previous, currentVersion)
            && !(FamilyPrefix(currentVersion) <= previous)
  {
    FirstEligibleSpec(releases, currentVersion, channel);
    var k := FirstEligible(releases, currentVersion, channel).value;
    VersionGreaterAsymmetric(currentVersion, releases[k].version);
  }

  /**
   * The whole run: `log(previousBranch, currentBranch)` is what
   * `git log ^previousBranch currentBranch --pretty=format:%H` prints, and
   * `response` is what the pull-request query answers for the commits.
   */
  method GenerateChangelog(releases: seq<ReleaseInfo>, currentVersion: string, channel: string,
                           log: (string, string) -> string, response: Response)
    returns (result: Result<Changelog, Error>)
    ensures PreviousVersion(releases, currentVersion, channel).None? <==> result == Failure(NoPreviousRelease)
    ensures PreviousVersion(releases, currentVersion, channel).Some? ==>
              var previous := PreviousVersion(releases, currentVersion, channel).value;
              var commits := CommitList(log(BranchFromVersion(previous, channel), BranchFromVersion(currentVersion, channel)));
              if commits == [] then result == Success(NoChangelog)
              else match Bodies(commits, response)
                case Failure(oid) => result == Failure(UnresolvedCommit(oid))
                case Success(bodies) => result == Success(ExtractChangelog(bodies))
  {
    var lastReleaseVersion := SelectPreviousRelease(releases, currentVersion, channel);
    if lastReleaseVersion.None? || lastReleaseVersion.value == [] {
      return Failure(NoPreviousRelease);
    }
    var currentBranch := BranchFromVersion(currentVersion, channel);
    var previousBranch := BranchFromVersion(lastReleaseVersion.value, channel);
    var commits := CommitList(log(previousBranch, currentBranch));
    if |commits| == 0 {
      // no new commits: an empty changelog, and no query at all
      return Success(NoChangelog);
    }
    var pullRequestMetadata := CollectBodies(commits, response);
    if pullRequestMetadata.Failure? {
      return Failure(UnresolvedCommit(pullRequestMetadata.error));
    }
    var changelog := ParseChangelogFromPrDescriptions(pullRequestMetadata.value);
    return Success(changelog);
  }
}
