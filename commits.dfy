/**
 * The commits that are new in the current release, read from the output of
 * `git log --pretty=format:%H`, and the pull-request bodies behind them.
 */
module Commits {
  import opened Wrappers
  import opened JsString

  /** `filter(s => s)`: drops the empty strings and keeps the rest in order. */
  function RemoveEmpty(pieces: seq<string>): (r: seq<string>)
    ensures |r| <= |pieces|
    ensures forall k :: 0 <= k < |r| ==> r[k] != []
    ensures forall x :: x in r <==> x in pieces && x != []
  {
    if pieces == [] then []
    else if pieces[0] == [] then RemoveEmpty(pieces[1..])
    else [pieces[0]] + RemoveEmpty(pieces[1..])
  }

  /** `stdout.trim().split('\n').filter(s => s)`: the commit hashes, newest first. */
  function CommitList(stdout: string): (commits: seq<string>)
    ensures forall k :: 0 <= k < |commits| ==> commits[k] != [] && '\n' !in commits[k]
  {
    var pieces := SplitOn(Trim(stdout), {'\n'});
    assert forall x :: x in pieces ==> '\n' !in x by {
      forall x | x in pieces ensures '\n' !in x {
        var j :| 0 <= j < |pieces| && pieces[j] == x;
      }
    }
    RemoveEmpty(pieces)
  }

  /** There are no commits exactly when the output is blank. */
  lemma NoCommitsIffBlank(stdout: string)
    ensures CommitList(stdout) == [] <==> AllWhitespace(stdout)
  {
    TrimEmptyIffBlank(stdout);
    TrimSpec(stdout);
    var t := Trim(stdout);
    var pieces := SplitOn(t, {'\n'});
    if t != [] {
      assert !IsWhitespace(t[0]);
      assert pieces[0] != [] by {
        assert pieces[0] == [t[0]] + SplitOn(t[1..], {'\n'})[0];
      }
      assert pieces[0] in CommitList(stdout);
    }
  }

  /** A hash contains no whitespace. */
  predicate IsHash(c: string) {
    c != [] && forall i :: 0 <= i < |c| ==> !IsWhitespace(c[i])
  }

  /** Reading back the output git prints for a list of hashes gives the list. */
  lemma CommitListOfLog(commits: seq<string>)
    requires forall k :: 0 <= k < |commits| ==> IsHash(commits[k])
    ensures CommitList(JoinWith(commits, '\n')) == commits
  {
    var out := JoinWith(commits, '\n');
    if commits == [] {
      assert out == [];
    } else {
      JoinEnds(commits, '\n');
      assert IsHash(commits[0]) && IsHash(commits[|commits| - 1]);
      TrimOfTrimmed(out);
      forall k | 0 <= k < |commits| ensures '\n' !in commits[k] {
        assert IsHash(commits[k]);
      }
      SplitJoin(commits, '\n');
      RemoveEmptyKeeps(commits);
    }
  }

  /** Joining non-empty pieces starts with the first piece's first character and ends with the last piece's last. */
  lemma {:induction false} JoinEnds(pieces: seq<string>, sep: char)
    requires |pieces| >= 1 && pieces[0] != [] && pieces[|pieces| - 1] != []
    ensures JoinWith(pieces, sep) != []
    ensures JoinWith(pieces, sep)[0] == pieces[0][0]
    ensures JoinWith(pieces, sep)[|JoinWith(pieces, sep)| - 1] == pieces[|pieces| - 1][|pieces[|pieces| - 1]| - 1]
  {
    if |pieces| > 1 {
      if |pieces[1..]| >= 1 && pieces[1..][0] != [] {
        JoinEnds(pieces[1..], sep);
      } else {
        JoinLast(pieces[1..], sep);
      }
    }
  }

  lemma {:induction false} JoinLast(pieces: seq<string>, sep: char)
    requires |pieces| >= 1 && pieces[|pieces| - 1] != []
    ensures JoinWith(pieces, sep) != []
    ensures JoinWith(pieces, sep)[|JoinWith(pieces, sep)| - 1] == pieces[|pieces| - 1][|pieces[|pieces| - 1]| - 1]
  {
    if |pieces| > 1 {
      JoinLast(pieces[1..], sep);
    }
  }

  lemma {:induction false} RemoveEmptyKeeps(pieces: seq<string>)
    requires forall k :: 0 <= k < |pieces| ==> pieces[k] != []
    ensures RemoveEmpty(pieces) == pieces
  {
    if pieces != [] {
      RemoveEmptyKeeps(pieces[1..]);
    }
  }

  /** Filtering a concatenation filters each part and keeps them in order. */
  lemma {:induction false} RemoveEmptyAppend(a: seq<string>, b: seq<string>)
    ensures RemoveEmpty(a + b) == RemoveEmpty(a) + RemoveEmpty(b)
  {
    if a != [] {
      RemoveEmptyAppend(a[1..], b);
      assert (a + b)[1..] == a[1..] + b;
    } else {
      assert a + b == b;
    }
  }

  /** A single piece survives the filter exactly when it is not empty. */
  lemma RemoveEmptyOne(x: string)
    ensures x == [] ==> RemoveEmpty([x]) == []
    ensures x != [] ==> RemoveEmpty([x]) == [x]
  {
    assert [x][1..] == [];
  }

  /**
   * The response of the batched pull-request query, by commit hash: the
   * bodies of the commit's associated pull requests (at most the first is
   * requested). A hash that is not a key stands for a `null` commit object.
   */
  type Response = map<string, seq<string>>

  /**
   * The bodies collected for the commits: the first body of each commit that
   * has an associated pull request, in commit order. A commit missing from the
   * response makes the lookup of its fields throw; the failure carries the
   * first such commit.
   */
  function Bodies(commits: seq<string>, response: Response): (r: Result<seq<string>, string>)
    ensures r.Success? ==> |r.value| <= |commits|
  {
    if commits == [] then Success([])
    else
      match Bodies(commits[..|commits| - 1], response)
      case Failure(oid) => Failure(oid)
      case Success(bodies) =>
        var oid := commits[|commits| - 1];
        if oid !in response then Failure(oid)
        else if |response[oid]| > 0 then Success(bodies + [response[oid][0]])
        else Success(bodies)
  }

  /**
   * The collection loop of `fetchPullRequestBodyFromCommits`, once the query
   * has answered.
   */
  method CollectBodies(commits: seq<string>, response: Response) returns (r: Result<seq<string>, string>)
    ensures r == Bodies(commits, response)
  {
    var commitsInfo: seq<string> := [];
    var i := 0;
    while i < |commits|
      invariant 0 <= i <= |commits|
      invariant Bodies(commits[..i], response) == Success(commitsInfo)
    {
      var oid := commits[i];
      assert commits[..i + 1][..i] == commits[..i];
      if oid !in response {
        FailurePersists(commits, response, i + 1);
        return Failure(oid);
      }
      var nodes := response[oid];
      if |nodes| > 0 {
        commitsInfo := commitsInfo + [nodes[0]];
      }
      i := i + 1;
    }
    assert commits[..i] == commits;
    r := Success(commitsInfo);
  }

  /** Once a prefix of the commits fails, the whole list fails with the same commit. */
  lemma {:induction false} FailurePersists(commits: seq<string>, response: Response, n: nat)
    requires n <= |commits| && Bodies(commits[..n], response).Failure?
    ensures Bodies(commits, response) == Bodies(commits[..n], response)
    decreases |commits| - n
  {
    if n < |commits| {
      assert commits[..n + 1][..n] == commits[..n];
      FailurePersists(commits, response, n + 1);
    } else {
      assert commits[..n] == commits;
    }
  }

  /** The collection succeeds exactly when every commit is in the response. */
  lemma {:induction false} BodiesSucceedIffResolved(commits: seq<string>, response: Response)
    ensures Bodies(commits, response).Success? <==> forall k :: 0 <= k < |commits| ==> commits[k] in response
  {
    if commits != [] {
      var init := commits[..|commits| - 1];
      BodiesSucceedIffResolved(init, response);
      assert forall k :: 0 <= k < |init| ==> init[k] == commits[k];
    }
  }

  /** When it fails, it names a commit that is missing from the response, and every earlier commit is present. */
  lemma {:induction false} BodiesFailureIsFirstMissing(commits: seq<string>, response: Response)
    requires Bodies(commits, response).Failure?
    ensures exists k :: 0 <= k < |commits| && commits[k] == Bodies(commits, response).error
                        && commits[k] !in response
                        && forall j :: 0 <= j < k ==> commits[j] in response
  {
    var init := commits[..|commits| - 1];
    if Bodies(init, response).Failure? {
      BodiesFailureIsFirstMissing(init, response);
      var k :| 0 <= k < |init| && init[k] == Bodies(init, response).error && init[k] !in response
               && forall j :: 0 <= j < k ==> init[j] in response;
      assert commits[k] == init[k];
    } else {
      BodiesSucceedIffResolved(init, response);
      assert forall j :: 0 <= j < |init| ==> commits[j] == init[j];
    }
  }

  /** When every commit has a pull request, there is one body per commit, in commit order. */
  lemma {:induction false} OneBodyPerCommit(commits: seq<string>, response: Response)
    requires forall k :: 0 <= k < |commits| ==> commits[k] in response && |response[commits[k]]| > 0
    ensures Bodies(commits, response).Success?
    ensures |Bodies(commits, response).value| == |commits|
    ensures forall k :: 0 <= k < |commits| ==> Bodies(commits, response).value[k] == response[commits[k]][0]
  {
    if commits != [] {
      var init := commits[..|commits| - 1];
      assert forall k :: 0 <= k < |init| ==> init[k] == commits[k];
      OneBodyPerCommit(init, response);
    }
  }

  /** Commits without a pull request contribute nothing. */
  lemma {:induction false} CommitsWithoutPullRequestsAddNothing(commits: seq<string>, response: Response)
    requires forall k :: 0 <= k < |commits| ==> commits[k] in response && response[commits[k]] == []
    ensures Bodies(commits, response) == Success([])
  {
    if commits != [] {
      var init := commits[..|commits| - 1];
      assert forall k :: 0 <= k < |init| ==> init[k] == commits[k];
      CommitsWithoutPullRequestsAddNothing(init, response);
    }
  }

  /**
   * Collecting over two runs of commits that both resolve collects the first
   * run's bodies followed by the second run's: commit order is kept.
   */
  lemma {:induction false} BodiesAppend(a: seq<string>, b: seq<string>, response: Response)
    requires Bodies(a, response).Success? && Bodies(b, response).Success?
    ensures Bodies(a + b, response) == Success(Bodies(a, response).value + Bodies(b, response).value)
    decreases |b|
  {
    if b == [] {
      assert a + b == a;
      assert Bodies(a, response).value + [] == Bodies(a, response).value;
    } else {
      var init, oid := b[..|b| - 1], b[|b| - 1];
      assert Bodies(init, response).Success? && oid in response;
      BodiesAppend(a, init, response);
      var x, y := Bodies(a, response).value, Bodies(init, response).value;
      var ab := a + b;
      assert ab[..|ab| - 1] == a + init && ab[|ab| - 1] == oid;
      assert Bodies(ab[..|ab| - 1], response) == Success(x + y);
      if |response[oid]| > 0 {
        assert (x + y) + [response[oid][0]] == x + (y + [response[oid][0]]);
      }
    }
  }

  /**
   * One commit: failure when the response has no object for it, its first
   * body when it has a pull request, and nothing when it has none.
   */
  lemma BodiesOfOne(oid: string, response: Response)
    ensures oid !in response ==> Bodies([oid], response) == Failure(oid)
    ensures oid in response && response[oid] == [] ==> Bodies([oid], response) == Success([])
    ensures oid in response && response[oid] != [] ==> Bodies([oid], response) == Success([response[oid][0]])
  {
    assert [oid][..0] == [];
    if oid in response && response[oid] != [] {
      assert [] + [response[oid][0]] == [response[oid][0]];
    }
  }
}
