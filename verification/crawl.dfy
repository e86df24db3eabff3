/** The crawl phase of main.go (`runCrawl`): list the organisation's
    repositories, and for each one check the latest release, fetch the
    repository detail, collect the unreleased commits and persist a
    snapshot, skipping or failing that repository alone when a step does
    not succeed. */
module Crawl {
  import opened Wrappers
  import opened Records
  import Paging
  import Normalize

  /** The answer to the latest-release request: a transport or API error,
      or a (possibly nil) release. */
  datatype ReleaseLookup = LookupFailed(error: string) | Latest(release: Option<Release>)

  /** Everything the remote and the file system answer for one listed
      repository: the latest-release lookup, the repository detail, the
      pages comparing the release tag with the default branch, and the
      outcome of writing the snapshot file (an error, or none). */
  datatype RepoRemote = RepoRemote(
    name: string,
    latestRelease: ReleaseLookup,
    detail: Result<RepoDetail, string>,
    compare: Paging.Source<RawCommit>,
    writeError: Option<string>)

  /** The step at which a repository with a release was given up. */
  datatype Step = RepoDetailFetch | CommitCompare | SnapshotWrite

  /** What became of one repository. */
  datatype Outcome = Skipped | Failed(step: Step, error: string) | Persisted(record: RepositoryData)

  /** `checkLatestRelease`: a release is usable when the lookup succeeded,
      returned a release, and that release has a non-empty tag. */
  function CheckLatestRelease(lookup: ReleaseLookup): (r: Option<Release>)
    ensures r.Some? <==> lookup.Latest? && lookup.release.Some? && lookup.release.value.tagName != ""
    ensures r.Some? ==> lookup == Latest(r) && r.value.tagName != ""
  {
    match lookup
    case LookupFailed(_) => None
    case Latest(None) => None
    case Latest(Some(rel)) => if rel.tagName == "" then None else Some(rel)
  }

  /** Whether each of the four steps succeeds for `r`. */
  predicate PassesEveryStep(r: RepoRemote) {
    && CheckLatestRelease(r.latestRelease).Some?
    && r.detail.Success?
    && Paging.CompareAllCommits(r.compare).result.Success?
    && r.writeError.None?
  }

  /** One iteration of the repository loop of `runCrawl`. */
  function ProcessRepo(owner: string, r: RepoRemote): (o: Outcome)
    ensures o.Skipped? <==> CheckLatestRelease(r.latestRelease).None?
    ensures o.Persisted? <==> PassesEveryStep(r)
    ensures o.Failed? && o.step == RepoDetailFetch <==>
              CheckLatestRelease(r.latestRelease).Some? && r.detail.Failure?
    ensures o.Failed? && o.step == CommitCompare <==>
              && CheckLatestRelease(r.latestRelease).Some? && r.detail.Success?
              && Paging.CompareAllCommits(r.compare).result.Failure?
    ensures o.Persisted? ==>
              var rel := CheckLatestRelease(r.latestRelease).value;
              var commits := Paging.CompareAllCommits(r.compare).result.value;
              o.record == Normalize.BuildRecord(owner, r.name, r.detail.value, rel, commits)
  {
    match CheckLatestRelease(r.latestRelease)
    case None => Skipped
    case Some(rel) =>
      match r.detail
      case Failure(e) => Failed(RepoDetailFetch, e)
      case Success(detail) =>
        match Paging.CompareAllCommits(r.compare).result
        case Failure(e) => Failed(CommitCompare, e)
        case Success(commits) =>
          var rec := Normalize.BuildRecord(owner, r.name, detail, rel, commits);
          match r.writeError
          case Some(e) => Failed(SnapshotWrite, e)
          case None => Persisted(rec)
  }

  /** Reference: the snapshots of the repositories that pass every step,
      in listing order. */
  function Snapshots(owner: string, repos: seq<RepoRemote>): seq<RepositoryData> {
    if |repos| == 0 then []
    else
      var last := ProcessRepo(owner, repos[|repos| - 1]);
      Snapshots(owner, repos[..|repos| - 1]) + (if last.Persisted? then [last.record] else [])
  }

  /** Reference: how many repositories reach a given kind of outcome. */
  function CountSkipped(owner: string, repos: seq<RepoRemote>): nat {
    if |repos| == 0 then 0
    else CountSkipped(owner, repos[..|repos| - 1]) + (if ProcessRepo(owner, repos[|repos| - 1]).Skipped? then 1 else 0)
  }

  function CountFailed(owner: string, repos: seq<RepoRemote>): nat {
    if |repos| == 0 then 0
    else CountFailed(owner, repos[..|repos| - 1]) + (if ProcessRepo(owner, repos[|repos| - 1]).Failed? then 1 else 0)
  }

  /** Reference: how many repositories pass every step. */
  function CountPassing(repos: seq<RepoRemote>): nat {
    if |repos| == 0 then 0
    else CountPassing(repos[..|repos| - 1]) + (if PassesEveryStep(repos[|repos| - 1]) then 1 else 0)
  }

  /** One snapshot per repository that passes every step. */
  lemma {:induction false} SnapshotsCount(owner: string, repos: seq<RepoRemote>)
    ensures |Snapshots(owner, repos)| == CountPassing(repos)
  {
    if |repos| > 0 {
      SnapshotsCount(owner, repos[..|repos| - 1]);
    }
  }

  /** Every snapshot comes from a listed repository that passed every
      step, and carries that repository's name. */
  lemma {:induction false} SnapshotsPassed(owner: string, repos: seq<RepoRemote>)
    ensures forall rec :: rec in Snapshots(owner, repos) ==>
              exists i :: 0 <= i < |repos| && PassesEveryStep(repos[i])
                          && ProcessRepo(owner, repos[i]) == Persisted(rec) && rec.name == repos[i].name
  {
    if |repos| > 0 {
      var init := repos[..|repos| - 1];
      SnapshotsPassed(owner, init);
      forall rec | rec in Snapshots(owner, repos)
        ensures exists i :: 0 <= i < |repos| && PassesEveryStep(repos[i])
                            && ProcessRepo(owner, repos[i]) == Persisted(rec) && rec.name == repos[i].name
      {
        if rec in Snapshots(owner, init) {
          var i :| 0 <= i < |init| && PassesEveryStep(init[i])
                   && ProcessRepo(owner, init[i]) == Persisted(rec) && rec.name == init[i].name;
          assert repos[i] == init[i];
        } else {
          assert ProcessRepo(owner, repos[|repos| - 1]) == Persisted(rec);
        }
      }
    }
  }

  /** Each listed repository is persisted, skipped or failed: the three
      counts add up to the number listed. */
  lemma {:induction false} OutcomesPartition(owner: string, repos: seq<RepoRemote>)
    ensures |Snapshots(owner, repos)| + CountSkipped(owner, repos) + CountFailed(owner, repos) == |repos|
  {
    if |repos| > 0 {
      OutcomesPartition(owner, repos[..|repos| - 1]);
    }
  }

  lemma SnapshotsStep(owner: string, repos: seq<RepoRemote>, i: nat)
    requires i < |repos|
    ensures var o := ProcessRepo(owner, repos[i]);
            Snapshots(owner, repos[..i + 1]) == Snapshots(owner, repos[..i]) + (if o.Persisted? then [o.record] else [])
  {
    assert repos[..i + 1][..i] == repos[..i];
  }

  /** The repository loop of `runCrawl`: every listed repository is tried
      in order, a skip or failure moves on to the next one, and
      `processedCount` counts the snapshots written. */
  method ProcessAll(owner: string, repos: seq<RepoRemote>) returns (processedCount: nat, written: seq<RepositoryData>)
    ensures processedCount == |written| <= |repos|
    ensures written == Snapshots(owner, repos)
    ensures processedCount == |repos| - CountSkipped(owner, repos) - CountFailed(owner, repos)
    ensures processedCount == CountPassing(repos)
  {
    processedCount, written := 0, [];
    var i := 0;
    while i < |repos|
      invariant 0 <= i <= |repos|
      invariant written == Snapshots(owner, repos[..i])
      invariant processedCount == |written| <= i
    {
      SnapshotsStep(owner, repos, i);
      var outcome := ProcessRepo(owner, repos[i]);
      if outcome.Persisted? {
        written := written + [outcome.record];
        processedCount := processedCount + 1;
      }
      i := i + 1;
    }
    assert repos[..|repos|] == repos;
    OutcomesPartition(owner, repos);
    SnapshotsCount(owner, repos);
  }

  /** The result of a crawl: how many repositories were listed, how many
      snapshots were written, and the snapshots themselves. */
  datatype CrawlReport = CrawlReport(found: nat, processedCount: nat, snapshots: seq<RepositoryData>)

  /** `runCrawl` without the token check, the output directory and the
      timestamp file: a failed listing aborts before any repository is
      tried; otherwise every listed repository is processed. */
  method RunCrawl(owner: string, listing: Paging.Source<RepoRemote>, limit: int)
    returns (report: Result<CrawlReport, string>)
    ensures var listed := Paging.ListPublicRepos(listing, limit).result;
            && (report.Failure? <==> listed.Failure?)
            && (report.Failure? ==> report.error == listed.error)
            && (report.Success? ==>
                  && report.value.found == |listed.value|
                  && report.value.snapshots == Snapshots(owner, listed.value)
                  && report.value.processedCount == |report.value.snapshots| <= report.value.found)
  {
    match Paging.ListPublicRepos(listing, limit).result
    case Failure(e) =>
      report := Failure(e);
    case Success(repos) =>
      var count, written := ProcessAll(owner, repos);
      report := Success(CrawlReport(|repos|, count, written));
  }

  /** Three repositories: `a` and `c` pass every step (`c` with nothing
      unreleased), and `b`'s release lookup fails. Both `a` and `c` are
      persisted, `c` with an empty commit list, and `b` counts as skipped,
      not failed, because a failed lookup reads as "no release". */
  lemma FailedLookupIsSkipped(owner: string, a: RepoRemote, b: RepoRemote, c: RepoRemote)
    requires PassesEveryStep(a) && PassesEveryStep(c)
    requires b.latestRelease.LookupFailed?
    requires Paging.CompareAllCommits(c.compare).result == Success([])
    ensures var snaps := Snapshots(owner, [a, b, c]);
            && |snaps| == 2
            && snaps[0].name == a.name && snaps[1].name == c.name
            && snaps[1].unreleasedCommits == []
            && CountSkipped(owner, [a, b, c]) == 1
            && CountFailed(owner, [a, b, c]) == 0
  {
    var repos := [a, b, c];
    assert Snapshots(owner, [a]) == [ProcessRepo(owner, a).record] by {
      assert [a][..0] == [];
    }
    assert CountSkipped(owner, [a]) == 0 && CountFailed(owner, [a]) == 0 by {
      assert [a][..0] == [];
    }
    assert [a, b][..1] == [a];
    assert repos[..2] == [a, b];
  }
}
