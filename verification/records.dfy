/** The remote's records (the commit, account, release and repository
    detail the API returns) and the records main.go persists. */
module Records {
  import opened Wrappers

  /** An instant, as nanoseconds since Go's zero time (January 1, year 1,
      UTC). The zero value of `time.Time` is `Time(0)`. */
  datatype Time = Time(nanos: int) {
    /** `time.Time.IsZero`. */
    predicate IsZero() {
      nanos == 0
    }
  }

  const ZeroTime := Time(0)

  /** The git author line of a commit (`Commit.Author`): a display name and
      the authored date; a missing date reads as the zero time. */
  datatype Signature = Signature(name: string, date: Time)

  /** The git-level commit object (`RepositoryCommit.Commit`). */
  datatype CommitMeta = CommitMeta(author: Option<Signature>, message: string)

  /** The platform account linked to a commit (`RepositoryCommit.Author`);
      a missing login reads as the empty string. */
  datatype Account = Account(login: string)

  /** One commit of a comparison, as the remote returns it. */
  datatype RawCommit = RawCommit(
    sha: string,
    author: Option<Account>,
    commit: CommitMeta,
    htmlUrl: string)

  /** `CommitInfo`: one unreleased commit as persisted. */
  datatype CommitInfo = CommitInfo(
    sha: string,
    author: string,
    message: string,
    timestamp: Time,
    url: string)

  /** The latest published release of a repository; a missing publish date
      reads as the zero time. */
  datatype Release = Release(tagName: string, publishedAt: Time)

  /** The two fields of the repository detail the crawl uses. */
  datatype RepoDetail = RepoDetail(defaultBranch: string, htmlUrl: string)

  /** `RepositoryData`: the snapshot persisted for one repository. */
  datatype RepositoryData = RepositoryData(
    owner: string,
    name: string,
    defaultBranch: string,
    latestReleaseTag: string,
    latestReleaseTime: Time,
    unreleasedCommits: seq<CommitInfo>,
    repositoryUrl: string)
}
