/** Turning the commits of a comparison into the persisted snapshot of a
    repository: author resolution, newest-first ordering, and the copy of
    the repository and release fields (main.go, inside `runCrawl`). */
module Normalize {
  import opened Wrappers
  import opened Records

  /** Author name used when neither the linked account nor the git author
      line names anyone. */
  const Unknown: string := "unknown"

  /** `c.Author.GetLogin()`: the linked account's login, "" without one. */
  function LoginOf(c: RawCommit): string {
    if c.author.Some? then c.author.value.login else ""
  }

  /** `c.Commit.Author.GetName()`: the git author name, "" without one. */
  function GitNameOf(c: RawCommit): string {
    if c.commit.author.Some? then c.commit.author.value.name else ""
  }

  /** `c.Commit.Author.GetDate()`: the authored date, zero without one. */
  function AuthoredAt(c: RawCommit): Time {
    if c.commit.author.Some? then c.commit.author.value.date else ZeroTime
  }

  /** The author shown for a commit: the first non-empty of the linked
      login and the git author name, else "unknown". */
  function ResolveAuthor(c: RawCommit): (name: string)
    ensures name != ""
    ensures name == LoginOf(c) || name == GitNameOf(c) || name == Unknown
    ensures LoginOf(c) != "" ==> name == LoginOf(c)
    ensures LoginOf(c) == "" && GitNameOf(c) != "" ==> name == GitNameOf(c)
    ensures LoginOf(c) == "" && GitNameOf(c) == "" ==> name == Unknown
  {
    if c.author.Some? && c.author.value.login != "" then c.author.value.login
    else if c.commit.author.Some? && c.commit.author.value.name != "" then c.commit.author.value.name
    else Unknown
  }

  /** The `CommitInfo` built for one commit of the comparison. */
  function ToCommitInfo(c: RawCommit): (info: CommitInfo)
    ensures info.sha == c.sha && info.message == c.commit.message && info.url == c.htmlUrl
    ensures info.author == ResolveAuthor(c) && info.timestamp == AuthoredAt(c)
  {
    CommitInfo(c.sha, ResolveAuthor(c), c.commit.message, AuthoredAt(c), c.htmlUrl)
  }

  /** The sequence in the opposite order. */
  function Reverse<T>(s: seq<T>): (r: seq<T>)
    ensures |r| == |s|
    ensures forall i :: 0 <= i < |s| ==> r[i] == s[|s| - 1 - i]
  {
    if |s| == 0 then [] else [s[|s| - 1]] + Reverse(s[..|s| - 1])
  }

  lemma ReverseReverse<T>(s: seq<T>)
    ensures Reverse(Reverse(s)) == s
  {
    assert forall i :: 0 <= i < |s| ==> Reverse(Reverse(s))[i] == s[i];
  }

  /** The in-place reversal loop of main.go: two indices walk towards each
      other, swapping as they go. The result is the `Reverse` that
      `BuildRecord` puts into the snapshot. */
  method ReverseBySwaps<T>(s: seq<T>) returns (r: seq<T>)
    ensures |r| == |s|
    ensures forall k :: 0 <= k < |s| ==> r[k] == s[|s| - 1 - k]
    ensures r == Reverse(s)
  {
    r := s;
    var i: int := 0;
    var j: int := |s| - 1;
    while i < j
      invariant 0 <= i && j == |s| - 1 - i && i <= j + 1
      invariant |r| == |s|
      invariant forall k :: 0 <= k < i ==> r[k] == s[|s| - 1 - k]
      invariant forall k :: j < k < |s| ==> r[k] == s[|s| - 1 - k]
      invariant forall k :: i <= k <= j ==> r[k] == s[k]
    {
      r := r[i := r[j]][j := r[i]];
      i, j := i + 1, j - 1;
    }
    assert forall k :: 0 <= k < |s| ==> r[k] == Reverse(s)[k];
  }

  /** The snapshot persisted for a repository: the crawl's owner, the
      repository's name, its default branch and URL from the repository
      detail, the release's tag and publish time, and the comparison's
      commits turned into `CommitInfo`s and put newest first. */
  function BuildRecord(owner: string, name: string, detail: RepoDetail, release: Release,
                       commits: seq<RawCommit>): (rec: RepositoryData)
    ensures rec.owner == owner && rec.name == name
    ensures rec.defaultBranch == detail.defaultBranch && rec.repositoryUrl == detail.htmlUrl
    ensures rec.latestReleaseTag == release.tagName && rec.latestReleaseTime == release.publishedAt
    ensures |rec.unreleasedCommits| == |commits|
    ensures forall i :: 0 <= i < |commits| ==>
              rec.unreleasedCommits[i] == ToCommitInfo(commits[|commits| - 1 - i])
  {
    var infos := seq(|commits|, i requires 0 <= i < |commits| => ToCommitInfo(commits[i]));
    RepositoryData(owner, name, detail.defaultBranch, release.tagName, release.publishedAt,
                   Reverse(infos), detail.htmlUrl)
  }

  /** Commits the remote lists oldest first (strictly increasing authored
      dates) end up strictly newest first in the snapshot, so index 0 is
      the most recent commit. */
  lemma NewestFirst(owner: string, name: string, detail: RepoDetail, release: Release,
                    commits: seq<RawCommit>)
    requires forall i, j :: 0 <= i < j < |commits| ==> AuthoredAt(commits[i]).nanos < AuthoredAt(commits[j]).nanos
    ensures var cs := BuildRecord(owner, name, detail, release, commits).unreleasedCommits;
            forall i, j :: 0 <= i < j < |cs| ==> cs[i].timestamp.nanos > cs[j].timestamp.nanos
  {
  }

  /** The author precedence on three commits: a login wins over a differing
      git name, a git name is used alone, and neither gives "unknown". */
  lemma AuthorPrecedenceExamples()
    ensures ResolveAuthor(RawCommit("a1", Some(Account("alice")),
                                    CommitMeta(Some(Signature("Alice Smith", ZeroTime)), "m"), "u")) == "alice"
    ensures ResolveAuthor(RawCommit("b2", None,
                                    CommitMeta(Some(Signature("Bob", ZeroTime)), "m"), "u")) == "Bob"
    ensures ResolveAuthor(RawCommit("c3", Some(Account("")), CommitMeta(None, "m"), "u")) == Unknown
  {
  }
}
