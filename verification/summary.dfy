/** The numbers behind the index and repository pages of templates.go: per
    repository commit count, days behind and days since release; the
    totals; the range of each metric; and each metric's position on the
    colour scale. */
module Summary {
  import opened Records
  import Colors

  const NanosPerDay: int := 86_400_000_000_000

  /** `int(d.Hours() / 24)` on exact numbers: whole days, truncated toward
      zero. */
  function WholeDays(d: int): (days: int)
    ensures d >= 0 ==> 0 <= days && days * NanosPerDay <= d < (days + 1) * NanosPerDay
    ensures d < 0 ==> days <= 0 && (days - 1) * NanosPerDay < d <= days * NanosPerDay
  {
    if d >= 0 then d / NanosPerDay else -((-d) / NanosPerDay)
  }

  /** Days from the release to the newest unreleased commit (index 0 of the
      newest-first list); 0 without commits or without a release time. */
  function DaysBehind(repo: RepositoryData): (days: int)
    ensures |repo.unreleasedCommits| == 0 || repo.latestReleaseTime.IsZero() ==> days == 0
    ensures |repo.unreleasedCommits| > 0 && !repo.latestReleaseTime.IsZero() ==>
              var d := repo.unreleasedCommits[0].timestamp.nanos - repo.latestReleaseTime.nanos;
              && (d >= 0 ==> 0 <= days && days * NanosPerDay <= d < (days + 1) * NanosPerDay)
              && (d < 0 ==> days <= 0 && (days - 1) * NanosPerDay < d <= days * NanosPerDay)
  {
    if |repo.unreleasedCommits| > 0 && !repo.latestReleaseTime.IsZero() then
      WholeDays(repo.unreleasedCommits[0].timestamp.nanos - repo.latestReleaseTime.nanos)
    else 0
  }

  /** Days from the release to `now`; 0 without a release time. */
  function DaysSinceRelease(repo: RepositoryData, now: Time): (days: int)
    ensures repo.latestReleaseTime.IsZero() ==> days == 0
    ensures !repo.latestReleaseTime.IsZero() ==>
              var d := now.nanos - repo.latestReleaseTime.nanos;
              && (d >= 0 ==> 0 <= days && days * NanosPerDay <= d < (days + 1) * NanosPerDay)
              && (d < 0 ==> days <= 0 && (days - 1) * NanosPerDay < d <= days * NanosPerDay)
  {
    if repo.latestReleaseTime.IsZero() then 0
    else WholeDays(now.nanos - repo.latestReleaseTime.nanos)
  }

  /** The three metrics of every repository, in page order. */
  function CommitCounts(repos: seq<RepositoryData>): (xs: seq<int>)
    ensures |xs| == |repos|
    ensures forall i :: 0 <= i < |repos| ==> xs[i] == |repos[i].unreleasedCommits|
  {
    seq(|repos|, i requires 0 <= i < |repos| => |repos[i].unreleasedCommits|)
  }

  function BehindDays(repos: seq<RepositoryData>): (xs: seq<int>)
    ensures |xs| == |repos|
    ensures forall i :: 0 <= i < |repos| ==> xs[i] == DaysBehind(repos[i])
  {
    seq(|repos|, i requires 0 <= i < |repos| => DaysBehind(repos[i]))
  }

  function SinceDays(repos: seq<RepositoryData>, now: Time): (xs: seq<int>)
    ensures |xs| == |repos|
    ensures forall i :: 0 <= i < |repos| ==> xs[i] == DaysSinceRelease(repos[i], now)
  {
    seq(|repos|, i requires 0 <= i < |repos| => DaysSinceRelease(repos[i], now))
  }

  /** Reference sum and count of positive values. */
  function Sum(xs: seq<int>): int {
    if |xs| == 0 then 0 else Sum(xs[..|xs| - 1]) + xs[|xs| - 1]
  }

  function CountPositive(xs: seq<int>): nat {
    if |xs| == 0 then 0 else CountPositive(xs[..|xs| - 1]) + (if xs[|xs| - 1] > 0 then 1 else 0)
  }

  /** The least value, 0 for no values: the running minimum when the first
      value always initialises it. */
  function MinOrZero(xs: seq<int>): (m: int)
    ensures |xs| == 0 ==> m == 0
    ensures |xs| > 0 ==> m in xs && forall k :: 0 <= k < |xs| ==> m <= xs[k]
  {
    if |xs| == 0 then 0
    else
      var m := MinOrZero(xs[..|xs| - 1]);
      assert forall k :: 0 <= k < |xs| - 1 ==> xs[..|xs| - 1][k] == xs[k];
      if |xs| == 1 || xs[|xs| - 1] < m then xs[|xs| - 1] else m
  }

  /** The running maximum started at 0: the greatest value, or 0 when every
      value is negative or there are none. */
  function MaxFromZero(xs: seq<int>): (m: int)
    ensures m >= 0 && (m == 0 || m in xs)
    ensures forall k :: 0 <= k < |xs| ==> xs[k] <= m
  {
    if |xs| == 0 then 0
    else
      var m := MaxFromZero(xs[..|xs| - 1]);
      assert forall k :: 0 <= k < |xs| - 1 ==> xs[..|xs| - 1][k] == xs[k];
      if xs[|xs| - 1] > m then xs[|xs| - 1] else m
  }

  /** The minimum as `generateIndexPage` computes it: its running minimum
      starts at -1, which the scan reads as "unset" and replaces by the
      next value, and a minimum still at -1 after the scan defaults to 0. */
  function SentinelScan(xs: seq<int>): int {
    if |xs| == 0 then -1
    else
      var m := SentinelScan(xs[..|xs| - 1]);
      if m == -1 || xs[|xs| - 1] < m then xs[|xs| - 1] else m
  }

  function SentinelMin(xs: seq<int>): int {
    var m := SentinelScan(xs);
    if m == -1 then 0 else m
  }

  lemma {:induction false} SentinelScanAgrees(xs: seq<int>)
    requires forall k :: 0 <= k < |xs| ==> xs[k] >= 0
    ensures SentinelScan(xs) == if |xs| == 0 then -1 else MinOrZero(xs)
  {
    if |xs| > 0 {
      SentinelScanAgrees(xs[..|xs| - 1]);
    }
  }

  /** With no negative values the sentinel never collides, and the minimum
      as written is the least value (0 for none). */
  lemma SentinelMinAgrees(xs: seq<int>)
    requires forall k :: 0 <= k < |xs| ==> xs[k] >= 0
    ensures SentinelMin(xs) == MinOrZero(xs)
  {
    SentinelScanAgrees(xs);
  }

  /** A metric equal to -1 (a newest commit authored one to two days before
      the release was published) is mistaken for "unset": the next value
      replaces it, and on its own it becomes 0. */
  lemma SentinelCollides()
    ensures SentinelMin([-1, 5]) == 5 && MinOrZero([-1, 5]) == -1
    ensures SentinelMin([-1]) == 0 && MinOrZero([-1]) == -1
  {
    assert [-1, 5][..1] == [-1];
    assert [-1][..0] == [];
  }

  /** One iteration of the scan: the first value, or a smaller one,
      becomes the minimum; a larger one becomes the maximum. */
  lemma SpanStep(xs: seq<int>, i: nat)
    requires i < |xs|
    ensures var s := SpanOf(xs[..i]);
            SpanOf(xs[..i + 1]) == Span(if i == 0 || xs[i] < s.lo then xs[i] else s.lo,
                                        if xs[i] > s.hi then xs[i] else s.hi)
  {
    assert xs[..i + 1][..i] == xs[..i];
  }

  lemma TotalsStep(xs: seq<int>, i: nat)
    requires i < |xs|
    ensures Sum(xs[..i + 1]) == Sum(xs[..i]) + xs[i]
    ensures CountPositive(xs[..i + 1]) == CountPositive(xs[..i]) + (if xs[i] > 0 then 1 else 0)
  {
    assert xs[..i + 1][..i] == xs[..i];
  }

  /** The range a metric is scaled over: its minimum and its maximum. */
  datatype Span = Span(lo: int, hi: int)

  function SpanOf(xs: seq<int>): (s: Span)
    ensures forall k :: 0 <= k < |xs| ==> s.lo <= xs[k] <= s.hi
    ensures |xs| == 0 ==> s == Span(0, 0)
  {
    Span(MinOrZero(xs), MaxFromZero(xs))
  }

  /** With at least one value and none negative, the range runs from the
      least value to the greatest, both of which occur. */
  lemma SpanOfNonNegative(xs: seq<int>)
    requires |xs| > 0 && forall k :: 0 <= k < |xs| ==> xs[k] >= 0
    ensures SpanOf(xs).lo in xs && SpanOf(xs).hi in xs
    ensures forall k :: 0 <= k < |xs| ==> SpanOf(xs).lo <= xs[k] <= SpanOf(xs).hi
  {
  }

  /** The range as `generateIndexPage` computes it: the sentinel minimum
      and the maximum started at 0. */
  function SourceSpan(xs: seq<int>): Span {
    Span(SentinelMin(xs), MaxFromZero(xs))
  }

  /** Without negative values the range as written is the range the page
      is scaled over here. */
  lemma SourceSpanAgrees(xs: seq<int>)
    requires forall k :: 0 <= k < |xs| ==> xs[k] >= 0
    ensures SourceSpan(xs) == SpanOf(xs)
  {
    SentinelMinAgrees(xs);
  }

  /** `(v - lo) / (hi - lo)` when the range is positive, else 0. */
  function Normalized(v: int, s: Span): (n: real)
    ensures s.hi - s.lo <= 0 ==> n == 0.0
    ensures s.hi - s.lo > 0 && s.lo <= v <= s.hi ==> 0.0 <= n <= 1.0
    ensures s.hi - s.lo > 0 ==> (n == 0.0 <==> v == s.lo) && (n == 1.0 <==> v == s.hi)
  {
    if s.hi - s.lo > 0 then
      var n := (v - s.lo) as real / (s.hi - s.lo) as real;
      assert n * (s.hi - s.lo) as real == (v - s.lo) as real;
      n
    else 0.0
  }

  /** Scaling keeps the order of the values it scales. */
  lemma NormalizedMonotone(v: int, w: int, s: Span)
    requires v <= w
    ensures Normalized(v, s) <= Normalized(w, s)
  {
    if s.hi - s.lo > 0 {
      var d := (s.hi - s.lo) as real;
      var a := (v - s.lo) as real;
      var b := (w - s.lo) as real;
      assert b / d - a / d == (b - a) / d;
      assert (b - a) / d >= 0.0;
    }
  }

  /** The background and text colour of one metric cell. */
  datatype Swatch = Swatch(background: Colors.Rgb, text: string)

  function SwatchFor(v: int, s: Span): (w: Swatch)
    ensures s.hi - s.lo <= 0 ==> w == Swatch(Colors.Green, Colors.Black)
    ensures s.lo <= v <= s.hi ==> Colors.IsByteColor(w.background)
    ensures s.hi - s.lo > 0 && v == s.lo ==> w == Swatch(Colors.Green, Colors.Black)
    ensures s.hi - s.lo > 0 && v == s.hi ==> w == Swatch(Colors.Red, Colors.White)
  {
    var n := Normalized(v, s);
    Swatch(Colors.ColorForValue(n), Colors.TextColor(n))
  }

  /** `SummaryData`: one row of the index page. */
  datatype RepoSummary = RepoSummary(
    name: string,
    commitCount: int,
    daysBehind: int,
    daysSinceRelease: int,
    latestRelease: string,
    url: string,
    repositoryUrl: string,
    defaultBranch: string,
    commitColors: Swatch,
    behindColors: Swatch,
    sinceColors: Swatch)

  function SummaryOf(repo: RepositoryData, now: Time, commits: Span, behind: Span, since: Span): (s: RepoSummary)
    ensures s.name == repo.name && s.url == repo.name + ".html"
    ensures s.latestRelease == repo.latestReleaseTag && s.repositoryUrl == repo.repositoryUrl
    ensures s.defaultBranch == repo.defaultBranch
    ensures s.commitCount == |repo.unreleasedCommits|
    ensures s.daysBehind == DaysBehind(repo) && s.daysSinceRelease == DaysSinceRelease(repo, now)
    ensures s.commitColors == SwatchFor(s.commitCount, commits)
    ensures s.behindColors == SwatchFor(s.daysBehind, behind)
    ensures s.sinceColors == SwatchFor(s.daysSinceRelease, since)
  {
    var count := |repo.unreleasedCommits|;
    var db := DaysBehind(repo);
    var ds := DaysSinceRelease(repo, now);
    RepoSummary(repo.name, count, db, ds, repo.latestReleaseTag, repo.name + ".html",
                repo.repositoryUrl, repo.defaultBranch,
                SwatchFor(count, commits), SwatchFor(db, behind), SwatchFor(ds, since))
  }

  /** The data the index page is rendered from. */
  datatype IndexData = IndexData(
    owner: string,
    totalRepos: nat,
    totalCommits: int,
    reposWithCommits: nat,
    repos: seq<RepoSummary>,
    commitSpan: Span,
    behindSpan: Span,
    sinceSpan: Span,
    lastUpdated: string)

  /** The single pass of `generateIndexPage` over one metric: its total,
      how many values are positive, and its range. The minimum is taken
      from the first value on, not through the -1 sentinel of the source
      (see `SentinelCollides`). */
  method Accumulate(xs: seq<int>) returns (total: int, positives: nat, span: Span)
    ensures total == Sum(xs) && positives == CountPositive(xs)
    ensures span == SpanOf(xs)
  {
    total, positives := 0, 0;
    var lo, hi := 0, 0;
    var i := 0;
    while i < |xs|
      invariant 0 <= i <= |xs|
      invariant total == Sum(xs[..i]) && positives == CountPositive(xs[..i])
      invariant Span(lo, hi) == SpanOf(xs[..i])
    {
      TotalsStep(xs, i);
      SpanStep(xs, i);
      total := total + xs[i];
      positives := positives + (if xs[i] > 0 then 1 else 0);
      lo := if i == 0 || xs[i] < lo then xs[i] else lo;
      hi := if xs[i] > hi then xs[i] else hi;
      i := i + 1;
    }
    assert xs[..i] == xs;
    span := Span(lo, hi);
  }

  /** `generateIndexPage` up to rendering: the totals and the range of
      each metric over all snapshots, then every summary gets its colours
      from those ranges. */
  method BuildIndex(repos: seq<RepositoryData>, now: Time, lastUpdated: string) returns (page: IndexData)
    ensures page.totalRepos == |repos| && page.lastUpdated == lastUpdated
    ensures page.owner == if |repos| > 0 then repos[0].owner else ""
    ensures page.totalCommits == Sum(CommitCounts(repos))
    ensures page.reposWithCommits == CountPositive(CommitCounts(repos))
    ensures page.commitSpan == SpanOf(CommitCounts(repos))
    ensures page.behindSpan == SpanOf(BehindDays(repos))
    ensures page.sinceSpan == SpanOf(SinceDays(repos, now))
    ensures |page.repos| == |repos|
    ensures forall i :: 0 <= i < |repos| ==>
              page.repos[i] == SummaryOf(repos[i], now, page.commitSpan, page.behindSpan, page.sinceSpan)
  {
    var total, withCommits, commitSpan := Accumulate(CommitCounts(repos));
    var _, _, behindSpan := Accumulate(BehindDays(repos));
    var _, _, sinceSpan := Accumulate(SinceDays(repos, now));
    var summaries := seq(|repos|, k requires 0 <= k < |repos| =>
                           SummaryOf(repos[k], now, commitSpan, behindSpan, sinceSpan));
    var owner := if |repos| > 0 then repos[0].owner else "";
    page := IndexData(owner, |repos|, total, withCommits, summaries,
                      commitSpan, behindSpan, sinceSpan, lastUpdated);
  }

  /** A value of a metric lies in the metric's range, so its cell colour
      is a valid byte colour. */
  lemma SwatchInSpan(xs: seq<int>, i: nat)
    requires i < |xs|
    ensures Colors.IsByteColor(SwatchFor(xs[i], SpanOf(xs)).background)
  {
  }

  /** Every metric of every row lies in its range, so every cell colour is
      a valid byte colour; with no rows all six range ends are 0. */
  lemma IndexColorsInRange(repos: seq<RepositoryData>, now: Time)
    ensures var commits, behind, since := SpanOf(CommitCounts(repos)), SpanOf(BehindDays(repos)), SpanOf(SinceDays(repos, now));
            forall i :: 0 <= i < |repos| ==>
              var s := SummaryOf(repos[i], now, commits, behind, since);
              && Colors.IsByteColor(s.commitColors.background)
              && Colors.IsByteColor(s.behindColors.background)
              && Colors.IsByteColor(s.sinceColors.background)
    ensures |repos| == 0 ==>
              SpanOf(CommitCounts(repos)) == SpanOf(BehindDays(repos)) == SpanOf(SinceDays(repos, now)) == Span(0, 0)
  {
    var commits, behind, since := SpanOf(CommitCounts(repos)), SpanOf(BehindDays(repos)), SpanOf(SinceDays(repos, now));
    forall i | 0 <= i < |repos|
      ensures var s := SummaryOf(repos[i], now, commits, behind, since);
              && Colors.IsByteColor(s.commitColors.background)
              && Colors.IsByteColor(s.behindColors.background)
              && Colors.IsByteColor(s.sinceColors.background)
    {
      var s := SummaryOf(repos[i], now, commits, behind, since);
      assert s.commitColors == SwatchFor(CommitCounts(repos)[i], commits);
      assert s.behindColors == SwatchFor(BehindDays(repos)[i], behind);
      assert s.sinceColors == SwatchFor(SinceDays(repos, now)[i], since);
      SwatchInSpan(CommitCounts(repos), i);
      SwatchInSpan(BehindDays(repos), i);
      SwatchInSpan(SinceDays(repos, now), i);
    }
  }

  /** On the days-behind values -1, 5 and 3 the range as written is 3..5,
      so the -1 row is scaled to -2 and its background falls off the
      colour scale (a negative red channel); over the least value instead,
      the same row is green. */
  lemma SentinelPageColour()
    ensures SourceSpan([-1, 5, 3]) == Span(3, 5)
    ensures Normalized(-1, Span(3, 5)) == -2.0
    ensures !Colors.IsByteColor(SwatchFor(-1, SourceSpan([-1, 5, 3])).background)
    ensures SpanOf([-1, 5, 3]) == Span(-1, 5)
    ensures SwatchFor(-1, SpanOf([-1, 5, 3])) == Swatch(Colors.Green, Colors.Black)
  {
    assert [-1, 5, 3][..2] == [-1, 5] && [-1, 5][..1] == [-1] && [-1][..0] == [];
    assert SentinelScan([-1]) == -1;
    assert SentinelScan([-1, 5]) == 5;
    assert MinOrZero([-1, 5, 3]) == -1;
    var c := Colors.ColorForValue(-2.0);
    assert c.r == Colors.Blend(Colors.Green.r, Colors.Yellow.r, -4.0);
  }

  /** Where the range as written and the range used here agree: always for
      commit counts, for days behind when none is negative, and for days
      since release when no release is published after `now`. */
  lemma IndexSpansAsWritten(repos: seq<RepositoryData>, now: Time)
    ensures SourceSpan(CommitCounts(repos)) == SpanOf(CommitCounts(repos))
    ensures (forall i :: 0 <= i < |repos| ==> DaysBehind(repos[i]) >= 0) ==>
              SourceSpan(BehindDays(repos)) == SpanOf(BehindDays(repos))
    ensures (forall i :: 0 <= i < |repos| ==> repos[i].latestReleaseTime.nanos <= now.nanos) ==>
              SourceSpan(SinceDays(repos, now)) == SpanOf(SinceDays(repos, now))
  {
    SourceSpanAgrees(CommitCounts(repos));
    if forall i :: 0 <= i < |repos| ==> DaysBehind(repos[i]) >= 0 {
      SourceSpanAgrees(BehindDays(repos));
    }
    if forall i :: 0 <= i < |repos| ==> repos[i].latestReleaseTime.nanos <= now.nanos {
      SourceSpanAgrees(SinceDays(repos, now));
    }
  }
}
