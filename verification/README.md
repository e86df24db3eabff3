# Unreleased commits: a Dafny model of the crawler and the index summary

The program tracks, for every public repository of a GitHub organisation,
the commits on the default branch since the latest release. It runs in two
phases.

- The **crawl** lists the organisation's repositories page by page. For each
  repository it checks the latest release, fetches the repository detail and
  collects the commits of the comparison between the release tag and the
  default branch. It gives each commit an author name and puts the commits
  newest first. It then persists one snapshot (`RepositoryData`) per
  repository. A repository that fails a step is skipped or counted as failed,
  and the loop moves on to the next one.
- The **generate** phase loads the snapshots, leaves out the crawl-timestamp
  file and unreadable files, and sorts the rest by name. For every
  repository it computes three metrics: the commit count, the days the newest
  commit is behind the release, and the days since the release. It adds up
  the totals and places each metric on a green-yellow-red scale between that
  metric's minimum and maximum.

The model covers both phases up to the point where text is rendered.

- `wrappers.dfy` defines `Option` and `Result`.
- `records.dfy` defines the persisted records. Time is a count of
  nanoseconds since Go's zero instant.
- `paging.dfy` models the two paginated listings (`listPublicRepos`,
  `compareAllCommits`).
  - The remote is a finite list of pages. Each page holds its items and the
    number of its next page, or an error.
  - Every next-page link is 0 or points forward, so every walk ends.
  - `Visits` is the reference list of responses a walk receives. Both loops
    are proved against it.
- `normalize.dfy` covers author resolution, the newest-first reversal (as a
  function and as the swapping loop) and the construction of the snapshot.
- `crawl.dfy` covers `checkLatestRelease` and one repository's outcome. It
  also covers the repository loop of `runCrawl` with its accounting.
  Reference counts of skipped, failed and persisted repositories partition
  the listing.
- `generate.dfy` covers the file filter, the sort by name (byte-wise string
  order, proved a total order) and the footer's last-updated text.
- `colors.dfy` covers `interpolateColor`, `getColorForValue` and
  `getTextColor` on exact reals. Colours stay as channel values.
- `summary.dfy` covers the day metrics, the totals, the range of each
  metric, normalisation into [0,1], each row's swatch and the index page
  data. The same day computation serves `generateRepoPage`.

Inputs that come from outside the program are parameters:

- every answer the GitHub API gives (pages, the release lookup, the
  repository detail);
- the outcome of the snapshot write;
- the decoded content of each data file;
- the current time `now`;
- the footer's rendered date string.

A release lookup that fails with an error is a skip, not a failure. The
code's `checkLatestRelease` folds the error into "no release"
(main.go:296-302), and the model follows the code. The lemma
`Crawl.FailedLookupIsSkipped` shows this on a three-repository listing.

## Model

| member | source | states |
|---|---|---|
| Paging.Visits | main.go:309-322 | The walk starts with the response for the requested page. It ends with the first response that stops it: a failure, no next page, or a short page when a full page size is in force. |
| Paging.VisitsContinue | main.go:318-321 | Every response before the last one of a walk is a page that has a next page and is not short. |
| Paging.ItemsPrefix | main.go:281 | The items of the first k responses, followed by the items of the rest, are all the items of the walk, in order. |
| Paging.ListWalksCapHere | main.go:283-285 | When one page reaches a positive cap, the loop makes no further request and keeps exactly the first `limit` items collected. |
| Paging.ListFromWalks | main.go:275-291 | From any page, with fewer than `limit` items held, the loop does one of two things. If the cap is off or never reached, it requests every page of the walk and returns the last response's error or everything collected. Otherwise it stops at the first response that reaches the cap and keeps exactly `limit` items of the in-order concatenation. |
| Paging.ListPublicRepos | main.go:268-294 | Starting from the unset page: with no cap (a `limit` of zero or below), or a cap the listing never reaches, the result is every page's items in order, or the failed page's error, after one request per page. With a reached cap, the result is exactly the first `limit` items, and requests stop at the first page that reaches the cap. |
| Paging.CompareFrom | main.go:309-322 | The comparison loop requests exactly the pages of the walk. It returns the error of a failed last page, or everything collected. |
| Paging.CompareAllCommits | main.go:304-325 | The walk starts from page 1. The result fails exactly when the last response failed, with that response's error, and otherwise is every page's items in order. Every page before the last had a next page and at least 100 items. |
| Paging.FullLastPageStops | main.go:318-320 | A first page of exactly 100 commits with no next page is the only request, and its commits are the result. |
| Normalize.ResolveAuthor | main.go:144-149 | The author is never empty. A non-empty linked login wins. Otherwise a non-empty git author name is used. Otherwise the author is "unknown". |
| Normalize.AuthorPrecedenceExamples | main.go:144-149 | A login beats a differing git name, a git name is used when there is no account, and an empty login without a git author gives "unknown". |
| Normalize.ToCommitInfo | main.go:151-157 | A commit's SHA, message and URL are copied. Its author is the resolved one and its timestamp is the authored date. |
| Normalize.Reverse | main.go:160-163 | The output has the same length as the input, and element i is input element n-1-i. |
| Normalize.ReverseReverse | main.go:160-163 | Reversing twice gives back the original sequence. |
| Normalize.ReverseBySwaps | main.go:161-163 | The two-index swapping loop leaves element k equal to input element n-1-k. It is the same sequence as `Reverse`, which `BuildRecord` stores. |
| Normalize.BuildRecord | main.go:165-173 | The snapshot copies the owner, name, default branch, repository URL, release tag and release time unchanged. Its commits are the comparison's commits in reverse order, each as its `CommitInfo`. |
| Normalize.NewestFirst | main.go:160-163 | Commits listed with strictly increasing authored dates come out strictly newest first, so index 0 is the most recent. |
| Crawl.CheckLatestRelease | main.go:296-302 | A release is usable exactly when the lookup succeeded, returned a release, and that release has a non-empty tag. |
| Crawl.ProcessRepo | main.go:114-182 | A repository is skipped exactly when it has no usable release. It fails at the detail step exactly when the detail fetch fails, and at the compare step exactly when the comparison fails after a good detail. It is persisted exactly when every step succeeds, and then its record is the snapshot built from the release, the detail and the commits. |
| Crawl.SnapshotsCount | main.go:113-183 | One snapshot is written per repository that passes every step. |
| Crawl.SnapshotsPassed | main.go:165-182 | Every written snapshot comes from a listed repository that passed every step, and carries that repository's name. |
| Crawl.OutcomesPartition | main.go:114-183 | Persisted, skipped and failed repositories add up to the number listed. |
| Crawl.ProcessAll | main.go:113-183 | The loop writes exactly the reference snapshots, in listing order. `processedCount` is their number. That number equals the count of repositories that pass every step, and the listing size minus the skipped and failed ones, so it never exceeds the listing size. |
| Crawl.RunCrawl | main.go:106-183 | A failed listing aborts the crawl with the listing's error. Otherwise every listed repository is processed, whatever the `limit` (zero or below means no cap), and `found` is the listing size. |
| Crawl.FailedLookupIsSkipped | main.go:118-122 | A repository whose release lookup errors is counted as skipped, not failed. Passing repositories, including one with no unreleased commits, are persisted in order. |
| Generate.BelowAsymmetric | main.go:246-248 | Byte-wise string order is asymmetric. |
| Generate.BelowTransitive | main.go:246-248 | Byte-wise string order is transitive. |
| Generate.BelowTotal | main.go:246-248 | Any two distinct names are ordered one way or the other. |
| Generate.NotBelowTransitive | main.go:246-248 | "Not strictly before" is transitive, the fact the sort relies on. |
| Generate.Insert | main.go:246-248 | Inserting into a name-sorted list keeps it sorted and adds exactly the one record. |
| Generate.SortByName | main.go:246-248 | The output is in non-decreasing name order and is a permutation of the input. |
| Generate.KeptPositions | main.go:221-240 | The positions of the files the loop keeps (decoded, not `timestamp.json`), strictly increasing, with every kept position listed. |
| Generate.LoadSnapshots | main.go:221-240 | Snapshot k is the decoded value of the k-th kept file in directory order, so there is exactly one snapshot per kept file, duplicates included. |
| Generate.LoadSnapshotsMembers | main.go:221-240 | Every loaded snapshot comes from a decoded file that is not `timestamp.json`, and every such file's snapshot is loaded. |
| Generate.LoadForRendering | main.go:242-248 | Rendering aborts exactly when no file was kept. Otherwise the snapshots to render are sorted by name and are a permutation of the loaded ones. |
| Generate.TimestampRepositoryNotLoaded | main.go:175-176 | A repository named `timestamp` gets the file name `timestamp.json`, the crawl timestamp's file. A data file of that name holding its snapshot is not loaded. |
| Generate.FooterText | main.go:353-358 | The footer text is empty exactly when the time is the zero time. |
| Generate.LastUpdated | main.go:211-219 | The last-updated text is empty exactly when the timestamp could not be loaded or holds the zero time. |
| Colors.Round | templates.go:15-17 | The rounded value is within one half of its argument, with halves going away from zero. |
| Colors.PartWayBetween | templates.go:15-17 | A point part of the way from one channel value to another lies between them. |
| Colors.Blend | templates.go:15-17 | Factor 0 gives the first channel value and factor 1 gives the second. Any factor in [0,1] gives a value between them. |
| Colors.Interpolate | templates.go:14-19 | Factor 0 gives the first colour and factor 1 gives the second. Any factor in [0,1] keeps every channel between the two colours. |
| Colors.ColorForValue | templates.go:22-37 | Values 0, 0.5 and 1 give green (16,185,129), yellow (251,191,36) and red (239,68,68). Values below 0.5 land on the green-to-yellow segment and the rest on the yellow-to-red segment, every channel a byte. |
| Colors.TextColor | templates.go:40-45 | The text is white exactly when the value is above 0.6, and black otherwise. |
| Colors.WhiteTextOnWarmSide | templates.go:28-45 | White text only appears on the yellow-to-red segment, on a background less green than yellow. |
| Summary.WholeDays | templates.go:77 | Whole days of a duration, truncated toward zero. |
| Summary.DaysBehind | templates.go:72-78 | Days behind is 0 with no commits or no release time. Otherwise it is the whole days from the release to commit index 0, truncated toward zero. |
| Summary.DaysSinceRelease | templates.go:80-83 | Days since release is 0 with no release time. Otherwise it is the whole days from the release to `now`, truncated toward zero. |
| Summary.CommitCounts | templates.go:66 | One commit count per repository, in order, each the length of its commit list. |
| Summary.BehindDays | templates.go:72-78 | One days-behind value per repository, in order. |
| Summary.SinceDays | templates.go:80-83 | One days-since-release value per repository, in order. |
| Summary.MinOrZero | templates.go:86-88 | For a non-empty list the minimum is a value of the list and is at most every value. An empty list gives 0. |
| Summary.MaxFromZero | templates.go:89-91 | The maximum is at least every value and at least 0, and it is 0 or a value of the list. |
| Summary.SentinelScanAgrees | templates.go:86-88 | With no negative values, the scan that uses the -1 sentinel ends at -1 for no values and at the least value otherwise. |
| Summary.SentinelMinAgrees | templates.go:119-128 | With no negative values, the sentinel minimum after its zero default is the least value, or 0 for none. |
| Summary.SentinelCollides | templates.go:93-98 | A real value of -1 is taken for "unset": [-1, 5] gives minimum 5 and [-1] gives 0, where the least values are -1. |
| Summary.SpanStep | templates.go:86-91 | One scan step: the first value, or a smaller one, becomes the minimum, and a larger one becomes the maximum. |
| Summary.TotalsStep | templates.go:66-70 | One scan step adds the count to the total, and counts the repository when its count is positive. |
| Summary.SpanOf | templates.go:119-128 | Every value lies in the range, and an empty list gives the range 0 to 0. |
| Summary.SpanOfNonNegative | templates.go:86-91 | For a non-empty list of non-negative values, the range runs from the least value to the greatest, and both occur in the list. |
| Summary.SourceSpanAgrees | templates.go:93-98 | With no negative values, the range as written (sentinel minimum, maximum from 0) is the range the model scales over. |
| Summary.Normalized | templates.go:133-135 | With a positive range, a value inside it scales into [0,1], to 0 exactly at the minimum and to 1 exactly at the maximum. With no positive range the scaled value is 0. |
| Summary.NormalizedMonotone | templates.go:135 | Scaling keeps the order of values. |
| Summary.SwatchFor | templates.go:133-141 | A zero range gives green on black text. Inside a positive range, the minimum gets green on black and the maximum red on white. Every value in the range gets a byte colour. |
| Summary.SummaryOf | templates.go:107-116 | A summary copies the name, release tag, repository URL and branch. Its URL is the name plus ".html". Its metrics are the repository's, and each swatch comes from the matching range. |
| Summary.Accumulate | templates.go:65-105 | One pass yields the sum, the number of positive values and the range of a metric, with the corrected minimum (the least value). |
| Summary.BuildIndex | templates.go:47-207 | The page totals every commit and counts the repositories that have commits. It has one summary per repository, in input order, each coloured by the three metric ranges. The owner is taken from the first repository, or is empty. |
| Summary.SwatchInSpan | templates.go:130-141 | A value of a metric gets a byte colour from that metric's range. |
| Summary.IndexColorsInRange | templates.go:119-164 | Every cell of every row gets a byte colour. With no repositories, all six range ends are 0. |
| Summary.SentinelPageColour | templates.go:93-98 | On days behind [-1, 5, 3] the range as written is 3 to 5, the -1 row scales to -2, and its background is not a byte colour. Over the least value the same row is green on black. |
| Summary.IndexSpansAsWritten | templates.go:86-128 | The commit-count range as written always equals the model's. The days-behind range does when no value is negative. The days-since range does when no release is later than `now`. |

## Left out

- The GitHub client, the oauth2 token and the `GITHUB_TOKEN` lookup are left out. Their answers are inputs: pages, release lookups and repository details.
- Directory creation, file reads and writes, JSON encoding and decoding, and `filepath.Glob` are left out. A data file is given as its base name with its decoded snapshot or an error, and a snapshot write as an optional error.
- The crawl-timestamp write (main.go:185-191) is left out, and the model does not tie a snapshot's file name to `Generate.DataFile`. The timestamp goes to `timestamp.json`, the same file as the snapshot of a repository named `timestamp`. That snapshot is replaced after being counted in `processedCount`, and the loader would skip it anyway (`Generate.TimestampRepositoryNotLoaded`). `Crawl.RunCrawl` still lists such a snapshot among the written ones.
- Flag parsing, `log.Fatal` exits and progress printing are left out. A fatal error becomes a `Failure` result.
- `time.Now` and `time.Since` are left out; `now` is a parameter.
- Go's time layout formatting is left out. The rendered date is the `rendered` parameter of `Generate.FooterText`.
- The `%02x` hex formatting of colours is left out; colours stay as channel values.
- Templates, CSS and `generateRepoPage`'s rendering are left out.
- Summary.DaysBehind: float64 is idealised as exact arithmetic. `Hours()` and the division by 24 become truncating integer division of nanoseconds, and the saturation of Go's 64-bit `Duration` is not modelled.
- Summary.WholeDays and Summary.DaysSinceRelease: the same idealisation, including the saturation of `time.Since` (templates.go:82). The source reads the clock once per repository. The model uses one `now` for the whole page.
- Colors.Round: float64 is idealised as exact reals. A factor so close to a half that float64 rounding would land on the other side is not modelled.
- Summary.Normalized: the normalised value is an exact real, not a float64 quotient.
- Generate.SortByName: Go's `sort.Slice` is not stable. The model sorts by insertion and claims only the name order and the permutation, so the order among records with equal names is not pinned down.
- Commit metadata is always present in the model. main.go:155 reads `c.Commit.Author` with no nil check, so a missing `Commit` would panic rather than take the "unknown" branch.
- Summary.Accumulate: the minimum is the corrected one (see "## Findings"). It starts from the first value, not from the -1 sentinel. It agrees with the source only when no value is negative (`Summary.SourceSpanAgrees`).
- Summary.BuildIndex: the three ranges use the corrected minimum. The page as written differs when a metric is negative; for days behind [-1, 5, 3] its range is 3 to 5 (`Summary.SentinelPageColour`). `Summary.IndexSpansAsWritten` says when the two agree.
- Summary.SpanOf: the corrected range. The source's range is `Summary.SourceSpan`, which can leave a -1 value outside it.
- Summary.SpanStep: models the corrected step (`i == 0`), not the `== -1` test of templates.go:86, 93 and 100.
- Summary.SwatchInSpan: holds for the corrected range. With the range as written, a value of -1 can fall outside it and get a colour off the scale.
- Summary.IndexColorsInRange: holds for the corrected page. As written, days behind [-1, 5, 3] give the -1 row a colour with a negative channel (`Summary.SentinelPageColour`).
- The repository listing starts at page 0, the unset page number, and the comparison at page 1. Both are kept as written.

## Findings

| source | as written | input that shows it | evidently intended | confidence | as-written member | corrected member |
|---|---|---|---|---|---|---|
| templates.go:93-98 | The running minimum uses -1 to mean "unset", and a real metric can be -1. Days behind is -1 when the newest commit was authored one to two days before the release was published. | Days behind [-1, 5]: the second value replaces the -1, so the minimum is 5. Days behind [-1] becomes 0 after the defaults of lines 123-125. On the page, days behind [-1, 5, 3] give the range 3 to 5, so the -1 row scales to -2 and gets a background with a negative red channel. | The minimum is the least value, initialised from the first one: -1 in all three cases, and every row stays on the colour scale. | not executed | Summary.SentinelCollides, Summary.SentinelPageColour | Summary.MinOrZero, Summary.IndexColorsInRange |
