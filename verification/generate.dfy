/** The generate phase of main.go (`runGenerate`) up to rendering: load the
    persisted snapshots, leave out the crawl-timestamp file and unreadable
    files, sort by repository name, and work out the footer's
    last-updated text. */
module Generate {
  import opened Wrappers
  import opened Records

  /** Base name of the crawl-timestamp file that sits beside the snapshots. */
  const TimestampFile: string := "timestamp.json"

  /** One `*.json` file of the data directory: its base name and the
      snapshot it decodes to, or the read/parse error. */
  datatype DataFile = DataFile(baseName: string, parsed: Result<RepositoryData, string>)

  /** Go's `<` on strings: byte-wise lexicographic order. Comparing code
      points in order gives the same answer as comparing their UTF-8 bytes. */
  predicate Below(a: string, b: string) {
    if |b| == 0 then false
    else if |a| == 0 then true
    else if a[0] != b[0] then a[0] < b[0]
    else Below(a[1..], b[1..])
  }

  lemma {:induction false} BelowAsymmetric(a: string, b: string)
    ensures Below(a, b) ==> !Below(b, a)
  {
    if |a| > 0 && |b| > 0 && a[0] == b[0] {
      BelowAsymmetric(a[1..], b[1..]);
    }
  }

  lemma {:induction false} BelowTransitive(a: string, b: string, c: string)
    requires Below(a, b) && Below(b, c)
    ensures Below(a, c)
  {
    if |a| > 0 && a[0] == b[0] && b[0] == c[0] {
      BelowTransitive(a[1..], b[1..], c[1..]);
    }
  }

  lemma {:induction false} BelowTotal(a: string, b: string)
    ensures Below(a, b) || a == b || Below(b, a)
  {
    if |a| > 0 && |b| > 0 && a[0] == b[0] {
      BelowTotal(a[1..], b[1..]);
      if a[1..] == b[1..] {
        assert a == [a[0]] + a[1..] && b == [b[0]] + b[1..];
      }
    }
  }

  /** "Not strictly before", the order the sort leaves neighbours in, is
      transitive. */
  lemma NotBelowTransitive(a: string, b: string, c: string)
    requires !Below(b, a) && !Below(c, b)
    ensures !Below(c, a)
  {
    BelowTotal(a, b);
    BelowTotal(b, c);
    if a != b && b != c {
      BelowTransitive(a, b, c);
      BelowAsymmetric(a, c);
    }
  }

  /** No name is strictly before an earlier one. */
  predicate SortedByName(rs: seq<RepositoryData>) {
    forall i, j :: 0 <= i < j < |rs| ==> !Below(rs[j].name, rs[i].name)
  }

  /** No record of `rs` has a name strictly before `name`. */
  predicate NoneBelow(name: string, rs: seq<RepositoryData>) {
    forall k :: 0 <= k < |rs| ==> !Below(rs[k].name, name)
  }

  lemma NoneBelowPermutation(name: string, rec: RepositoryData, rs: seq<RepositoryData>, r: seq<RepositoryData>)
    requires multiset(r) == multiset(rs) + multiset{rec}
    requires NoneBelow(name, rs) && !Below(rec.name, name)
    ensures NoneBelow(name, r)
  {
    forall k | 0 <= k < |r|
      ensures !Below(r[k].name, name)
    {
      assert r[k] in multiset(r);
      if r[k] != rec {
        assert r[k] in multiset(rs);
        var m :| 0 <= m < |rs| && rs[m] == r[k];
      }
    }
  }

  function Insert(rec: RepositoryData, rs: seq<RepositoryData>): (r: seq<RepositoryData>)
    requires SortedByName(rs)
    ensures SortedByName(r)
    ensures multiset(r) == multiset(rs) + multiset{rec}
  {
    if |rs| == 0 then [rec]
    else
      assert rs == [rs[0]] + rs[1..];
      if Below(rs[0].name, rec.name) then
        var tail := Insert(rec, rs[1..]);
        BelowAsymmetric(rs[0].name, rec.name);
        NoneBelowPermutation(rs[0].name, rec, rs[1..], tail);
        [rs[0]] + tail
      else
        assert NoneBelow(rec.name, rs) by {
          forall k | 1 <= k < |rs|
            ensures !Below(rs[k].name, rec.name)
          {
            NotBelowTransitive(rec.name, rs[0].name, rs[k].name);
          }
        }
        [rec] + rs
  }

  /** The `sort.Slice` call: the records ordered by name. Go's sort is not
      stable, so only the order of names and the permutation are claimed;
      records with equal names may come in any order. */
  function SortByName(rs: seq<RepositoryData>): (r: seq<RepositoryData>)
    ensures SortedByName(r)
    ensures multiset(r) == multiset(rs)
  {
    if |rs| == 0 then []
    else
      assert rs == [rs[0]] + rs[1..];
      Insert(rs[0], SortByName(rs[1..]))
  }

  /** Whether the loop over the data files keeps `f`. */
  predicate Kept(f: DataFile) {
    f.baseName != TimestampFile && f.parsed.Success?
  }

  /** The positions of the kept files, in directory order. */
  function KeptPositions(files: seq<DataFile>): (ix: seq<nat>)
    ensures |ix| <= |files|
    ensures forall k :: 0 <= k < |ix| ==> ix[k] < |files| && Kept(files[ix[k]])
    ensures forall k, l :: 0 <= k < l < |ix| ==> ix[k] < ix[l]
    ensures forall i :: 0 <= i < |files| && Kept(files[i]) ==> i in ix
  {
    if |files| == 0 then []
    else
      var n := |files| - 1;
      var ix := KeptPositions(files[..n]);
      assert forall i :: 0 <= i < n ==> files[..n][i] == files[i];
      if Kept(files[n]) then ix + [n] else ix
  }

  /** The loop of `runGenerate` that collects snapshots: it skips the
      timestamp file and files that cannot be read or decoded, and keeps
      the rest in directory order. Record k is the decoded value of the
      k-th kept file, so every kept file contributes exactly one record,
      duplicates included. */
  function LoadSnapshots(files: seq<DataFile>): (rs: seq<RepositoryData>)
    ensures |rs| == |KeptPositions(files)| <= |files|
    ensures forall k :: 0 <= k < |rs| ==> rs[k] == files[KeptPositions(files)[k]].parsed.value
  {
    if |files| == 0 then []
    else
      var n := |files| - 1;
      var rest := LoadSnapshots(files[..n]);
      var ix := KeptPositions(files[..n]);
      PrefixValues(files, n, rest, ix);
      if Kept(files[n]) then
        assert KeptPositions(files) == ix + [n];
        rest + [files[n].parsed.value]
      else
        assert KeptPositions(files) == ix;
        rest
  }

  /** Values read at positions below `n` of a prefix are the values at
      the same positions of the whole list. */
  lemma PrefixValues(files: seq<DataFile>, n: nat, rs: seq<RepositoryData>, ix: seq<nat>)
    requires n <= |files| && |rs| == |ix|
    requires forall k :: 0 <= k < |ix| ==>
               ix[k] < n && Kept(files[..n][ix[k]]) && rs[k] == files[..n][ix[k]].parsed.value
    ensures forall k :: 0 <= k < |rs| ==> Kept(files[ix[k]]) && rs[k] == files[ix[k]].parsed.value
  {
  }

  /** Hence the loaded records are exactly the kept files' values: each
      comes from a kept file, and each kept file's value is loaded. */
  lemma LoadSnapshotsMembers(files: seq<DataFile>)
    ensures var rs := LoadSnapshots(files);
            && (forall rec :: rec in rs ==> exists i :: 0 <= i < |files| && Kept(files[i]) && files[i].parsed.value == rec)
            && (forall i :: 0 <= i < |files| && Kept(files[i]) ==> files[i].parsed.value in rs)
  {
    var rs := LoadSnapshots(files);
    var ix := KeptPositions(files);
    forall i | 0 <= i < |files| && Kept(files[i])
      ensures files[i].parsed.value in rs
    {
      var k :| 0 <= k < |ix| && ix[k] == i;
      assert rs[k] == files[i].parsed.value;
    }
  }

  /** Base name of the file a snapshot is written to: the repository name
      with ".json" appended. */
  function SnapshotFileName(name: string): string {
    name + ".json"
  }

  /** A repository named "timestamp" is written to the same file as the
      crawl timestamp, which the crawl writes last and which the loader
      skips: its snapshot, even when it was written, is never loaded. */
  lemma TimestampRepositoryNotLoaded(rec: RepositoryData)
    requires rec.name == "timestamp"
    ensures SnapshotFileName(rec.name) == TimestampFile
    ensures LoadSnapshots([DataFile(SnapshotFileName(rec.name), Success(rec))]) == []
  {
    var name := SnapshotFileName(rec.name);
    assert name == TimestampFile;
    var f := DataFile(name, Success(rec));
    assert !Kept(f);
    assert [f][..0] == [];
  }

  /** What `runGenerate` renders from: the snapshots sorted by name, or the
      fatal error when there are none. */
  function LoadForRendering(files: seq<DataFile>): (r: Result<seq<RepositoryData>, string>)
    ensures r.Failure? <==> forall i :: 0 <= i < |files| ==> !Kept(files[i])
    ensures r.Success? ==> SortedByName(r.value) && multiset(r.value) == multiset(LoadSnapshots(files))
  {
    var rs := LoadSnapshots(files);
    if |rs| == 0 then Failure("No repository JSON files found in data directory. Run with -crawl first.")
    else
      assert rs[0] in rs;
      Success(SortByName(rs))
  }

  /** `formatTimestampForFooter`: nothing for the zero time, otherwise the
      time rendered with the footer layout. `rendered` stands for that
      rendering, which always holds at least the layout's literal " UTC". */
  function FooterText(t: Time, rendered: string): (s: string)
    requires rendered != ""
    ensures s == "" <==> t.IsZero()
    ensures !t.IsZero() ==> s == rendered
  {
    if t.IsZero() then "" else rendered
  }

  /** The footer's last-updated text: empty when the timestamp file could
      not be loaded (missing or unreadable) or holds the zero time. */
  function LastUpdated(loaded: Result<Time, string>, rendered: string): (s: string)
    requires rendered != ""
    ensures s == "" <==> loaded.Failure? || loaded.value.IsZero()
  {
    match loaded
    case Failure(_) => ""
    case Success(t) => FooterText(t, rendered)
  }
}
