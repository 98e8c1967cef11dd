/** From raw release rows to one candidate row per package version:
    non-compliant and prerelease rows are dropped, then republished versions
    are collapsed onto their most recently dated row (data/convert.py:80-95). */
module Releases {
  import opened Options
  import opened Seqs
  import opened Sorting
  import opened Strings
  import opened Versions

  /** A release row after the version string was split into components. A
      component is missing when the version string did not have the
      `major.minor.patch` shape; `misc` holds a prerelease or build suffix. */
  datatype RawRelease = RawRelease(
    package: string,
    version: string,
    date: int,
    major: Option<nat>,
    minor: Option<nat>,
    patch: Option<nat>,
    misc: Option<string>)

  /** A release row as loaded: package, version string and date. */
  datatype ReleaseRow = ReleaseRow(package: string, version: string, date: int)

  /** The capture groups of the version pattern; a group that did not match is
      missing. */
  datatype Components = Components(major: Option<nat>, minor: Option<nat>, patch: Option<nat>, misc: Option<string>)

  /** The components of every row are a function of its version string. */
  ghost predicate VersionDeterminesComponents(rows: seq<RawRelease>) {
    forall i, j :: 0 <= i < |rows| && 0 <= j < |rows| && rows[i].version == rows[j].version ==>
      rows[i].major == rows[j].major && rows[i].minor == rows[j].minor
      && rows[i].patch == rows[j].patch && rows[i].misc == rows[j].misc
  }

  /** Line 77: `str.extract` applies one pattern, here `extract`, to each
      version string. Each row keeps its package, version and date, in place,
      and rows with the same version string get the same components. */
  function SplitVersions(rows: seq<ReleaseRow>, extract: string -> Components): (r: seq<RawRelease>)
    ensures |r| == |rows|
    ensures forall i :: 0 <= i < |rows| ==>
      r[i].package == rows[i].package && r[i].version == rows[i].version && r[i].date == rows[i].date
    ensures VersionDeterminesComponents(r)
  {
    seq(|rows|, i requires 0 <= i < |rows| =>
      var c := extract(rows[i].version);
      RawRelease(rows[i].package, rows[i].version, rows[i].date, c.major, c.minor, c.patch, c.misc))
  }

  /** A release row that survived the filters: it has a full numeric triple. */
  datatype Release = Release(package: string, version: string, date: int, triple: Triple)

  predicate Compliant(r: RawRelease) {
    r.major.Some? && r.minor.Some? && r.patch.Some?
  }

  predicate IsFinal(r: RawRelease) {
    r.misc.None?
  }

  function ToRelease(r: RawRelease): Release
    requires Compliant(r)
  {
    Release(r.package, r.version, r.date, Triple(r.major.value, r.minor.value, r.patch.value))
  }

  /** Convert rows that all have a full triple. */
  function ToReleases(rows: seq<RawRelease>): (r: seq<Release>)
    requires forall raw :: raw in rows ==> Compliant(raw)
    ensures forall x :: x in r <==> exists raw :: raw in rows && x == ToRelease(raw)
  {
    if |rows| == 0 then []
    else [ToRelease(rows[0])] + ToReleases(rows[1..])
  }

  /** The surviving rows, with their versions as triples: drop the rows missing
      a component, then the prereleases. */
  function Candidates(rows: seq<RawRelease>): (r: seq<Release>)
    ensures forall x :: x in r <==>
      exists raw :: raw in rows && Compliant(raw) && IsFinal(raw) && x == ToRelease(raw)
  {
    ToReleases(Filter(Filter(rows, Compliant), IsFinal))
  }

  /** The deduplication key: a package version. */
  function Key(r: Release): (string, Triple) {
    (r.package, r.triple)
  }

  /** `sort_values(['package', 'date'])`. */
  predicate ByPackageDate(a: Release, b: Release) {
    StringLess(a.package, b.package) || (a.package == b.package && a.date <= b.date)
  }

  lemma ByPackageDateTotalPreorder()
    ensures TotalPreorder(ByPackageDate)
  {
    forall a, b ensures ByPackageDate(a, b) || ByPackageDate(b, a) {
      if a.package != b.package {
        StringLessTotal(a.package, b.package);
      }
    }
    forall a, b, c | ByPackageDate(a, b) && ByPackageDate(b, c) ensures ByPackageDate(a, c) {
      if StringLess(a.package, b.package) && StringLess(b.package, c.package) {
        StringLessTransitive(a.package, b.package, c.package);
      }
    }
  }

  /** `drop_duplicates(key, keep='last')`: a row survives when no later row
      has the same key. */
  function KeepLast(s: seq<Release>): (r: seq<Release>)
    ensures multiset(r) <= multiset(s)
  {
    if |s| == 0 then []
    else
      assert s == [s[0]] + s[1..];
      (if exists k | 1 <= k < |s| :: Key(s[k]) == Key(s[0]) then [] else [s[0]]) + KeepLast(s[1..])
  }

  /** Lines 88-94: order by package and date, then keep the last row of each
      package version. */
  function Deduplicate(rows: seq<Release>): (r: seq<Release>)
    ensures multiset(r) <= multiset(rows)
  {
    ByPackageDateTotalPreorder();
    KeepLast(SortBy(rows, ByPackageDate))
  }

  /** No two rows that `KeepLast` keeps share a key. */
  lemma {:induction false} KeepLastUniqueKeys(s: seq<Release>)
    ensures NoDuplicates(Map(Key, KeepLast(s)))
  {
    if |s| > 0 {
      var rest := KeepLast(s[1..]);
      KeepLastUniqueKeys(s[1..]);
      if !exists k | 1 <= k < |s| :: Key(s[k]) == Key(s[0]) {
        assert KeepLast(s) == [s[0]] + rest;
        var keys := Map(Key, KeepLast(s));
        forall i, j | 0 <= i < j < |keys| ensures keys[i] != keys[j] {
          if i == 0 {
            var y := rest[j - 1];
            assert y in multiset(s[1..]);
            var k :| 0 <= k < |s[1..]| && s[1..][k] == y;
            assert s[k + 1] == y;
          } else {
            assert keys[i] == Map(Key, rest)[i - 1] && keys[j] == Map(Key, rest)[j - 1];
          }
        }
      } else {
        assert KeepLast(s) == rest;
      }
    }
  }

  /** Every row `KeepLast` keeps is the last row of its key. */
  lemma {:induction false} KeepLastKeepsLastOccurrence(s: seq<Release>, y: Release) returns (k: nat)
    requires y in KeepLast(s)
    ensures k < |s| && s[k] == y
    ensures forall j :: k < j < |s| ==> Key(s[j]) != Key(y)
  {
    var rest := KeepLast(s[1..]);
    if y in rest {
      var k' := KeepLastKeepsLastOccurrence(s[1..], y);
      k := k' + 1;
      assert forall j :: k < j < |s| ==> s[j] == s[1..][j - 1];
    } else {
      k := 0;
    }
  }

  /** Every key of the input is represented among the rows `KeepLast` keeps. */
  lemma {:induction false} KeepLastCoversKeys(s: seq<Release>, i: nat)
    requires i < |s|
    ensures exists y :: y in KeepLast(s) && Key(y) == Key(s[i])
    decreases |s| - i
  {
    var later := set k | i < k < |s| && Key(s[k]) == Key(s[i]);
    if later == {} {
      assert forall k :: i < k < |s| ==> (Key(s[k]) == Key(s[i]) ==> k in later);
      KeepLastKeepsSuffixRow(s, i);
    } else {
      var k :| k in later;
      KeepLastCoversKeys(s, k);
    }
  }

  /** A row with no later row of the same key is kept. */
  lemma {:induction false} KeepLastKeepsSuffixRow(s: seq<Release>, i: nat)
    requires i < |s|
    requires forall k :: i < k < |s| ==> Key(s[k]) != Key(s[i])
    ensures s[i] in KeepLast(s)
  {
    if i > 0 {
      assert forall k :: i - 1 < k < |s[1..]| ==> s[1..][k] == s[k + 1];
      KeepLastKeepsSuffixRow(s[1..], i - 1);
    }
  }

  /** After deduplication there is at most one row per package version. */
  lemma DeduplicateUniqueKeys(rows: seq<Release>)
    ensures NoDuplicates(Map(Key, Deduplicate(rows)))
  {
    ByPackageDateTotalPreorder();
    KeepLastUniqueKeys(SortBy(rows, ByPackageDate));
  }

  /** Every package version of the input survives deduplication. */
  lemma DeduplicateCoversEveryKey(rows: seq<Release>, x: Release)
    requires x in rows
    ensures exists y :: y in Deduplicate(rows) && Key(y) == Key(x)
  {
    ByPackageDateTotalPreorder();
    var sorted := SortBy(rows, ByPackageDate);
    assert x in multiset(sorted);
    var i :| 0 <= i < |sorted| && sorted[i] == x;
    KeepLastCoversKeys(sorted, i);
  }

  /** The row kept for a package version is dated no earlier than any of its
      duplicates: the latest metadata wins. */
  lemma DeduplicateKeepsLatest(rows: seq<Release>, x: Release, y: Release)
    requires x in rows
    requires y in Deduplicate(rows)
    requires Key(x) == Key(y)
    ensures x.date <= y.date
  {
    ByPackageDateTotalPreorder();
    var sorted := SortBy(rows, ByPackageDate);
    var k := KeepLastKeepsLastOccurrence(sorted, y);
    assert x in multiset(sorted);
    var i :| 0 <= i < |sorted| && sorted[i] == x;
    assert i <= k;
    if i < k {
      assert ByPackageDate(sorted[i], sorted[k]);
      StringLessIrreflexive(x.package);
    }
  }
}
