/** Per-package ranking of the deduplicated releases (data/convert.py:98-120):
    within a package, `rank` numbers the releases in version order and
    `rank_date` numbers them by date, ties going to the smaller `rank`; the
    groups are then put back together, ordered by package and rank. */
module Ranking {
  import opened Options
  import opened Seqs
  import opened Sorting
  import opened Strings
  import opened Versions
  import opened Releases

  /** A release with its position in version order. */
  datatype VersionRanked = VersionRanked(release: Release, rank: nat)

  /** An output release row: the release, `rank` and `rank_date`. */
  datatype RankedRelease = RankedRelease(release: Release, rank: nat, rankDate: nat)

  function ReleaseOf(x: RankedRelease): Release { x.release }
  function RankOf(x: RankedRelease): nat { x.rank }
  function RankDateOf(x: RankedRelease): nat { x.rankDate }
  function PackageOf(r: Release): string { r.package }
  function RankedKey(x: RankedRelease): (string, Triple) { Key(x.release) }

  /** `sort_values(['major', 'minor', 'patch'])`. */
  predicate ByVersion(a: Release, b: Release) {
    !TripleLess(b.triple, a.triple)
  }

  /** `sort_values(['date', 'rank'])`. */
  predicate ByDateRank(a: VersionRanked, b: VersionRanked) {
    a.release.date < b.release.date || (a.release.date == b.release.date && a.rank <= b.rank)
  }

  /** `sort_values(['package', 'rank'])`. */
  predicate ByPackageRank(a: RankedRelease, b: RankedRelease) {
    StringLess(a.release.package, b.release.package)
    || (a.release.package == b.release.package && a.rank <= b.rank)
  }

  /** Strict `(date, rank)` order between two output rows. */
  predicate DateRankBefore(a: RankedRelease, b: RankedRelease) {
    a.release.date < b.release.date || (a.release.date == b.release.date && a.rank < b.rank)
  }

  lemma ByVersionTotalPreorder()
    ensures TotalPreorder(ByVersion)
  {
  }

  lemma ByDateRankTotalPreorder()
    ensures TotalPreorder(ByDateRank)
  {
  }

  lemma ByPackageRankTotalPreorder()
    ensures TotalPreorder(ByPackageRank)
  {
    forall a, b ensures ByPackageRank(a, b) || ByPackageRank(b, a) {
      if a.release.package != b.release.package {
        StringLessTotal(a.release.package, b.release.package);
      }
    }
    forall a, b, c | ByPackageRank(a, b) && ByPackageRank(b, c) ensures ByPackageRank(a, c) {
      if StringLess(a.release.package, b.release.package) && StringLess(b.release.package, c.release.package) {
        StringLessTransitive(a.release.package, b.release.package, c.release.package);
      }
    }
  }

  /** `rank = d.assign(N=1).N.cumsum()` over the rows in version order: the
      running count of rows is each row's 1-based position. */
  function NumberByVersion(s: seq<Release>): (r: seq<VersionRanked>)
    ensures |r| == |s|
    ensures forall i :: 0 <= i < |s| ==> r[i] == VersionRanked(s[i], i + 1)
  {
    var ranks := CumSum(Ones(|s|));
    CumSumOfOnes(|s|);
    seq(|s|, i requires 0 <= i < |s| => VersionRanked(s[i], ranks[i]))
  }

  /** `rank_date = d.assign(N=1).N.cumsum()` over the rows in date order: the
      running count of rows is each row's 1-based position. */
  function NumberByDate(s: seq<VersionRanked>): (r: seq<RankedRelease>)
    ensures |r| == |s|
    ensures forall i :: 0 <= i < |s| ==> r[i] == RankedRelease(s[i].release, s[i].rank, i + 1)
  {
    var ranks := CumSum(Ones(|s|));
    CumSumOfOnes(|s|);
    seq(|s|, i requires 0 <= i < |s| => RankedRelease(s[i].release, s[i].rank, ranks[i]))
  }

  /** The releases of one package in version order. */
  function ByVersionOrder(g: seq<Release>): (r: seq<Release>)
    ensures multiset(r) == multiset(g)
    ensures |r| == |g|
    ensures SortedBy(r, ByVersion)
  {
    ByVersionTotalPreorder();
    SortBy(g, ByVersion)
  }

  /** Lines 102-112: rank one package's releases by version, then by date. */
  function RankGroup(g: seq<Release>): (r: seq<RankedRelease>)
    ensures |r| == |g|
  {
    ByDateRankTotalPreorder();
    NumberByDate(SortBy(NumberByVersion(ByVersionOrder(g)), ByDateRank))
  }

  /** Where an output row of a group comes from: its release sits at position
      `rank - 1` of the version order. */
  lemma RankGroupOrigin(g: seq<Release>, a: RankedRelease) returns (i: nat)
    requires a in RankGroup(g)
    ensures i < |g| && ByVersionOrder(g)[i] == a.release && a.rank == i + 1
  {
    ByDateRankTotalPreorder();
    var numbered := NumberByVersion(ByVersionOrder(g));
    var byDate := SortBy(numbered, ByDateRank);
    var k :| 0 <= k < |RankGroup(g)| && RankGroup(g)[k] == a;
    assert byDate[k] in multiset(numbered);
    var j :| 0 <= j < |numbered| && numbered[j] == byDate[k];
    assert |ByVersionOrder(g)| == |multiset(g)| == |g|;
    i := j;
  }

  /** A group's output rows are its input releases, rearranged. */
  lemma RankGroupPermutesReleases(g: seq<Release>)
    ensures multiset(Map(ReleaseOf, RankGroup(g))) == multiset(g)
  {
    ByDateRankTotalPreorder();
    var sorted := ByVersionOrder(g);
    var numbered := NumberByVersion(sorted);
    var byDate := SortBy(numbered, ByDateRank);
    var project := (x: VersionRanked) => x.release;
    assert Map(ReleaseOf, RankGroup(g)) == Map(project, byDate);
    MapPreservesPermutation(project, byDate, numbered);
    assert Map(project, numbered) == sorted;
  }

  /** Within a group `rank` takes each value 1..N exactly once, and `rank_date`
      is 1..N in output order. */
  lemma RankGroupRanksArePermutation(g: seq<Release>)
    ensures multiset(Map(RankOf, RankGroup(g))) == multiset(Iota(|g|))
    ensures Map(RankDateOf, RankGroup(g)) == Iota(|g|)
  {
    ByDateRankTotalPreorder();
    var sorted := ByVersionOrder(g);
    var numbered := NumberByVersion(sorted);
    var byDate := SortBy(numbered, ByDateRank);
    var project := (x: VersionRanked) => x.rank;
    assert Map(RankOf, RankGroup(g)) == Map(project, byDate);
    MapPreservesPermutation(project, byDate, numbered);
    assert |sorted| == |multiset(sorted)| == |g|;
    assert Map(project, numbered) == Iota(|g|);
  }

  /** Within a group, a release with a smaller version gets a smaller `rank`,
      and a smaller `rank` never goes to a larger version. */
  lemma RankGroupFollowsVersion(g: seq<Release>, a: RankedRelease, b: RankedRelease)
    requires a in RankGroup(g) && b in RankGroup(g)
    ensures TripleLess(a.release.triple, b.release.triple) ==> a.rank < b.rank
    ensures a.rank < b.rank ==> !TripleLess(b.release.triple, a.release.triple)
  {
    var i := RankGroupOrigin(g, a);
    var j := RankGroupOrigin(g, b);
    ByVersionTotalPreorder();
    if TripleLess(a.release.triple, b.release.triple) {
      StrictlyBeforeMeansEarlier(ByVersionOrder(g), ByVersion, i, j);
    }
  }

  /** Within a group, `rank_date` follows `(date, rank)` order. */
  lemma RankGroupFollowsDate(g: seq<Release>, a: RankedRelease, b: RankedRelease)
    requires a in RankGroup(g) && b in RankGroup(g)
    ensures DateRankBefore(a, b) ==> a.rankDate < b.rankDate
    ensures a.rankDate < b.rankDate ==> !DateRankBefore(b, a)
  {
    ByDateRankTotalPreorder();
    var byDate := SortBy(NumberByVersion(ByVersionOrder(g)), ByDateRank);
    var out := RankGroup(g);
    var k :| 0 <= k < |out| && out[k] == a;
    var l :| 0 <= l < |out| && out[l] == b;
    if DateRankBefore(a, b) {
      StrictlyBeforeMeansEarlier(byDate, ByDateRank, k, l);
    }
    if k < l {
      assert ByDateRank(byDate[k], byDate[l]);
    }
  }

  /** Every output row of a group belongs to the group's package. */
  lemma RankGroupStaysInPackage(rs: seq<Release>, p: string, x: RankedRelease)
    requires x in RankGroup(GroupOf(rs, p))
    ensures x.release.package == p
  {
    RankGroupPermutesReleases(GroupOf(rs, p));
    var k :| 0 <= k < |RankGroup(GroupOf(rs, p))| && RankGroup(GroupOf(rs, p))[k] == x;
    assert Map(ReleaseOf, RankGroup(GroupOf(rs, p)))[k] == x.release;
    assert x.release in multiset(GroupOf(rs, p));
  }

  /** `groupby('package')`: the releases of one package. */
  function GroupOf(rs: seq<Release>, p: string): seq<Release> {
    Filter(rs, (r: Release) => r.package == p)
  }

  /** The releases whose package is one of `ps`. */
  function InPackages(rs: seq<Release>, ps: seq<string>): seq<Release> {
    Filter(rs, (r: Release) => r.package in ps)
  }

  /** The output rows of one package. */
  function RowsOf(out: seq<RankedRelease>, p: string): seq<RankedRelease> {
    Filter(out, (x: RankedRelease) => x.release.package == p)
  }

  /** Lines 101-113 and 117: rank every group, in group order, and concatenate. */
  function RankAllGroups(rs: seq<Release>, ps: seq<string>): (r: seq<RankedRelease>)
    ensures forall x :: x in r ==> x.release.package in ps
    decreases |ps|
  {
    if |ps| == 0 then []
    else
      RankGroupInPackage(rs, ps[0]);
      RankGroup(GroupOf(rs, ps[0])) + RankAllGroups(rs, ps[1..])
  }

  /** Every row of a package's ranked group belongs to that package. */
  lemma RankGroupInPackage(rs: seq<Release>, p: string)
    ensures forall x :: x in RankGroup(GroupOf(rs, p)) ==> x.release.package == p
  {
    forall x | x in RankGroup(GroupOf(rs, p)) ensures x.release.package == p {
      RankGroupStaysInPackage(rs, p, x);
    }
  }

  /** Lines 98-120: rank the releases of every package and order the result
      by package, then rank. */
  function RankReleases(rs: seq<Release>): (r: seq<RankedRelease>)
    ensures SortedBy(r, ByPackageRank)
  {
    ByPackageRankTotalPreorder();
    SortBy(RankAllGroups(rs, Distinct(Map(PackageOf, rs))), ByPackageRank)
  }

  /** Lines 99-117 as they run: `pandas.concat` raises on an empty list of
      groups, which happens exactly when no release is left; otherwise the
      result is the ranked table. */
  function RankedTable(rs: seq<Release>): (r: Option<seq<RankedRelease>>)
    ensures r.None? <==> |rs| == 0
    ensures r.Some? ==> r.value == RankReleases(rs)
  {
    DistinctIsEmptyOnlyWhenEmpty(Map(PackageOf, rs));
    if |Distinct(Map(PackageOf, rs))| == 0 then None else Some(RankReleases(rs))
  }

  /** How often a row occurs in the concatenation: as often as in its own
      package's group when that package is listed, never otherwise. */
  lemma {:induction false} RankAllGroupsCounts(rs: seq<Release>, ps: seq<string>, x: RankedRelease)
    requires NoDuplicates(ps)
    ensures multiset(RankAllGroups(rs, ps))[x] ==
      if x.release.package in ps then multiset(RankGroup(GroupOf(rs, x.release.package)))[x] else 0
    decreases |ps|
  {
    if |ps| > 0 {
      var tail := ps[1..];
      assert NoDuplicates(tail) by {
        forall i, j | 0 <= i < j < |tail| ensures tail[i] != tail[j] {
          assert tail[i] == ps[i + 1] && tail[j] == ps[j + 1];
        }
      }
      RankAllGroupsCounts(rs, tail, x);
      var head := RankGroup(GroupOf(rs, ps[0]));
      assert RankAllGroups(rs, ps) == head + RankAllGroups(rs, tail);
      assert multiset(RankAllGroups(rs, ps))[x] == multiset(head)[x] + multiset(RankAllGroups(rs, tail))[x];
      assert ps[0] !in tail;
      assert x.release.package in ps <==> x.release.package == ps[0] || x.release.package in tail;
      if x in head {
        RankGroupStaysInPackage(rs, ps[0], x);
      }
    }
  }

  /** The concatenated groups hold exactly the releases of the listed packages. */
  lemma {:induction false} RankAllGroupsPermutesReleases(rs: seq<Release>, ps: seq<string>)
    requires NoDuplicates(ps)
    ensures multiset(Map(ReleaseOf, RankAllGroups(rs, ps))) == multiset(InPackages(rs, ps))
    decreases |ps|
  {
    if |ps| == 0 {
      assert forall r :: multiset(InPackages(rs, ps))[r] == 0;
    } else {
      var tail := ps[1..];
      assert NoDuplicates(tail) by {
        forall i, j | 0 <= i < j < |tail| ensures tail[i] != tail[j] {
          assert tail[i] == ps[i + 1] && tail[j] == ps[j + 1];
        }
      }
      RankAllGroupsPermutesReleases(rs, tail);
      var head := RankGroup(GroupOf(rs, ps[0]));
      RankGroupPermutesReleases(GroupOf(rs, ps[0]));
      assert RankAllGroups(rs, ps) == head + RankAllGroups(rs, tail);
      MapAppend(ReleaseOf, head, RankAllGroups(rs, tail));
      InPackagesSplit(rs, ps);
    }
  }

  /** The releases of the listed packages are those of the first package plus
      those of the rest. */
  lemma InPackagesSplit(rs: seq<Release>, ps: seq<string>)
    requires NoDuplicates(ps) && |ps| > 0
    ensures multiset(InPackages(rs, ps)) == multiset(GroupOf(rs, ps[0])) + multiset(InPackages(rs, ps[1..]))
  {
    assert ps[0] !in ps[1..];
    forall r ensures multiset(InPackages(rs, ps))[r] ==
      multiset(GroupOf(rs, ps[0]))[r] + multiset(InPackages(rs, ps[1..]))[r]
    {
      assert r.package in ps <==> r.package == ps[0] || r.package in ps[1..];
    }
  }

  /** The output rows of package `p` are exactly the rows its group produced. */
  lemma RowsOfPackage(rs: seq<Release>, p: string)
    ensures multiset(RowsOf(RankReleases(rs), p)) == multiset(RankGroup(GroupOf(rs, p)))
  {
    forall x ensures multiset(RowsOf(RankReleases(rs), p))[x] == multiset(RankGroup(GroupOf(rs, p)))[x] {
      RowsOfPackageCount(rs, p, x);
    }
  }

  lemma RowsOfPackageCount(rs: seq<Release>, p: string, x: RankedRelease)
    ensures multiset(RowsOf(RankReleases(rs), p))[x] == multiset(RankGroup(GroupOf(rs, p)))[x]
  {
    ByPackageRankTotalPreorder();
    var ps := Distinct(Map(PackageOf, rs));
    var group := RankGroup(GroupOf(rs, p));
    var out := RankReleases(rs);
    assert multiset(RowsOf(out, p))[x] == if x.release.package == p then multiset(out)[x] else 0;
    assert multiset(out)[x] == multiset(RankAllGroups(rs, ps))[x];
    if x.release.package == p {
      RankAllGroupsCounts(rs, ps, x);
      if p !in ps {
        UnlistedPackageHasNoReleases(rs, p);
      }
    } else if x in group {
      RankGroupStaysInPackage(rs, p, x);
    }
  }

  /** A package that no release carries has an empty group. */
  lemma UnlistedPackageHasNoReleases(rs: seq<Release>, p: string)
    requires p !in Distinct(Map(PackageOf, rs))
    ensures |RankGroup(GroupOf(rs, p))| == 0
  {
    forall r | r in rs ensures r.package != p {
      var i :| 0 <= i < |rs| && rs[i] == r;
      assert Map(PackageOf, rs)[i] == r.package;
    }
  }

  /** Every surviving release appears exactly once in the ranked table. */
  lemma RankReleasesPermutesReleases(rs: seq<Release>)
    ensures multiset(Map(ReleaseOf, RankReleases(rs))) == multiset(rs)
  {
    ByPackageRankTotalPreorder();
    var ps := Distinct(Map(PackageOf, rs));
    var all := RankAllGroups(rs, ps);
    MapPreservesPermutation(ReleaseOf, RankReleases(rs), all);
    RankAllGroupsPermutesReleases(rs, ps);
    ListedPackagesCoverReleases(rs);
  }

  /** Every release belongs to a package that `groupby` lists. */
  lemma ListedPackagesCoverReleases(rs: seq<Release>)
    ensures multiset(InPackages(rs, Distinct(Map(PackageOf, rs)))) == multiset(rs)
  {
    var ps := Distinct(Map(PackageOf, rs));
    forall r ensures multiset(InPackages(rs, ps))[r] == multiset(rs)[r] {
      if r in rs {
        var i :| 0 <= i < |rs| && rs[i] == r;
        assert Map(PackageOf, rs)[i] == r.package;
      }
    }
  }

  /** Within each package of N surviving releases, `rank` and `rank_date`
      each take every value 1..N exactly once. */
  lemma RanksArePermutations(rs: seq<Release>, p: string)
    ensures multiset(Map(RankOf, RowsOf(RankReleases(rs), p))) == multiset(Iota(|GroupOf(rs, p)|))
    ensures multiset(Map(RankDateOf, RowsOf(RankReleases(rs), p))) == multiset(Iota(|GroupOf(rs, p)|))
  {
    var rows := RowsOf(RankReleases(rs), p);
    var group := RankGroup(GroupOf(rs, p));
    RowsOfPackage(rs, p);
    RankGroupRanksArePermutation(GroupOf(rs, p));
    MapPreservesPermutation(RankOf, rows, group);
    MapPreservesPermutation(RankDateOf, rows, group);
  }

  /** An output row belongs to the group of its own package. */
  lemma RankedRowInGroup(rs: seq<Release>, a: RankedRelease)
    requires a in RankReleases(rs)
    ensures a in RankGroup(GroupOf(rs, a.release.package))
  {
    var p := a.release.package;
    RowsOfPackage(rs, p);
    assert a in multiset(RowsOf(RankReleases(rs), p));
  }

  /** Between two releases of the same package, a smaller version gets a
      strictly smaller `rank`; when the versions differ this is an equivalence. */
  lemma RankFollowsVersion(rs: seq<Release>, a: RankedRelease, b: RankedRelease)
    requires a in RankReleases(rs) && b in RankReleases(rs)
    requires a.release.package == b.release.package
    ensures TripleLess(a.release.triple, b.release.triple) ==> a.rank < b.rank
    ensures a.release.triple != b.release.triple ==>
      (TripleLess(a.release.triple, b.release.triple) <==> a.rank < b.rank)
  {
    RankedRowInGroup(rs, a);
    RankedRowInGroup(rs, b);
    RankGroupFollowsVersion(GroupOf(rs, a.release.package), a, b);
    RankGroupFollowsVersion(GroupOf(rs, a.release.package), b, a);
  }

  /** Between two releases of the same package, an earlier date (or the same
      date and a smaller `rank`) gets a strictly smaller `rank_date`; for rows
      with different ranks this is an equivalence. */
  lemma RankDateFollowsDate(rs: seq<Release>, a: RankedRelease, b: RankedRelease)
    requires a in RankReleases(rs) && b in RankReleases(rs)
    requires a.release.package == b.release.package
    ensures DateRankBefore(a, b) ==> a.rankDate < b.rankDate
    ensures a.rank != b.rank ==> (DateRankBefore(a, b) <==> a.rankDate < b.rankDate)
  {
    RankedRowInGroup(rs, a);
    RankedRowInGroup(rs, b);
    RankGroupFollowsDate(GroupOf(rs, a.release.package), a, b);
    RankGroupFollowsDate(GroupOf(rs, a.release.package), b, a);
  }

  /** Ranking neither merges nor duplicates package versions: when the input
      has one row per package version, so has the ranked table. */
  lemma RankReleasesKeepsKeysDistinct(rs: seq<Release>)
    requires NoDuplicates(Map(Key, rs))
    ensures NoDuplicates(Map(RankedKey, RankReleases(rs)))
  {
    var out := RankReleases(rs);
    RankReleasesPermutesReleases(rs);
    MapPreservesPermutation(Key, Map(ReleaseOf, out), rs);
    assert Map(Key, Map(ReleaseOf, out)) == Map(RankedKey, out);
    PermutationKeepsNoDuplicates(Map(Key, rs), Map(RankedKey, out));
  }
}
