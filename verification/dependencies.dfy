/** Linking dependency rows to the ranked release table
    (data/convert.py:133-152): keep a dependency only when its target is a
    known package, then attach the `rank` of the release that declares it,
    matched on `(source, version) == (package, version)`. */
module Dependencies {
  import opened Seqs
  import opened Releases
  import opened Ranking

  /** A dependency row: release `version` of package `source` depends on
      package `target` under the constraint string `constraint`. */
  datatype Dependency = Dependency(source: string, version: string, target: string, constraint: string)

  /** A dependency row with the `rank` of its declaring release. */
  datatype RankedDependency =
    RankedDependency(source: string, version: string, target: string, constraint: string, rank: nat)

  /** The packages of the ranked release table. */
  function KnownPackages(releases: seq<RankedRelease>): set<string> {
    set x | x in releases :: x.release.package
  }

  /** The merge condition `(source, version) == (package, version)`. */
  predicate Declares(x: RankedRelease, d: Dependency) {
    x.release.package == d.source && x.release.version == d.version
  }

  function WithRank(d: Dependency, rank: nat): RankedDependency {
    RankedDependency(d.source, d.version, d.target, d.constraint, rank)
  }

  function ReleaseKey(x: RankedRelease): (string, string) {
    (x.release.package, x.release.version)
  }

  predicate HasDeclaringRelease(releases: seq<RankedRelease>, d: Dependency) {
    exists x | x in releases :: Declares(x, d)
  }

  /** Lines 135-138: the dependencies whose target is a known package. */
  function KeepKnownTargets(deps: seq<Dependency>, releases: seq<RankedRelease>): (r: seq<Dependency>)
    ensures forall d :: multiset(r)[d] ==
                        if d.target in KnownPackages(releases) then multiset(deps)[d] else 0
    ensures forall d :: d in r <==> d in deps && d.target in KnownPackages(releases)
  {
    var known := KnownPackages(releases);
    Filter(deps, (d: Dependency) => d.target in known)
  }

  /** The rows an inner merge produces for one dependency: one per release
      declaring it, in release order. */
  function MergeOne(d: Dependency, releases: seq<RankedRelease>): (r: seq<RankedDependency>)
    ensures forall o :: o in r <==> exists x :: x in releases && Declares(x, d) && o == WithRank(d, x.rank)
  {
    if |releases| == 0 then []
    else
      assert releases == [releases[0]] + releases[1..];
      (if Declares(releases[0], d) then [WithRank(d, releases[0].rank)] else [])
      + MergeOne(d, releases[1..])
  }

  /** Lines 142-151: inner merge with the release table. Rows come out by
      dependency, then by release; the source's merge makes no promise about
      row order, and no contract here depends on it. */
  function MergeRank(deps: seq<Dependency>, releases: seq<RankedRelease>): (r: seq<RankedDependency>)
    ensures forall o :: o in r <==>
      exists d, x :: d in deps && x in releases && Declares(x, d) && o == WithRank(d, x.rank)
  {
    if |deps| == 0 then []
    else
      assert deps == [deps[0]] + deps[1..];
      MergeOne(deps[0], releases) + MergeRank(deps[1..], releases)
  }

  /** Lines 133-152: every linked row has a known target and the `rank` of a
      release with its `(source, version)`. */
  function LinkDependencies(deps: seq<Dependency>, releases: seq<RankedRelease>): (r: seq<RankedDependency>)
    ensures forall o :: o in r ==> o.target in KnownPackages(releases)
    ensures forall o :: o in r ==> exists x :: x in releases && x.release.package == o.source
                                              && x.release.version == o.version && x.rank == o.rank
  {
    MergeRank(KeepKnownTargets(deps, releases), releases)
  }

  /** A dependency row survives exactly when its target is a known package and
      a release declares it; the surviving row carries that release's rank. */
  lemma LinkDependenciesMembership(deps: seq<Dependency>, releases: seq<RankedRelease>, o: RankedDependency)
    ensures o in LinkDependencies(deps, releases) <==>
      exists d, x :: d in deps && d.target in KnownPackages(releases) && x in releases
        && Declares(x, d) && o == WithRank(d, x.rank)
  {
    var kept := KeepKnownTargets(deps, releases);
    assert forall d :: d in kept <==> d in deps && d.target in KnownPackages(releases) by {
      forall d ensures d in kept <==> d in deps && d.target in KnownPackages(releases) {
        assert d in kept <==> multiset(kept)[d] > 0;
        assert d in deps <==> multiset(deps)[d] > 0;
      }
    }
  }

  /** When each `(package, version)` occurs once in the release table, a
      dependency yields one row if a release declares it and none otherwise. */
  lemma {:induction false} MergeOneCount(d: Dependency, releases: seq<RankedRelease>)
    requires NoDuplicates(Map(ReleaseKey, releases))
    ensures |MergeOne(d, releases)| == if HasDeclaringRelease(releases, d) then 1 else 0
  {
    if |releases| > 0 {
      var tail := releases[1..];
      assert NoDuplicates(Map(ReleaseKey, tail)) by {
        forall i, j | 0 <= i < j < |tail| ensures Map(ReleaseKey, tail)[i] != Map(ReleaseKey, tail)[j] {
          assert Map(ReleaseKey, tail)[i] == Map(ReleaseKey, releases)[i + 1];
          assert Map(ReleaseKey, tail)[j] == Map(ReleaseKey, releases)[j + 1];
        }
      }
      MergeOneCount(d, tail);
      if Declares(releases[0], d) {
        forall x | x in tail ensures !Declares(x, d) {
          var k :| 0 <= k < |tail| && tail[k] == x;
          assert Map(ReleaseKey, releases)[k + 1] == ReleaseKey(x);
          assert Map(ReleaseKey, releases)[0] == ReleaseKey(releases[0]);
        }
      }
      assert HasDeclaringRelease(releases, d) <==> Declares(releases[0], d) || HasDeclaringRelease(tail, d) by {
        assert releases == [releases[0]] + tail;
      }
    }
  }

  /** With unique `(package, version)` keys the merge neither duplicates nor
      drops declared rows: it has one row per dependency that some release
      declares. */
  lemma {:induction false} MergeRankCount(deps: seq<Dependency>, releases: seq<RankedRelease>)
    requires NoDuplicates(Map(ReleaseKey, releases))
    ensures |MergeRank(deps, releases)| == |Filter(deps, (d: Dependency) => HasDeclaringRelease(releases, d))|
  {
    if |deps| > 0 {
      MergeOneCount(deps[0], releases);
      MergeRankCount(deps[1..], releases);
      FilterLength(deps, (d: Dependency) => HasDeclaringRelease(releases, d));
    }
  }

  /** With unique `(package, version)` keys, the rank a linked row carries is
      the rank of the release it was matched with. */
  lemma LinkedRankIsReleaseRank(deps: seq<Dependency>, releases: seq<RankedRelease>,
                                o: RankedDependency, x: RankedRelease)
    requires NoDuplicates(Map(ReleaseKey, releases))
    requires o in LinkDependencies(deps, releases)
    requires x in releases && x.release.package == o.source && x.release.version == o.version
    ensures o.rank == x.rank
  {
    LinkDependenciesMembership(deps, releases, o);
    var d, y :| d in deps && d.target in KnownPackages(releases) && y in releases
      && Declares(y, d) && o == WithRank(d, y.rank);
    var i :| 0 <= i < |releases| && releases[i] == x;
    var j :| 0 <= j < |releases| && releases[j] == y;
    assert Map(ReleaseKey, releases)[i] == Map(ReleaseKey, releases)[j];
  }
}
