/** The two tables the conversion produces for an ecosystem
    (data/convert.py:42-189): the release timeline, and the dependency rows
    annotated with the features of their constraints. */
module Convert {
  import opened Options
  import opened Seqs
  import opened Sorting
  import opened Releases
  import opened Ranking
  import opened SpamFilter
  import opened Dependencies
  import opened Intervals
  import opened Features

  /** Lines 42-120: spam removal, the component and prerelease filters,
      deduplication, then ranking. This is the table the conversion writes
      whenever a release survives the filters; `ConvertReleases` adds the
      failure when none does. */
  function Timeline(eco: Ecosystem, raw: seq<RawRelease>): (r: seq<RankedRelease>)
    ensures SortedBy(r, ByPackageRank)
  {
    RankReleases(Deduplicate(Candidates(DropSpam(eco, raw))))
  }

  /** Lines 42-120 as they run: the release table, or `None` for the error
      `pandas.concat` raises at line 117 when no group is left. Nothing
      catches it, so the script aborts, skipping this ecosystem and every
      later one. */
  function ConvertReleases(eco: Ecosystem, raw: seq<RawRelease>): (r: Option<seq<RankedRelease>>)
    ensures r.Some? ==> r.value == Timeline(eco, raw)
  {
    RankedTable(Deduplicate(Candidates(DropSpam(eco, raw))))
  }

  /** The release conversion fails exactly when no raw row is a compliant,
      final release of a package that is not spam: an empty table, an all-spam
      table and an all-prerelease table all end in the error. */
  lemma ConvertReleasesFailsIffNothingSurvives(eco: Ecosystem, raw: seq<RawRelease>)
    ensures ConvertReleases(eco, raw).None? <==>
      forall r :: r in raw && Compliant(r) && IsFinal(r) ==> IsSpam(eco, r.package)
  {
    if exists r :: r in raw && Compliant(r) && IsFinal(r) && !IsSpam(eco, r.package) {
      var r :| r in raw && Compliant(r) && IsFinal(r) && !IsSpam(eco, r.package);
      SurvivorLeavesRelease(eco, raw, r);
    }
    if |Deduplicate(Candidates(DropSpam(eco, raw)))| > 0 {
      LeftReleaseHasSurvivor(eco, raw);
    }
  }

  /** A compliant, final release of a package that is not spam leaves a
      release after deduplication. */
  lemma SurvivorLeavesRelease(eco: Ecosystem, raw: seq<RawRelease>, r: RawRelease)
    requires r in raw && Compliant(r) && IsFinal(r) && !IsSpam(eco, r.package)
    ensures |Deduplicate(Candidates(DropSpam(eco, raw)))| > 0
  {
    CandidateOfRaw(eco, raw, r);
    DeduplicateCoversEveryKey(Candidates(DropSpam(eco, raw)), ToRelease(r));
  }

  /** A release left after deduplication comes from a compliant, final raw
      row of a package that is not spam. */
  lemma LeftReleaseHasSurvivor(eco: Ecosystem, raw: seq<RawRelease>)
    requires |Deduplicate(Candidates(DropSpam(eco, raw)))| > 0
    ensures exists r :: r in raw && Compliant(r) && IsFinal(r) && !IsSpam(eco, r.package)
  {
    var kept := DropSpam(eco, raw);
    var candidates := Candidates(kept);
    var y := Deduplicate(candidates)[0];
    assert y in multiset(Deduplicate(candidates));
    assert y in candidates;
    var r :| r in kept && Compliant(r) && IsFinal(r) && y == ToRelease(r);
    KeptRowIsNotSpam(eco, raw, r);
    assert r in raw && Compliant(r) && IsFinal(r) && !IsSpam(eco, r.package);
  }

  /** Every timeline row is a compliant, final release of a package that is
      not spam, taken unchanged from the raw rows. */
  lemma TimelineRowOrigin(eco: Ecosystem, raw: seq<RawRelease>, x: RankedRelease)
    requires x in Timeline(eco, raw)
    ensures exists r :: r in raw && Compliant(r) && IsFinal(r) && !IsSpam(eco, r.package)
                        && x.release == ToRelease(r)
  {
    var kept := DropSpam(eco, raw);
    var candidates := Candidates(kept);
    RankedRowIsInput(Deduplicate(candidates), x);
    assert x.release in multiset(Deduplicate(candidates));
    assert x.release in candidates;
    var r :| r in kept && Compliant(r) && IsFinal(r) && x.release == ToRelease(r);
    KeptRowIsNotSpam(eco, raw, r);
  }

  /** A row that survives the spam filter is an input row of a package that is
      not spam. */
  lemma KeptRowIsNotSpam(eco: Ecosystem, raw: seq<RawRelease>, r: RawRelease)
    requires r in DropSpam(eco, raw)
    ensures r in raw && !IsSpam(eco, r.package)
  {
    assert multiset(DropSpam(eco, raw))[r] > 0;
  }

  /** Every ranked row holds one of the releases handed to the ranking. */
  lemma RankedRowIsInput(rs: seq<Release>, x: RankedRelease)
    requires x in RankReleases(rs)
    ensures x.release in rs
  {
    RankReleasesPermutesReleases(rs);
    var k :| 0 <= k < |RankReleases(rs)| && RankReleases(rs)[k] == x;
    assert Map(ReleaseOf, RankReleases(rs))[k] == x.release;
    assert x.release in multiset(Map(ReleaseOf, RankReleases(rs)));
  }

  /** The timeline has one row per package version. */
  lemma TimelineUniqueVersions(eco: Ecosystem, raw: seq<RawRelease>)
    ensures NoDuplicates(Map(RankedKey, Timeline(eco, raw)))
  {
    var unique := Deduplicate(Candidates(DropSpam(eco, raw)));
    DeduplicateUniqueKeys(Candidates(DropSpam(eco, raw)));
    RankReleasesKeepsKeysDistinct(unique);
  }

  /** Every compliant, final release of a package that is not spam is
      represented in the timeline, by a row dated no earlier than it. */
  lemma TimelineCoversReleases(eco: Ecosystem, raw: seq<RawRelease>, r: RawRelease)
    requires r in raw && Compliant(r) && IsFinal(r) && !IsSpam(eco, r.package)
    ensures exists x :: x in Timeline(eco, raw) && RankedKey(x) == Key(ToRelease(r))
                        && ToRelease(r).date <= x.release.date
  {
    var candidates := Candidates(DropSpam(eco, raw));
    var c := ToRelease(r);
    CandidateOfRaw(eco, raw, r);
    DeduplicateCoversEveryKey(candidates, c);
    var y :| y in Deduplicate(candidates) && Key(y) == Key(c);
    DeduplicateKeepsLatest(candidates, c, y);
    var x := RankedRowOf(Deduplicate(candidates), y);
    assert x in Timeline(eco, raw) && RankedKey(x) == Key(c) && c.date <= x.release.date;
  }

  /** A compliant, final release of a package that is not spam is a candidate. */
  lemma CandidateOfRaw(eco: Ecosystem, raw: seq<RawRelease>, r: RawRelease)
    requires r in raw && Compliant(r) && IsFinal(r) && !IsSpam(eco, r.package)
    ensures ToRelease(r) in Candidates(DropSpam(eco, raw))
  {
    assert multiset(DropSpam(eco, raw))[r] > 0;
  }

  /** Every release handed to the ranking has a row of its own in the result. */
  lemma RankedRowOf(rs: seq<Release>, y: Release) returns (x: RankedRelease)
    requires y in rs
    ensures x in RankReleases(rs) && x.release == y
  {
    RankReleasesPermutesReleases(rs);
    assert y in multiset(Map(ReleaseOf, RankReleases(rs)));
    var k :| 0 <= k < |RankReleases(rs)| && Map(ReleaseOf, RankReleases(rs))[k] == y;
    x := RankReleases(rs)[k];
  }

  /** Two timeline rows with the same `(package, version)` have the same
      triple, when the components are a function of the version string. */
  lemma SameReleaseKeySameTriple(eco: Ecosystem, raw: seq<RawRelease>, a: RankedRelease, b: RankedRelease)
    requires VersionDeterminesComponents(raw)
    requires a in Timeline(eco, raw) && b in Timeline(eco, raw)
    ensures ReleaseKey(a) == ReleaseKey(b) ==> RankedKey(a) == RankedKey(b)
  {
    TimelineRowOrigin(eco, raw, a);
    TimelineRowOrigin(eco, raw, b);
    var ra :| ra in raw && Compliant(ra) && a.release == ToRelease(ra);
    var rb :| rb in raw && Compliant(rb) && b.release == ToRelease(rb);
    SameVersionSameTriple(raw, ra, rb);
  }

  /** Two complete rows with the same version string have the same triple. */
  lemma SameVersionSameTriple(raw: seq<RawRelease>, ra: RawRelease, rb: RawRelease)
    requires VersionDeterminesComponents(raw)
    requires ra in raw && rb in raw && Compliant(ra) && Compliant(rb)
    ensures ra.version == rb.version ==> ToRelease(ra).triple == ToRelease(rb).triple
  {
    var i :| 0 <= i < |raw| && raw[i] == ra;
    var j :| 0 <= j < |raw| && raw[j] == rb;
  }

  /** With the components taken from the version string, the timeline has one
      row per `(package, version)`, the key the dependency merge joins on. */
  lemma TimelineUniqueReleaseKeys(eco: Ecosystem, raw: seq<RawRelease>)
    requires VersionDeterminesComponents(raw)
    ensures NoDuplicates(Map(ReleaseKey, Timeline(eco, raw)))
  {
    var out := Timeline(eco, raw);
    TimelineUniqueVersions(eco, raw);
    forall i, j | 0 <= i < j < |out| ensures Map(ReleaseKey, out)[i] != Map(ReleaseKey, out)[j] {
      assert Map(RankedKey, out)[i] == RankedKey(out[i]) && Map(RankedKey, out)[j] == RankedKey(out[j]);
      SameReleaseKeySameTriple(eco, raw, out[i], out[j]);
    }
  }

  /** Lines 77-120: with the components extracted from the version strings by
      one pattern, the timeline has one row per `(package, version)`. */
  lemma ExtractedTimelineUniqueReleaseKeys(eco: Ecosystem, rows: seq<ReleaseRow>, extract: string -> Components)
    ensures NoDuplicates(Map(ReleaseKey, Timeline(eco, SplitVersions(rows, extract))))
  {
    TimelineUniqueReleaseKeys(eco, SplitVersions(rows, extract));
  }

  /** A dependency linked against the timeline carries the `rank` of the
      release with its `(source, version)`. */
  lemma TimelineLinkedRank(eco: Ecosystem, raw: seq<RawRelease>, deps: seq<Dependency>,
                           o: RankedDependency, x: RankedRelease)
    requires VersionDeterminesComponents(raw)
    requires o in LinkDependencies(deps, Timeline(eco, raw))
    requires x in Timeline(eco, raw) && x.release.package == o.source && x.release.version == o.version
    ensures o.rank == x.rank
  {
    TimelineUniqueReleaseKeys(eco, raw);
    LinkedRankIsReleaseRank(deps, Timeline(eco, raw), o, x);
  }

  /** Linking against the timeline yields one row per dependency with a known
      target that some release declares. */
  lemma TimelineLinkCount(eco: Ecosystem, raw: seq<RawRelease>, deps: seq<Dependency>)
    requires VersionDeterminesComponents(raw)
    ensures |LinkDependencies(deps, Timeline(eco, raw))| ==
      |Filter(KeepKnownTargets(deps, Timeline(eco, raw)), (d: Dependency) => HasDeclaringRelease(Timeline(eco, raw), d))|
  {
    TimelineUniqueReleaseKeys(eco, raw);
    MergeRankCount(KeepKnownTargets(deps, Timeline(eco, raw)), Timeline(eco, raw));
  }

  /** Lines 133-186: link the dependencies to the timeline, then annotate each
      linked row with the features of its constraint. Every linked row is
      kept, in order, and carries what parsing its own constraint gives. */
  method ProcessDependencies(deps: seq<Dependency>, releases: seq<RankedRelease>, parse: string -> Interval)
    returns (rows: seq<AnnotatedDependency>)
    ensures |rows| == |LinkDependencies(deps, releases)|
    ensures forall i :: 0 <= i < |rows| ==> rows[i].dep == LinkDependencies(deps, releases)[i]
    ensures forall i :: 0 <= i < |rows| ==> rows[i].features == Some(Derive(parse(rows[i].dep.constraint)))
  {
    var linked := LinkDependencies(deps, releases);
    var table, parses := BuildFeatureTable(linked, parse);
    rows := Annotate(linked, table);
    AnnotateWithUniqueKeys(linked, table);
    forall i | 0 <= i < |rows| ensures rows[i].features == Some(Derive(parse(rows[i].dep.constraint))) {
      AnnotationIsDirectDerivation(linked, table, parse, i);
    }
  }
}
