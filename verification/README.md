# secos-zero conversion core, in Dafny

This project models `data/convert.py`, the conversion step of the
secos-zero dataset. For one ecosystem (Cargo, npm or Packagist) that step
turns raw release rows and raw dependency rows into two tables.

* **The release timeline.**
  1. Spam packages are removed by name.
  2. Rows whose version has no numeric `major.minor.patch` are dropped.
  3. Prereleases (rows with a `misc` suffix) are dropped.
  4. Republished versions are collapsed onto their latest-dated row.
  5. Every surviving release gets `rank`, its position in version order
     within its package, and `rank_date`, its position in `(date, rank)`
     order.
* **The dependency table.**
  1. Dependencies whose target is not a known package are dropped.
  2. The remaining rows are inner-joined with the timeline on
     `(source, version)` to pick up `rank`.
  3. Every distinct constraint string is parsed once into an interval.
  4. The interval is probed for the flags `i_empty`, `i_major`, `i_minor`,
     `i_patch` and `i_dev`.
  5. The flags are left-joined back onto the rows.

The model is functional. Rows are immutable datatypes held in sequences.
Pandas' sorts become a stable insertion sort `Sorting.SortBy` over an
explicit total preorder. `drop_duplicates(keep='last')` becomes
`Releases.KeepLast`. `groupby` followed by `concat` becomes
`Ranking.RankAllGroups`, and the error `pandas.concat` raises on no groups
becomes the `None` of `Ranking.RankedTable`. `cumsum` becomes
`Seqs.CumSum`. The `intervals` dict becomes its items in insertion order.
The two merges become `Dependencies.MergeRank` and `Features.Annotate`. The version components that the source casts to
`float`, together with the `float('inf')` probes, become `Versions.Comp`,
which is `Fin(n)` or `Inf`.

Modules, in dependency order:

| file | module | contents |
|---|---|---|
| options.dfy | `Options` | `Option` |
| seqs.dfy | `Seqs` | `Map`, `Filter`, `Distinct`, `Iota`, and facts about permutations and duplicates |
| sorting.dfy | `Sorting` | `SortBy`, total preorders, sortedness |
| strings.dfy | `Strings` | Python string order, `startswith`/`endswith`/`contains` |
| versions.dfy | `Versions` | triples, versions with infinite components, their order |
| intervals.dfy | `Intervals` | the constraint interval: emptiness, membership, "lies below" |
| releases.dfy | `Releases` | the compliance and prerelease filters, deduplication |
| ranking.dfy | `Ranking` | `rank`, `rank_date`, and the final ordering |
| spam.dfy | `SpamFilter` | the npm and Packagist name filters |
| dependencies.dfy | `Dependencies` | the known-target filter and the `rank` join |
| features.dfy | `Features` | the per-constraint flags, the memoised table, the left join |
| convert.dfy | `Convert` | the two pipelines end to end |

Notes on what the code does:

* Deduplication runs once over the whole release table, sorted by
  `(package, date)`, before the releases are grouped by package
  (data/convert.py:88-101).
* Within a package, `rank` and `rank_date` are cumulative counts over a
  sorted group (data/convert.py:107, 111), so they strictly increase along
  their orders.
* Each flag is the outcome of one probe (data/convert.py:168-171).
  * `i_major` is whether `Version(inf, 0, 0)` is in the interval.
  * `i_minor` and `i_patch` test probes built from the lower bound.
  * `i_dev` is whether the interval lies below `1.0.0`.
* Among duplicates of one version that share the latest date, the row kept
  is whichever one the sort left last. The model makes no claim about which
  one that is.
* The version components are extracted from the version string by one
  pattern (data/convert.py:77). Rows with the same version string therefore
  have the same components. `Releases.SplitVersions` models this step, and
  `Releases.VersionDeterminesComponents` names the property the dependency
  join relies on.

## Model

| member | source | states |
|---|---|---|
| Seqs.Distinct | data/convert.py:158 | `drop_duplicates()` on a column keeps exactly the values that occur, each once |
| Sorting.SortBy | data/convert.py:91 | `sort_values` under a total preorder returns a permutation of its input, of the same length, sorted by the key |
| Sorting.Insert | data/convert.py:91 | inserting into a sorted sequence keeps it sorted and adds exactly the new row |
| Sorting.InsertHeadStaysFirst | data/convert.py:91 | a head that sorts before the inserted row stays sorted in front of the insertion into the tail |
| Sorting.StrictlyBeforeMeansEarlier | data/convert.py:110 | in a sorted sequence, a row strictly smaller than another comes before it |
| Strings.StringLessIrreflexive | data/convert.py:91 | no package name sorts before itself |
| Strings.StringLessTransitive | data/convert.py:91 | Python's string order is transitive |
| Strings.StringLessTotal | data/convert.py:91 | any two distinct package names are ordered one way or the other |
| Strings.StartsWithMeansPrefix | data/convert.py:51 | `str.startswith(p)` holds iff the name is `p` followed by something |
| Strings.EndsWithMeansSuffix | data/convert.py:52 | `str.endswith(q)` holds iff the name is something followed by `q` |
| Strings.ContainsWordMeansOccurs | data/convert.py:68 | `str.contains(w)` holds iff `w` occurs at some position of the name |
| Strings.ContainsWordPosition | data/convert.py:68 | when the scan finds `w`, it names a position where `w` occurs |
| Strings.OccurrenceIsFound | data/convert.py:68 | an occurrence of `w` at any position is found by the scan |
| Versions.VersionLessStrictTotal | data/convert.py:168-171 | the version order with infinite components is irreflexive, transitive and total |
| Versions.FromTripleKeepsOrder | data/convert.py:105 | lexicographic `(major, minor, patch)` order agrees with the version order |
| Intervals.ContainsRespectsEmptiness | data/convert.py:162-171 | an empty interval contains nothing; a non-empty one contains its closed bounds |
| Intervals.ContainsIsConvex | data/convert.py:168-170 | a version between two members of an interval is a member |
| Intervals.LiesBelowBoundsMembers | data/convert.py:171 | if an interval lies below `v`, every member is below `v` |
| Releases.SplitVersions | data/convert.py:77 | each row keeps its package, version and date in place, and rows with the same version string get the same components |
| Releases.ToReleases | data/convert.py:83 | converting complete rows to triples keeps exactly the converted rows |
| Releases.Candidates | data/convert.py:80-90 | a release survives iff its row has all three components and no `misc` |
| Releases.ByPackageDateTotalPreorder | data/convert.py:91 | `(package, date)` is a total preorder |
| Releases.KeepLast | data/convert.py:92 | `drop_duplicates` keeps only input rows |
| Releases.Deduplicate | data/convert.py:88-94 | deduplication keeps only input rows |
| Releases.KeepLastUniqueKeys | data/convert.py:92 | after `drop_duplicates(keep='last')` no two rows share `(package, major, minor, patch)` |
| Releases.KeepLastKeepsLastOccurrence | data/convert.py:92 | every kept row is the last row of its key in the input |
| Releases.KeepLastCoversKeys | data/convert.py:92 | every key of the input has a kept row |
| Releases.KeepLastKeepsSuffixRow | data/convert.py:92 | a row with no later row of its key is kept |
| Releases.DeduplicateUniqueKeys | data/convert.py:91-92 | at most one row per package version after deduplication |
| Releases.DeduplicateCoversEveryKey | data/convert.py:91-92 | every package version of the input survives deduplication |
| Releases.DeduplicateKeepsLatest | data/convert.py:91-92 | the kept row is dated no earlier than any duplicate |
| Ranking.ByVersionTotalPreorder | data/convert.py:105 | `(major, minor, patch)` is a total preorder |
| Ranking.ByDateRankTotalPreorder | data/convert.py:110 | `(date, rank)` is a total preorder |
| Ranking.ByPackageRankTotalPreorder | data/convert.py:118 | `(package, rank)` is a total preorder |
| Ranking.ByVersionOrder | data/convert.py:105 | a group sorted by version is a permutation of the group, in version order |
| Ranking.RankGroup | data/convert.py:102-112 | ranking a package keeps its number of releases |
| Ranking.RankGroupOrigin | data/convert.py:105-107 | a row's `rank` is one plus its position in version order |
| Ranking.RankGroupPermutesReleases | data/convert.py:102-112 | ranking a package neither adds nor loses releases |
| Ranking.RankGroupRanksArePermutation | data/convert.py:105-111 | in one package, `rank` is a permutation of 1..N and `rank_date` is 1..N in row order |
| Ranking.RankGroupFollowsVersion | data/convert.py:105-107 | a smaller version gets a smaller `rank`; a smaller `rank` never has a larger version |
| Ranking.RankGroupFollowsDate | data/convert.py:110-111 | a row earlier in `(date, rank)` gets a smaller `rank_date`, and conversely |
| Ranking.RankGroupStaysInPackage | data/convert.py:101-113 | a package's ranked rows all belong to that package |
| Ranking.NumberByVersion | data/convert.py:105-108 | `rank`, the running count of a column of ones over the version-sorted rows, is each row's 1-based position |
| Ranking.NumberByDate | data/convert.py:110-111 | `rank_date`, the running count of a column of ones over the `(date, rank)`-sorted rows, is each row's 1-based position |
| Seqs.CumSumIsPrefixSum | data/convert.py:107 | entry `i` of `cumsum()` is the sum of the first `i + 1` entries of the column |
| Seqs.CumSumOfOnes | data/convert.py:107-111 | the running count of `assign(N=1).N` is 1, 2, ..., N down the rows |
| Seqs.DistinctIsEmptyOnlyWhenEmpty | data/convert.py:101 | `groupby` lists no package exactly when there are no rows |
| Ranking.RankedTable | data/convert.py:99-117 | `pandas.concat` of the groups fails exactly when no release is left, and otherwise gives the ranked table |
| Ranking.RankGroupInPackage | data/convert.py:101-112 | every row of a package's ranked group belongs to that package |
| Ranking.RankAllGroups | data/convert.py:101-117 | concatenating the ranked groups yields only rows of the listed packages |
| Ranking.InPackagesSplit | data/convert.py:101-117 | the releases of the listed packages are those of the first package plus those of the rest |
| Ranking.RankReleases | data/convert.py:116-120 | the final table is sorted by `(package, rank)` |
| Ranking.RankAllGroupsCounts | data/convert.py:101-117 | the concatenated groups hold each row as often as its own package's group |
| Ranking.RankAllGroupsPermutesReleases | data/convert.py:101-117 | grouping and concatenating keeps exactly the releases of the listed packages |
| Ranking.RowsOfPackage | data/convert.py:101-120 | a package's rows in the final table are its ranked group |
| Ranking.RowsOfPackageCount | data/convert.py:101-120 | the same, counted row by row |
| Ranking.UnlistedPackageHasNoReleases | data/convert.py:101 | a package that `groupby` does not list has no releases |
| Ranking.ListedPackagesCoverReleases | data/convert.py:101 | every release belongs to a package that `groupby` lists |
| Ranking.RankReleasesPermutesReleases | data/convert.py:98-120 | ranking neither adds nor loses releases |
| Ranking.RanksArePermutations | data/convert.py:105-111 | for each package of N releases, `rank` and `rank_date` are both permutations of 1..N |
| Ranking.RankedRowInGroup | data/convert.py:101-120 | every output row comes from the group of its own package |
| Ranking.RankFollowsVersion | data/convert.py:105-107 | within a package, a smaller version has a strictly smaller `rank`; iff when versions differ |
| Ranking.RankDateFollowsDate | data/convert.py:110-111 | within a package, an earlier `(date, rank)` has a strictly smaller `rank_date`; iff when ranks differ |
| Ranking.RankReleasesKeepsKeysDistinct | data/convert.py:116-120 | ranking keeps package versions unique |
| SpamFilter.DigitRun | data/convert.py:46 | `\d+` consumes the longest run of leading digits |
| SpamFilter.DigitRunOfDigits | data/convert.py:46 | the digit run of digits followed by a non-digit is exactly those digits |
| SpamFilter.MatchesGhostPatternMeansShape | data/convert.py:46-53 | `^ghost-\d+$` matches iff the name is `ghost-`, digits, and optionally one final newline |
| SpamFilter.MatchesGhostPattern | data/convert.py:46-53 | `re.match(r'^ghost-\d+$')`: `ghost-`, a run of digits reaching the end or a final newline; its meaning is `SpamFilter.MatchesGhostPatternMeansShape` |
| SpamFilter.MatchIsGhostShaped | data/convert.py:46-53 | a name the pattern matches is `ghost-`, digits, and at most one final newline |
| SpamFilter.GhostShapeMatches | data/convert.py:46-53 | every name of that shape is matched |
| SpamFilter.IsNpmSpam | data/convert.py:44-53 | the three npm tests, any of which removes the package; its meaning is `SpamFilter.NpmSpamMeansShape` |
| SpamFilter.IsPackagistSpam | data/convert.py:62-68 | the Packagist test; its meaning is `SpamFilter.PackagistSpamMeansWatch` |
| SpamFilter.IsSpam | data/convert.py:42-69 | npm and Packagist use their own tests; Cargo has none, so no Cargo package is spam |
| SpamFilter.NpmPrefixMeansShape | data/convert.py:44-51 | the prefix test holds iff the name is a listed prefix followed by anything |
| SpamFilter.NpmSuffixMeansShape | data/convert.py:45-52 | the suffix test holds iff the name ends with `-cdn` |
| SpamFilter.NpmSpamMeansShape | data/convert.py:42-54 | an npm package is spam iff it has a listed prefix, ends with `-cdn`, or is `ghost-` and digits |
| SpamFilter.PackagistSpamMeansWatch | data/convert.py:60-69 | a Packagist package is spam iff `/watch-` occurs in its name |
| SpamFilter.DropSpam | data/convert.py:42-74 | spam rows disappear; every other row is kept with its multiplicity; Cargo keeps everything |
| Dependencies.KeepKnownTargets | data/convert.py:135-138 | a dependency is kept, with its multiplicity, iff its target is a known package |
| Dependencies.MergeOne | data/convert.py:142-151 | one dependency joins with exactly the releases that declare it, carrying their rank |
| Dependencies.MergeRank | data/convert.py:142-151 | the inner merge yields exactly the (dependency, declaring release) pairs |
| Dependencies.LinkDependencies | data/convert.py:133-152 | every linked row has a known target and the `rank` of a release with its `(source, version)` |
| Dependencies.LinkDependenciesMembership | data/convert.py:133-152 | a linked row exists iff its target is known and a release with its `(source, version)` exists; it carries that rank |
| Dependencies.MergeOneCount | data/convert.py:142-151 | with unique `(package, version)`, a dependency yields one row if declared and none otherwise |
| Dependencies.MergeRankCount | data/convert.py:142-151 | with unique `(package, version)`, the merge has one row per declared dependency |
| Dependencies.LinkedRankIsReleaseRank | data/convert.py:142-151 | a linked row's `rank` is the rank of the release with its `(source, version)` |
| Features.Derive | data/convert.py:159-171 | an empty interval gives `i_empty` and no other flag; `i_empty` holds iff the interval is empty |
| Features.MajorFlagMeaning | data/convert.py:168 | with `i_major`, every version from the lower bound on is admitted |
| Features.MinorFlagMeaning | data/convert.py:169 | with `i_minor`, every version from the lower bound on with the same major is admitted |
| Features.PatchFlagMeaning | data/convert.py:170 | with `i_patch`, every version from the lower bound on with the same major and minor is admitted |
| Features.DevFlagMeaning | data/convert.py:171 | with `i_dev`, every admitted version has major 0 |
| Features.FlagsNested | data/convert.py:166-171 | with a finite lower bound, `i_major` implies `i_minor` implies `i_patch`, and `i_dev` excludes `i_major` |
| Features.CaretTildePinExamples | data/convert.py:162-171 | the flags of the standard intervals of `^1.2.3`, `^0.4.2`, `~1.2.3`, the pin `1.2.3`, and of an empty interval |
| Features.BuildFeatureTable | data/convert.py:155-174 | the dict's keys are exactly the constraint values, each once; each item is what direct parsing gives; one parse per item |
| Features.DistinctConstraints | data/convert.py:158 | a table keyed by the distinct constraints is keyed by exactly the values of the column |
| Features.Lookup | data/convert.py:177-185 | the index lookup finds nothing iff no item has the key, and otherwise an item stored under it |
| Features.Matches | data/convert.py:177-185 | the right-hand rows an equality join pairs with a key are exactly the items stored under it |
| Features.MergeRow | data/convert.py:178-186 | a left row yields one row per matching item, in table order, when there are any, and a single row of missing cells when there are none |
| Features.Annotate | data/convert.py:177-186 | the left merge keeps every left row, emits only rows of left rows, and an output row only carries an item stored under its own constraint |
| Features.UniqueKeyMatchesLookup | data/convert.py:173-177 | with one item per key, a key matches at most one item, the one the lookup finds |
| Features.MergeRowWithUniqueKeys | data/convert.py:177-186 | with one item per key, a left row yields exactly one row |
| Features.AnnotateWithUniqueKeys | data/convert.py:173-186 | with one item per key, as the dict guarantees, the left merge keeps every row in place and attaches the looked-up item, or missing cells |
| Features.PrependLookedUp | data/convert.py:178-186 | the looked-up rows of all dependencies are the first one's followed by the rest's |
| Features.LookupFindsDerivation | data/convert.py:155-177 | each row's constraint is found in the table, with what parsing it gives |
| Features.AnnotationIsDirectDerivation | data/convert.py:155-186 | joining the memoised table gives each row what parsing its own constraint gives, one output row per input row |
| Features.SameConstraintSameFeatures | data/convert.py:173-186 | rows with the same constraint receive the same flags |
| Convert.Timeline | data/convert.py:42-120 | the release table the pipeline writes; it is ordered by `(package, rank)` |
| Convert.ConvertReleases | data/convert.py:42-120 | the release pipeline as it runs: when it succeeds, its table is the timeline |
| Convert.ConvertReleasesFailsIffNothingSurvives | data/convert.py:42-117 | the release pipeline fails exactly when no row is a compliant, final release of a package that is not spam |
| Convert.SurvivorLeavesRelease | data/convert.py:42-94 | a compliant, final release of a package that is not spam leaves a release after deduplication |
| Convert.LeftReleaseHasSurvivor | data/convert.py:42-94 | a release left after deduplication comes from a compliant, final raw row of a package that is not spam |
| Convert.TimelineRowOrigin | data/convert.py:42-94 | every timeline row is a compliant, final release of a package that is not spam |
| Convert.KeptRowIsNotSpam | data/convert.py:42-74 | a row that survives the spam filter is an input row of a package that is not spam |
| Convert.RankedRowIsInput | data/convert.py:98-120 | every ranked row holds a release handed to the ranking |
| Convert.CandidateOfRaw | data/convert.py:80-90 | a compliant, final row of a package that is not spam becomes a candidate |
| Convert.RankedRowOf | data/convert.py:98-120 | every release handed to the ranking has a ranked row of its own |
| Convert.TimelineUniqueVersions | data/convert.py:88-120 | the timeline has one row per package version |
| Convert.TimelineCoversReleases | data/convert.py:42-120 | every compliant, final release of a package that is not spam is represented, by a row dated no earlier |
| Convert.SameVersionSameTriple | data/convert.py:77-83 | two complete rows with the same version string have the same triple |
| Convert.SameReleaseKeySameTriple | data/convert.py:77-120 | two timeline rows with the same `(package, version)` have the same triple |
| Convert.TimelineUniqueReleaseKeys | data/convert.py:77-120 | the timeline has one row per `(package, version)`, the key the dependency merge joins on |
| Convert.ExtractedTimelineUniqueReleaseKeys | data/convert.py:77-120 | with the components extracted from the version strings, the timeline has one row per `(package, version)`, with no precondition |
| Convert.TimelineLinkedRank | data/convert.py:142-151 | a dependency linked against the timeline carries the `rank` of the release with its `(source, version)` |
| Convert.TimelineLinkCount | data/convert.py:133-152 | linking against the timeline yields one row per dependency with a known target that a release declares |
| Convert.ProcessDependencies | data/convert.py:133-186 | every linked row is kept in order and carries the flags of its own constraint |

## Left out

- Reading and writing the gzipped CSV files, the skip-if-output-exists check, progress bars and printed counts. These are I/O.
- The `dropna()` steps right after each CSV read (data/convert.py:39, 130). Rows are taken as already complete.
- Date parsing. `date` is an integer timestamp.
- The pattern `Version.RE` (data/convert.py:77). The version module is not part of this model. `Releases.SplitVersions` takes the pattern as a parameter `extract`, which maps a version string to its optional components.
- The float cast of components (data/convert.py:78). Components are naturals and `float('inf')` is the `Inf` variant.
- The ecosystem constraint grammars (`PARSERS`, `parse_or_empty`). The parsers module is not part of this model. Parsing is the parameter `parse: string -> Interval`, which never fails, as `parse_or_empty` never raises.
- The interval library. It is not part of this model. `Intervals` models one atomic interval with open or closed bounds. A disjunction of ranges (an OR constraint) is not represented.
- SpamFilter.IsDigit: matches ASCII digits only. Python's `\d` on `str` also matches other Unicode decimal digits, so `MatchesGhostPattern` accepts fewer names than the source does.
- Sorting.SortBy: modelled as a stable sort. Pandas does not promise stability for the sorts the code uses. The contracts therefore claim nothing about the order of rows with equal keys. The only tie that matters is between duplicates of one version with the same date, and `Releases.DeduplicateKeepsLatest` only claims the kept row is among the latest.
- Ranking.RankReleases: package names are compared by code point, as Python compares `str` values. Collation by locale is not modelled.
- Convert.Timeline: returns an empty table when no release survives the filters, where `pandas.concat([])` at data/convert.py:117 raises; nothing catches it, so the script aborts, skipping this ecosystem and every later one. `Convert.ConvertReleases` models that failure as `None`, and `Convert.ConvertReleasesFailsIffNothingSurvives` says exactly when it happens.
- The `groupby('package', sort=False)` group order (data/convert.py:101). It is modelled as `Distinct`'s order. It does not affect the output, which is sorted by `(package, rank)` afterwards.
- The Packagist test `str.contains('/watch-')` is a regular-expression search. The pattern has no special characters, so it is modelled as a substring search.
- Dependencies.MergeRank: emits rows by dependency, then by release. Pandas' inner merge may order rows differently, and no contract depends on the order.
