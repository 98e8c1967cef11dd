/** The interval a dependency constraint denotes: one convex range of versions
    with an open or closed end on each side, or the canonical empty interval
    that an unparseable constraint becomes. */
module Intervals {
  import opened Versions

  datatype Interval =
    | Empty
    | Range(lower: Version, lowerClosed: bool, upper: Version, upperClosed: bool)

  /** `interval.is_empty()`: the canonical empty interval, or bounds that
      admit nothing (lower above upper, or equal bounds with an open end). */
  predicate IsEmpty(i: Interval) {
    || i.Empty?
    || VersionLess(i.upper, i.lower)
    || (i.lower == i.upper && !(i.lowerClosed && i.upperClosed))
  }

  /** `v` is on the admitted side of the lower bound. */
  predicate AboveLower(i: Interval, v: Version)
    requires i.Range?
  {
    if i.lowerClosed then VersionLe(i.lower, v) else VersionLess(i.lower, v)
  }

  /** `v` is on the admitted side of the upper bound. */
  predicate UnderUpper(i: Interval, v: Version)
    requires i.Range?
  {
    if i.upperClosed then VersionLe(v, i.upper) else VersionLess(v, i.upper)
  }

  /** `v in interval`. */
  predicate Contains(i: Interval, v: Version) {
    !IsEmpty(i) && AboveLower(i, v) && UnderUpper(i, v)
  }

  /** `v > interval`: the interval is non-empty and ends before `v`, that is its
      upper bound is below `v`, or equals `v` and is open. */
  predicate LiesBelow(i: Interval, v: Version) {
    !IsEmpty(i) && (VersionLess(i.upper, v) || (i.upper == v && !i.upperClosed))
  }

  /** An empty interval contains no version; a closed non-empty one contains
      its own bounds. */
  lemma ContainsRespectsEmptiness(i: Interval, v: Version)
    ensures IsEmpty(i) ==> !Contains(i, v)
    ensures !IsEmpty(i) && i.lowerClosed ==> Contains(i, i.lower)
    ensures !IsEmpty(i) && i.upperClosed ==> Contains(i, i.upper)
  {
  }

  /** Intervals are convex: a version between two members is a member. */
  lemma ContainsIsConvex(i: Interval, a: Version, b: Version, c: Version)
    requires Contains(i, a) && Contains(i, c)
    requires VersionLe(a, b) && VersionLe(b, c)
    ensures Contains(i, b)
  {
    VersionLessStrictTotal(i.lower, a, b);
    VersionLessStrictTotal(b, c, i.upper);
  }

  /** Every member of an interval lying below `v` is itself below `v`. */
  lemma LiesBelowBoundsMembers(i: Interval, v: Version, w: Version)
    requires LiesBelow(i, v)
    requires Contains(i, w)
    ensures VersionLess(w, v)
  {
    VersionLessStrictTotal(w, i.upper, v);
  }
}
