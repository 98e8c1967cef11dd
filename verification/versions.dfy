/** Version numbers as the pipeline sees them once the version string has been
    split into components: release versions are triples of naturals, and the
    probes used against intervals may use an "infinite" component. */
module Versions {

  /** `(major, minor, patch)` of a release. */
  datatype Triple = Triple(major: nat, minor: nat, patch: nat)

  /** Lexicographic order on `(major, minor, patch)`, as `sort_values` on the
      three columns orders rows. */
  predicate TripleLess(a: Triple, b: Triple) {
    || a.major < b.major
    || (a.major == b.major && a.minor < b.minor)
    || (a.major == b.major && a.minor == b.minor && a.patch < b.patch)
  }

  /** A version component: a natural number, or the infinity sentinel that
      compares above every natural and equal to itself. */
  datatype Comp = Fin(n: nat) | Inf

  predicate CompLess(a: Comp, b: Comp) {
    match a
    case Inf => false
    case Fin(x) => b.Inf? || x < b.n
  }

  /** A version whose components may be infinite: interval bounds and probes. */
  datatype Version = Version(major: Comp, minor: Comp, patch: Comp)

  predicate VersionLess(a: Version, b: Version) {
    || CompLess(a.major, b.major)
    || (a.major == b.major && CompLess(a.minor, b.minor))
    || (a.major == b.major && a.minor == b.minor && CompLess(a.patch, b.patch))
  }

  predicate VersionLe(a: Version, b: Version) {
    a == b || VersionLess(a, b)
  }

  /** The version a release triple denotes. */
  function FromTriple(t: Triple): Version {
    Version(Fin(t.major), Fin(t.minor), Fin(t.patch))
  }

  predicate IsFinite(v: Version) {
    v.major.Fin? && v.minor.Fin? && v.patch.Fin?
  }

  /** Version order is a strict total order: exactly one of `a < b`, `a == b`,
      `b < a` holds, and `<` is transitive. */
  lemma VersionLessStrictTotal(a: Version, b: Version, c: Version)
    ensures !VersionLess(a, a)
    ensures a == b || VersionLess(a, b) || VersionLess(b, a)
    ensures !(VersionLess(a, b) && VersionLess(b, a))
    ensures VersionLess(a, b) && VersionLess(b, c) ==> VersionLess(a, c)
  {
  }

  /** Reading a triple as a version keeps its order, in both directions. */
  lemma FromTripleKeepsOrder(a: Triple, b: Triple)
    ensures TripleLess(a, b) <==> VersionLess(FromTriple(a), FromTriple(b))
    ensures IsFinite(FromTriple(a))
  {
  }
}
