/**
 * Versions and the constraint kinds a requirement is made of.
 *
 * An Enthought package version is an upstream version plus a build number,
 * ordered first by upstream and then by build. The upstream part stands
 * for its position in the upstream order: only that order and equality of
 * upstreams are ever used.
 */
module Kinds {

  datatype Version = Version(upstream: nat, build: nat)

  /** The version order: upstream first, then build. */
  predicate VersionLess(a: Version, b: Version)
  {
    a.upstream < b.upstream || (a.upstream == b.upstream && a.build < b.build)
  }

  predicate VersionLeq(a: Version, b: Version)
  {
    VersionLess(a, b) || a == b
  }

  /** The version order is a strict total order. */
  lemma VersionOrderTotal(a: Version, b: Version, c: Version)
    ensures !VersionLess(a, a)
    ensures VersionLess(a, b) && VersionLess(b, c) ==> VersionLess(a, c)
    ensures a == b || VersionLess(a, b) || VersionLess(b, a)
  {
  }

  /** The constraint kinds: `*`, `==`, `>=`, `>`, `<=`, `<`, `!=` and `^=`. */
  datatype Constraint =
    | Any
    | Equal(version: Version)
    | GEQ(version: Version)
    | GT(version: Version)
    | LEQ(version: Version)
    | LT(version: Version)
    | Not(version: Version)
    | EnpkgUpstreamMatch(version: Version)

  /** Whether a candidate version satisfies one constraint. */
  predicate ConstraintMatches(c: Constraint, v: Version)
  {
    match c
    case Any => true
    case Equal(w) => v == w
    case GEQ(w) => VersionLeq(w, v)
    case GT(w) => VersionLess(w, v)
    case LEQ(w) => VersionLeq(v, w)
    case LT(w) => VersionLess(v, w)
    case Not(w) => v != w
    case EnpkgUpstreamMatch(w) => v.upstream == w.upstream
  }

  /** A conjunction of constraints: every one of them must match. */
  predicate AllMatch(cs: seq<Constraint>, v: Version)
  {
    forall i :: 0 <= i < |cs| ==> ConstraintMatches(cs[i], v)
  }
}
