/**
 * API versions as `major.minor.patch` triples, ordered by precedence as in
 * section 11 of Semantic Versioning 2.0.0: major, then minor, then patch,
 * each compared numerically. Pre-release and build metadata never occur here.
 */
module SemVer {

  datatype Version = Version(major: nat, minor: nat, patch: nat)

  datatype Ordering = Less | Equal | Greater

  function CompareNat(a: nat, b: nat): Ordering {
    if a < b then Less else if a == b then Equal else Greater
  }

  /** Precedence: the first of major, minor, patch that differs decides. */
  function Compare(a: Version, b: Version): (o: Ordering)
    ensures o == Equal <==> a == b
  {
    match CompareNat(a.major, b.major)
    case Equal =>
      (match CompareNat(a.minor, b.minor)
       case Equal => CompareNat(a.patch, b.patch)
       case other => other)
    case other => other
  }

  /** `a <= b` on versions. */
  predicate LessOrEqual(a: Version, b: Version) {
    Compare(a, b) != Greater
  }

  /** Precedence is lexicographic on (major, minor, patch). */
  lemma LessOrEqualIsLexicographic(a: Version, b: Version)
    ensures LessOrEqual(a, b) <==>
      a.major < b.major ||
      (a.major == b.major && (a.minor < b.minor || (a.minor == b.minor && a.patch <= b.patch)))
  {
  }

  /** Comparing the other way round flips the answer. */
  lemma CompareAntisymmetric(a: Version, b: Version)
    ensures Compare(a, b) == Less <==> Compare(b, a) == Greater
  {
  }

  /** `<=` is a total order: reflexive, antisymmetric, transitive and total. */
  lemma LessOrEqualIsTotalOrder(a: Version, b: Version, c: Version)
    ensures LessOrEqual(a, a)
    ensures LessOrEqual(a, b) && LessOrEqual(b, a) ==> a == b
    ensures LessOrEqual(a, b) && LessOrEqual(b, c) ==> LessOrEqual(a, c)
    ensures LessOrEqual(a, b) || LessOrEqual(b, a)
  {
    LessOrEqualIsLexicographic(a, b);
    LessOrEqualIsLexicographic(b, a);
    LessOrEqualIsLexicographic(b, c);
    LessOrEqualIsLexicographic(a, c);
  }
}
