/**
 * Version precedence as Semantic Versioning 2.0.0, section 11, defines it and
 * as the JavaScript `semver` package's `compare` computes it: major, minor and
 * patch numerically; a version with pre-release identifiers ranks below the
 * same version without; pre-release identifiers are compared left to right,
 * numeric ones by value and below alphanumeric ones, alphanumeric ones by
 * character code, and a shorter list that is a prefix of a longer one ranks
 * lower. Build metadata takes no part in precedence and is not kept. Versions
 * arrive already parsed.
 */
module SemVer {

  datatype Identifier = Numeric(n: nat) | Alphanumeric(s: string)

  datatype Version = Version(major: nat, minor: nat, patch: nat, pre: seq<Identifier>)

  function CompareNat(a: nat, b: nat): (r: int)
    ensures r == 0 <==> a == b
    ensures r < 0 <==> a < b
    ensures r > 0 <==> a > b
  {
    if a < b then -1 else if a > b then 1 else 0
  }

  /** Character-code order on strings; a proper prefix ranks lower. */
  function CompareText(a: string, b: string): (r: int)
    ensures -1 <= r <= 1
  {
    if a == [] && b == [] then 0
    else if a == [] then -1
    else if b == [] then 1
    else if a[0] < b[0] then -1
    else if a[0] > b[0] then 1
    else CompareText(a[1..], b[1..])
  }

  /** `compareIdentifiers`: numeric identifiers by value and below alphanumeric ones. */
  function CompareIdentifier(a: Identifier, b: Identifier): (r: int)
    ensures -1 <= r <= 1
  {
    match (a, b)
    case (Numeric(x), Numeric(y)) => CompareNat(x, y)
    case (Numeric(_), Alphanumeric(_)) => -1
    case (Alphanumeric(_), Numeric(_)) => 1
    case (Alphanumeric(x), Alphanumeric(y)) => CompareText(x, y)
  }

  /** Identifier lists left to right; a list that runs out first ranks lower. */
  function CompareIdentifiers(a: seq<Identifier>, b: seq<Identifier>): (r: int)
    ensures -1 <= r <= 1
  {
    if a == [] && b == [] then 0
    else if a == [] then -1
    else if b == [] then 1
    else if a[0] == b[0] then CompareIdentifiers(a[1..], b[1..])
    else CompareIdentifier(a[0], b[0])
  }

  /** `comparePre`: no pre-release ranks above any pre-release. */
  function ComparePre(a: seq<Identifier>, b: seq<Identifier>): (r: int)
    ensures -1 <= r <= 1
  {
    if a == [] && b == [] then 0
    else if a == [] then 1
    else if b == [] then -1
    else CompareIdentifiers(a, b)
  }

  /** `compare`: -1, 0 or 1 as `a` has lower, equal or higher precedence than `b`. */
  function Compare(a: Version, b: Version): (r: int)
    ensures -1 <= r <= 1
  {
    if a.major != b.major then CompareNat(a.major, b.major)
    else if a.minor != b.minor then CompareNat(a.minor, b.minor)
    else if a.patch != b.patch then CompareNat(a.patch, b.patch)
    else ComparePre(a.pre, b.pre)
  }

  /** `lt`. */
  predicate Less(a: Version, b: Version) {
    Compare(a, b) < 0
  }

  // ---- Compare is a total order ----

  lemma {:induction false} CompareTextAntisymmetric(a: string, b: string)
    ensures CompareText(a, b) == -CompareText(b, a)
    ensures CompareText(a, b) == 0 <==> a == b
  {
    if a != [] && b != [] && a[0] == b[0] {
      CompareTextAntisymmetric(a[1..], b[1..]);
      if a[1..] == b[1..] {
        assert a == [a[0]] + a[1..] && b == [b[0]] + b[1..];
      }
    }
  }

  lemma {:induction false} CompareTextTransitive(a: string, b: string, c: string)
    ensures CompareText(a, b) <= 0 && CompareText(b, c) <= 0 ==> CompareText(a, c) <= 0
  {
    if a != [] && b != [] && c != [] && a[0] == b[0] && b[0] == c[0] {
      CompareTextTransitive(a[1..], b[1..], c[1..]);
    }
  }

  lemma CompareIdentifierAntisymmetric(a: Identifier, b: Identifier)
    ensures CompareIdentifier(a, b) == -CompareIdentifier(b, a)
    ensures CompareIdentifier(a, b) == 0 <==> a == b
  {
    if a.Alphanumeric? && b.Alphanumeric? {
      CompareTextAntisymmetric(a.s, b.s);
    }
  }

  lemma CompareIdentifierTransitive(a: Identifier, b: Identifier, c: Identifier)
    ensures CompareIdentifier(a, b) <= 0 && CompareIdentifier(b, c) <= 0 ==> CompareIdentifier(a, c) <= 0
  {
    if a.Alphanumeric? && b.Alphanumeric? && c.Alphanumeric? {
      CompareTextTransitive(a.s, b.s, c.s);
    }
  }

  lemma {:induction false} CompareIdentifiersAntisymmetric(a: seq<Identifier>, b: seq<Identifier>)
    ensures CompareIdentifiers(a, b) == -CompareIdentifiers(b, a)
    ensures CompareIdentifiers(a, b) == 0 <==> a == b
  {
    if a != [] && b != [] {
      if a[0] == b[0] {
        CompareIdentifiersAntisymmetric(a[1..], b[1..]);
        if a[1..] == b[1..] {
          assert a == [a[0]] + a[1..] && b == [b[0]] + b[1..];
        }
      } else {
        CompareIdentifierAntisymmetric(a[0], b[0]);
      }
    }
  }

  lemma {:induction false} CompareIdentifiersTransitive(a: seq<Identifier>, b: seq<Identifier>, c: seq<Identifier>)
    ensures CompareIdentifiers(a, b) <= 0 && CompareIdentifiers(b, c) <= 0 ==> CompareIdentifiers(a, c) <= 0
  {
    if a != [] && b != [] && c != [] {
      CompareIdentifierAntisymmetric(a[0], b[0]);
      CompareIdentifierAntisymmetric(b[0], c[0]);
      CompareIdentifierAntisymmetric(a[0], c[0]);
      CompareIdentifierTransitive(a[0], b[0], c[0]);
      if a[0] == b[0] && b[0] == c[0] {
        CompareIdentifiersTransitive(a[1..], b[1..], c[1..]);
      }
    }
  }

  /** Swapping the arguments negates the comparison, and only equal versions compare equal. */
  lemma CompareAntisymmetric(a: Version, b: Version)
    ensures Compare(a, b) == -Compare(b, a)
    ensures Compare(a, b) == 0 <==> a == b
  {
    if a.major == b.major && a.minor == b.minor && a.patch == b.patch && a.pre != [] && b.pre != [] {
      CompareIdentifiersAntisymmetric(a.pre, b.pre);
    }
  }

  /** Precedence is transitive. */
  lemma CompareTransitive(a: Version, b: Version, c: Version)
    ensures Compare(a, b) <= 0 && Compare(b, c) <= 0 ==> Compare(a, c) <= 0
  {
    if a.major == b.major == c.major && a.minor == b.minor == c.minor && a.patch == b.patch == c.patch
      && a.pre != [] && b.pre != [] && c.pre != []
    {
      CompareIdentifiersTransitive(a.pre, b.pre, c.pre);
    }
  }

  /** A version below `b` is below every version that is at least `b`. */
  lemma LessThanAtLeast(a: Version, b: Version, c: Version)
    requires Less(a, b) && Compare(c, b) >= 0
    ensures Less(a, c)
  {
    CompareAntisymmetric(c, b);
    CompareTransitive(a, b, c);
    CompareAntisymmetric(a, c);
    CompareAntisymmetric(a, b);
  }

  /** Some of the precedence examples of section 11: 1.0.0-alpha < 1.0.0-alpha.1 < 1.0.0-beta.2 < 1.0.0-rc.1 < 1.0.0. */
  lemma PrecedenceExamples()
    ensures Less(Version(1, 0, 0, [Alphanumeric("alpha")]), Version(1, 0, 0, [Alphanumeric("alpha"), Numeric(1)]))
    ensures Less(Version(1, 0, 0, [Alphanumeric("alpha"), Numeric(1)]), Version(1, 0, 0, [Alphanumeric("beta"), Numeric(2)]))
    ensures Less(Version(1, 0, 0, [Alphanumeric("beta"), Numeric(2)]), Version(1, 0, 0, [Alphanumeric("rc"), Numeric(1)]))
    ensures Less(Version(1, 0, 0, [Alphanumeric("rc"), Numeric(1)]), Version(1, 0, 0, []))
    ensures Less(Version(1, 9, 0, []), Version(1, 10, 0, []))
  {
    assert "alpha"[1..] == "lpha";
  }
}
