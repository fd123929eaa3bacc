/** Semantic versions and their precedence, as defined in section 11 of
    Semantic Versioning 2.0.0. The parser that turns text into a `Version`
    belongs to an external library (github.com/coreos/go-semver) and is not
    part of this model: the operations that need it take it as a parameter
    of type `Parser`. */
module SemVer {
  import opened Strings

  datatype Option<+T> = None | Some(value: T)

  /** One dot-separated pre-release field: all digits, or anything else. */
  datatype Identifier = Numeric(n: nat) | Alphanumeric(s: string)

  /** major.minor.patch[-preRelease][+metadata] */
  datatype Version = Version(major: nat, minor: nat, patch: nat, preRelease: seq<Identifier>, metadata: string)

  /** What `semver.NewVersion` does: a version, or a parse failure. */
  type Parser = string -> Option<Version>

  function CompareNat(a: nat, b: nat): Ordering
  {
    if a < b then Less else if b < a then Greater else Equal
  }

  /** Numeric fields compare numerically and rank below alphanumeric
      fields; alphanumeric fields compare lexically. */
  function CompareIdentifier(a: Identifier, b: Identifier): Ordering
  {
    match (a, b)
    case (Numeric(x), Numeric(y)) => CompareNat(x, y)
    case (Numeric(_), Alphanumeric(_)) => Less
    case (Alphanumeric(_), Numeric(_)) => Greater
    case (Alphanumeric(x), Alphanumeric(y)) => Strings.Compare(x, y)
  }

  /** Field by field; when one list of fields is a prefix of the other,
      the longer one ranks higher. */
  function CompareFields(a: seq<Identifier>, b: seq<Identifier>): Ordering
  {
    if |a| == 0 then (if |b| == 0 then Equal else Less)
    else if |b| == 0 then Greater
    else
      var c := CompareIdentifier(a[0], b[0]);
      if c != Equal then c else CompareFields(a[1..], b[1..])
  }

  /** A version without a pre-release ranks above every pre-release of the
      same major.minor.patch. */
  function ComparePreRelease(a: seq<Identifier>, b: seq<Identifier>): Ordering
  {
    if |a| == 0 && |b| == 0 then Equal
    else if |a| == 0 then Greater
    else if |b| == 0 then Less
    else CompareFields(a, b)
  }

  /** Precedence: major, minor and patch numerically, then the pre-release.
      Build metadata plays no part. */
  function Compare(a: Version, b: Version): Ordering
  {
    if a.major != b.major then CompareNat(a.major, b.major)
    else if a.minor != b.minor then CompareNat(a.minor, b.minor)
    else if a.patch != b.patch then CompareNat(a.patch, b.patch)
    else ComparePreRelease(a.preRelease, b.preRelease)
  }

  /** `a` ranks no higher than `b`. */
  predicate LessEq(a: Version, b: Version)
  {
    Compare(a, b) != Greater
  }

  lemma CompareIdentifierEqual(a: Identifier, b: Identifier)
    ensures CompareIdentifier(a, b) == Equal <==> a == b
  {
    if a.Alphanumeric? && b.Alphanumeric? {
      Strings.CompareEqual(a.s, b.s);
    }
  }

  lemma CompareIdentifierFlip(a: Identifier, b: Identifier)
    ensures CompareIdentifier(b, a) == CompareIdentifier(a, b).Flip()
  {
    if a.Alphanumeric? && b.Alphanumeric? {
      Strings.CompareFlip(a.s, b.s);
    }
  }

  lemma CompareIdentifierTransitive(a: Identifier, b: Identifier, c: Identifier)
    requires CompareIdentifier(a, b) != Greater && CompareIdentifier(b, c) != Greater
    ensures CompareIdentifier(a, c) != Greater
    ensures CompareIdentifier(a, b) == Less || CompareIdentifier(b, c) == Less ==> CompareIdentifier(a, c) == Less
  {
    if a.Alphanumeric? && b.Alphanumeric? && c.Alphanumeric? {
      Strings.CompareTransitive(a.s, b.s, c.s);
    }
  }

  lemma {:induction false} CompareFieldsEqual(a: seq<Identifier>, b: seq<Identifier>)
    ensures CompareFields(a, b) == Equal <==> a == b
  {
    if |a| != 0 && |b| != 0 {
      CompareIdentifierEqual(a[0], b[0]);
      CompareFieldsEqual(a[1..], b[1..]);
      assert a == [a[0]] + a[1..];
      assert b == [b[0]] + b[1..];
    }
  }

  lemma {:induction false} CompareFieldsFlip(a: seq<Identifier>, b: seq<Identifier>)
    ensures CompareFields(b, a) == CompareFields(a, b).Flip()
  {
    if |a| != 0 && |b| != 0 {
      CompareIdentifierFlip(a[0], b[0]);
      CompareFieldsFlip(a[1..], b[1..]);
    }
  }

  lemma {:induction false} CompareFieldsTransitive(a: seq<Identifier>, b: seq<Identifier>, c: seq<Identifier>)
    requires CompareFields(a, b) != Greater && CompareFields(b, c) != Greater
    ensures CompareFields(a, c) != Greater
  {
    if |a| != 0 && |b| != 0 && |c| != 0 {
      CompareIdentifierTransitive(a[0], b[0], c[0]);
      CompareIdentifierEqual(a[0], b[0]);
      CompareIdentifierEqual(b[0], c[0]);
      if CompareIdentifier(a[0], b[0]) == Equal && CompareIdentifier(b[0], c[0]) == Equal {
        CompareFieldsTransitive(a[1..], b[1..], c[1..]);
      }
    }
  }

  /** Two versions have equal precedence exactly when they differ at most
      in their build metadata. */
  lemma CompareEqual(a: Version, b: Version)
    ensures Compare(a, b) == Equal <==> a.(metadata := "") == b.(metadata := "")
  {
    CompareFieldsEqual(a.preRelease, b.preRelease);
  }

  /** Swapping the operands flips the outcome. */
  lemma CompareFlip(a: Version, b: Version)
    ensures Compare(b, a) == Compare(a, b).Flip()
  {
    CompareFieldsFlip(a.preRelease, b.preRelease);
  }

  /** Precedence is transitive. */
  lemma CompareTransitive(a: Version, b: Version, c: Version)
    requires LessEq(a, b) && LessEq(b, c)
    ensures LessEq(a, c)
  {
    if a.major == b.major == c.major && a.minor == b.minor == c.minor && a.patch == b.patch == c.patch {
      if |a.preRelease| != 0 && |b.preRelease| != 0 && |c.preRelease| != 0 {
        CompareFieldsTransitive(a.preRelease, b.preRelease, c.preRelease);
      }
    }
  }

  /** A release outranks each of its pre-releases, whatever their fields. */
  lemma ReleaseOutranksPreRelease(a: Version, b: Version)
    requires a.major == b.major && a.minor == b.minor && a.patch == b.patch
    requires |a.preRelease| == 0 && |b.preRelease| != 0
    ensures Compare(b, a) == Less
  {
  }

  /** The example chain of section 11 of Semantic Versioning 2.0.0:
      1.0.0-alpha < 1.0.0-alpha.1 < 1.0.0-alpha.beta < 1.0.0-beta
      < 1.0.0-beta.2 < 1.0.0-beta.11 < 1.0.0-rc.1 < 1.0.0. */
  lemma PrecedenceExample()
    ensures var chain := [
        [Alphanumeric("alpha")],
        [Alphanumeric("alpha"), Numeric(1)],
        [Alphanumeric("alpha"), Alphanumeric("beta")],
        [Alphanumeric("beta")],
        [Alphanumeric("beta"), Numeric(2)],
        [Alphanumeric("beta"), Numeric(11)],
        [Alphanumeric("rc"), Numeric(1)],
        []];
      forall k :: 0 <= k < |chain| - 1 ==>
        Compare(Version(1, 0, 0, chain[k], ""), Version(1, 0, 0, chain[k + 1], "")) == Less
  {
  }
}
