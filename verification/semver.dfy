/**
 * The parts of the `semver_rs` crate the launcher relies on: versions, their
 * precedence (section 11 of Semantic Versioning 2.0.0), their textual form,
 * and ranges, which are known only through their membership test.
 */
module SemVer {

  /** One dot-separated pre-release identifier (section 9 of Semantic Versioning 2.0.0). */
  datatype Identifier = Numeric(number: nat) | Alphanumeric(text: string)

  /** A parsed version; `pre` is empty for a normal (release) version. */
  datatype Version = Version(major: nat, minor: nat, patch: nat, pre: seq<Identifier>)

  /** An npm-style version range; its grammar and semantics live in `semver_rs`. */
  datatype Range = Range(test: Version -> bool)

  // ---------------------------------------------------------------------------
  // Precedence
  // ---------------------------------------------------------------------------

  /** Lexical comparison of identifier text in ASCII order; a proper prefix comes first. */
  predicate TextLess(s: string, t: string)
  {
    if s == [] then t != []
    else if t == [] then false
    else s[0] < t[0] || (s[0] == t[0] && TextLess(s[1..], t[1..]))
  }

  /** Numeric identifiers compare numerically and come before alphanumeric ones. */
  predicate IdentifierLess(a: Identifier, b: Identifier)
  {
    match (a, b)
    case (Numeric(x), Numeric(y)) => x < y
    case (Numeric(_), Alphanumeric(_)) => true
    case (Alphanumeric(_), Numeric(_)) => false
    case (Alphanumeric(x), Alphanumeric(y)) => TextLess(x, y)
  }

  /** Field-by-field comparison of identifier lists; a proper prefix comes first. */
  predicate IdentifiersLess(p: seq<Identifier>, q: seq<Identifier>)
  {
    if p == [] then q != []
    else if q == [] then false
    else IdentifierLess(p[0], q[0]) || (p[0] == q[0] && IdentifiersLess(p[1..], q[1..]))
  }

  /** A version with a pre-release precedes the same version without one. */
  predicate PrereleaseLess(p: seq<Identifier>, q: seq<Identifier>)
  {
    p != [] && (q == [] || IdentifiersLess(p, q))
  }

  /**
   * `a < b` in version precedence: the numbers decide first, and a
   * pre-release precedes the release with the same numbers.
   */
  predicate Less(a: Version, b: Version): (r: bool)
    ensures a.major < b.major ==> r
    ensures r ==> a.major <= b.major
    ensures a.major == b.major && a.minor == b.minor && a.patch == b.patch ==>
              (a.pre != [] && b.pre == [] ==> r) && (a.pre == [] ==> !r)
  {
    || a.major < b.major
    || (a.major == b.major && a.minor < b.minor)
    || (a.major == b.major && a.minor == b.minor && a.patch < b.patch)
    || (a.major == b.major && a.minor == b.minor && a.patch == b.patch && PrereleaseLess(a.pre, b.pre))
  }

  lemma {:induction false} TextLessIrreflexive(s: string)
    ensures !TextLess(s, s)
  {
    if s != [] {
      TextLessIrreflexive(s[1..]);
    }
  }

  lemma {:induction false} TextLessTransitive(s: string, t: string, u: string)
    requires TextLess(s, t) && TextLess(t, u)
    ensures TextLess(s, u)
  {
    if s != [] && t != [] && u != [] && s[0] == t[0] && t[0] == u[0] {
      TextLessTransitive(s[1..], t[1..], u[1..]);
    }
  }

  lemma {:induction false} TextLessConnected(s: string, t: string)
    requires s != t
    ensures TextLess(s, t) || TextLess(t, s)
  {
    if s != [] && t != [] && s[0] == t[0] {
      assert s == [s[0]] + s[1..] && t == [t[0]] + t[1..];
      TextLessConnected(s[1..], t[1..]);
    }
  }

  lemma IdentifierLessOrder(a: Identifier, b: Identifier, c: Identifier)
    ensures !IdentifierLess(a, a)
    ensures IdentifierLess(a, b) && IdentifierLess(b, c) ==> IdentifierLess(a, c)
    ensures a != b ==> IdentifierLess(a, b) || IdentifierLess(b, a)
  {
    if a.Alphanumeric? {
      TextLessIrreflexive(a.text);
    }
    if a.Alphanumeric? && b.Alphanumeric? && c.Alphanumeric?
       && TextLess(a.text, b.text) && TextLess(b.text, c.text) {
      TextLessTransitive(a.text, b.text, c.text);
    }
    if a.Alphanumeric? && b.Alphanumeric? && a != b {
      TextLessConnected(a.text, b.text);
    }
  }

  lemma {:induction false} IdentifiersLessIrreflexive(p: seq<Identifier>)
    ensures !IdentifiersLess(p, p)
  {
    if p != [] {
      IdentifierLessOrder(p[0], p[0], p[0]);
      IdentifiersLessIrreflexive(p[1..]);
    }
  }

  lemma {:induction false} IdentifiersLessTransitive(p: seq<Identifier>, q: seq<Identifier>, r: seq<Identifier>)
    requires IdentifiersLess(p, q) && IdentifiersLess(q, r)
    ensures IdentifiersLess(p, r)
  {
    if p != [] && q != [] && r != [] {
      IdentifierLessOrder(p[0], q[0], r[0]);
      if p[0] == q[0] && q[0] == r[0] {
        IdentifiersLessTransitive(p[1..], q[1..], r[1..]);
      }
    }
  }

  lemma {:induction false} IdentifiersLessConnected(p: seq<Identifier>, q: seq<Identifier>)
    requires p != q
    ensures IdentifiersLess(p, q) || IdentifiersLess(q, p)
  {
    if p != [] && q != [] {
      IdentifierLessOrder(p[0], q[0], q[0]);
      if p[0] == q[0] {
        assert p == [p[0]] + p[1..] && q == [q[0]] + q[1..];
        IdentifiersLessConnected(p[1..], q[1..]);
      }
    }
  }

  /** Precedence never relates a version to itself. */
  lemma LessIrreflexive(a: Version)
    ensures !Less(a, a)
  {
    IdentifiersLessIrreflexive(a.pre);
  }

  /** Precedence is transitive. */
  lemma LessTransitive(a: Version, b: Version, c: Version)
    requires Less(a, b) && Less(b, c)
    ensures Less(a, c)
  {
    if a.major == b.major == c.major && a.minor == b.minor == c.minor && a.patch == b.patch == c.patch
       && c.pre != [] {
      IdentifiersLessTransitive(a.pre, b.pre, c.pre);
    }
  }

  /**
   * Any two distinct versions are ordered one way or the other: since build
   * metadata is not part of a `Version`, equal precedence means equal versions.
   */
  lemma LessConnected(a: Version, b: Version)
    requires a != b
    ensures Less(a, b) || Less(b, a)
  {
    if a.major == b.major && a.minor == b.minor && a.patch == b.patch
       && a.pre != [] && b.pre != [] {
      IdentifiersLessConnected(a.pre, b.pre);
    }
  }

  /** `a <= b` and `b <= c` give `a <= c`, where `x <= y` is `!Less(y, x)`. */
  lemma NotLessTransitive(a: Version, b: Version, c: Version)
    requires !Less(a, b) && !Less(b, c)
    ensures !Less(a, c)
  {
    if a != b && b != c {
      LessConnected(a, b);
      LessConnected(b, c);
      LessTransitive(c, b, a);
      LessAsymmetric(c, a);
    }
  }

  lemma LessAsymmetric(a: Version, b: Version)
    requires Less(a, b)
    ensures !Less(b, a)
  {
    if Less(b, a) {
      LessTransitive(a, b, a);
      LessIrreflexive(a);
    }
  }

  // ---------------------------------------------------------------------------
  // Textual form (section 2 and section 9 of Semantic Versioning 2.0.0)
  // ---------------------------------------------------------------------------

  predicate IsDigit(c: char)
  {
    '0' <= c <= '9'
  }

  function DigitChar(d: nat): (c: char)
    requires d < 10
    ensures IsDigit(c) && c as int - '0' as int == d
  {
    ('0' as int + d) as char
  }

  /** The decimal numeral of `n`, without leading zeros. */
  function NatText(n: nat): (s: string)
    ensures s != [] && forall i :: 0 <= i < |s| ==> IsDigit(s[i])
    ensures n == 0 ==> s == "0"
    ensures n > 0 ==> s[0] != '0'
  {
    if n < 10 then [DigitChar(n)] else NatText(n / 10) + [DigitChar(n % 10)]
  }

  /** The value of a decimal numeral. */
  function DecimalValue(s: string): (n: nat)
    requires forall i :: 0 <= i < |s| ==> IsDigit(s[i])
  {
    if s == [] then 0
    else
      assert IsDigit(s[|s| - 1]);
      DecimalValue(s[..|s| - 1]) * 10 + (s[|s| - 1] as int - '0' as int)
  }

  /** Reading back the numeral of `n` gives `n`. */
  lemma {:induction false} NatTextRoundTrip(n: nat)
    ensures DecimalValue(NatText(n)) == n
  {
    if n >= 10 {
      var s := NatText(n);
      assert s[..|s| - 1] == NatText(n / 10);
      NatTextRoundTrip(n / 10);
    }
  }

  function IdentifierText(id: Identifier): (s: string)
    ensures id.Numeric? ==> s == NatText(id.number)
  {
    match id
    case Numeric(n) => NatText(n)
    case Alphanumeric(s) => s
  }

  /** The identifiers joined by dots. */
  function PrereleaseText(ids: seq<Identifier>): (s: string)
    ensures ids != [] ==> |s| >= |IdentifierText(ids[0])| && s[..|IdentifierText(ids[0])|] == IdentifierText(ids[0])
  {
    if ids == [] then ""
    else if |ids| == 1 then IdentifierText(ids[0])
    else IdentifierText(ids[0]) + "." + PrereleaseText(ids[1..])
  }

  /** `Version::to_string`: `major.minor.patch`, then `-` and the pre-release when there is one. */
  function VersionText(v: Version): (s: string)
    ensures var major := NatText(v.major);
      |s| > |major| && s[..|major|] == major && s[|major|] == '.'
    ensures v.pre == [] ==> '-' !in s
    ensures v.pre != [] ==> '-' in s
  {
    NatText(v.major) + "." + NatText(v.minor) + "." + NatText(v.patch)
    + (if v.pre == [] then "" else "-" + PrereleaseText(v.pre))
  }

  /** The characters section 9 of Semantic Versioning 2.0.0 allows in an identifier. */
  predicate IsIdentifierChar(c: char)
  {
    IsDigit(c) || 'a' <= c <= 'z' || 'A' <= c <= 'Z' || c == '-'
  }

  predicate ValidIdentifier(id: Identifier)
  {
    id.Alphanumeric? ==> id.text != [] && forall i :: 0 <= i < |id.text| ==> IsIdentifierChar(id.text[i])
  }

  /** A version as the grammar of Semantic Versioning 2.0.0 can produce it. */
  predicate WellFormed(v: Version)
  {
    forall i :: 0 <= i < |v.pre| ==> ValidIdentifier(v.pre[i])
  }

  lemma {:induction false} PrereleaseTextHasNoSlash(ids: seq<Identifier>)
    requires forall i :: 0 <= i < |ids| ==> ValidIdentifier(ids[i])
    ensures '/' !in PrereleaseText(ids)
  {
    if ids != [] {
      var head := IdentifierText(ids[0]);
      assert ValidIdentifier(ids[0]);
      assert forall i :: 0 <= i < |head| ==> head[i] != '/';
      if |ids| > 1 {
        PrereleaseTextHasNoSlash(ids[1..]);
      }
    }
  }

  /**
   * The text of a well-formed version never contains a path separator, so
   * `"v" + to_string()` is always a single path component.
   */
  lemma VersionTextIsOneComponent(v: Version)
    requires WellFormed(v)
    ensures '/' !in VersionText(v) && VersionText(v) != []
  {
    PrereleaseTextHasNoSlash(v.pre);
    var major, minor, patch := NatText(v.major), NatText(v.minor), NatText(v.patch);
    assert forall i :: 0 <= i < |major| ==> major[i] != '/';
    assert forall i :: 0 <= i < |minor| ==> minor[i] != '/';
    assert forall i :: 0 <= i < |patch| ==> patch[i] != '/';
  }
}
