/**
 Semantic versions as the engine sees them through the `semver` package: already parsed
 version values, the text they print as, precedence (section 11 of Semantic Versioning 2.0.0),
 comparators, ranges (a disjunction of comparator sets) and `satisfies`.

 Parsing of version and range strings belongs to the package and is not part of this model:
 versions and ranges arrive parsed.
 */
module Semver {

  /** A pre-release identifier: numeric identifiers compare as numbers, the others as ASCII text. */
  datatype Ident = Num(n: nat) | Alnum(s: string)

  /** MAJOR.MINOR.PATCH, optional pre-release identifiers and optional build metadata. */
  datatype Version = Version(major: nat, minor: nat, patch: nat, pre: seq<Ident>, build: seq<string>)

  // ---------------------------------------------------------------------------------------------
  // Text

  predicate IsDigit(c: char) {
    '0' <= c <= '9'
  }

  /** Decimal text of a natural number. */
  function NatText(n: nat): (s: string)
    ensures |s| > 0
    ensures forall i :: 0 <= i < |s| ==> IsDigit(s[i])
  {
    if n < 10 then [(48 + n) as char]
    else NatText(n / 10) + [(48 + n % 10) as char]
  }

  function IdentText(id: Ident): string {
    match id
    case Num(n) => NatText(n)
    case Alnum(s) => s
  }

  /** An identifier a version's text can carry: an alphanumeric one has a character that is not a
      digit, otherwise it would be read as a number. `CmpIdent` puts every number below every
      alphanumeric identifier, which matches the text only for valid identifiers. */
  predicate ValidIdent(id: Ident) {
    id.Alnum? ==> exists i | 0 <= i < |id.s| :: !IsDigit(id.s[i])
  }

  /** A number above 9 prints as at least two digits. */
  lemma NatTextLong(n: nat)
    requires n >= 10
    ensures |NatText(n)| >= 2
  {
    assert NatText(n) == NatText(n / 10) + [(48 + n % 10) as char];
  }

  /** Decimal text names a single number. */
  lemma {:induction false} NatTextInjective(n: nat, m: nat)
    requires NatText(n) == NatText(m)
    ensures n == m
    decreases n
  {
    if n >= 10 && m >= 10 {
      var a, b := NatText(n), NatText(m);
      assert a == NatText(n / 10) + [(48 + n % 10) as char];
      assert b == NatText(m / 10) + [(48 + m % 10) as char];
      assert a[|a| - 1] == b[|b| - 1];
      assert NatText(n / 10) == a[..|a| - 1] == b[..|b| - 1] == NatText(m / 10);
      NatTextInjective(n / 10, m / 10);
    } else if n >= 10 {
      NatTextLong(n);
    } else if m >= 10 {
      NatTextLong(m);
    }
  }

  /** Valid identifiers are told apart by their text. */
  lemma IdentTextInjective(a: Ident, b: Ident)
    requires ValidIdent(a) && ValidIdent(b) && IdentText(a) == IdentText(b)
    ensures a == b
  {
    if a.Num? && b.Num? {
      NatTextInjective(a.n, b.n);
    }
  }

  /** Dot-separated concatenation. */
  function Join(parts: seq<string>): string {
    if |parts| == 0 then ""
    else if |parts| == 1 then parts[0]
    else parts[0] + "." + Join(parts[1..])
  }

  function IdentTexts(ids: seq<Ident>): (r: seq<string>)
    ensures |r| == |ids|
    ensures forall i | 0 <= i < |r| :: r[i] == IdentText(ids[i])
  {
    if |ids| == 0 then [] else [IdentText(ids[0])] + IdentTexts(ids[1..])
  }

  /** The `MAJOR.MINOR.PATCH` part of a version's text. */
  function CoreText(v: Version): (s: string)
    ensures forall i :: 0 <= i < |s| ==> IsDigit(s[i]) || s[i] == '.'
  {
    var a, b, c := NatText(v.major), NatText(v.minor), NatText(v.patch);
    assert forall i :: 0 <= i < |a| ==> IsDigit(a[i]);
    a + "." + b + "." + c
  }

  function PreText(v: Version): string {
    if v.pre == [] then "" else "-" + Join(IdentTexts(v.pre))
  }

  function BuildText(v: Version): string {
    if v.build == [] then "" else "+" + Join(v.build)
  }

  /** The text of a version, as the registry lists it. */
  function Text(v: Version): string {
    CoreText(v) + PreText(v) + BuildText(v)
  }

  // ---------------------------------------------------------------------------------------------
  // Precedence (section 11 of Semantic Versioning 2.0.0); build metadata does not take part.

  function CmpNat(a: nat, b: nat): int {
    if a < b then -1 else if a > b then 1 else 0
  }

  /** ASCII (code unit) order of strings, as JavaScript's `<` on strings. */
  function CmpStr(a: string, b: string): int {
    if |a| == 0 && |b| == 0 then 0
    else if |a| == 0 then -1
    else if |b| == 0 then 1
    else if a[0] < b[0] then -1
    else if a[0] > b[0] then 1
    else CmpStr(a[1..], b[1..])
  }

  /** Numeric identifiers have lower precedence than alphanumeric ones. */
  function CmpIdent(a: Ident, b: Ident): int {
    match (a, b)
    case (Num(x), Num(y)) => CmpNat(x, y)
    case (Num(_), Alnum(_)) => -1
    case (Alnum(_), Num(_)) => 1
    case (Alnum(x), Alnum(y)) => CmpStr(x, y)
  }

  /** Identifier by identifier; when one list is a prefix of the other, the shorter is lower. */
  function CmpIds(a: seq<Ident>, b: seq<Ident>): int {
    if |a| == 0 && |b| == 0 then 0
    else if |a| == 0 then -1
    else if |b| == 0 then 1
    else if CmpIdent(a[0], b[0]) != 0 then CmpIdent(a[0], b[0])
    else CmpIds(a[1..], b[1..])
  }

  /** A version without pre-release identifiers is higher than one with them. */
  function CmpPre(a: seq<Ident>, b: seq<Ident>): int {
    if a == [] && b == [] then 0
    else if a == [] then 1
    else if b == [] then -1
    else CmpIds(a, b)
  }

  /** -1, 0 or 1 as `a` has lower, equal or higher precedence than `b`. */
  function Cmp(a: Version, b: Version): int {
    if a.major != b.major then CmpNat(a.major, b.major)
    else if a.minor != b.minor then CmpNat(a.minor, b.minor)
    else if a.patch != b.patch then CmpNat(a.patch, b.patch)
    else CmpPre(a.pre, b.pre)
  }

  predicate Gt(a: Version, b: Version) { Cmp(a, b) > 0 }
  predicate Lt(a: Version, b: Version) { Cmp(a, b) < 0 }
  predicate Gte(a: Version, b: Version) { Cmp(a, b) >= 0 }
  predicate Lte(a: Version, b: Version) { Cmp(a, b) <= 0 }

  // ---------------------------------------------------------------------------------------------
  // Precedence is a total preorder

  lemma {:induction false} CmpStrAntisym(a: string, b: string)
    ensures CmpStr(a, b) == -CmpStr(b, a)
  {
    if |a| > 0 && |b| > 0 && a[0] == b[0] {
      CmpStrAntisym(a[1..], b[1..]);
    }
  }

  lemma {:induction false} CmpStrTrans(a: string, b: string, c: string)
    requires CmpStr(a, b) <= 0 && CmpStr(b, c) <= 0
    ensures CmpStr(a, c) <= 0
  {
    if |a| > 0 && |b| > 0 && |c| > 0 && a[0] == b[0] && b[0] == c[0] {
      CmpStrTrans(a[1..], b[1..], c[1..]);
    }
  }

  lemma CmpIdentAntisym(a: Ident, b: Ident)
    ensures CmpIdent(a, b) == -CmpIdent(b, a)
  {
    if a.Alnum? && b.Alnum? {
      CmpStrAntisym(a.s, b.s);
    }
  }

  lemma CmpIdentTrans(a: Ident, b: Ident, c: Ident)
    requires CmpIdent(a, b) <= 0 && CmpIdent(b, c) <= 0
    ensures CmpIdent(a, c) <= 0
  {
    if a.Alnum? && b.Alnum? && c.Alnum? {
      CmpStrTrans(a.s, b.s, c.s);
    }
  }

  lemma {:induction false} CmpIdsAntisym(a: seq<Ident>, b: seq<Ident>)
    ensures CmpIds(a, b) == -CmpIds(b, a)
  {
    if |a| > 0 && |b| > 0 {
      CmpIdentAntisym(a[0], b[0]);
      CmpIdsAntisym(a[1..], b[1..]);
    }
  }

  lemma {:induction false} CmpIdsTrans(a: seq<Ident>, b: seq<Ident>, c: seq<Ident>)
    requires CmpIds(a, b) <= 0 && CmpIds(b, c) <= 0
    ensures CmpIds(a, c) <= 0
  {
    if |a| > 0 && |b| > 0 && |c| > 0 {
      CmpIdentAntisym(a[0], b[0]);
      CmpIdentAntisym(b[0], c[0]);
      CmpIdentAntisym(a[0], c[0]);
      CmpIdentTrans(a[0], b[0], c[0]);
      if CmpIdent(a[0], b[0]) == 0 && CmpIdent(b[0], c[0]) == 0 {
        CmpIdsTrans(a[1..], b[1..], c[1..]);
      } else if CmpIdent(a[0], c[0]) == 0 {
        // a[0] <= b[0] <= c[0] <= a[0] with one step strict cannot happen
        CmpIdentTrans(b[0], c[0], a[0]);
        CmpIdentTrans(c[0], a[0], b[0]);
      }
    }
  }

  lemma CmpPreAntisym(a: seq<Ident>, b: seq<Ident>)
    ensures CmpPre(a, b) == -CmpPre(b, a)
  {
    CmpIdsAntisym(a, b);
  }

  lemma CmpPreTrans(a: seq<Ident>, b: seq<Ident>, c: seq<Ident>)
    requires CmpPre(a, b) <= 0 && CmpPre(b, c) <= 0
    ensures CmpPre(a, c) <= 0
  {
    if a != [] && b != [] && c != [] {
      CmpIdsTrans(a, b, c);
    }
  }

  /** Swapping the arguments negates the comparison. */
  lemma CmpAntisym(a: Version, b: Version)
    ensures Cmp(a, b) == -Cmp(b, a)
  {
    CmpPreAntisym(a.pre, b.pre);
  }

  lemma CmpRefl(a: Version)
    ensures Cmp(a, a) == 0
  {
    CmpAntisym(a, a);
  }

  /** Lower-or-equal precedence is transitive. */
  lemma CmpTrans(a: Version, b: Version, c: Version)
    requires Lte(a, b) && Lte(b, c)
    ensures Lte(a, c)
  {
    if a.major == b.major == c.major && a.minor == b.minor == c.minor && a.patch == b.patch == c.patch {
      CmpPreTrans(a.pre, b.pre, c.pre);
    }
  }

  lemma LtLteTrans(a: Version, b: Version, c: Version)
    requires Lt(a, b) && Lte(b, c)
    ensures Lt(a, c)
  {
    CmpAntisym(a, c);
    CmpAntisym(a, b);
    if Lte(c, a) {
      CmpTrans(b, c, a);
    }
  }

  lemma LteLtTrans(a: Version, b: Version, c: Version)
    requires Lte(a, b) && Lt(b, c)
    ensures Lt(a, c)
  {
    CmpAntisym(a, c);
    CmpAntisym(b, c);
    if Lte(c, a) {
      CmpTrans(c, a, b);
    }
  }

  // ---------------------------------------------------------------------------------------------
  // Comparators and ranges

  /** The operators node-semver keeps after parsing: `""` (exact; `=` is read as `""`), `>`, `>=`, `<`, `<=`. */
  datatype Op = Exact | Greater | AtLeast | Less | AtMost

  datatype Comparator = Comparator(op: Op, bound: Version)

  /** A comparator set: all must hold. An empty set matches anything (node-semver's `*`). */
  type Clause = seq<Comparator>

  /** A disjunction of comparator sets (`a || b`). */
  type Range = seq<Clause>

  predicate Test(c: Comparator, v: Version) {
    match c.op
    case Exact => Cmp(v, c.bound) == 0
    case Greater => Cmp(v, c.bound) > 0
    case AtLeast => Cmp(v, c.bound) >= 0
    case Less => Cmp(v, c.bound) < 0
    case AtMost => Cmp(v, c.bound) <= 0
  }

  predicate SameCore(a: Version, b: Version) {
    a.major == b.major && a.minor == b.minor && a.patch == b.patch
  }

  /** Every comparator holds and, for a pre-release version, some comparator of the set names a
      pre-release of the same MAJOR.MINOR.PATCH (node-semver's `testSet`). */
  predicate ClauseHolds(clause: Clause, v: Version) {
    && (forall j | 0 <= j < |clause| :: Test(clause[j], v))
    && (v.pre == [] || exists j | 0 <= j < |clause| :: clause[j].bound.pre != [] && SameCore(clause[j].bound, v))
  }

  /** `semver.satisfies(v, range)`: some comparator set holds. */
  predicate Satisfies(v: Version, range: Range) {
    exists i | 0 <= i < |range| :: ClauseHolds(range[i], v)
  }
}
