/**
 lib/version.js: the stability and SCM classifiers on version text, the latest stable version of a
 list, the `{latest, stable}` pair of a package trusting the list's order, and the versions of a
 list that satisfy a range.

 lib/david.js (`isStable`, `getLatestStable` and the latest/stable block of `getLatestVerInfo`) and
 src/david.js (`isStable`) hold copies of the same code; they are modelled by these definitions.
 */
module VersionLib {
  import opened Wrappers
  import opened Semver

  // ---------------------------------------------------------------------------------------------
  // Classifiers

  /** The characters the pattern `/[a-z+-]/i` finds: an ASCII letter of either case, `+` or `-`. */
  predicate UnstableChar(c: char) {
    ('a' <= c <= 'z') || ('A' <= c <= 'Z') || c == '+' || c == '-'
  }

  /** `isStable`: no character of the text is an ASCII letter, `+` or `-`.
      An absent version is read as the empty text, which is stable. */
  function IsStable(s: string): (r: bool)
    ensures r <==> forall i :: 0 <= i < |s| ==> !UnstableChar(s[i])
  {
    if |s| == 0 then true
    else !UnstableChar(s[0]) && IsStable(s[1..])
  }

  const ScmPrefixes: seq<string> := ["git:", "git+ssh:", "https:", "git+https:"]

  /** The prefixes of `prefixes` that `s` starts with, in order (`scmPrefixes.filter(...)`). */
  function MatchingPrefixes(prefixes: seq<string>, s: string): (r: seq<string>)
    ensures forall p :: p in r <==> p in prefixes && p <= s
  {
    if |prefixes| == 0 then []
    else (if prefixes[0] <= s then [prefixes[0]] else []) + MatchingPrefixes(prefixes[1..], s)
  }

  /** `isScm`: the text starts with one of `git:`, `git+ssh:`, `https:`, `git+https:`. */
  function IsScm(s: string): (r: bool)
    ensures r <==> exists p :: p in ScmPrefixes && p <= s
  {
    var matching := MatchingPrefixes(ScmPrefixes, s);
    assert |matching| > 0 ==> matching[0] in matching;
    |matching| > 0
  }

  /** A source-control reference is never a stable version: each prefix starts with a letter. */
  lemma ScmIsUnstable(s: string)
    requires IsScm(s)
    ensures !IsStable(s)
  {
    var p :| p in ScmPrefixes && p <= s;
    assert p[0] == s[0];
    assert UnstableChar(s[0]);
  }

  /** The text of a version is stable exactly when the version has neither pre-release
      identifiers (which print after a `-`) nor build metadata (after a `+`). */
  lemma StableText(v: Version)
    ensures IsStable(Text(v)) <==> Stable(v)
  {
    var core := CoreText(v);
    if v.pre != [] {
      assert Text(v)[|core|] == '-';
    } else if v.build != [] {
      assert Text(v)[|core|] == '+';
    } else {
      assert Text(v) == core;
    }
  }

  /** `isStable` of a version's text, stated on the parsed version; `StableText` proves the two agree. */
  predicate Stable(v: Version) {
    v.pre == [] && v.build == []
  }

  // ---------------------------------------------------------------------------------------------
  // Latest stable version of a list

  predicate NoStable(vs: seq<Version>) {
    forall i | 0 <= i < |vs| :: !Stable(vs[i])
  }

  /** Position `i` holds the highest-indexed stable element of `vs`. */
  predicate IsLastStable(vs: seq<Version>, i: int) {
    && 0 <= i < |vs|
    && Stable(vs[i])
    && forall j | i < j < |vs| :: !Stable(vs[j])
  }

  /** `o` is what scanning `vs` from its end for a stable element finds. */
  ghost predicate LatestStableOf(vs: seq<Version>, o: Option<Version>) {
    match o
    case None => NoStable(vs)
    case Some(v) => exists i :: IsLastStable(vs, i) && vs[i] == v
  }

  /** When the last element is not stable, scanning the list finds what scanning its front finds. */
  lemma LastStableOfFront(vs: seq<Version>)
    requires |vs| > 0 && !Stable(vs[|vs| - 1])
    ensures NoStable(vs[..|vs| - 1]) <==> NoStable(vs)
    ensures forall i :: IsLastStable(vs[..|vs| - 1], i) ==> IsLastStable(vs, i)
  {
    var front := vs[..|vs| - 1];
    if NoStable(front) {
      forall i | 0 <= i < |vs| ensures !Stable(vs[i]) {
        if i < |front| {
          assert vs[i] == front[i];
        }
      }
    }
  }

  /** `getLatestStable`: pops from the end of a copy of the list until a stable version appears. */
  function GetLatestStable(versions: seq<Version>): (r: Option<Version>)
    ensures r.None? <==> NoStable(versions)
    ensures LatestStableOf(versions, r)
  {
    if |versions| == 0 then None
    else if Stable(versions[|versions| - 1]) then
      assert IsLastStable(versions, |versions| - 1);
      Some(versions[|versions| - 1])
    else
      var front := versions[..|versions| - 1];
      LastStableOfFront(versions);
      GetLatestStable(front)
  }

  // ---------------------------------------------------------------------------------------------
  // Latest and stable pair

  datatype Latest = Latest(latest: Option<Version>, stable: Option<Version>)

  function LastOf(vs: seq<Version>): Option<Version> {
    if |vs| == 0 then None else Some(vs[|vs| - 1])
  }

  predicate NoneAbove(vs: seq<Version>, s: Version) {
    forall i | 0 <= i < |vs| :: !Gt(vs[i], s)
  }

  /** Position `i` holds the highest-indexed element of `vs` with higher precedence than `s`. */
  predicate IsLastAbove(vs: seq<Version>, s: Version, i: int) {
    && 0 <= i < |vs|
    && Gt(vs[i], s)
    && forall j | i < j < |vs| :: !Gt(vs[j], s)
  }

  /** When the last element is not above `s`, scanning the list finds what scanning its front finds. */
  lemma LastAboveOfFront(vs: seq<Version>, s: Version)
    requires |vs| > 0 && !Gt(vs[|vs| - 1], s)
    ensures NoneAbove(vs[..|vs| - 1], s) <==> NoneAbove(vs, s)
    ensures forall i :: IsLastAbove(vs[..|vs| - 1], s, i) ==> IsLastAbove(vs, s, i)
  {
    var front := vs[..|vs| - 1];
    assert forall i | 0 <= i < |front| :: front[i] == vs[i];
  }

  /** The backwards scan of `getLatest` for an element of higher precedence than `s`. */
  function LastAbove(vs: seq<Version>, s: Version): (r: Option<Version>)
    ensures r.None? <==> NoneAbove(vs, s)
    ensures r.Some? ==> exists i :: IsLastAbove(vs, s, i) && vs[i] == r.value
  {
    if |vs| == 0 then None
    else if Gt(vs[|vs| - 1], s) then
      assert IsLastAbove(vs, s, |vs| - 1);
      Some(vs[|vs| - 1])
    else
      LastAboveOfFront(vs, s);
      LastAbove(vs[..|vs| - 1], s)
  }

  /** `getLatest(current, versions)`: `stable` is `current` when it is stable, else the latest stable
      version of the list; `latest` is the highest-indexed version above `stable`, or the last version
      of the list when there is none or `stable` is absent. */
  function GetLatest(current: Version, versions: seq<Version>): (r: Latest)
    ensures Stable(current) ==> r.stable == Some(current)
    ensures !Stable(current) ==> LatestStableOf(versions, r.stable)
    ensures r.stable.Some? ==> Stable(r.stable.value)
    ensures r.latest.None? <==> |versions| == 0
    ensures r.stable.None? ==> r.latest == LastOf(versions)
    ensures r.stable.Some? && NoneAbove(versions, r.stable.value) ==> r.latest == LastOf(versions)
    ensures r.stable.Some? && !NoneAbove(versions, r.stable.value) ==>
              exists i :: IsLastAbove(versions, r.stable.value, i) && r.latest == Some(versions[i])
  {
    var stable := if Stable(current) then Some(current) else GetLatestStable(versions);
    var latest := LastOf(versions);
    if stable.Some? then
      match LastAbove(versions, stable.value)
      case Some(v) => Latest(Some(v), stable)
      case None => Latest(latest, stable)
    else
      Latest(latest, stable)
  }

  /** Lower-or-equal precedence between every earlier and later element. */
  predicate Ascending(vs: seq<Version>) {
    forall i, j | 0 <= i < j < |vs| :: Lte(vs[i], vs[j])
  }

  /** In an ascending list, the last element is above whatever an earlier element is above. */
  lemma LastIsAbove(versions: seq<Version>, s: Version, k: int)
    requires Ascending(versions) && 0 <= k < |versions| && Gt(versions[k], s)
    ensures Gt(versions[|versions| - 1], s)
  {
    var n := |versions|;
    if k < n - 1 {
      CmpAntisym(versions[k], s);
      LtLteTrans(s, versions[k], versions[n - 1]);
      CmpAntisym(versions[n - 1], s);
    }
  }

  /** On a list in ascending precedence, `latest` is always the last element, whatever `current` is. */
  lemma AscendingLatestIsLast(current: Version, versions: seq<Version>)
    requires Ascending(versions) && |versions| > 0
    ensures GetLatest(current, versions).latest == Some(versions[|versions| - 1])
  {
    var r := GetLatest(current, versions);
    if r.stable.Some? && !NoneAbove(versions, r.stable.value) {
      var s := r.stable.value;
      var k :| IsLastAbove(versions, s, k) && r.latest == Some(versions[k]);
      LastIsAbove(versions, s, k);
    }
  }

  // ---------------------------------------------------------------------------------------------
  // Versions in a range

  /** `a` can be obtained from `b` by deleting elements. */
  ghost predicate IsSubsequence(a: seq<Version>, b: seq<Version>) {
    if |a| == 0 then true
    else if |b| == 0 then false
    else (a[0] == b[0] && IsSubsequence(a[1..], b[1..])) || IsSubsequence(a, b[1..])
  }

  /** `getVersionsInRange`: the versions that satisfy the range, in their original order. */
  function GetVersionsInRange(range: Range, versions: seq<Version>): (r: seq<Version>)
    ensures forall v :: v in r <==> v in versions && Satisfies(v, range)
    ensures forall v :: multiset(r)[v] == if Satisfies(v, range) then multiset(versions)[v] else 0
    ensures IsSubsequence(r, versions)
  {
    if |versions| == 0 then []
    else
      var rest := GetVersionsInRange(range, versions[1..]);
      assert versions == [versions[0]] + versions[1..];
      if Satisfies(versions[0], range) then
        assert ([versions[0]] + rest)[1..] == rest;
        [versions[0]] + rest
      else rest
  }

  /** Filtering twice by the same range is filtering once. */
  lemma {:induction false} GetVersionsInRangeIdempotent(range: Range, versions: seq<Version>)
    ensures GetVersionsInRange(range, GetVersionsInRange(range, versions)) == GetVersionsInRange(range, versions)
  {
    if |versions| > 0 {
      var rest := GetVersionsInRange(range, versions[1..]);
      GetVersionsInRangeIdempotent(range, versions[1..]);
      if Satisfies(versions[0], range) {
        assert ([versions[0]] + rest)[1..] == rest;
      }
    }
  }
}
