/**
 lib/semverext.js: `gtr(version, range)`, "is the version greater than every version the range
 allows". For each comparator set it picks the comparator of highest bound and the one of lowest
 bound, then rejects on their operators. The `semver` package's own `gtr`, which `isUpdated` calls,
 runs the same algorithm; it differs only in reading a match-anything comparator as `>=0.0.0`.
 */
module SemverExt {
  import opened Wrappers
  import opened Semver

  predicate NoEmptyClause(range: Range) {
    forall i | 0 <= i < |range| :: |range[i]| > 0
  }

  /** Among the first `n` comparators, `h` has a bound of highest precedence and every earlier one is
      strictly lower: on ties the earliest is kept. */
  predicate IsHigh(clause: Clause, n: nat, h: nat) {
    && h < n <= |clause|
    && (forall j | 0 <= j < n :: Lte(clause[j].bound, clause[h].bound))
    && (forall j | 0 <= j < h :: Lt(clause[j].bound, clause[h].bound))
  }

  /** Among the first `n` comparators, `l` has a bound of lowest precedence, the earliest such. */
  predicate IsLow(clause: Clause, n: nat, l: nat) {
    && l < n <= |clause|
    && (forall j | 0 <= j < n :: Gte(clause[j].bound, clause[l].bound))
    && (forall j | 0 <= j < l :: Gt(clause[j].bound, clause[l].bound))
  }

  /** Positions of the `high` and `low` comparators. */
  datatype Ends = Ends(high: nat, low: nat)

  /** A new comparator above the current high becomes the high one; the low one stays lowest. */
  lemma HighStep(clause: Clause, n: nat, e: Ends)
    requires 1 <= n < |clause| && IsHigh(clause, n, e.high) && IsLow(clause, n, e.low)
    requires Gt(clause[n].bound, clause[e.high].bound)
    ensures IsHigh(clause, n + 1, n) && IsLow(clause, n + 1, e.low)
  {
    var c := clause[n].bound;
    CmpRefl(c);
    CmpAntisym(c, clause[e.high].bound);
    forall j | 0 <= j < n
      ensures Lt(clause[j].bound, c)
    {
      LteLtTrans(clause[j].bound, clause[e.high].bound, c);
    }
    CmpAntisym(clause[e.low].bound, clause[e.high].bound);
    LteLtTrans(clause[e.low].bound, clause[e.high].bound, c);
    CmpAntisym(clause[e.low].bound, c);
  }

  /** A new comparator below the current low becomes the low one; the high one stays highest. */
  lemma LowStep(clause: Clause, n: nat, e: Ends)
    requires 1 <= n < |clause| && IsHigh(clause, n, e.high) && IsLow(clause, n, e.low)
    requires !Gt(clause[n].bound, clause[e.high].bound) && Lt(clause[n].bound, clause[e.low].bound)
    ensures IsHigh(clause, n + 1, e.high) && IsLow(clause, n + 1, n)
  {
    var c := clause[n].bound;
    CmpRefl(c);
    forall j | 0 <= j < n
      ensures Gt(clause[j].bound, c)
    {
      CmpAntisym(clause[j].bound, clause[e.low].bound);
      LtLteTrans(c, clause[e.low].bound, clause[j].bound);
      CmpAntisym(clause[j].bound, c);
    }
    CmpAntisym(c, clause[e.high].bound);
  }

  /** A new comparator between the two leaves both in place. */
  lemma KeepStep(clause: Clause, n: nat, e: Ends)
    requires 1 <= n < |clause| && IsHigh(clause, n, e.high) && IsLow(clause, n, e.low)
    requires !Gt(clause[n].bound, clause[e.high].bound) && !Lt(clause[n].bound, clause[e.low].bound)
    ensures IsHigh(clause, n + 1, e.high) && IsLow(clause, n + 1, e.low)
  {
    CmpAntisym(clause[n].bound, clause[e.high].bound);
  }

  /** The `forEach` over the first `n` comparators of a set. */
  function EndsOf(clause: Clause, n: nat): (e: Ends)
    requires 1 <= n <= |clause|
    ensures IsHigh(clause, n, e.high) && IsLow(clause, n, e.low)
  {
    if n == 1 then
      CmpRefl(clause[0].bound);
      Ends(0, 0)
    else
      var e := EndsOf(clause, n - 1);
      if Gt(clause[n - 1].bound, clause[e.high].bound) then
        HighStep(clause, n - 1, e);
        Ends(n - 1, e.low)
      else if Lt(clause[n - 1].bound, clause[e.low].bound) then
        LowStep(clause, n - 1, e);
        Ends(e.high, n - 1)
      else
        KeepStep(clause, n - 1, e);
        e
  }

  /** `high` is a comparator of maximal bound and `low` one of minimal bound, the earliest of each. */
  function HighLow(clause: Clause): (e: Ends)
    requires |clause| > 0
    ensures IsHigh(clause, |clause|, e.high) && IsLow(clause, |clause|, e.low)
  {
    EndsOf(clause, |clause|)
  }

  /** One iteration of the loop over comparator sets: does this set leave the verdict true? A set
      whose highest comparator is `>` or `>=` is unbounded above; a version not beyond the lowest
      comparator (`<=` it for `""` and `>`, `<` it for `>=`) is not above the set. What a passing
      set means for the versions it allows is `PassingClauseBoundsAbove`. */
  function ClausePasses(v: Version, clause: Clause): bool
    requires |clause| > 0
  {
    var e := HighLow(clause);
    var high, low := clause[e.high], clause[e.low];
    if high.op == Greater || high.op == AtLeast then false
    else if (low.op == Exact || low.op == Greater) && Lte(v, low.bound) then false
    else if low.op == AtLeast && Lt(v, low.bound) then false
    else true
  }

  /** The sets from `i` up to `k` are all non-empty and all pass. */
  predicate PassesBetween(v: Version, range: Range, i: nat, k: nat) {
    forall j | i <= j < k && j < |range| :: |range[j]| > 0 && ClausePasses(v, range[j])
  }

  /** Going through the sets from position `i`, a match-anything set comes before any set that fails. */
  predicate ReachesAny(v: Version, range: Range, i: nat) {
    exists k | i <= k < |range| :: |range[k]| == 0 && PassesBetween(v, range, i, k)
  }

  /** The loop over comparator sets from position `i`: `Some(false)` at the first set that does not
      pass, `None` when it reaches a match-anything set first (the source calls `semver.gt` on that
      set's comparator, whose version is not a version, and throws), `Some(true)` when every set
      passes. */
  function PassesFrom(v: Version, range: Range, i: nat): (r: Option<bool>)
    requires i <= |range|
    ensures r == Some(true) <==> PassesBetween(v, range, i, |range|)
    ensures r.None? <==> ReachesAny(v, range, i)
    decreases |range| - i
  {
    if i == |range| then Some(true)
    else if |range[i]| == 0 then None
    else if !ClausePasses(v, range[i]) then Some(false)
    else
      var r := PassesFrom(v, range, i + 1);
      assert r.None? ==> ReachesAny(v, range, i) by {
        if r.None? {
          var k :| i + 1 <= k < |range| && |range[k]| == 0 && PassesBetween(v, range, i + 1, k);
          assert PassesBetween(v, range, i, k);
        }
      }
      assert ReachesAny(v, range, i) ==> r.None? by {
        if ReachesAny(v, range, i) {
          var k :| i <= k < |range| && |range[k]| == 0 && PassesBetween(v, range, i, k);
          assert PassesBetween(v, range, i + 1, k);
        }
      }
      r
  }

  /** Every set of the range is non-empty and passes. */
  predicate AllPass(v: Version, range: Range) {
    forall clause | clause in range :: |clause| > 0 && ClausePasses(v, clause)
  }

  /** `gtr(version, range)`: false when the version satisfies the range; otherwise the loop over
      the comparator sets, which is true exactly when every set passes and throws (`None`) when it
      reaches a match-anything set before any set fails. */
  function Gtr(v: Version, range: Range): (r: Option<bool>)
    ensures Satisfies(v, range) ==> r == Some(false)
    ensures r == Some(true) <==> !Satisfies(v, range) && AllPass(v, range)
    ensures r.None? <==> !Satisfies(v, range) && ReachesAny(v, range, 0)
    ensures NoEmptyClause(range) ==> r.Some?
  {
    var passes := PassesFrom(v, range, 0);
    assert PassesBetween(v, range, 0, |range|) <==> AllPass(v, range) by {
      if PassesBetween(v, range, 0, |range|) {
        forall clause | clause in range ensures |clause| > 0 && ClausePasses(v, clause) {
          var k :| 0 <= k < |range| && range[k] == clause;
        }
      }
    }
    if Satisfies(v, range) then Some(false) else passes
  }

  /** A true verdict does not depend on the order in which the comparator sets are written; with
      no match-anything set, no verdict does. (With one, the order decides whether a failing set or
      the throw comes first.) */
  lemma GtrClauseOrder(v: Version, r1: Range, r2: Range)
    requires multiset(r1) == multiset(r2)
    ensures Gtr(v, r1) == Some(true) <==> Gtr(v, r2) == Some(true)
    ensures NoEmptyClause(r1) ==> Gtr(v, r1) == Gtr(v, r2)
  {
    forall clause ensures clause in r1 <==> clause in r2 {
      assert clause in r1 <==> clause in multiset(r1);
      assert clause in r2 <==> clause in multiset(r2);
    }
    SameSets(v, r1, r2);
    SameSets(v, r2, r1);
    var g1, g2 := Gtr(v, r1), Gtr(v, r2);
    if NoEmptyClause(r1) {
      assert g1.Some? && g2.Some?;
      if !g1.value {
        assert g1 == Some(false);
        assert g2.value == false;
      }
    }
  }

  /** Two ranges made of the same comparator sets agree on everything the verdict is built from. */
  lemma SameSets(v: Version, r1: Range, r2: Range)
    requires forall clause :: clause in r1 <==> clause in r2
    ensures Satisfies(v, r1) ==> Satisfies(v, r2)
    ensures AllPass(v, r1) ==> AllPass(v, r2)
    ensures NoEmptyClause(r1) ==> NoEmptyClause(r2)
  {
    if Satisfies(v, r1) {
      var i :| 0 <= i < |r1| && ClauseHolds(r1[i], v);
      assert r1[i] in r1;
      var j :| 0 <= j < |r2| && r2[j] == r1[i];
    }
    if NoEmptyClause(r1) {
      forall k | 0 <= k < |r2| ensures |r2[k]| > 0 {
        assert r2[k] in r2;
        var j :| 0 <= j < |r1| && r1[j] == r2[k];
      }
    }
  }

  // ---------------------------------------------------------------------------------------------
  // The semver package's gtr

  const Zero := Version(0, 0, 0, [], [])

  /** The package reads a match-anything comparator as `>=0.0.0`. */
  function AnyAsFloor(range: Range): (r: Range)
    ensures |r| == |range| && NoEmptyClause(r)
    ensures forall i | 0 <= i < |range| :: r[i] == (if |range[i]| == 0 then [Comparator(AtLeast, Zero)] else range[i])
  {
    if |range| == 0 then []
    else [if |range[0]| == 0 then [Comparator(AtLeast, Zero)] else range[0]] + AnyAsFloor(range[1..])
  }

  /** Flooring changes nothing in a range without match-anything sets and makes such a set fail. */
  lemma FlooredFacts(v: Version, range: Range)
    ensures NoEmptyClause(range) ==> AnyAsFloor(range) == range
    ensures (exists i | 0 <= i < |range| :: |range[i]| == 0) ==> PassesFrom(v, AnyAsFloor(range), 0) != Some(true)
  {
    var floored := AnyAsFloor(range);
    if NoEmptyClause(range) {
      assert floored == range;
    } else {
      var i :| 0 <= i < |range| && |range[i]| == 0;
      assert !ClausePasses(v, floored[i]);
      assert !PassesBetween(v, floored, 0, |floored|);
    }
  }

  /** `semver.gtr(version, range)` as `isUpdated` calls it: the algorithm above, after reading a
      match-anything comparator set as `>=0.0.0`, which never passes. */
  function PackageGtr(v: Version, range: Range): (r: bool)
    ensures NoEmptyClause(range) ==> Gtr(v, range) == Some(r)
    ensures (exists i | 0 <= i < |range| :: |range[i]| == 0) ==> !r
    ensures r ==> !Satisfies(v, range)
  {
    var floored := AnyAsFloor(range);
    FlooredFacts(v, range);
    assert NoEmptyClause(range) ==> Gtr(v, range) == Some(!Satisfies(v, range) && PassesFrom(v, floored, 0) == Some(true)) by {
      if NoEmptyClause(range) {
        var g := Gtr(v, range);
        assert g.Some?;
        assert g == if Satisfies(v, range) then Some(false) else PassesFrom(v, range, 0);
        if !g.value {
          assert g == Some(false);
        }
      }
    }
    if Satisfies(v, range) then false else PassesFrom(v, floored, 0) == Some(true)
  }

  // ---------------------------------------------------------------------------------------------
  // What a true verdict means

  predicate IsLowerOp(op: Op) { op == Greater || op == AtLeast }
  predicate IsUpperOp(op: Op) { op == Less || op == AtMost }

  /** The comparator sets node-semver's range syntax produces: one comparator, or a lower bound
      followed by an upper bound (`~`, `^`, `x` and hyphen ranges). */
  predicate WellShaped(clause: Clause) {
    || |clause| == 1
    || (|clause| == 2 && IsLowerOp(clause[0].op) && IsUpperOp(clause[1].op))
  }

  /** A comparator the version fails although it holds for `w`, and which passes the set, puts the
      version above `w`. */
  lemma PassingClauseBoundsAbove(v: Version, clause: Clause, w: Version)
    requires WellShaped(clause) && v.pre == []
    requires ClausePasses(v, clause) && !ClauseHolds(clause, v) && ClauseHolds(clause, w)
    ensures Gt(v, w)
  {
    var e := HighLow(clause);
    var j :| 0 <= j < |clause| && !Test(clause[j], v);
    var c := clause[j];
    assert Test(c, w);
    CmpAntisym(v, w);
    CmpAntisym(v, c.bound);
    CmpAntisym(w, c.bound);
    if |clause| == 2 {
      // high is the upper bound, low the lower one: the version is beyond the lower bound
      assert e.high == 1 && e.low == 0;
      assert j == 1;
    }
    match c.op
    case Exact =>
      CmpTrans(w, c.bound, v);
    case Less =>
      LtLteTrans(w, c.bound, v);
    case AtMost =>
      LteLtTrans(w, c.bound, v);
    case Greater =>
      assert false;
    case AtLeast =>
      assert false;
  }

  /** For plain versions and well-shaped sets, a true verdict means the version is above every
      version the range allows. */
  lemma GtrSound(v: Version, range: Range, w: Version)
    requires forall i | 0 <= i < |range| :: WellShaped(range[i])
    requires v.pre == []
    requires Gtr(v, range) == Some(true) && Satisfies(w, range)
    ensures Gt(v, w)
  {
    var i :| 0 <= i < |range| && ClauseHolds(range[i], w);
    assert range[i] in range;
    PassingClauseBoundsAbove(v, range[i], w);
  }

  /** Outside those shapes the verdict can be wrong: for `<=1.0.0 >=1.0.0` the earliest of the tied
      bounds is both `high` and `low`, so `0.5.0` is reported above a range that allows `1.0.0`. */
  lemma GtrTieCounterexample()
    ensures var range := [[Comparator(AtMost, Version(1, 0, 0, [], [])), Comparator(AtLeast, Version(1, 0, 0, [], []))]];
            && Gtr(Version(0, 5, 0, [], []), range) == Some(true)
            && Satisfies(Version(1, 0, 0, [], []), range)
            && Lt(Version(0, 5, 0, [], []), Version(1, 0, 0, [], []))
  {
    var one := Version(1, 0, 0, [], []);
    var half := Version(0, 5, 0, [], []);
    var clause := [Comparator(AtMost, one), Comparator(AtLeast, one)];
    var range := [clause];
    assert HighLow(clause) == Ends(0, 0);
    assert !Test(clause[1], half);
    assert ClauseHolds(clause, one);
  }
}
