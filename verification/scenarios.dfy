/**
 Concrete instances of the model on the registry answers the repository's own test suite mocks:
 the view answers with the versions in order and names the last one as the current version.
 */
module Scenarios {
  import opened Wrappers
  import opened Semver
  import SemverExt
  import VersionLib
  import SrcDavid
  import opened LibDavid

  function V(major: nat, minor: nat, patch: nat): Version {
    Version(major, minor, patch, [], [])
  }

  /** `>=lo <hi`, what `~x.y.z` expands to. */
  function Tilde(lo: Version, hi: Version): Range {
    [[Comparator(AtLeast, lo), Comparator(Less, hi)]]
  }

  /** The mocked view: the versions in order, the last one as the current version. */
  function Mock(versions: seq<Version>): ViewResult
    requires |versions| > 0
  {
    Viewed(Some(versions[|versions| - 1]), versions)
  }

  /** A version outside each comparator set, shown by one failing comparator per set. */
  lemma Outside(v: Version, range: Range)
    requires forall i | 0 <= i < |range| :: exists j | 0 <= j < |range[i]| :: !Test(range[i][j], v)
    ensures !Satisfies(v, range)
  {
  }

  const Beta := Version(0, 0, 4, [Alnum("beta")], [])
  const Built := Version(0, 1, 4, [], ["build", "11", "e0f985a"])

  /** A manifest without the section yields no records and no error, whatever the options. */
  lemma EmptyManifest(opts: LibOptions, view: string -> ViewResult, validRange: string -> Option<Range>)
    ensures GetDependencies(map[], opts, view) == Outcome(map[], None)
    ensures GetUpdatedDependencies(map[], opts, view, validRange) == Outcome(map[], None)
  {
  }

  /** Only stable versions: both stable and latest are the highest. */
  lemma OnlyStableVersions()
    ensures LatestVerInfo("testDepName", false, Mock([V(0, 0, 1), V(0, 0, 2), V(0, 0, 3)]))
            == Success(VerInfo(Some(V(0, 0, 3)), Some(V(0, 0, 3)), None))
  {
  }

  /** A newer pre-release: stable stays on 0.0.3, latest is 0.0.4-beta. */
  lemma StableAndUnstableVersions()
    ensures LatestVerInfo("testDepName", false, Mock([V(0, 0, 1), V(0, 0, 2), V(0, 0, 3), Beta]))
            == Success(VerInfo(Some(Beta), Some(V(0, 0, 3)), None))
  {
    var vs := [V(0, 0, 1), V(0, 0, 2), V(0, 0, 3), Beta];
    assert !VersionLib.Stable(Beta);
    assert vs[..3] == [V(0, 0, 1), V(0, 0, 2), V(0, 0, 3)];
    assert VersionLib.GetLatestStable(vs) == Some(V(0, 0, 3));
    assert Gt(Beta, V(0, 0, 3));
    assert VersionLib.LastAbove(vs, V(0, 0, 3)) == Some(Beta);
  }

  /** Build metadata makes a version unstable, and it still counts as newer than the stable one. */
  lemma BuildMetadataLatest()
    ensures LatestVerInfo("testDepName", false, Mock([V(0, 0, 1), V(0, 1, 2), V(0, 1, 3), Built]))
            == Success(VerInfo(Some(Built), Some(V(0, 1, 3)), None))
    ensures IsUpdated(Pkg("~0.0.1", Some(V(0, 1, 3)), Some(Built), None), false, Some(Tilde(V(0, 0, 1), V(0, 1, 0))))
  {
    var vs := [V(0, 0, 1), V(0, 1, 2), V(0, 1, 3), Built];
    assert !VersionLib.Stable(Built);
    assert vs[..3] == [V(0, 0, 1), V(0, 1, 2), V(0, 1, 3)];
    assert VersionLib.GetLatestStable(vs) == Some(V(0, 1, 3));
    assert Gt(Built, V(0, 1, 3));
    assert VersionLib.LastAbove(vs, V(0, 1, 3)) == Some(Built);
    var range := Tilde(V(0, 0, 1), V(0, 1, 0));
    assert !Test(range[0][1], Built);
    Outside(Built, range);
  }

  /** A pinned `0.0.1` against latest 0.0.3 is updated; `~0.0.3` is not. */
  lemma PinnedBehind()
    ensures IsUpdated(Pkg("0.0.1", Some(V(0, 0, 3)), Some(V(0, 0, 3)), None), false, Some([[Comparator(Exact, V(0, 0, 1))]]))
    ensures !IsUpdated(Pkg("~0.0.3", Some(V(0, 0, 3)), Some(V(0, 0, 3)), None), false, Some(Tilde(V(0, 0, 3), V(0, 1, 0))))
  {
    var pinned := [[Comparator(Exact, V(0, 0, 1))]];
    assert !Test(pinned[0][0], V(0, 0, 3));
    Outside(V(0, 0, 3), pinned);
    assert ClauseHolds(Tilde(V(0, 0, 3), V(0, 1, 0))[0], V(0, 0, 3));
  }

  const Pre := Version(0, 6, 1, [Num(1)], [])

  /** `~0.6.1-1`. */
  function TildePre(): Range {
    Tilde(Pre, V(0, 7, 0))
  }

  /** Stable mode: with stable 0.7.0, `~0.6.1-1` is updated. */
  lemma TildePrereleaseBehind()
    ensures IsUpdated(Pkg("~0.6.1-1", Some(V(0, 7, 0)), Some(V(0, 7, 0)), None), true, Some(TildePre()))
  {
    var range := TildePre();
    assert !Test(range[0][1], V(0, 7, 0));
    Outside(V(0, 7, 0), range);
    assert SemverExt.HighLow(range[0]) == SemverExt.Ends(1, 0);
  }

  /** Stable mode: with only 0.6.0 stable, `~0.6.1-1` is not updated. */
  lemma TildePrereleaseAhead()
    ensures !IsUpdated(Pkg("~0.6.1-1", Some(V(0, 6, 0)), Some(Pre), None), true, Some(TildePre()))
  {
    var range := TildePre();
    assert !Test(range[0][0], V(0, 6, 0));
    Outside(V(0, 6, 0), range);
    assert SemverExt.HighLow(range[0]) == SemverExt.Ends(1, 0);
  }

  /** The latest pre-release is not stable: stable falls back to 0.6.0. */
  lemma TildePrereleaseVersions()
    ensures LatestVerInfo("testDepName", false, Mock([V(0, 6, 0), Pre]))
            == Success(VerInfo(Some(Pre), Some(V(0, 6, 0)), None))
  {
    var vs := [V(0, 6, 0), Pre];
    assert !VersionLib.Stable(Pre);
    assert vs[..1] == [V(0, 6, 0)];
    assert VersionLib.GetLatestStable(vs) == Some(V(0, 6, 0));
    assert Gt(Pre, V(0, 6, 0));
    assert VersionLib.LastAbove(vs, V(0, 6, 0)) == Some(Pre);
  }

  /** An empty declared range reads as `*`: never updated. */
  lemma EmptyRequired(stable: bool, range: Option<Range>)
    ensures !IsUpdated(Pkg("", Some(V(0, 0, 1)), Some(Built), None), stable, range)
  {
  }

  /** `<=0.0.2 || >0.0.4` with stable 0.0.4: outside the range but not above it. */
  lemma GapInRange()
    ensures !IsUpdated(Pkg("<=0.0.2 || >0.0.4", Some(V(0, 0, 4)), Some(V(0, 0, 4)), None), true,
                       Some([[Comparator(AtMost, V(0, 0, 2))], [Comparator(Greater, V(0, 0, 4))]]))
  {
  }

  /** `<0.1.0 || 0.1.3` with stable 0.2.0: above every comparator set. */
  lemma AboveEverySet()
    ensures IsUpdated(Pkg("<0.1.0 || 0.1.3", Some(V(0, 2, 0)), Some(V(0, 2, 0)), None), true,
                      Some([[Comparator(Less, V(0, 1, 0))], [Comparator(Exact, V(0, 1, 3))]]))
  {
    var range := [[Comparator(Less, V(0, 1, 0))], [Comparator(Exact, V(0, 1, 3))]];
    assert !Test(range[0][0], V(0, 2, 0));
    assert !Test(range[1][0], V(0, 2, 0));
    Outside(V(0, 2, 0), range);
    assert SemverExt.ClausePasses(V(0, 2, 0), range[0]);
    assert SemverExt.ClausePasses(V(0, 2, 0), range[1]);
  }
}
