/**
 src/david.js: dependency-map normalisation, the `isUpdated` decision, the latest/stable pair
 computed after sorting by precedence, and the filter/lookup logic of `dependenciesInfo`.

 The registry lookup (`moduleInfo`), glob matching of ignored names (`multimatch`) and
 `semver.validRange` are parameters: `lookup`, `ignored` and `validRange`.
 */
module SrcDavid {
  import opened Wrappers
  import opened Semver
  import opened SemverExt
  import opened Deps
  import VersionLib

  // ---------------------------------------------------------------------------------------------
  // normalizeDependencies

  /** `normalizeDependencies`: an array of names becomes `{name: '*'}` for each name, a string `s`
      becomes `{s: '*'}`, a value that is not an object becomes `{}`, and an object is kept. */
  function NormalizeDependencies(deps: DepsValue): (r: seq<Entry>)
    ensures deps.DepArray? ==> && UniqueNames(r)
                               && (forall i | 0 <= i < |r| :: r[i].range == "*")
                               && (forall n :: n in deps.names <==> HasName(r, n))
                               && (forall i, j | 0 <= i < j < |r| :: Before(deps.names, r[i].name, r[j].name))
    ensures deps.DepString? ==> r == [Entry(deps.s, "*")]
    ensures deps.NotObject? ==> r == []
    ensures deps.DepObject? ==> r == deps.entries
  {
    match deps
    case DepArray(names) => ArrayEntries(names)
    case DepString(s) => [Entry(s, "*")]
    case NotObject => []
    case DepObject(entries) => entries
  }

  // ---------------------------------------------------------------------------------------------
  // isUpdated

  /** `options.stable`, `options.ignoreNotFound`, `options.ignoreNonSemverRange`. */
  datatype Options = Options(stable: bool, ignoreNotFound: bool, ignoreNonSemverRange: bool)

  /** What `dependenciesInfo` reports per dependency; an absent `required` is the empty text. */
  datatype Info = Info(required: string, latest: Option<Version>, stable: Option<Version>, versions: seq<Version>)

  /** After `required || '*'`, the declared range is `latest` or `*`: nothing to compare. */
  predicate Unpinned(required: string) {
    required == "" || required == "latest" || required == "*"
  }

  /** The version compared with the range: `stable` in stable mode, `latest` otherwise. */
  function Compared(info: Info, opts: Options): Option<Version> {
    if opts.stable then info.stable else info.latest
  }

  /** `isUpdated(info, options)`, with `range` the result of `semver.validRange(info.required)`. */
  function IsUpdated(info: Info, opts: Options, range: Option<Range>): (r: bool)
    ensures Unpinned(info.required) ==> !r
    ensures Compared(info, opts).None? ==> !r
    ensures Compared(info, opts).Some? && range.Some? && Satisfies(Compared(info, opts).value, range.value) ==> !r
    ensures !Unpinned(info.required) && Compared(info, opts).Some? && range.None? ==> r
    ensures !Unpinned(info.required) && Compared(info, opts).Some? && range.Some? && !opts.stable ==>
              (r <==> !Satisfies(Compared(info, opts).value, range.value))
    ensures !Unpinned(info.required) && Compared(info, opts).Some? && range.Some? && opts.stable ==>
              (r <==> PackageGtr(Compared(info, opts).value, range.value))
  {
    var required := if info.required == "" then "*" else info.required;
    if required != "latest" && required != "*" then
      var version := if opts.stable then info.stable else info.latest;
      if version.Some? then
        if range.None? then true
        else if !Satisfies(version.value, range.value) then
          if opts.stable && PackageGtr(version.value, range.value) then true
          else if !opts.stable then true
          else false
        else false
      else false
    else false
  }

  /** In stable mode, for a plain stable version and a range whose comparator sets have the usual
      shapes, "updated" means the stable version is above every version the range allows. */
  lemma StableUpdateMeansAhead(info: Info, opts: Options, range: Range, w: Version)
    requires opts.stable && IsUpdated(info, opts, Some(range))
    requires forall i | 0 <= i < |range| :: WellShaped(range[i])
    requires info.stable.Some? && info.stable.value.pre == []
    requires Satisfies(w, range)
    ensures Gt(info.stable.value, w)
  {
    GtrSound(info.stable.value, range, w);
  }

  /** For a plain stable version and a range whose comparator sets have the usual shapes, a
      dependency updated against its stable version is updated against any `latest` at least as
      high: there, stable mode never flags what latest mode would not. Outside those shapes it can
      (`StableUpdateTieCounterexample`). */
  lemma StableUpdateImpliesLatestUpdate(info: Info, opts: Options, range: Range)
    requires opts.stable && IsUpdated(info, opts, Some(range))
    requires forall i | 0 <= i < |range| :: WellShaped(range[i])
    requires info.stable.Some? && info.stable.value.pre == []
    requires info.latest.Some? && Gte(info.latest.value, info.stable.value)
    ensures IsUpdated(info, opts.(stable := false), Some(range))
  {
    if Satisfies(info.latest.value, range) {
      StableUpdateMeansAhead(info, opts, range, info.latest.value);
      CmpAntisym(info.latest.value, info.stable.value);
      assert false;
    }
  }

  /** With the tied bounds of `<=1.0.0 >=1.0.0`, stable `0.5.0` is flagged in stable mode while
      latest `1.0.0`, which the range allows, is not flagged in latest mode. */
  lemma StableUpdateTieCounterexample()
    ensures var one, half := Version(1, 0, 0, [], []), Version(0, 5, 0, [], []);
            var range := [[Comparator(AtMost, one), Comparator(AtLeast, one)]];
            var info := Info("<=1.0.0 >=1.0.0", Some(one), Some(half), []);
            && IsUpdated(info, Options(true, false, false), Some(range))
            && !IsUpdated(info, Options(false, false, false), Some(range))
  {
    var one, half := Version(1, 0, 0, [], []), Version(0, 5, 0, [], []);
    var clause := [Comparator(AtMost, one), Comparator(AtLeast, one)];
    var range := [clause];
    GtrTieCounterexample();
    assert PackageGtr(half, range);
    assert Satisfies(one, range) by {
      assert ClauseHolds(range[0], one);
    }
  }

  // ---------------------------------------------------------------------------------------------
  // getLatest: sort by precedence, highest first

  predicate Descending(s: seq<Version>) {
    forall i, j | 0 <= i < j < |s| :: Gte(s[i], s[j])
  }

  lemma InsertFront(x: Version, sorted: seq<Version>)
    requires Descending(sorted) && |sorted| > 0 && Gt(x, sorted[0])
    ensures Descending([x] + sorted)
  {
    var r := [x] + sorted;
    forall i, j | 0 <= i < j < |r| ensures Gte(r[i], r[j]) {
      if i == 0 {
        CmpAntisym(sorted[j - 1], sorted[0]);
        CmpAntisym(x, sorted[0]);
        CmpAntisym(sorted[j - 1], x);
        LteLtTrans(sorted[j - 1], sorted[0], x);
      }
    }
  }

  lemma InsertAfter(x: Version, sorted: seq<Version>, rest: seq<Version>)
    requires Descending(sorted) && |sorted| > 0 && !Gt(x, sorted[0])
    requires Descending(rest) && multiset(rest) == multiset(sorted[1..]) + multiset{x}
    ensures Descending([sorted[0]] + rest)
  {
    var r := [sorted[0]] + rest;
    forall i, j | 0 <= i < j < |r| ensures Gte(r[i], r[j]) {
      if i == 0 {
        var y := rest[j - 1];
        assert y in multiset(rest);
        if y == x {
          CmpAntisym(x, sorted[0]);
        } else {
          assert y in multiset(sorted[1..]);
          var k :| 0 <= k < |sorted[1..]| && sorted[1..][k] == y;
          assert sorted[k + 1] == y;
        }
      }
    }
  }

  /** Puts `x` after every element of at least its precedence. */
  function Insert(x: Version, sorted: seq<Version>): (r: seq<Version>)
    requires Descending(sorted)
    ensures Descending(r)
    ensures multiset(r) == multiset(sorted) + multiset{x}
  {
    if |sorted| == 0 then [x]
    else if Gt(x, sorted[0]) then
      InsertFront(x, sorted);
      [x] + sorted
    else
      var rest := Insert(x, sorted[1..]);
      InsertAfter(x, sorted, rest);
      assert sorted == [sorted[0]] + sorted[1..];
      [sorted[0]] + rest
  }

  /** `Array.from(versions).sort((a, b) => gt(a, b) ? -1 : 1)` on a copy: a permutation in
      non-increasing precedence. The order among versions of equal precedence is not specified by
      the sort; this one is one of the allowed outcomes. */
  function SortDescending(vs: seq<Version>): (r: seq<Version>)
    ensures Descending(r)
    ensures multiset(r) == multiset(vs)
  {
    if |vs| == 0 then []
    else
      assert vs == [vs[0]] + vs[1..];
      Insert(vs[0], SortDescending(vs[1..]))
  }

  predicate IsFirstStable(vs: seq<Version>, i: int) {
    && 0 <= i < |vs|
    && VersionLib.Stable(vs[i])
    && forall j | 0 <= j < i :: !VersionLib.Stable(vs[j])
  }

  /** `versions.find(isStable)`. */
  function FindStable(vs: seq<Version>): (r: Option<Version>)
    ensures r.None? <==> VersionLib.NoStable(vs)
    ensures r.Some? ==> exists i :: IsFirstStable(vs, i) && vs[i] == r.value
  {
    if |vs| == 0 then None
    else if VersionLib.Stable(vs[0]) then
      assert IsFirstStable(vs, 0);
      Some(vs[0])
    else
      var r := FindStable(vs[1..]);
      assert r.Some? ==> forall i :: IsFirstStable(vs[1..], i) ==> IsFirstStable(vs, i + 1);
      r
  }

  predicate IsFirstAbove(vs: seq<Version>, s: Version, i: int) {
    && 0 <= i < |vs|
    && Gt(vs[i], s)
    && forall j | 0 <= j < i :: !Gt(vs[j], s)
  }

  /** The `for (const v of versions)` loop: the first version above `s`. */
  function FirstAbove(vs: seq<Version>, s: Version): (r: Option<Version>)
    ensures r.None? <==> VersionLib.NoneAbove(vs, s)
    ensures r.Some? ==> exists i :: IsFirstAbove(vs, s, i) && vs[i] == r.value
  {
    if |vs| == 0 then None
    else if Gt(vs[0], s) then
      assert IsFirstAbove(vs, s, 0);
      Some(vs[0])
    else
      var r := FirstAbove(vs[1..], s);
      assert r.Some? ==> forall i :: IsFirstAbove(vs[1..], s, i) ==> IsFirstAbove(vs, s, i + 1);
      r
  }

  /** No element of `vs` has higher precedence than `m`. */
  predicate IsMaximum(vs: seq<Version>, m: Version) {
    forall v | v in vs :: Lte(v, m)
  }

  /** The head of the sorted copy is a maximum of the original list. */
  lemma HeadIsMaximum(vs: seq<Version>, sorted: seq<Version>)
    requires Descending(sorted) && multiset(sorted) == multiset(vs)
    ensures forall v :: v in vs <==> v in sorted
    ensures |sorted| == |vs|
    ensures |sorted| > 0 ==> sorted[0] in vs && IsMaximum(vs, sorted[0])
  {
    assert |multiset(sorted)| == |multiset(vs)|;
    forall v ensures v in vs <==> v in sorted {
      assert v in vs <==> v in multiset(vs);
      assert v in sorted <==> v in multiset(sorted);
    }
    if |sorted| > 0 {
      CmpRefl(sorted[0]);
      forall v | v in vs ensures Lte(v, sorted[0]) {
        var k :| 0 <= k < |sorted| && sorted[k] == v;
        CmpAntisym(v, sorted[0]);
      }
    }
  }

  /** In a descending list, the first stable version is a highest stable one. */
  lemma FirstStableIsHighest(sorted: seq<Version>, i: int)
    requires Descending(sorted) && IsFirstStable(sorted, i)
    ensures forall v | v in sorted && VersionLib.Stable(v) :: Lte(v, sorted[i])
  {
    CmpRefl(sorted[i]);
    forall v | v in sorted && VersionLib.Stable(v) ensures Lte(v, sorted[i]) {
      var k :| 0 <= k < |sorted| && sorted[k] == v;
      CmpAntisym(v, sorted[i]);
    }
  }

  lemma FoundStableIsHighest(sorted: seq<Version>)
    requires Descending(sorted)
    ensures FindStable(sorted).Some? ==>
              forall v | v in sorted && VersionLib.Stable(v) :: Lte(v, FindStable(sorted).value)
  {
    if FindStable(sorted).Some? {
      var i :| IsFirstStable(sorted, i) && sorted[i] == FindStable(sorted).value;
      FirstStableIsHighest(sorted, i);
    }
  }

  /** In a descending list, when any version is above `s`, the head is. */
  lemma FirstAboveIsHead(sorted: seq<Version>, s: Version)
    requires Descending(sorted)
    ensures FirstAbove(sorted, s).Some? ==> FirstAbove(sorted, s) == Some(sorted[0])
  {
    var r := FirstAbove(sorted, s);
    if r.Some? {
      var i :| IsFirstAbove(sorted, s, i) && sorted[i] == r.value;
      if i > 0 {
        CmpAntisym(sorted[i], s);
        CmpAntisym(sorted[0], sorted[i]);
        LtLteTrans(s, sorted[i], sorted[0]);
        CmpAntisym(sorted[0], s);
        assert false;
      }
    }
  }

  /** `getLatest(current, versions)` of src/david.js: sorts a copy highest first, takes `current` as
      `stable` when it is stable and otherwise a highest stable version, and takes as `latest` the
      first sorted version above `stable` or, failing that, the highest version. */
  function GetLatest(current: Version, versions: seq<Version>): (r: VersionLib.Latest)
    ensures r.latest.None? <==> |versions| == 0
    ensures r.latest.Some? ==> r.latest.value in versions && IsMaximum(versions, r.latest.value)
    ensures VersionLib.Stable(current) ==> r.stable == Some(current)
    ensures !VersionLib.Stable(current) ==> (r.stable.None? <==> forall v | v in versions :: !VersionLib.Stable(v))
    ensures !VersionLib.Stable(current) && r.stable.Some? ==>
              && r.stable.value in versions
              && VersionLib.Stable(r.stable.value)
              && forall v | v in versions && VersionLib.Stable(v) :: Lte(v, r.stable.value)
    ensures r.stable.Some? && (exists v | v in versions :: Gt(v, r.stable.value)) ==>
              r.latest.Some? && Gt(r.latest.value, r.stable.value)
  {
    var sorted := SortDescending(versions);
    HeadIsMaximum(versions, sorted);
    var found := FindStable(sorted);
    var stable := if VersionLib.Stable(current) then Some(current) else found;
    var latest := if |sorted| == 0 then None else Some(sorted[0]);
    if stable.Some? then
      var s := stable.value;
      FirstAboveIsHead(sorted, s);
      assert (exists v | v in versions :: Gt(v, s)) ==> !VersionLib.NoneAbove(sorted, s) by {
        if v :| v in versions && Gt(v, s) {
          var k :| 0 <= k < |sorted| && sorted[k] == v;
        }
      }
      FoundStableIsHighest(sorted);
      match FirstAbove(sorted, s)
      case Some(v) => VersionLib.Latest(Some(v), stable)
      case None => VersionLib.Latest(latest, stable)
    else
      VersionLib.Latest(latest, stable)
  }

  predicate StrictlyAscending(vs: seq<Version>) {
    forall i, j | 0 <= i < j < |vs| :: Lt(vs[i], vs[j])
  }

  /** In a strictly ascending list, a maximum sits at the end. */
  lemma MaximumIsLast(versions: seq<Version>, k: int)
    requires StrictlyAscending(versions) && 0 <= k < |versions| && IsMaximum(versions, versions[k])
    ensures k == |versions| - 1
  {
    var n := |versions|;
    assert versions[n - 1] in versions;
    CmpAntisym(versions[n - 1], versions[k]);
  }

  /** In a strictly ascending list, a highest stable version is the last stable one. */
  lemma HighestStableIsLast(versions: seq<Version>, k: int, i: int)
    requires StrictlyAscending(versions) && 0 <= k < |versions| && VersionLib.Stable(versions[k])
    requires forall v | v in versions && VersionLib.Stable(v) :: Lte(v, versions[k])
    requires VersionLib.IsLastStable(versions, i)
    ensures k == i
  {
    assert versions[i] in versions;
    CmpAntisym(versions[i], versions[k]);
  }

  /** On a list in strictly ascending precedence, sorting first changes nothing: the two
      `getLatest` functions return the same pair. */
  lemma GetLatestAgrees(current: Version, versions: seq<Version>)
    requires StrictlyAscending(versions)
    ensures GetLatest(current, versions) == VersionLib.GetLatest(current, versions)
  {
    var a := GetLatest(current, versions);
    var b := VersionLib.GetLatest(current, versions);
    var n := |versions|;
    if n > 0 {
      VersionLib.AscendingLatestIsLast(current, versions);
      var k :| 0 <= k < n && versions[k] == a.latest.value;
      MaximumIsLast(versions, k);
    }
    if !VersionLib.Stable(current) && a.stable.Some? {
      var k :| 0 <= k < n && versions[k] == a.stable.value;
      var i :| VersionLib.IsLastStable(versions, i) && versions[i] == b.stable.value;
      HighestStableIsLast(versions, k, i);
    }
  }

  // ---------------------------------------------------------------------------------------------
  // dependenciesInfo

  /** What the registry lookup (`moduleInfo`) resolves to. */
  datatype ModuleInfo = ModuleInfo(latest: Option<Version>, stable: Option<Version>, versions: seq<Version>)

  /** A rejected lookup; `status` is the HTTP status when the error carries a response. */
  datatype FetchError = FetchError(status: Option<int>)

  datatype InfoError =
    | NonSemverRange(name: string)
    | LookupFailed(name: string, cause: FetchError)

  /** `{ required: r, ...info }`. */
  function InfoOf(e: Entry, m: ModuleInfo): Info {
    Info(e.range, m.latest, m.stable, m.versions)
  }

  /** An entry whose range is not valid semver, neither ignored by name nor by option: it makes the
      filter throw. */
  predicate Rejected(e: Entry, ignored: string -> bool, validRange: string -> Option<Range>, opts: Options) {
    !ignored(e.name) && validRange(e.range).None? && !opts.ignoreNonSemverRange
  }

  /** An entry that passes the filter and is looked up. */
  predicate Kept(e: Entry, ignored: string -> bool, validRange: string -> Option<Range>) {
    !ignored(e.name) && validRange(e.range).Some?
  }

  /** The `.filter(...)` stage: drops ignored names, drops or rejects invalid ranges. */
  function KeepEntries(entries: seq<Entry>, ignored: string -> bool, validRange: string -> Option<Range>, opts: Options)
    : (r: Result<seq<Entry>, InfoError>)
    ensures r.Success? <==> forall i | 0 <= i < |entries| :: !Rejected(entries[i], ignored, validRange, opts)
    ensures r.Failure? ==> exists i | 0 <= i < |entries| ::
              Rejected(entries[i], ignored, validRange, opts) && r.error == NonSemverRange(entries[i].name)
    ensures r.Success? ==> forall e :: e in r.value <==> e in entries && Kept(e, ignored, validRange)
    ensures r.Success? && UniqueNames(entries) ==> UniqueNames(r.value)
  {
    if |entries| == 0 then Success([])
    else
      var e := entries[0];
      if !ignored(e.name) && validRange(e.range).None? && !opts.ignoreNonSemverRange then
        Failure(NonSemverRange(e.name))
      else
        match KeepEntries(entries[1..], ignored, validRange, opts)
        case Failure(err) => Failure(err)
        case Success(rest) =>
          assert entries == [e] + entries[1..];
          if Kept(e, ignored, validRange) then
            assert UniqueNames(entries) ==> forall k | 0 <= k < |rest| :: rest[k].name != e.name by {
              if UniqueNames(entries) {
                forall k | 0 <= k < |rest| ensures rest[k].name != e.name {
                  assert rest[k] in entries[1..];
                }
              }
            }
            Success([e] + rest)
          else
            Success(rest)
  }

  /** A lookup outcome that does not reject the call: a result, or a 404 with `ignoreNotFound`. */
  predicate Settled(res: Result<ModuleInfo, FetchError>, opts: Options) {
    res.Success? || (opts.ignoreNotFound && res.error.status == Some(404))
  }

  /** The map holds exactly the names whose lookup succeeded. */
  ghost predicate ResolvedNames(kept: seq<Entry>, lookup: string -> Result<ModuleInfo, FetchError>, m: map<string, Info>) {
    forall n :: n in m <==> exists i | 0 <= i < |kept| :: kept[i].name == n && lookup(n).Success?
  }

  /** Each name whose lookup succeeded maps to its declared range and registry info. */
  ghost predicate ResolvedValues(kept: seq<Entry>, lookup: string -> Result<ModuleInfo, FetchError>, m: map<string, Info>) {
    forall i | 0 <= i < |kept| && lookup(kept[i].name).Success? ::
      kept[i].name in m && m[kept[i].name] == InfoOf(kept[i], lookup(kept[i].name).value)
  }

  /** Adding the head entry's info (when its lookup succeeded) to the map of the rest. */
  lemma {:induction false} ResolveStep(kept: seq<Entry>, lookup: string -> Result<ModuleInfo, FetchError>, m: map<string, Info>)
    requires |kept| > 0 && UniqueNames(kept)
    requires ResolvedNames(kept[1..], lookup, m) && ResolvedValues(kept[1..], lookup, m)
    ensures var e := kept[0];
            var r := if lookup(e.name).Success? then m[e.name := InfoOf(e, lookup(e.name).value)] else m;
            ResolvedNames(kept, lookup, r) && ResolvedValues(kept, lookup, r)
  {
    var e := kept[0];
    var r := if lookup(e.name).Success? then m[e.name := InfoOf(e, lookup(e.name).value)] else m;
    var rest := kept[1..];
    assert forall i | 0 < i < |kept| :: kept[i] == rest[i - 1];
    forall n ensures n in r <==> exists i | 0 <= i < |kept| :: kept[i].name == n && lookup(n).Success? {
      if n in m {
        var k :| 0 <= k < |rest| && rest[k].name == n && lookup(n).Success?;
        assert kept[k + 1].name == n;
      }
      if exists i | 0 <= i < |kept| :: kept[i].name == n && lookup(n).Success? {
        var i :| 0 <= i < |kept| && kept[i].name == n && lookup(n).Success?;
        if i > 0 {
          assert rest[i - 1].name == n;
        }
      }
    }
    forall i | 0 <= i < |kept| && lookup(kept[i].name).Success?
      ensures kept[i].name in r && r[kept[i].name] == InfoOf(kept[i], lookup(kept[i].name).value)
    {
      if i > 0 {
        assert kept[i].name != e.name;
        assert rest[i - 1] == kept[i];
      }
    }
  }

  /** The `.map(async ...)` stage and `Promise.all`, one entry after another: the first rejected
      lookup rejects the call, a 404 with `ignoreNotFound` drops its entry. */
  function Resolve(kept: seq<Entry>, lookup: string -> Result<ModuleInfo, FetchError>, opts: Options)
    : (r: Result<map<string, Info>, InfoError>)
    requires UniqueNames(kept)
    ensures r.Success? <==> forall i | 0 <= i < |kept| :: Settled(lookup(kept[i].name), opts)
    ensures r.Failure? ==> exists i | 0 <= i < |kept| ::
              !Settled(lookup(kept[i].name), opts) && r.error == LookupFailed(kept[i].name, lookup(kept[i].name).error)
    ensures r.Success? ==> ResolvedNames(kept, lookup, r.value) && ResolvedValues(kept, lookup, r.value)
  {
    if |kept| == 0 then Success(map[])
    else
      var e := kept[0];
      var res := lookup(e.name);
      if res.Failure? && !(opts.ignoreNotFound && res.error.status == Some(404)) then
        Failure(LookupFailed(e.name, res.error))
      else
        match Resolve(kept[1..], lookup, opts)
        case Failure(err) =>
          assert forall i | 0 <= i < |kept[1..]| :: kept[1..][i] == kept[i + 1];
          Failure(err)
        case Success(m) =>
          assert forall i | 0 <= i < |kept[1..]| :: kept[1..][i] == kept[i + 1];
          ResolveStep(kept, lookup, m);
          if res.Success? then Success(m[e.name := InfoOf(e, res.value)])
          else Success(m)
  }

  /** The entries an object built from the normalised dependencies holds: names are unique. */
  lemma NormalizedUnique(deps: DepsValue)
    requires deps.DepObject? ==> UniqueNames(deps.entries)
    ensures UniqueNames(NormalizeDependencies(deps))
  {
  }

  /** `kept` holds exactly the entries of `entries` that pass the filter. */
  ghost predicate Filtered(entries: seq<Entry>, kept: seq<Entry>, ignored: string -> bool, validRange: string -> Option<Range>) {
    && (forall e | e in kept :: Kept(e, ignored, validRange) && e in entries)
    && (forall e | e in entries && Kept(e, ignored, validRange) :: e in kept)
  }

  lemma KeptFiltered(entries: seq<Entry>, kept: seq<Entry>, opts: Options, ignored: string -> bool, validRange: string -> Option<Range>)
    requires UniqueNames(entries) && KeepEntries(entries, ignored, validRange, opts) == Success(kept)
    ensures UniqueNames(kept) && Filtered(entries, kept, ignored, validRange)
  {
  }

  /** The lookup stage succeeds exactly when every entry passing the filter is settled. */
  lemma ResolveSettledOverEntries(entries: seq<Entry>, kept: seq<Entry>, opts: Options, ignored: string -> bool,
                                  validRange: string -> Option<Range>, lookup: string -> Result<ModuleInfo, FetchError>)
    requires UniqueNames(kept) && Filtered(entries, kept, ignored, validRange)
    ensures Resolve(kept, lookup, opts).Success? <==>
              forall i | 0 <= i < |entries| && Kept(entries[i], ignored, validRange) :: Settled(lookup(entries[i].name), opts)
  {
    if Resolve(kept, lookup, opts).Success? {
      forall i | 0 <= i < |entries| && Kept(entries[i], ignored, validRange)
        ensures Settled(lookup(entries[i].name), opts)
      {
        assert entries[i] in entries;
        var k :| 0 <= k < |kept| && kept[k] == entries[i];
      }
    } else {
      var k :| 0 <= k < |kept| && !Settled(lookup(kept[k].name), opts);
      assert kept[k] in kept;
      var i :| 0 <= i < |entries| && entries[i] == kept[k];
    }
  }

  /** Every entry passing the filter whose lookup succeeded is mapped to its info. */
  lemma ResolveValuesOverEntries(entries: seq<Entry>, kept: seq<Entry>, m: map<string, Info>, ignored: string -> bool,
                                 validRange: string -> Option<Range>, lookup: string -> Result<ModuleInfo, FetchError>)
    requires Filtered(entries, kept, ignored, validRange) && ResolvedValues(kept, lookup, m)
    ensures forall i | 0 <= i < |entries| && Kept(entries[i], ignored, validRange) && lookup(entries[i].name).Success? ::
              entries[i].name in m && m[entries[i].name] == InfoOf(entries[i], lookup(entries[i].name).value)
  {
    forall i | 0 <= i < |entries| && Kept(entries[i], ignored, validRange) && lookup(entries[i].name).Success?
      ensures entries[i].name in m && m[entries[i].name] == InfoOf(entries[i], lookup(entries[i].name).value)
    {
      assert entries[i] in entries;
      var k :| 0 <= k < |kept| && kept[k] == entries[i];
    }
  }

  /** Every mapped name is a name of an entry passing the filter, with that entry's range. */
  lemma ResolveNamesOverEntries(entries: seq<Entry>, kept: seq<Entry>, m: map<string, Info>, ignored: string -> bool,
                                validRange: string -> Option<Range>, lookup: string -> Result<ModuleInfo, FetchError>)
    requires Filtered(entries, kept, ignored, validRange)
    requires ResolvedNames(kept, lookup, m) && ResolvedValues(kept, lookup, m)
    ensures forall n | n in m ::
              && !ignored(n)
              && lookup(n).Success?
              && exists i | 0 <= i < |entries| ::
                   entries[i].name == n && Kept(entries[i], ignored, validRange) && m[n] == InfoOf(entries[i], lookup(n).value)
    ensures forall i | 0 <= i < |entries| && lookup(entries[i].name).Failure? :: entries[i].name !in m
  {
    forall n | n in m
      ensures !ignored(n) && lookup(n).Success?
      ensures exists i | 0 <= i < |entries| ::
                entries[i].name == n && Kept(entries[i], ignored, validRange) && m[n] == InfoOf(entries[i], lookup(n).value)
    {
      var k :| 0 <= k < |kept| && kept[k].name == n && lookup(n).Success?;
      assert kept[k] in kept;
      var i :| 0 <= i < |entries| && entries[i] == kept[k];
      assert m[n] == InfoOf(kept[k], lookup(n).value);
    }
  }

  /** A failed lookup stage fails on an entry passing the filter whose lookup is not settled, with
      that lookup's error. */
  lemma ResolveFailureOverEntries(entries: seq<Entry>, kept: seq<Entry>, opts: Options, ignored: string -> bool,
                                  validRange: string -> Option<Range>, lookup: string -> Result<ModuleInfo, FetchError>)
    requires UniqueNames(kept) && Filtered(entries, kept, ignored, validRange)
    ensures var r := Resolve(kept, lookup, opts);
            r.Failure? ==> exists i | 0 <= i < |entries| ::
              && Kept(entries[i], ignored, validRange) && !Settled(lookup(entries[i].name), opts)
              && r.error == LookupFailed(entries[i].name, lookup(entries[i].name).error)
  {
    var r := Resolve(kept, lookup, opts);
    if r.Failure? {
      var k :| 0 <= k < |kept| && !Settled(lookup(kept[k].name), opts)
               && r.error == LookupFailed(kept[k].name, lookup(kept[k].name).error);
      assert kept[k] in kept;
      var i :| 0 <= i < |entries| && entries[i] == kept[k];
    }
  }

  /** `dependenciesInfo(deps, options)`: normalises the dependencies, filters them, looks each
      survivor up and maps its name to `{required, ...info}`. */
  function DependenciesInfo(deps: DepsValue, opts: Options, ignored: string -> bool,
                            validRange: string -> Option<Range>, lookup: string -> Result<ModuleInfo, FetchError>)
    : (r: Result<map<string, Info>, InfoError>)
    requires deps.DepObject? ==> UniqueNames(deps.entries)
    ensures var entries := NormalizeDependencies(deps);
            (exists i | 0 <= i < |entries| :: Rejected(entries[i], ignored, validRange, opts)) ==>
              r.Failure? && r.error.NonSemverRange?
    ensures var entries := NormalizeDependencies(deps);
            r.Failure? && r.error.NonSemverRange? ==>
              exists i | 0 <= i < |entries| :: Rejected(entries[i], ignored, validRange, opts) && r.error.name == entries[i].name
    ensures var entries := NormalizeDependencies(deps);
            (forall i | 0 <= i < |entries| :: !Rejected(entries[i], ignored, validRange, opts)) && r.Failure? ==>
              exists i | 0 <= i < |entries| ::
                && Kept(entries[i], ignored, validRange) && !Settled(lookup(entries[i].name), opts)
                && r.error == LookupFailed(entries[i].name, lookup(entries[i].name).error)
    ensures var entries := NormalizeDependencies(deps);
            r.Success? ==> forall n | n in r.value ::
              && !ignored(n)
              && lookup(n).Success?
              && exists i | 0 <= i < |entries| ::
                   && entries[i].name == n && Kept(entries[i], ignored, validRange)
                   && r.value[n] == InfoOf(entries[i], lookup(n).value)
    ensures var entries := NormalizeDependencies(deps);
            r.Success? ==> forall i | 0 <= i < |entries| && Kept(entries[i], ignored, validRange) && lookup(entries[i].name).Success? ::
              entries[i].name in r.value && r.value[entries[i].name] == InfoOf(entries[i], lookup(entries[i].name).value)
    ensures var entries := NormalizeDependencies(deps);
            r.Success? ==> forall i | 0 <= i < |entries| && lookup(entries[i].name).Failure? :: entries[i].name !in r.value
    ensures var entries := NormalizeDependencies(deps);
            r.Success? <==> && (forall i | 0 <= i < |entries| :: !Rejected(entries[i], ignored, validRange, opts))
                            && (forall i | 0 <= i < |entries| && Kept(entries[i], ignored, validRange) ::
                                  Settled(lookup(entries[i].name), opts))
  {
    var entries := NormalizeDependencies(deps);
    NormalizedUnique(deps);
    match KeepEntries(entries, ignored, validRange, opts)
    case Failure(err) => Failure(err)
    case Success(kept) =>
      KeptFiltered(entries, kept, opts, ignored, validRange);
      ResolveSettledOverEntries(entries, kept, opts, ignored, validRange, lookup);
      ResolveFailureOverEntries(entries, kept, opts, ignored, validRange, lookup);
      if Resolve(kept, lookup, opts).Success? then
        var m := Resolve(kept, lookup, opts).value;
        ResolveValuesOverEntries(entries, kept, m, ignored, validRange, lookup);
        ResolveNamesOverEntries(entries, kept, m, ignored, validRange, lookup);
        Resolve(kept, lookup, opts)
      else
        Resolve(kept, lookup, opts)
  }
}
