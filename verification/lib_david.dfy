/**
 lib/david.js: the callback-style engine. For one manifest section it asks the registry about each
 dependency (`getLatestVerInfo`), collects `{required, stable, latest, warn}` records
 (`getDependencies`) and keeps the out-of-date ones (`getUpdatedDependencies`).

 The registry view (`npm.commands.view`) is the parameter `view`, and `semver.validRange` the
 parameter `validRange`. The `async.parallel` fan-out is modelled one task after another, in key
 order.
 */
module LibDavid {
  import opened Wrappers
  import opened Semver
  import opened SemverExt
  import opened Deps
  import VersionLib
  import SrcDavid

  // ---------------------------------------------------------------------------------------------
  // Options and the manifest section

  /** `opts.dev`, `opts.optional`, `opts.peer`, `opts.stable` and `opts.warn.E404`. */
  datatype LibOptions = LibOptions(dev: bool, optional: bool, peer: bool, stable: bool, warnE404: bool)

  /** `depType()`: the first of dev, optional, peer that is set picks the section. */
  function DepType(opts: LibOptions): (r: string)
    ensures r in {"devDependencies", "optionalDependencies", "peerDependencies", "dependencies"}
    ensures r == "devDependencies" <==> opts.dev
    ensures r == "optionalDependencies" <==> !opts.dev && opts.optional
    ensures r == "peerDependencies" <==> !opts.dev && !opts.optional && opts.peer
    ensures r == "dependencies" <==> !opts.dev && !opts.optional && !opts.peer
  {
    if opts.dev then "devDependencies"
    else if opts.optional then "optionalDependencies"
    else if opts.peer then "peerDependencies"
    else "dependencies"
  }

  /** A parsed manifest: section name to section value. */
  type Manifest = map<string, DepsValue>

  /** `normaliseDeps`: an array of names becomes an object mapping each name to `*`; anything else
      is returned unchanged. */
  function NormaliseDeps(deps: DepsValue): (r: DepsValue)
    ensures deps.DepArray? ==> r.DepObject? && UniqueNames(r.entries)
                               && (forall i | 0 <= i < |r.entries| :: r.entries[i].range == "*")
                               && (forall n :: n in deps.names <==> HasName(r.entries, n))
                               && (forall i, j | 0 <= i < j < |r.entries| :: Before(deps.names, r.entries[i].name, r.entries[j].name))
    ensures !deps.DepArray? ==> r == deps
  {
    if deps.DepArray? then DepObject(ArrayEntries(deps.names)) else deps
  }

  /** `Object.keys(deps)` with `deps[name]`: the pairs of an object; the characters of a string
      under their indices; nothing for any other value. */
  function KeyedEntries(deps: DepsValue): seq<Entry> {
    match deps
    case DepObject(entries) => entries
    case DepString(s) => seq(|s|, i requires 0 <= i < |s| => Entry(NatText(i), [s[i]]))
    case DepArray(names) => seq(|names|, i requires 0 <= i < |names| => Entry(NatText(i), names[i]))
    case NotObject => []
  }

  /** `normaliseDeps(manifest[depType()] || {})`, as name/range pairs in key order. An absent or
      falsy section (the empty string, `null`, `false`, `0`) reads as `{}`. */
  function SectionEntries(manifest: Manifest, opts: LibOptions): (r: seq<Entry>)
    ensures DepType(opts) !in manifest ==> r == []
    ensures DepType(opts) in manifest && manifest[DepType(opts)].DepObject? ==> r == manifest[DepType(opts)].entries
    ensures DepType(opts) in manifest && manifest[DepType(opts)].DepArray? ==>
              && UniqueNames(r)
              && (forall i | 0 <= i < |r| :: r[i].range == "*")
              && (forall n :: n in manifest[DepType(opts)].names <==> HasName(r, n))
    ensures DepType(opts) in manifest && manifest[DepType(opts)].NotObject? ==> r == []
    ensures DepType(opts) in manifest && manifest[DepType(opts)].DepString? ==>
              var s := manifest[DepType(opts)].s;
              |r| == |s| && forall i | 0 <= i < |r| :: r[i] == Entry(NatText(i), [s[i]])
  {
    var section := DepType(opts);
    if section !in manifest then []
    else KeyedEntries(NormaliseDeps(manifest[section]))
  }

  // ---------------------------------------------------------------------------------------------
  // getLatestVerInfo

  /** What `npm.commands.view([name, "versions", "time"])` produced: an error with its code and
      text, or the data, whose first key is the version `npm install` picks (absent for `{}`) and
      whose versions are already in publish order. */
  datatype ViewResult =
    | ViewFailed(code: string, msg: string)
    | Viewed(current: Option<Version>, versions: seq<Version>)

  /** `warn: { msg, code }`. */
  datatype Warn = Warn(msg: string, code: string)

  /** The info `getLatestVerInfo` passes on; a warn record has no versions. */
  datatype VerInfo = VerInfo(latest: Option<Version>, stable: Option<Version>, warn: Option<Warn>)

  datatype LibError =
    | ViewError(code: string, msg: string)
    | NoVersionInfo(msg: string)

  /** `getLatestVerInfo(name, opts, cb)` once the view has answered. */
  function LatestVerInfo(name: string, warnE404: bool, view: ViewResult): (r: Result<VerInfo, LibError>)
    ensures view.ViewFailed? && warnE404 && view.code == "E404" ==>
              r == Success(VerInfo(None, None, Some(Warn(view.msg, "E404"))))
    ensures view.ViewFailed? && !(warnE404 && view.code == "E404") ==> r == Failure(ViewError(view.code, view.msg))
    ensures view.Viewed? && view.current.None? ==>
              r == Failure(NoVersionInfo("Failed to get latest version info for " + name))
    ensures view.Viewed? && view.current.Some? ==>
              && r.Success? && r.value.warn.None?
              && VersionLib.Latest(r.value.latest, r.value.stable) == VersionLib.GetLatest(view.current.value, view.versions)
  {
    match view
    case ViewFailed(code, msg) =>
      if warnE404 && code == "E404" then Success(VerInfo(None, None, Some(Warn(msg, code))))
      else Failure(ViewError(code, msg))
    case Viewed(current, versions) =>
      if current.None? then Failure(NoVersionInfo("Failed to get latest version info for " + name))
      else
        var stable := current.value;
        var latest := if |versions| == 0 then None else Some(versions[|versions| - 1]);
        var stable' := if VersionLib.Stable(stable) then Some(stable) else VersionLib.GetLatestStable(versions);
        if stable'.Some? then
          match VersionLib.LastAbove(versions, stable'.value)
          case Some(v) => Success(VerInfo(Some(v), stable', None))
          case None => Success(VerInfo(latest, stable', None))
        else
          Success(VerInfo(latest, stable', None))
  }

  // ---------------------------------------------------------------------------------------------
  // getDependencies

  /** `{ required: deps[depName], stable: info.stable, latest: info.latest, warn: info.warn }`. */
  datatype Pkg = Pkg(required: string, stable: Option<Version>, latest: Option<Version>, warn: Option<Warn>)

  function PkgOf(e: Entry, info: VerInfo): Pkg {
    Pkg(e.range, info.stable, info.latest, info.warn)
  }

  /** `cb(error, pkgs)`: the records collected and the last error seen. */
  datatype Outcome = Outcome(pkgs: map<string, Pkg>, error: Option<LibError>)

  /** What `getLatestVerInfo` answers for the entry at `i`. */
  function InfoAt(entries: seq<Entry>, i: int, opts: LibOptions, view: string -> ViewResult): Result<VerInfo, LibError>
    requires 0 <= i < |entries|
  {
    LatestVerInfo(entries[i].name, opts.warnE404, view(entries[i].name))
  }

  /** The answers for all entries, in key order. */
  function Answers(entries: seq<Entry>, opts: LibOptions, view: string -> ViewResult): (r: seq<Result<VerInfo, LibError>>)
    ensures |r| == |entries|
    ensures forall i | 0 <= i < |entries| :: r[i] == InfoAt(entries, i, opts, view)
  {
    seq(|entries|, i requires 0 <= i < |entries| => InfoAt(entries, i, opts, view))
  }

  type Answer = Result<VerInfo, LibError>

  /** The failure at `i` is the last one: every later task succeeded. */
  predicate IsLastFailure(answers: seq<Answer>, i: int) {
    && 0 <= i < |answers|
    && answers[i].Failure?
    && forall j | i < j < |answers| :: answers[j].Success?
  }

  /** `error` is unset exactly when every task succeeded, and otherwise holds the last failure. */
  ghost predicate ErrorFrom(answers: seq<Answer>, r: Outcome) {
    && (r.error.None? <==> forall i | 0 <= i < |answers| :: answers[i].Success?)
    && (r.error.Some? ==> exists i :: IsLastFailure(answers, i) && r.error.value == answers[i].error)
  }

  /** `pkgs` holds exactly the names some task succeeded for. */
  ghost predicate NamesFrom(entries: seq<Entry>, answers: seq<Answer>, r: Outcome)
    requires |answers| == |entries|
  {
    forall n :: n in r.pkgs <==> exists i | 0 <= i < |entries| :: entries[i].name == n && answers[i].Success?
  }

  /** The record of a name is the one its last entry produced, when that task succeeded. */
  ghost predicate ValuesFrom(entries: seq<Entry>, answers: seq<Answer>, r: Outcome)
    requires |answers| == |entries|
  {
    forall i | IsLastOccurrence(entries, i) && answers[i].Success? ::
      entries[i].name in r.pkgs && r.pkgs[entries[i].name] == PkgOf(entries[i], answers[i].value)
  }

  /** The effect of one more task. */
  function Step(before: Outcome, e: Entry, res: Answer): Outcome {
    match res
    case Failure(err) => Outcome(before.pkgs, Some(err))
    case Success(info) => Outcome(before.pkgs[e.name := PkgOf(e, info)], before.error)
  }

  lemma {:induction false} StepKeepsError(answers: seq<Answer>, e: Entry, before: Outcome)
    requires |answers| > 0
    requires ErrorFrom(answers[..|answers| - 1], before)
    ensures ErrorFrom(answers, Step(before, e, answers[|answers| - 1]))
  {
    var n := |answers| - 1;
    var front := answers[..n];
    assert forall i | 0 <= i < n :: front[i] == answers[i];
    if answers[n].Failure? {
      assert IsLastFailure(answers, n);
    } else if before.error.Some? {
      var i :| IsLastFailure(front, i) && before.error.value == front[i].error;
      assert IsLastFailure(answers, i);
    }
  }

  lemma {:induction false} StepKeepsNames(entries: seq<Entry>, answers: seq<Answer>, before: Outcome)
    requires |entries| > 0 && |answers| == |entries|
    requires NamesFrom(entries[..|entries| - 1], answers[..|answers| - 1], before)
    ensures NamesFrom(entries, answers, Step(before, entries[|entries| - 1], answers[|answers| - 1]))
  {
    var n := |entries| - 1;
    var r := Step(before, entries[n], answers[n]);
    assert forall i | 0 <= i < n :: entries[..n][i] == entries[i] && answers[..n][i] == answers[i];
    forall m ensures m in r.pkgs <==> exists i | 0 <= i < |entries| :: entries[i].name == m && answers[i].Success?
    {
      if m == entries[n].name && answers[n].Success? {
        assert entries[n].name == m;
      }
    }
  }

  lemma {:induction false} StepKeepsValues(entries: seq<Entry>, answers: seq<Answer>, before: Outcome)
    requires |entries| > 0 && |answers| == |entries|
    requires ValuesFrom(entries[..|entries| - 1], answers[..|answers| - 1], before)
    ensures ValuesFrom(entries, answers, Step(before, entries[|entries| - 1], answers[|answers| - 1]))
  {
    var n := |entries| - 1;
    var front := entries[..n];
    var r := Step(before, entries[n], answers[n]);
    forall i | IsLastOccurrence(entries, i) && answers[i].Success?
      ensures entries[i].name in r.pkgs && r.pkgs[entries[i].name] == PkgOf(entries[i], answers[i].value)
    {
      if i < n {
        assert IsLastOccurrence(front, i);
        assert front[i] == entries[i] && answers[..n][i] == answers[i];
      }
    }
  }

  /** The tasks of `getDependencies`, run in key order with their answers: a failure overwrites
      `error`, a success writes `pkgs[depName]`. */
  function Collect(entries: seq<Entry>, answers: seq<Answer>): (r: Outcome)
    requires |answers| == |entries|
    ensures ErrorFrom(answers, r)
    ensures NamesFrom(entries, answers, r)
    ensures ValuesFrom(entries, answers, r)
  {
    if |entries| == 0 then Outcome(map[], None)
    else
      var n := |entries| - 1;
      var before := Collect(entries[..n], answers[..n]);
      StepKeepsError(answers, entries[n], before);
      StepKeepsNames(entries, answers, before);
      StepKeepsValues(entries, answers, before);
      Step(before, entries[n], answers[n])
  }

  /** `getDependencies(manifest, opts, cb)`: an empty section answers at once with no records and
      no error; otherwise every dependency of the section is looked up and collected. */
  function GetDependencies(manifest: Manifest, opts: LibOptions, view: string -> ViewResult): (r: Outcome)
    ensures var entries := SectionEntries(manifest, opts);
            |entries| == 0 ==> r == Outcome(map[], None)
    ensures var entries := SectionEntries(manifest, opts);
            var answers := Answers(entries, opts, view);
            && ErrorFrom(answers, r)
            && NamesFrom(entries, answers, r)
            && ValuesFrom(entries, answers, r)
  {
    var entries := SectionEntries(manifest, opts);
    if |entries| == 0 then Outcome(map[], None)
    else Collect(entries, Answers(entries, opts, view))
  }

  // ---------------------------------------------------------------------------------------------
  // isUpdated and getUpdatedDependencies

  /** `isUpdated(dep, opts)` of lib/david.js, with `range` the result of `semver.validRange`. */
  function IsUpdated(dep: Pkg, stable: bool, range: Option<Range>): (r: bool)
    ensures r == SrcDavid.IsUpdated(SrcDavid.Info(dep.required, dep.latest, dep.stable, []),
                                    SrcDavid.Options(stable, false, false), range)
    ensures r ==> !SrcDavid.Unpinned(dep.required)
  {
    var required := if dep.required == "" then "*" else dep.required;
    if required != "latest" && required != "*" then
      var version := if stable then dep.stable else dep.latest;
      if version.Some? then
        if range.None? then true
        else if !Satisfies(version.value, range.value) then
          if stable && PackageGtr(version.value, range.value) then true
          else if !stable then true
          else false
        else false
      else false
    else false
  }

  /** The filter of `getUpdatedDependencies`: a record survives when it carries a warning under
      `warn.E404`, or when it is updated. */
  predicate Reported(p: Pkg, opts: LibOptions, validRange: string -> Option<Range>) {
    (opts.warnE404 && p.warn.Some?) || IsUpdated(p, opts.stable, validRange(p.required))
  }

  /** `getUpdatedDependencies(manifest, opts, cb)`: the records of `getDependencies` that are
      reported, unchanged, with the error passed through. */
  function GetUpdatedDependencies(manifest: Manifest, opts: LibOptions, view: string -> ViewResult,
                                  validRange: string -> Option<Range>): (r: Outcome)
    ensures var all := GetDependencies(manifest, opts, view);
            && r.error == all.error
            && (forall n :: n in r.pkgs <==> n in all.pkgs && Reported(all.pkgs[n], opts, validRange))
            && (forall n | n in r.pkgs :: r.pkgs[n] == all.pkgs[n])
  {
    var all := GetDependencies(manifest, opts, view);
    Outcome(map n | n in all.pkgs && Reported(all.pkgs[n], opts, validRange) :: all.pkgs[n], all.error)
  }

  /** The copy of `getLatest` inside `getLatestVerInfo` gives what lib/version.js computes, and its
      stable version is stable. */
  lemma LatestVerInfoStable(name: string, warnE404: bool, view: ViewResult)
    requires view.Viewed? && view.current.Some?
    ensures LatestVerInfo(name, warnE404, view).Success?
    ensures LatestVerInfo(name, warnE404, view).value.stable.Some? ==>
              VersionLib.Stable(LatestVerInfo(name, warnE404, view).value.stable.value)
  {
  }

  /** Without `warn.E404`, a dependency is reported only when the version it is compared with lies
      outside its declared range, and never when its declared range is `latest`, `*` or empty. */
  lemma ReportedOutsideRange(p: Pkg, opts: LibOptions, validRange: string -> Option<Range>)
    requires !opts.warnE404 && Reported(p, opts, validRange)
    ensures var version := if opts.stable then p.stable else p.latest;
            && !SrcDavid.Unpinned(p.required)
            && version.Some?
            && (validRange(p.required).Some? ==> !Satisfies(version.value, validRange(p.required).value))
  {
  }

  /** A record that comes from a warning is reported exactly under `warn.E404`: it has no version
      to compare. */
  lemma WarnedReportedOnlyUnderE404(manifest: Manifest, opts: LibOptions, view: string -> ViewResult,
                                    validRange: string -> Option<Range>)
    ensures var all := GetDependencies(manifest, opts, view);
            forall n | n in all.pkgs && all.pkgs[n].warn.Some? ::
              n in GetUpdatedDependencies(manifest, opts, view, validRange).pkgs <==> opts.warnE404
  {
    var entries := SectionEntries(manifest, opts);
    var answers := Answers(entries, opts, view);
    var all := GetDependencies(manifest, opts, view);
    AnswersWarnWithoutVersions(entries, opts, view);
    if |entries| > 0 {
      assert all == Collect(entries, answers);
      WarnedPkgHasNoVersions(entries, answers);
    }
    forall n | n in all.pkgs && all.pkgs[n].warn.Some?
      ensures n in GetUpdatedDependencies(manifest, opts, view, validRange).pkgs <==> opts.warnE404
    {
      var p := all.pkgs[n];
      assert PkgWarnsWithoutVersions(p);
      assert !IsUpdated(p, opts.stable, validRange(p.required));
    }
  }

  lemma AnswersWarnWithoutVersions(entries: seq<Entry>, opts: LibOptions, view: string -> ViewResult)
    ensures forall i | 0 <= i < |entries| :: WarnsWithoutVersions(Answers(entries, opts, view)[i])
  {
    forall i | 0 <= i < |entries| ensures WarnsWithoutVersions(Answers(entries, opts, view)[i]) {
      var v := view(entries[i].name);
      if v.Viewed? && v.current.Some? {
        LatestVerInfoStable(entries[i].name, opts.warnE404, v);
      }
    }
  }

  /** An answer that carries a warning holds no versions. */
  predicate WarnsWithoutVersions(a: Answer) {
    a.Success? && a.value.warn.Some? ==> a.value.latest.None? && a.value.stable.None?
  }

  /** A record that carries a warning holds no versions. */
  predicate PkgWarnsWithoutVersions(p: Pkg) {
    p.warn.Some? ==> p.latest.None? && p.stable.None?
  }

  /** No record of `pkgs` carries both a warning and a version. */
  predicate NoneWarnsWithVersions(pkgs: map<string, Pkg>) {
    forall n | n in pkgs :: PkgWarnsWithoutVersions(pkgs[n])
  }

  /** Every record with a warning comes from an answer with a warning, so it holds no versions. */
  lemma {:induction false} WarnedPkgHasNoVersions(entries: seq<Entry>, answers: seq<Answer>)
    requires |answers| == |entries|
    requires forall i | 0 <= i < |answers| :: WarnsWithoutVersions(answers[i])
    ensures NoneWarnsWithVersions(Collect(entries, answers).pkgs)
  {
    if |entries| > 0 {
      var k := |entries| - 1;
      var front := answers[..k];
      assert forall i | 0 <= i < k :: front[i] == answers[i];
      WarnedPkgHasNoVersions(entries[..k], front);
      var before := Collect(entries[..k], front);
      assert Collect(entries, answers) == Step(before, entries[k], answers[k]);
      StepKeepsWarned(before, entries[k], answers[k]);
    }
  }

  lemma StepKeepsWarned(before: Outcome, e: Entry, a: Answer)
    requires NoneWarnsWithVersions(before.pkgs)
    requires WarnsWithoutVersions(a)
    ensures NoneWarnsWithVersions(Step(before, e, a).pkgs)
  {
  }
}
