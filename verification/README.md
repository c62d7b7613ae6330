# david: dependency freshness, modelled in Dafny

david reads the dependency section of a package manifest, asks the npm registry which versions
of each dependency exist, works out the latest and the latest stable version, and reports the
dependencies whose declared range is out of date. This project models the decision logic of
that engine, in both of its implementations (the callback-style `lib/` and the promise-style
`src/`), and proves what the decisions mean.

Modules, one per source file (plus the shared version model):

- `Semver` (`semver.dfy`): parsed versions, their text, precedence as in section 11 of
  Semantic Versioning 2.0.0 (proved a total preorder), comparators, ranges as a disjunction of
  comparator sets, and `satisfies` with node-semver's pre-release rule. An empty comparator set
  stands for `*`, which node-semver holds as a single match-anything comparator whose version is
  not a version: `gtr` throws when its loop calls `semver.gt` on it (`lib/semverext.js:31`), and
  `SemverExt.Gtr` answers `None` there. Identifiers that version text can carry are
  `Semver.ValidIdent`; on them the text decides the identifier (`Semver.IdentTextInjective`).
- `VersionLib` (`version_lib.dfy`): `lib/version.js`, the stable/SCM classifiers,
  `getLatestStable`, `getLatest` and `getVersionsInRange`.
- `SemverExt` (`semverext.dfy`): `lib/semverext.js`, `gtr`, and the `semver` package's `gtr`
  that `isUpdated` calls (`PackageGtr`).
- `Deps` (`deps.dfy`): the shapes a manifest section can take, object key order kept as a
  sequence of name/range entries.
- `SrcDavid` (`src_david.dfy`): `src/david.js`, `normalizeDependencies`, `isUpdated`, the sorting
  `getLatest` and `dependenciesInfo`.
- `LibDavid` (`lib_david.dfy`): `lib/david.js`, `normaliseDeps`, `getLatestVerInfo`,
  `getDependencies`, `isUpdated` and `getUpdatedDependencies`.
- `Batch` (`batch.dfy`): `lib/batch.js`, the per-key callback queues.
- `Scenarios` (`scenarios.dfy`): concrete instances of the model on the registry answers of `test/david.js`.

Registry access, glob matching and range parsing are parameters of the functions that need them:
`view` / `lookup` stand for the registry, `ignored` for `multimatch` over `ignoreModules`, and
`validRange` for `semver.validRange`.

## Model

| member | source | states |
|---|---|---|
| Semver.CmpAntisym | lib/semverext.js:31-35 | comparing two versions the other way round negates the verdict, so `gt(a, b)` holds exactly when `lt(b, a)` does |
| Semver.CmpRefl | lib/semverext.js:31-35 | every version has the same precedence as itself |
| Semver.CmpTrans | src/david.js:177 | precedence is transitive, so the order the sort and the high/low search rely on is a total preorder |
| Semver.LtLteTrans | src/david.js:189-195 | a version below one that is at most a third is below the third |
| Semver.LteLtTrans | src/david.js:189-195 | a version at most one that is below a third is below the third |
| VersionLib.IsStable | lib/version.js:10-12 | a version text is stable exactly when none of its characters is a letter, `+` or `-` |
| VersionLib.IsScm | lib/version.js:21-27 | a specifier is an SCM URL exactly when it starts with `git:`, `git+ssh:`, `https:` or `git+https:` |
| VersionLib.ScmIsUnstable | lib/version.js:21-27 | no SCM URL is classified stable |
| VersionLib.StableText | lib/version.js:10-12 | the text of a version is stable exactly when the version has neither pre-release identifiers nor build metadata |
| VersionLib.GetLatestStable | lib/version.js:36-45 | absent exactly when no version is stable; otherwise the stable version nearest the end of the list |
| VersionLib.LastAbove | lib/version.js:67-73 | absent exactly when no version is above the given one; otherwise the version nearest the end that is |
| VersionLib.GetLatest | lib/version.js:56-77 | stable is the current version when that is stable, else the last stable version; a present stable is stable; latest is absent only for an empty list, is the last version nearest the end above stable, and the last version when nothing is above it |
| VersionLib.AscendingLatestIsLast | lib/version.js:56-77 | for versions listed in ascending precedence, latest is the last version |
| VersionLib.GetVersionsInRange | lib/version.js:81-85 | keeps every occurrence of each version that satisfies the range and no other version, in their original order |
| VersionLib.GetVersionsInRangeIdempotent | lib/version.js:81-85 | filtering an already filtered list changes nothing |
| SemverExt.HighLow | lib/semverext.js:25-36 | `high` is the earliest comparator of highest bound and `low` the earliest of lowest bound |
| SemverExt.PassingClauseBoundsAbove | lib/semverext.js:38-48 | for a plain version and a set of one comparator or a lower-then-upper pair, a set that passes the two checks and does not hold for the version puts the version above every version the set allows |
| SemverExt.PassesFrom | lib/semverext.js:22-49 | the loop returns true exactly when every remaining comparator set is non-empty and passes, and throws exactly when it reaches a match-anything set before any set fails |
| SemverExt.Gtr | lib/semverext.js:12-51 | false for a version the range allows, with no loop; otherwise true exactly when every comparator set passes, and a throw exactly when the loop meets a match-anything set before a failing one; never a throw without such a set |
| SemverExt.GtrClauseOrder | lib/semverext.js:22-49 | a true verdict does not depend on the order of the comparator sets, and without a match-anything set no verdict does |
| SemverExt.PackageGtr | lib/david.js:143 | agrees with `gtr` on ranges without a match-anything set, is false whenever one is present, and is never true for a version the range allows |
| SemverExt.GtrSound | lib/semverext.js:6-51 | for plain versions and ranges built of single comparators or lower-then-upper pairs, a true verdict means the version is above every version the range allows |
| SemverExt.GtrTieCounterexample | lib/semverext.js:28-36 | with `<=1.0.0 >=1.0.0`, tied bounds make one comparator both `high` and `low`, so `0.5.0` is reported above a range that allows `1.0.0` |
| Deps.ArrayEntries | src/david.js:114-115 | an array of names becomes entries with unique names, each with range `*`, naming exactly the names of the array, in the order of their first occurrence |
| SrcDavid.NormalizeDependencies | src/david.js:113-122 | an array gives each of its names once with `*`, in first-occurrence order, a string `s` gives `{s: '*'}`, a non-object gives nothing, an object is kept |
| SrcDavid.IsUpdated | src/david.js:135-158 | never updated when the declared range is empty, `latest` or `*`, or when the compared version is absent or in range; updated when the range is not valid semver; in latest mode updated exactly when out of range, in stable mode exactly when the package `gtr` holds |
| SrcDavid.StableUpdateMeansAhead | src/david.js:149-150 | in stable mode, for a plain stable version and well-shaped ranges, updated means the stable version is above every version the range allows |
| SrcDavid.StableUpdateImpliesLatestUpdate | src/david.js:141-156 | for a plain stable version and ranges of one comparator or lower-then-upper pairs, a dependency updated against its stable version is also updated against any latest version at least as high |
| SrcDavid.StableUpdateTieCounterexample | src/david.js:141-156 | with `<=1.0.0 >=1.0.0`, stable `0.5.0` is flagged in stable mode while latest `1.0.0` is not flagged in latest mode |
| SrcDavid.SortDescending | src/david.js:177 | the sorted copy is a permutation of the versions in non-increasing precedence |
| SrcDavid.FindStable | src/david.js:182-184 | absent exactly when no version is stable; otherwise the first stable version |
| SrcDavid.FirstAbove | src/david.js:189-195 | absent exactly when no version is above the given one; otherwise the first that is |
| SrcDavid.GetLatest | src/david.js:175-199 | latest is absent only for no versions and is otherwise a version of highest precedence; stable is the current version when stable, else a highest stable version, absent exactly when none is stable; latest is above stable whenever some version is |
| SrcDavid.GetLatestAgrees | src/david.js:175-199 | on versions in strictly ascending precedence the sorting `getLatest` returns what the `lib/version.js` one returns |
| SrcDavid.KeepEntries | src/david.js:83-95 | fails with the name of an entry whose range is not semver and is neither ignored nor excused; otherwise keeps exactly the entries not ignored with a valid range, names staying unique |
| SrcDavid.Resolve | src/david.js:96-109 | fails with a lookup error unless it is a 404 under `ignoreNotFound`; otherwise maps exactly the names whose lookup succeeded to `{required, ...info}` |
| SrcDavid.DependenciesInfo | src/david.js:77-110 | a non-semver range that is neither ignored nor excused rejects, and a `NonSemverRange` error names such an entry; with none, a failure is the lookup error of an entry passing the filter whose lookup is not settled; on success every name reported comes from an entry that is not ignored, has a valid range and was found, and maps to that entry's range and registry info; every such entry is reported; one whose lookup failed is absent |
| LibDavid.NormaliseDeps | lib/david.js:109-117 | an array becomes an object holding each of its names once with `*`, in first-occurrence order; any other value is unchanged |
| LibDavid.DepType | lib/david.js:176-185 | the section is `devDependencies` exactly when `dev` is set, else `optionalDependencies` exactly when `optional` is, else `peerDependencies` exactly when `peer` is, else `dependencies` |
| LibDavid.SectionEntries | lib/david.js:176-189 | the section `depType()` selects, empty when absent or not an object, an array read as `*` ranges, and a string as the entries `"0"`, `"1"`, … each with its character as range |
| LibDavid.LatestVerInfo | lib/david.js:46-106 | a 404 under `warn.E404` gives a warning record; other view errors are passed on; no current version gives "Failed to get latest version info for" the name; otherwise the pair `lib/version.js` computes |
| LibDavid.Collect | lib/david.js:196-209 | given each dependency's answer, the error is unset exactly when every answer succeeded and otherwise is the last failure; the records name exactly the dependencies with a successful answer, each built from its last entry |
| LibDavid.GetDependencies | lib/david.js:167-210 | an empty section gives no records and no error; otherwise the error is the last failed lookup of the section (unset when none failed) and the records are exactly the dependencies whose lookup succeeded, each built from its last entry and its answer |
| LibDavid.IsUpdated | lib/david.js:128-152 | decides exactly as the `src/david.js` `isUpdated`, and never flags a declared range of `latest`, `*` or nothing |
| LibDavid.GetUpdatedDependencies | lib/david.js:227-250 | keeps exactly the records that carry a warning under `warn.E404` or are updated, unchanged, and passes the error through |
| LibDavid.LatestVerInfoStable | lib/david.js:81-103 | with a current version the info is found, and its stable version is stable |
| LibDavid.ReportedOutsideRange | lib/david.js:238-246 | without `warn.E404`, a record the filter keeps has a pinned range and a compared version that lies outside it |
| LibDavid.WarnedReportedOnlyUnderE404 | lib/david.js:236-249 | every record of `getDependencies` that carries a warning is in the result of `getUpdatedDependencies` exactly when `warn.E404` is set |
| LibDavid.WarnedPkgHasNoVersions | lib/david.js:196-209 | when no answer with a warning carries versions, no collected record with a warning carries a latest or stable version |
| LibDavid.AnswersWarnWithoutVersions | lib/david.js:54-57 | an answer that carries a warning holds neither a latest nor a stable version |
| Batch.New | lib/batch.js:1-4 | a new batch holds no queue, and `exists` holds on it for exactly the names inherited from `Object.prototype` |
| Batch.Push | lib/batch.js:11-14 | throws exactly on an inherited name without a queue; otherwise the key's queue gains the callback at its end, starting a queue of one when there was none, other keys are untouched, and queues stay non-empty and off inherited names |
| Batch.Call | lib/batch.js:30-34 | the key's queue is removed so `exists` no longer holds, the function is applied to each queued callback in push order, and other keys are untouched |
| Batch.PushAllQueues | lib/batch.js:11-14 | callbacks pushed one after another are queued in that order and other keys are untouched; on an inherited name without a queue the first push throws |
| Batch.CallThenPush | lib/batch.js:30-34 | after `call`, the next `push` on the key starts a fresh queue of one |
| Scenarios.EmptyManifest | test/david.js:37-58 | a manifest without the section yields no records and no error |
| Scenarios.OnlyStableVersions | test/david.js:59-80 | with only stable versions, stable and latest are both the highest |
| Scenarios.StableAndUnstableVersions | test/david.js:81-102 | a newer pre-release becomes latest while stable stays on the last stable version |
| Scenarios.PinnedBehind | test/david.js:103-143 | `0.0.1` against latest `0.0.3` is updated, `~0.0.3` is not |
| Scenarios.BuildMetadataLatest | test/david.js:144-165 | a version with build metadata is unstable yet newer, and `~0.0.1` is updated against it |
| Scenarios.TildePrereleaseBehind | test/david.js:170 | in stable mode `~0.6.1-1` is updated against stable `0.7.0` |
| Scenarios.TildePrereleaseAhead | test/david.js:221 | in stable mode `~0.6.1-1` is not updated when `0.6.0` is the only stable version |
| Scenarios.TildePrereleaseVersions | test/david.js:221 | with `0.6.1-1` listed last, stable falls back to `0.6.0` and latest is `0.6.1-1` |
| Scenarios.EmptyRequired | test/david.js:228 | an empty declared range is never updated |
| Scenarios.GapInRange | test/david.js:230 | `<=0.0.2 \|\| >0.0.4` with stable `0.0.4` is not updated: outside the range but not above it |
| Scenarios.AboveEverySet | test/david.js:175 | `<0.1.0 \|\| 0.1.3` with stable `0.2.0` is updated |

## Left out

- Registry access (`npm.load`, `npm.commands.view` in `lib/david.js`, `moduleInfo` in `src/david.js`) is a parameter; the registry's answer is taken as given.
- The publish-time sort of `lib/david.js:70-79` is not modelled: the versions arrive in the order the view lists them.
- Parsing version and range strings, the `loose` option and `semver.validRange` belong to the `semver` package: versions and ranges arrive parsed, and `validRange` is a parameter. An invalid version, on which `semver.gt` throws (`lib/david.js:91-99`), cannot be written down here.
- `multimatch` glob matching of `ignoreModules` is the parameter `ignored`.
- `Promise.all` and `async.parallel` run their tasks concurrently; the model runs them in key order. For `src/david.js` the first failure in key order rejects; for `lib/david.js` the last failure in key order is the one kept, where the source keeps the last to complete.
- JavaScript enumerates integer-like object keys before the others; entries are kept in the order written.
- SrcDavid.GetLatest: among versions of equal precedence the sort does not fix an order, so the contract says which precedence `latest` and `stable` have, not which of equal-precedence versions is returned.
- SrcDavid.StableUpdateImpliesLatestUpdate: stated only for a plain stable version and comparator sets of one comparator or a lower bound followed by an upper bound; outside those shapes stable mode can flag what latest mode does not, as `SrcDavid.StableUpdateTieCounterexample` shows with the tie of `SemverExt.GtrTieCounterexample`.
- SemverExt.GtrSound: stated only for plain versions and for comparator sets of one comparator or a lower bound followed by an upper bound. The documented intent of `gtr` (greater than every version the range allows) fails outside those shapes, as `SemverExt.GtrTieCounterexample` shows; `isUpdated` calls the package's `gtr`, which runs the same algorithm, so the model keeps it as written.
- Batch.Call: requires a queue for the key; the source throws a `TypeError` on a key without one (on an inherited name it first writes `null` over it, which the model does not keep).
- The copies of `isStable` and `getLatestStable` in `lib/david.js:18-36` and of `isStable` in `src/david.js:160-165` are the same functions as in `lib/version.js` and are modelled once, by `VersionLib.IsStable` and `VersionLib.GetLatestStable`.
- A match-anything comparator inside a set that has other comparators is not modelled; such a set never arises from range syntax.
- The CLI (`bin/david.js`), `tracker.js`, `manifest.js`, `lib/npm.js`, the Grunt tasks and the top-level `david.js` are not part of this model, nor are caching, options `npm` and `registry`, and the `name` field of the info records.
