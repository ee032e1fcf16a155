# Dependency resolution of the serein CLI

serein scaffolds Minecraft Bedrock add-on projects that use the script API.
Every project has two descriptors that must agree on its script packages
(`@minecraft/server`, `@minecraft/server-ui`, …):

- the behaviour pack's `manifest.json`. Its `dependencies` array lists the
  resource pack by uuid and each package by `module_name`, with the package's
  manifest version;
- `package.json`. Its `dependencies` map holds each package's npm version,
  next to the build tools.

Two catalogs, fetched at run time, give each package's latest manifest
version (`versions`) and its latest npm version (`npmVersions`).

This project models the resolution core of `index.js` as pure functions
over immutable data:

- **`init`**:
  - `getInformation --yes` gives the default selection.
  - `dealDependencies` applies manual version choices to the catalogs. It
    then builds the manifest's dependency list and the filtered npm map.
  - `creatFiles` puts the resource pack's uuid in its header and merges the
    npm map with the fixed build-tool versions into `package.json`.
- **`switch`** (`chooseVersions`): walks an existing manifest's dependency
  list. At every entry whose `module_name` contains `@minecraft` and whose
  switch the user accepts, it overwrites that entry's version and the same
  package's `package.json` entry. The new values are the latest catalog
  values or a manual pair.

These are parameters of the model:

- the fresh resource-pack uuid;
- the catalogs;
- the user's answers to `switch`: one per manifest entry, each either
  decline or accept-with-a-version-choice.

A JavaScript object is modelled as follows:

- `packageVersions` is a sequence of named packages with distinct names. A
  `for … in` loop visits it in that order, which is insertion order because
  no package name looks like an array index.
- A catalog is a `map`. Reading a missing name gives `Undefined`, as
  JavaScript does. The code never validates names against the catalogs, and
  neither does the model.

Modules, in dependency order:

- `Values` (values.dfy): options, JSON values and catalogs.
- `Text` (text.dfy): `search` with a literal pattern, `split`/`join`, and
  digit strings.
- `VersionArray` (version_array.dfy): a version string and its array form.
- `Selections` (selections.dfy): the collected information and the default
  selection.
- `Manifest` (manifest.dfy): the shape of manifest entries.
- `Init` (init.dfy): `dealDependencies` and `creatFiles`.
- `Switch` (switch.dfy): `chooseVersions`.
- `Lifecycle` (lifecycle.dfy): how `init` and `switch` fit together.

## Model

| member | source | states |
|---|---|---|
| Values.Lookup | index.js:225-230 | reading a catalog gives the string stored under the name when the name is present, and `undefined` exactly when it is absent |
| Text.SearchSpec | index.js:399 | `search` with a literal pattern gives -1 exactly when the pattern does not occur, which is all the code tests; otherwise it gives the first index where it occurs, counted in characters (JavaScript counts UTF-16 code units, which differs only after a character outside the Basic Multilingual Plane) |
| Text.SearchFromSpec | index.js:399 | scanning from index `i` finds the first occurrence at or after `i`, and -1 exactly when there is none |
| Text.JoinSplit | index.js:101 | joining the pieces of `split('.')` with `.` gives back the original string |
| Text.SplitJoin | index.js:101 | splitting the `.`-join of separator-free pieces gives back exactly those pieces |
| VersionArray.FormatThenParse | index.js:101 | for every non-empty array of naturals up to `Number.MAX_SAFE_INTEGER`, the dotted version string it prints parses, via `split('.')` and `parseInt`, back to the same array |
| VersionArray.DefaultVersionParses | index.js:161-162 | the default version `1.0.0` and its hard-coded array `[1, 0, 0]` agree with how the interactive branch derives the array from the string |
| Selections.DefaultPackageVersions | index.js:167-176 | the default `packageVersions` lists the five known packages in order; only the first, `@minecraft/server`, is needed, at its latest version, so exactly one package is needed |
| Selections.DefaultInformation | index.js:156-177 | `--yes` collects: the name of the working directory, version `1.0.0` with array `[1, 0, 0]` (which is also what parsing the string gives), an empty description, TypeScript, a resource pack, no `eval`, and the five known packages in order; only `@minecraft/server` is needed, at its latest version, so the needed names are exactly that one |
| Selections.NeededCountIsNeededNamesSize | index.js:242-248 | because object keys are distinct, the number of needed packages equals the number of distinct needed names |
| Init.ApplyOverrides | index.js:216-223 | after the override loop, each needed package reads its manual versions from both catalogs if it has them, and its fetched versions otherwise; only manual names are added or changed; with no manual choice the catalogs are as fetched |
| Init.ModuleEntries | index.js:242-246 | one `{module_name, version}` entry per needed package, in `packageVersions` order: package `i` sits after the needed packages before it, and every entry names a needed package and carries that package's catalog version |
| Init.NpmFiltered | index.js:242-247 | `npmVersionsFiltered` has exactly the needed names as keys, each mapped to its npm catalog entry |
| Init.DealDependencies | index.js:215-256 | the list has length `(res ? 1 : 0)` plus the number of needed packages; when `res` is set the first entry is `{uuid: resuuid, version: versionArray}`; every later entry names a needed package and carries its version from the overridden catalog; `npmVersionsFiltered` has exactly the needed names as keys; with no manual choice the catalogs are unchanged |
| Init.DealDependenciesResolvesNeeded | index.js:215-248 | needed package `i` has its entry at position `(res ? 1 : 0)` plus its rank among the needed packages; that entry and its `npmVersionsFiltered` value are the manual pair if one was chosen, and the fetched catalog values otherwise |
| Init.DealDependenciesOmitsUnneeded | index.js:216-248 | a package that is not needed has no manifest entry and no `npmVersionsFiltered` key |
| Init.PackageDependencies | index.js:327-335 | `package.json` lists every filtered package and every build tool; on a name clash the build tool's fixed version wins; every other package keeps its resolved npm version |
| Init.InitProject | index.js:295-336 | the two descriptors agree: a resource-pack header exists exactly when `res` is set, and then the manifest's first dependency carries that header's uuid (the generated `resuuid`) and version; without `res` no entry has a uuid; every `module_name` in the manifest is a `package.json` key; every needed package that is not a build tool is listed with its resolved npm version; `package.json` lists only needed packages and build tools |
| Init.DefaultInitProject | index.js:156-177 | `init --yes` produces exactly the resource-pack entry and the server package at the catalog's version, the header `{resuuid, [1, 0, 0]}`, and the build tools plus the server package at the npm catalog's version |
| Init.ManualServerScenario | index.js:215-256 | choosing the server package by hand (manifest 1.2.0, npm 1.2.0-beta) and rejecting the other four known packages, with a resource pack, gives a two-entry list and `package.json` entry `1.2.0-beta`, whatever the catalogs hold |
| Switch.LastSwitched | index.js:410-420 | the entry whose choice `package.json` finally holds for a name is the last switched entry of that name; no switched entry of that name follows it, and if there is none, no switched entry has that name |
| Switch.ChoosePrefix | index.js:396-429 | after the loop has visited the first `n` entries, exactly the switched ones among them carry their new version; names and uuids never change; `package.json` holds, for each name, the choice of the last switched entry of that name so far, or its loaded value |
| Switch.ChooseVersions | index.js:395-432 | no entry is added, removed or reordered; unswitched entries are unchanged; a switched entry changes only its version, to the catalog's latest or the manual value (latest always under `--yes`); `package.json` gains or changes only names of switched entries, each to the choice at the last switched entry of that name, and keeps every other key and value |
| Switch.ResourcePackEntryNeverEligible | index.js:396-399 | an entry without `module_name`, such as the resource-pack entry, is read as `''` and is never eligible |
| Switch.LastSwitchedOnlyReadsNames | index.js:396-399 | which entry decides a package's `package.json` value depends only on the entries' names, not on their versions |
| Switch.SwitchKeepsDecisions | index.js:396-420 | a switch only rewrites versions, so a second switch with the same answers switches the same entries and takes each package's value from the same entry |
| Switch.LatestSwitchEntriesStable | index.js:408-412 | a second latest switch with the same answers leaves the manifest's dependency list as the first one left it |
| Switch.LatestSwitchPackagesStable | index.js:408-414 | a second latest switch with the same answers leaves `package.json` as the first one left it |
| Switch.LatestSwitchIdempotent | index.js:408-414 | switching to the latest versions twice, with the same answers and catalogs, gives the same descriptors as switching once |
| Switch.ChooseVersionsReadsOnlyEffectiveAnswers | index.js:400-409 | answers that switch the same entries to the same effective choices give the same result; under `--yes` the manual choices are never consulted |
| Switch.SameSwitchesSameLast | index.js:396-407 | answers that switch the same entries agree on the deciding entry of every name |
| Switch.SwitchFixpoint | index.js:396-431 | if every switched entry already holds the version it would get, and `package.json` already holds its package's new version, `switch` changes nothing |
| Lifecycle.NoAtSignNotEligible | index.js:399 | a name without `@` never matches the vendor pattern |
| Lifecycle.ToolingNeverEligible | index.js:327-335 | no build-tool name `init` writes to `package.json` ever matches the vendor pattern |
| Lifecycle.EligibleInitEntryIsLatest | index.js:242-248 | in a project `init` created without manual choices, every eligible manifest entry names a needed package; it holds the catalog's manifest version, and `package.json` holds that package's npm catalog version |
| Lifecycle.LatestInitIsSwitchFixpoint | index.js:395-432 | a project `init` created without manual choices, switched to the latest versions against the same catalogs, keeps both descriptors unchanged whatever the user accepts |

## Left out

- Command-line wiring (`commander`), console output, colours and the
  readline prompts of the interactive `getInformation` branch. The
  interactive branch's results enter the model as an arbitrary
  `Information` value.
- `askYes` and `askVersion`, which `index.js` imports from `./utils.js`
  (index.js:12-29). `utils.js` is not part of this model. Their answers are
  the `answers` parameter of `switch`, and a manual choice is an
  unconstrained pair of strings. `src/base/inquirer.js` is not part of this
  model either.
- `src/handlers/config.js`: a filesystem-backed settings store with no
  resolution logic.
- Fetching the catalogs and the gulpfile, generating the icon, writing the
  files, `del.sync`, and running `npm install`. These are I/O. The catalogs
  and the resource-pack uuid are parameters.
- The uuids of the generated modules, and every manifest field other than
  the dependencies and the resource-pack header's uuid and version. None of
  them depends on the resolution.
- JSON serialization. A value that is `undefined`, because the catalog lacks
  a name, is kept as `Undefined` in the model, whereas `JSON.stringify`
  drops the key. Key order in the written objects is not modelled.
- Extra fields of a loaded manifest entry other than `module_name`, `uuid`
  and `version`, and entries whose `module_name` is not a string.
- VersionArray.FormatThenParse: `parseInt` is modelled only for
  components made of decimal digits whose value is at most
  `Number.MAX_SAFE_INTEGER` (2^53 - 1). These results are not modelled:
  - `NaN`;
  - leading signs or spaces;
  - the rounded double that a larger component yields, for example
    `parseInt("9007199254740993")` giving 9007199254740992;
  - `Infinity` for a huge component.
- `packageVersions` values: the model assumes `need` is a boolean, and
  that a needed package carries a version object. For other values the two
  loops of `dealDependencies` disagree. The first skips only
  `need === false` (index.js:218), while the second keeps only a truthy
  `need` (index.js:244). So a falsy but non-`false` `need` with a manual
  version still overrides both catalogs but gets no entry. A missing
  version object throws at index.js:219.
- Version objects whose `mode` is neither `'latest'` nor `'manual'`. The
  model assumes every version object has one of those two modes. `init`
  tests `mode === 'manual'` (index.js:219) and `switch` tests
  `mode === 'latest'` (index.js:410). For any other mode, including a
  missing one, `init` keeps the catalog values, while `switch` writes the
  object's `manifestVersion` and `npmVersion` fields, which may be
  `undefined`. Whether `utils.js` can return such an object cannot be
  settled here, since `utils.js` is not part of this model.
- Catalog validation: `index.js` performs none. It reads two flat maps
  from name to latest version, and a missing name yields `undefined`
  (`Undefined` in the model).
- Two ways `chooseVersions` throws a `TypeError`:
  - a loaded `package.json` without a `dependencies` object. The throw
    happens at the first accepted eligible entry (index.js:413, 418).
  - a `null` element in the manifest's `dependencies` (index.js:397-398).
  `SwitchInfo` always holds a map and a list of entry records, so the
  model has no failing case. Where the code would throw on the missing
  `dependencies` object, the model instead adds the key to the map.
