/** `init`: resolving the selected packages against the catalogs
    (`dealDependencies`) and the dependency parts of the generated
    behaviour-pack manifest, resource-pack manifest and `package.json`
    (`creatFiles`). The fresh resource-pack uuid is a parameter. */
module Init {
  import opened Values
  import opened Selections
  import opened Manifest

  /** The manifest version a needed package must end up with, stated against
      the catalog as fetched: a manual choice wins, otherwise the catalog's
      entry (or `undefined` when the catalog lacks the name). */
  function ResolvedManifestVersion(p: Package, cat: Catalog): Value
    requires IsNeeded(p)
  {
    match p.selection.version
    case Manual(m, _) => Str(m)
    case Latest => Lookup(cat.versions, p.name)
  }

  /** The npm version a needed package must end up with. */
  function ResolvedNpmVersion(p: Package, cat: Catalog): Value
    requires IsNeeded(p)
  {
    match p.selection.version
    case Manual(_, n) => Str(n)
    case Latest => Lookup(cat.npmVersions, p.name)
  }

  /** Names of the needed packages whose versions were chosen by hand. */
  function ManualNames(ps: seq<Package>): (names: set<string>)
    ensures forall i :: 0 <= i < |ps| && IsManual(ps[i]) ==> ps[i].name in names
  {
    if |ps| == 0 then {}
    else
      var init := ps[..|ps| - 1];
      var last := ps[|ps| - 1];
      assert forall i :: 0 <= i < |init| ==> init[i] == ps[i];
      ManualNames(init) + (if IsManual(last) then {last.name} else {})
  }

  /** Every name in `ManualNames(ps)` belongs to a package of `ps`. */
  lemma {:induction false} ManualNameWitness(ps: seq<Package>, k: string)
    requires k in ManualNames(ps)
    ensures exists i :: 0 <= i < |ps| && IsManual(ps[i]) && ps[i].name == k
    decreases |ps|
  {
    var init := ps[..|ps| - 1];
    if k in ManualNames(init) {
      ManualNameWitness(init, k);
      var i :| 0 <= i < |init| && IsManual(init[i]) && init[i].name == k;
      assert ps[i] == init[i];
    }
  }

  /** One iteration of the first loop of `dealDependencies`: a manual choice
      overwrites both catalog entries of its package. */
  function Override(p: Package, cat: Catalog): Catalog
  {
    if IsManual(p) then
      Catalog(cat.versions[p.name := p.selection.version.manifestVersion],
              cat.npmVersions[p.name := p.selection.version.npmVersion])
    else cat
  }

  /** The first loop of `dealDependencies`, in `packageVersions` order.
      Afterwards every needed package reads its resolved versions from the
      catalogs, and every entry not chosen by hand is as fetched. */
  function ApplyOverrides(ps: PackageVersions, cat: Catalog): (r: Catalog)
    ensures r.versions.Keys == cat.versions.Keys + ManualNames(ps)
    ensures r.npmVersions.Keys == cat.npmVersions.Keys + ManualNames(ps)
    ensures forall k :: k in cat.versions && k !in ManualNames(ps) ==>
      r.versions[k] == cat.versions[k]
    ensures forall k :: k in cat.npmVersions && k !in ManualNames(ps) ==>
      r.npmVersions[k] == cat.npmVersions[k]
    ensures forall i :: 0 <= i < |ps| && IsNeeded(ps[i]) ==>
      && Lookup(r.versions, ps[i].name) == ResolvedManifestVersion(ps[i], cat)
      && Lookup(r.npmVersions, ps[i].name) == ResolvedNpmVersion(ps[i], cat)
    ensures ManualNames(ps) == {} ==> r == cat
    decreases |ps|
  {
    if |ps| == 0 then cat
    else
      var init: PackageVersions := ps[..|ps| - 1];
      var last := ps[|ps| - 1];
      var before := ApplyOverrides(init, cat);
      assert forall i :: 0 <= i < |init| ==> init[i] == ps[i];
      assert last.name !in ManualNames(init) by {
        if last.name in ManualNames(init) {
          ManualNameWitness(init, last.name);
        }
      }
      Override(last, before)
  }

  /** The manifest entries of the second loop of `dealDependencies`: one
      `{module_name, version}` per needed package, in `packageVersions`
      order, so the entry of `ps[i]` comes after those of the needed
      packages before it. */
  function ModuleEntries(ps: seq<Package>, versions: map<string, string>): (r: seq<DepEntry>)
    ensures |r| == NeededCount(ps)
    ensures forall i :: 0 <= i < |ps| && IsNeeded(ps[i]) ==>
      && NeededCount(ps[..i]) < |r|
      && r[NeededCount(ps[..i])] == ModuleEntry(ps[i].name, Lookup(versions, ps[i].name))
    ensures forall j :: 0 <= j < |r| ==>
      && r[j].uuid.None?
      && r[j].moduleName.Some?
      && r[j].moduleName.value in NeededNames(ps)
      && r[j].version == Lookup(versions, r[j].moduleName.value)
    decreases |ps|
  {
    if |ps| == 0 then []
    else
      var init := ps[..|ps| - 1];
      var last := ps[|ps| - 1];
      var before := ModuleEntries(init, versions);
      var r := before
        + (if IsNeeded(last) then [ModuleEntry(last.name, Lookup(versions, last.name))] else []);
      assert forall i :: 0 <= i < |init| ==> init[..i] == ps[..i] && init[i] == ps[i];
      assert init == ps[..|ps| - 1];
      assert NeededNames(init) <= NeededNames(ps);
      assert forall j :: 0 <= j < |before| ==> r[j] == before[j];
      r
  }

  /** `npmVersionsFiltered` of the second loop of `dealDependencies`: exactly
      the needed names, each with its npm catalog entry. */
  function NpmFiltered(ps: seq<Package>, npmVersions: map<string, string>): (r: map<string, Value>)
    ensures r.Keys == NeededNames(ps)
    ensures forall k :: k in r ==> r[k] == Lookup(npmVersions, k)
    decreases |ps|
  {
    if |ps| == 0 then map[]
    else
      var init := ps[..|ps| - 1];
      var last := ps[|ps| - 1];
      var m := NpmFiltered(init, npmVersions);
      assert forall i :: 0 <= i < |init| ==> init[i] == ps[i];
      if IsNeeded(last) then
        assert NeededNames(ps) == NeededNames(init) + {last.name};
        m[last.name := Lookup(npmVersions, last.name)]
      else
        assert NeededNames(ps) == NeededNames(init);
        m
  }

  /** What `dealDependencies` adds to the collected information. */
  datatype Assembly = Assembly(
    catalog: Catalog,
    dependencies: seq<DepEntry>,
    npmVersionsFiltered: map<string, Value>,
    resuuid: string)

  /** Where the package entries start in the manifest's dependency list. */
  function ResourceOffset(info: Information): nat
  {
    if info.res then 1 else 0
  }

  /** `dealDependencies`: the behaviour-pack dependency list is the
      resource-pack entry, exactly when a resource pack is created, followed
      by one `{module_name, version}` entry per needed package;
      `npmVersionsFiltered` has exactly the needed names as keys. What the
      entries hold is stated by `DealDependenciesResolvesNeeded` and
      `DealDependenciesOmitsUnneeded`. */
  function DealDependencies(info: Information, cat: Catalog, resuuid: string): (r: Assembly)
    ensures r.resuuid == resuuid
    ensures |r.dependencies| == ResourceOffset(info) + NeededCount(info.packageVersions)
    ensures info.res ==> r.dependencies[0] == ResourcePackEntry(resuuid, info.versionArray)
    ensures forall j :: ResourceOffset(info) <= j < |r.dependencies| ==>
      && r.dependencies[j].uuid.None?
      && r.dependencies[j].moduleName.Some?
      && r.dependencies[j].moduleName.value in NeededNames(info.packageVersions)
      && r.dependencies[j].version == Lookup(r.catalog.versions, r.dependencies[j].moduleName.value)
    ensures r.npmVersionsFiltered.Keys == NeededNames(info.packageVersions)
    ensures forall k :: k in r.npmVersionsFiltered ==>
      r.npmVersionsFiltered[k] == Lookup(r.catalog.npmVersions, k)
    ensures ManualNames(info.packageVersions) == {} ==> r.catalog == cat
  {
    var ps := info.packageVersions;
    var overridden := ApplyOverrides(ps, cat);
    var head := if info.res then [ResourcePackEntry(resuuid, info.versionArray)] else [];
    var entries := ModuleEntries(ps, overridden.versions);
    Assembly(overridden, head + entries, NpmFiltered(ps, overridden.npmVersions), resuuid)
  }

  /** Every needed package gets its manifest entry at the position its rank
      among the needed packages dictates, after the resource-pack entry, with
      its resolved manifest version, and its resolved npm version in
      `npmVersionsFiltered`: a manual choice where one was made, the catalog's
      entry otherwise. */
  lemma DealDependenciesResolvesNeeded(info: Information, cat: Catalog, resuuid: string, i: nat)
    requires i < |info.packageVersions| && IsNeeded(info.packageVersions[i])
    ensures var r := DealDependencies(info, cat, resuuid);
      var p := info.packageVersions[i];
      var at := ResourceOffset(info) + NeededCount(info.packageVersions[..i]);
      && at < |r.dependencies|
      && r.dependencies[at] == ModuleEntry(p.name, ResolvedManifestVersion(p, cat))
      && p.name in r.npmVersionsFiltered
      && r.npmVersionsFiltered[p.name] == ResolvedNpmVersion(p, cat)
  {
  }

  /** A package that is not needed has no manifest entry and no
      `npmVersionsFiltered` entry. */
  lemma DealDependenciesOmitsUnneeded(info: Information, cat: Catalog, resuuid: string, i: nat)
    requires i < |info.packageVersions| && !IsNeeded(info.packageVersions[i])
    ensures var r := DealDependencies(info, cat, resuuid);
      var name := info.packageVersions[i].name;
      && name !in r.npmVersionsFiltered
      && forall j :: 0 <= j < |r.dependencies| ==> r.dependencies[j].moduleName != Some(name)
  {
    NotNeededNameAbsent(info.packageVersions, i);
  }

  /** The fixed build-tool dependencies `creatFiles` adds to `package.json`. */
  const ToolingDependencies: map<string, Value> := map[
    "del" := Str("7.0.0"),
    "gulp" := Str("^4.0.2"),
    "gulp-cli" := Str("^2.3.0"),
    "gulp-esbuild" := Str("^0.11.0"),
    "gulp-typescript" := Str("^6.0.0-alpha.1"),
    "gulp-zip" := Str("^5.1.0")]

  /** `{...npmVersionsFiltered, del: ..., gulp: ..., ...}`: every resolved
      package and every build tool is listed, and a build tool's fixed
      version wins over a resolved package of the same name. */
  function PackageDependencies(filtered: map<string, Value>): (deps: map<string, Value>)
    ensures deps.Keys == filtered.Keys + ToolingDependencies.Keys
    ensures forall k :: k in ToolingDependencies ==> deps[k] == ToolingDependencies[k]
    ensures forall k :: k in filtered && k !in ToolingDependencies ==> deps[k] == filtered[k]
  {
    filtered + ToolingDependencies
  }

  /** The resolver-relevant parts of the generated files: the behaviour-pack
      manifest's `dependencies`, the resource-pack manifest's header (absent
      when no resource pack is created) and `package.json`'s `dependencies`. */
  datatype Artifacts = Artifacts(
    behaviorDependencies: seq<DepEntry>,
    resourceHeader: Option<Header>,
    packageDependencies: map<string, Value>)

  /** The dependency parts of `creatFiles`. */
  function CreateArtifacts(info: Information, a: Assembly): Artifacts
  {
    Artifacts(
      a.dependencies,
      if info.res then Some(Header(a.resuuid, info.versionArray)) else None,
      PackageDependencies(a.npmVersionsFiltered))
  }

  /** `init` from the collected information to the generated descriptors.
      The two descriptors agree: the resource pack the behaviour pack depends
      on is the one whose header carries the same uuid and version, every
      package the manifest references is listed in `package.json`, with its
      resolved npm version unless a build tool of that name overrides it,
      and `package.json` lists nothing else but the build tools. */
  function InitProject(info: Information, cat: Catalog, resuuid: string): (art: Artifacts)
    ensures art.resourceHeader.Some? <==> info.res
    ensures info.res ==>
      && |art.behaviorDependencies| > 0
      && art.resourceHeader.value.uuid == resuuid
      && art.behaviorDependencies[0].uuid == Some(art.resourceHeader.value.uuid)
      && art.behaviorDependencies[0].version == Nums(art.resourceHeader.value.version)
    ensures !info.res ==> forall j :: 0 <= j < |art.behaviorDependencies| ==>
      art.behaviorDependencies[j].uuid.None?
    ensures forall j :: (0 <= j < |art.behaviorDependencies| &&
      art.behaviorDependencies[j].moduleName.Some?) ==>
      art.behaviorDependencies[j].moduleName.value in art.packageDependencies
    ensures forall i :: (0 <= i < |info.packageVersions| && IsNeeded(info.packageVersions[i]) &&
      info.packageVersions[i].name !in ToolingDependencies) ==>
      && info.packageVersions[i].name in art.packageDependencies
      && art.packageDependencies[info.packageVersions[i].name]
         == ResolvedNpmVersion(info.packageVersions[i], cat)
    ensures forall k :: k in art.packageDependencies ==>
      k in NeededNames(info.packageVersions) || k in ToolingDependencies
  {
    CreateArtifacts(info, DealDependencies(info, cat, resuuid))
  }

  /** `init --yes` depends on the resource pack and on the server package at
      the catalogs' versions, and `package.json` adds only the server package
      to the build tools. */
  lemma DefaultInitProject(cwdName: string, cat: Catalog, resuuid: string)
    ensures var art := InitProject(DefaultInformation(cwdName), cat, resuuid);
      && art.behaviorDependencies == [
           ResourcePackEntry(resuuid, [1, 0, 0]),
           ModuleEntry(ServerPackage, Lookup(cat.versions, ServerPackage))]
      && art.resourceHeader == Some(Header(resuuid, [1, 0, 0]))
      && art.packageDependencies
         == ToolingDependencies[ServerPackage := Lookup(cat.npmVersions, ServerPackage)]
  {
  }

  /** Choosing the server package by hand at manifest version 1.2.0 and npm
      version 1.2.0-beta, with a resource pack and every other known package
      rejected, gives a two-entry dependency list and that npm version in
      `package.json`, whatever the catalogs say. */
  lemma ManualServerScenario(info: Information, cat: Catalog, resuuid: string)
    requires info.res
    requires info.packageVersions == [
      Package(ServerPackage, Needed(Manual("1.2.0", "1.2.0-beta"))),
      Package(ServerUiPackage, NotNeeded),
      Package(ServerGametestPackage, NotNeeded),
      Package(ServerNetPackage, NotNeeded),
      Package(ServerAdminPackage, NotNeeded)]
    ensures var art := InitProject(info, cat, resuuid);
      && |art.behaviorDependencies| == 2
      && art.behaviorDependencies[0] == ResourcePackEntry(resuuid, info.versionArray)
      && art.behaviorDependencies[1] == ModuleEntry(ServerPackage, Str("1.2.0"))
      && art.packageDependencies[ServerPackage] == Str("1.2.0-beta")
  {
    var ps := info.packageVersions;
    OnlyFirstNeeded(ps);
    assert ps[..0] == [];
    DealDependenciesResolvesNeeded(info, cat, resuuid, 0);
  }
}
