/** What `init` gathers before it resolves anything: the project's own fields
    and one selection per known script package, in the order the
    `packageVersions` object lists them. */
module Selections {
  import opened VersionArray

  /** How a package's two versions are chosen: the catalog's latest entries,
      or an explicit manifest/npm pair. */
  datatype VersionChoice = Latest | Manual(manifestVersion: string, npmVersion: string)

  /** One `{need, version}` value of `packageVersions`. A package that is not
      needed carries no version choice. */
  datatype Selection = NotNeeded | Needed(version: VersionChoice)

  /** One key of `packageVersions` with its value. */
  datatype Package = Package(name: string, selection: Selection)

  predicate DistinctNames(ps: seq<Package>)
  {
    forall i, j :: 0 <= i < j < |ps| ==> ps[i].name != ps[j].name
  }

  /** The `packageVersions` object: its keys are unique and a `for ... in`
      loop visits them in insertion order. */
  type PackageVersions = ps: seq<Package> | DistinctNames(ps)

  predicate IsNeeded(p: Package)
  {
    p.selection.Needed?
  }

  /** A needed package whose versions were chosen by hand. */
  predicate IsManual(p: Package)
  {
    p.selection.Needed? && p.selection.version.Manual?
  }

  /** How many packages of `ps` are needed. */
  function NeededCount(ps: seq<Package>): (n: nat)
    ensures n <= |ps|
  {
    if |ps| == 0 then 0
    else NeededCount(ps[..|ps| - 1]) + (if IsNeeded(ps[|ps| - 1]) then 1 else 0)
  }

  /** The names of the needed packages of `ps`. */
  function NeededNames(ps: seq<Package>): (names: set<string>)
    ensures forall i :: 0 <= i < |ps| && IsNeeded(ps[i]) ==> ps[i].name in names
  {
    if |ps| == 0 then {}
    else
      var init := ps[..|ps| - 1];
      var last := ps[|ps| - 1];
      assert forall i :: 0 <= i < |init| ==> init[i] == ps[i];
      NeededNames(init) + (if IsNeeded(last) then {last.name} else {})
  }

  /** Every name in `NeededNames(ps)` is the name of a needed package of `ps`. */
  lemma {:induction false} NeededNameWitness(ps: seq<Package>, k: string)
    requires k in NeededNames(ps)
    ensures exists i :: 0 <= i < |ps| && IsNeeded(ps[i]) && ps[i].name == k
    decreases |ps|
  {
    var init := ps[..|ps| - 1];
    if k in NeededNames(init) {
      NeededNameWitness(init, k);
      var i :| 0 <= i < |init| && IsNeeded(init[i]) && init[i].name == k;
      assert ps[i] == init[i];
    } else {
      assert IsNeeded(ps[|ps| - 1]) && ps[|ps| - 1].name == k;
    }
  }

  /** A package that is not needed shares its name with no needed one. */
  lemma NotNeededNameAbsent(ps: PackageVersions, i: nat)
    requires i < |ps| && !IsNeeded(ps[i])
    ensures ps[i].name !in NeededNames(ps)
  {
    if ps[i].name in NeededNames(ps) {
      NeededNameWitness(ps, ps[i].name);
    }
  }

  /** With distinct names, counting the needed packages and collecting their
      names agree. */
  lemma {:induction false} NeededCountIsNeededNamesSize(ps: PackageVersions)
    ensures NeededCount(ps) == |NeededNames(ps)|
    decreases |ps|
  {
    if |ps| > 0 {
      var init: PackageVersions := ps[..|ps| - 1];
      var last := ps[|ps| - 1];
      NeededCountIsNeededNamesSize(init);
      if last.name in NeededNames(init) {
        NeededNameWitness(init, last.name);
      }
    }
  }

  /** A list whose first package is the only needed one has one needed
      package. */
  lemma {:induction false} OnlyFirstNeeded(ps: seq<Package>)
    requires |ps| >= 1 && IsNeeded(ps[0])
    requires forall i :: 1 <= i < |ps| ==> !IsNeeded(ps[i])
    ensures NeededCount(ps) == 1
    decreases |ps|
  {
    var init := ps[..|ps| - 1];
    if |ps| > 1 {
      assert forall i :: 0 <= i < |init| ==> init[i] == ps[i];
      OnlyFirstNeeded(init);
    } else {
      assert init == [];
    }
  }

  const ServerPackage := "@minecraft/server"
  const ServerUiPackage := "@minecraft/server-ui"
  const ServerGametestPackage := "@minecraft/server-gametest"
  const ServerNetPackage := "@minecraft/server-net"
  const ServerAdminPackage := "@minecraft/server-admin"

  /** The keys of `packageVersions`, in the order `init` writes them. */
  const KnownPackages := [ServerPackage, ServerUiPackage, ServerGametestPackage,
                          ServerNetPackage, ServerAdminPackage]

  /** Everything `init` collects before the catalogs are fetched. */
  datatype Information = Information(
    name: string,
    version: string,
    versionArray: seq<int>,
    description: string,
    res: bool,
    allowEval: bool,
    language: string,
    packageVersions: PackageVersions)

  /** The `packageVersions` of `init --yes`: the server package at its
      latest version, every other known package rejected. */
  function DefaultPackageVersions(): (ps: PackageVersions)
    ensures |ps| == |KnownPackages|
    ensures forall i :: 0 <= i < |ps| ==> ps[i].name == KnownPackages[i]
    ensures forall i :: 0 <= i < |ps| ==> (IsNeeded(ps[i]) <==> ps[i].name == ServerPackage)
    ensures ps[0] == Package(ServerPackage, Needed(Latest))
    ensures NeededNames(ps) == {ServerPackage}
    ensures NeededCount(ps) == 1
  {
    var reject := NotNeeded;
    var ps: PackageVersions :=
      [Package(ServerPackage, Needed(Latest)),
       Package(ServerUiPackage, reject),
       Package(ServerGametestPackage, reject),
       Package(ServerNetPackage, reject),
       Package(ServerAdminPackage, reject)];
    assert NeededNames(ps) == {ServerPackage} by {
      assert IsNeeded(ps[0]);
      forall k | k in NeededNames(ps) ensures k == ServerPackage {
        NeededNameWitness(ps, k);
      }
    }
    OnlyFirstNeeded(ps);
    ps
  }

  /** The answers of `init --yes`: the project is named after the working
      directory `cwdName`, has version 1.0.0, a resource pack, no `eval`,
      TypeScript, and needs only the server package, at its latest version. */
  function DefaultInformation(cwdName: string): (info: Information)
    ensures info.name == cwdName && info.res && !info.allowEval
    ensures info.version == "1.0.0" && info.versionArray == [1, 0, 0]
    ensures info.description == "" && info.language == "ts"
    ensures WellFormedVersion(info.version)
    ensures ParseVersionArray(info.version) == info.versionArray
    ensures |info.packageVersions| == |KnownPackages|
    ensures forall i :: 0 <= i < |info.packageVersions| ==>
      info.packageVersions[i].name == KnownPackages[i]
    ensures forall i :: 0 <= i < |info.packageVersions| ==>
      (IsNeeded(info.packageVersions[i]) <==> info.packageVersions[i].name == ServerPackage)
    ensures info.packageVersions[0] == Package(ServerPackage, Needed(Latest))
    ensures NeededNames(info.packageVersions) == {ServerPackage}
    ensures NeededCount(info.packageVersions) == 1
  {
    DefaultVersionParses();
    Information(cwdName, "1.0.0", [1, 0, 0], "", true, false, "ts", DefaultPackageVersions())
  }
}
