/** `switch` (`chooseVersions`): walks the dependency entries of an existing
    behaviour-pack manifest in order and, for every entry whose
    `module_name` mentions `@minecraft` and whose update the user accepts,
    overwrites that entry's version and the same package's entry in
    `package.json`. The user's answers are a parameter: one per manifest
    entry, consulted only at eligible entries. */
module Switch {
  import opened Values
  import opened Text
  import opened Selections
  import opened Manifest

  /** The pattern an entry's `module_name` must contain to be eligible. */
  const VendorPattern := "@minecraft"

  /** `entry['module_name'] || ''` */
  function ModuleNameOrEmpty(e: DepEntry): string
  {
    match e.moduleName
    case Some(name) => name
    case None => ""
  }

  /** An entry may be switched when its module name contains the vendor
      pattern. */
  predicate Eligible(e: DepEntry)
  {
    Search(ModuleNameOrEmpty(e), VendorPattern) != -1
  }

  /** The user's reply at one entry: keep it, or switch it to the chosen
      versions. */
  datatype Answer = Decline | Accept(choice: VersionChoice)

  /** What `chooseVersions` reads and writes: the `--yes` flag, the loaded
      manifest's `dependencies`, the loaded `package.json`'s `dependencies`
      and the freshly fetched catalogs. */
  datatype SwitchInfo = SwitchInfo(
    isDefault: bool,
    dependencies: seq<DepEntry>,
    packageDependencies: map<string, Value>,
    catalog: Catalog)

  /** With `--yes` no version is asked for and the latest is taken. */
  function EffectiveChoice(isDefault: bool, a: Answer): VersionChoice
    requires a.Accept?
  {
    if isDefault then Latest else a.choice
  }

  /** The new manifest version of an entry named `name`. */
  function TargetManifestVersion(c: VersionChoice, name: string, cat: Catalog): Value
  {
    match c
    case Latest => Lookup(cat.versions, name)
    case Manual(m, _) => Str(m)
  }

  /** The new `package.json` version of the package named `name`. */
  function TargetNpmVersion(c: VersionChoice, name: string, cat: Catalog): Value
  {
    match c
    case Latest => Lookup(cat.npmVersions, name)
    case Manual(_, n) => Str(n)
  }

  /** One answer per manifest entry. */
  predicate AnswersFit(info: SwitchInfo, answers: seq<Answer>)
  {
    |answers| == |info.dependencies|
  }

  /** Entry `i` is eligible and the user accepted switching it. */
  predicate Switched(info: SwitchInfo, answers: seq<Answer>, i: nat)
    requires AnswersFit(info, answers) && i < |answers|
  {
    Eligible(info.dependencies[i]) && answers[i].Accept?
  }

  function SwitchedManifestVersion(info: SwitchInfo, answers: seq<Answer>, i: nat): Value
    requires AnswersFit(info, answers) && i < |answers| && Switched(info, answers, i)
  {
    TargetManifestVersion(EffectiveChoice(info.isDefault, answers[i]),
                          ModuleNameOrEmpty(info.dependencies[i]), info.catalog)
  }

  function SwitchedNpmVersion(info: SwitchInfo, answers: seq<Answer>, i: nat): Value
    requires AnswersFit(info, answers) && i < |answers| && Switched(info, answers, i)
  {
    TargetNpmVersion(EffectiveChoice(info.isDefault, answers[i]),
                     ModuleNameOrEmpty(info.dependencies[i]), info.catalog)
  }

  /** Entry `j` is switched and names the package `k`. */
  predicate SwitchedAs(info: SwitchInfo, answers: seq<Answer>, j: nat, k: string)
    requires AnswersFit(info, answers) && j < |answers|
  {
    Switched(info, answers, j) && ModuleNameOrEmpty(info.dependencies[j]) == k
  }

  /** The last of the first `n` entries that is switched and named `k`, if
      any: the entry whose choice `package.json` ends up holding for `k`. */
  function LastSwitched(info: SwitchInfo, answers: seq<Answer>, n: nat, k: string): (r: Option<nat>)
    requires AnswersFit(info, answers) && n <= |answers|
    ensures r.Some? ==> r.value < n && SwitchedAs(info, answers, r.value, k)
    ensures r.Some? ==> forall j :: r.value < j < n ==> !SwitchedAs(info, answers, j, k)
    ensures r.None? ==> forall j :: 0 <= j < n ==> !SwitchedAs(info, answers, j, k)
    decreases n
  {
    if n == 0 then None
    else
      var rest := LastSwitched(info, answers, n - 1, k);
      if SwitchedAs(info, answers, n - 1, k) then Some(n - 1) else rest
  }

  /** `chooseVersions` after its loop has visited the first `n` entries:
      those of them that were switched carry their new version, every other
      entry is as loaded, and `package.json` holds, for each name, the choice
      of the last switched entry of that name, or its loaded value. */
  function ChoosePrefix(info: SwitchInfo, answers: seq<Answer>, n: nat): (r: SwitchInfo)
    requires AnswersFit(info, answers) && n <= |answers|
    ensures r.isDefault == info.isDefault && r.catalog == info.catalog
    ensures |r.dependencies| == |info.dependencies|
    ensures forall i :: 0 <= i < |info.dependencies| ==>
      && r.dependencies[i].moduleName == info.dependencies[i].moduleName
      && r.dependencies[i].uuid == info.dependencies[i].uuid
    ensures forall i :: 0 <= i < |info.dependencies| ==>
      r.dependencies[i].version
      == if i < n && Switched(info, answers, i) then SwitchedManifestVersion(info, answers, i)
         else info.dependencies[i].version
    ensures forall k :: k in r.packageDependencies <==>
      k in info.packageDependencies || LastSwitched(info, answers, n, k).Some?
    ensures forall k :: k in r.packageDependencies ==>
      r.packageDependencies[k]
      == if LastSwitched(info, answers, n, k).Some?
         then SwitchedNpmVersion(info, answers, LastSwitched(info, answers, n, k).value)
         else info.packageDependencies[k]
    decreases n
  {
    if n == 0 then info
    else
      var st := ChoosePrefix(info, answers, n - 1);
      var e := st.dependencies[n - 1];
      var current := ModuleNameOrEmpty(e);
      assert e == info.dependencies[n - 1];
      if Eligible(e) && answers[n - 1].Accept? then
        var c := EffectiveChoice(st.isDefault, answers[n - 1]);
        st.(dependencies := st.dependencies[n - 1 := e.(version := TargetManifestVersion(c, current, st.catalog))],
            packageDependencies := st.packageDependencies[current := TargetNpmVersion(c, current, st.catalog)])
      else
        st
  }

  /** `chooseVersions`. No entry is added, removed or reordered; an entry
      that is not eligible or whose switch was declined is unchanged; a
      switched entry only changes its version. `package.json` gains or
      changes only the names of switched entries, each to the choice made
      at the last switched entry of that name, and keeps everything else. */
  function ChooseVersions(info: SwitchInfo, answers: seq<Answer>): (r: SwitchInfo)
    requires AnswersFit(info, answers)
    ensures r.isDefault == info.isDefault && r.catalog == info.catalog
    ensures |r.dependencies| == |info.dependencies|
    ensures forall i :: 0 <= i < |info.dependencies| && !Switched(info, answers, i) ==>
      r.dependencies[i] == info.dependencies[i]
    ensures forall i :: 0 <= i < |info.dependencies| && Switched(info, answers, i) ==>
      r.dependencies[i] == info.dependencies[i].(version := SwitchedManifestVersion(info, answers, i))
    ensures forall k :: k in r.packageDependencies <==>
      k in info.packageDependencies || LastSwitched(info, answers, |answers|, k).Some?
    ensures forall k :: (k in info.packageDependencies &&
      LastSwitched(info, answers, |answers|, k).None?) ==>
      r.packageDependencies[k] == info.packageDependencies[k]
    ensures forall k :: LastSwitched(info, answers, |answers|, k).Some? ==>
      r.packageDependencies[k]
      == SwitchedNpmVersion(info, answers, LastSwitched(info, answers, |answers|, k).value)
  {
    ChoosePrefix(info, answers, |answers|)
  }

  /** The resource-pack entry has no `module_name`, so `switch` never touches
      it. */
  lemma ResourcePackEntryNeverEligible(resuuid: string, versionArray: seq<int>)
    ensures !Eligible(ResourcePackEntry(resuuid, versionArray))
  {
  }

  /** Which entries are switched and what `package.json` ends up holding
      depend only on the entries' names, not on their versions. */
  lemma LastSwitchedOnlyReadsNames(a: SwitchInfo, b: SwitchInfo,
                                    answers: seq<Answer>, n: nat, k: string)
    requires AnswersFit(a, answers) && AnswersFit(b, answers) && n <= |answers|
    requires forall i :: 0 <= i < |answers| ==>
      a.dependencies[i].moduleName == b.dependencies[i].moduleName
    ensures LastSwitched(a, answers, n, k) == LastSwitched(b, answers, n, k)
    decreases n
  {
  }

  /** A switch keeps every entry's name, so a second switch with the
      same answers switches the same entries and decides each package at the
      same entry. */
  lemma SwitchKeepsDecisions(info: SwitchInfo, answers: seq<Answer>, k: string)
    requires AnswersFit(info, answers)
    ensures AnswersFit(ChooseVersions(info, answers), answers)
    ensures forall i :: 0 <= i < |answers| ==>
      Switched(ChooseVersions(info, answers), answers, i) == Switched(info, answers, i)
    ensures LastSwitched(ChooseVersions(info, answers), answers, |answers|, k)
      == LastSwitched(info, answers, |answers|, k)
  {
    var once := ChooseVersions(info, answers);
    forall i | 0 <= i < |answers|
      ensures once.dependencies[i].moduleName == info.dependencies[i].moduleName
    {
      if Switched(info, answers, i) {
        assert once.dependencies[i] == info.dependencies[i].(version := SwitchedManifestVersion(info, answers, i));
      }
    }
    LastSwitchedOnlyReadsNames(once, info, answers, |answers|, k);
  }

  /** A second latest switch with the same answers writes into every switched
      entry the version the first one wrote. */
  lemma LatestSwitchEntriesStable(info: SwitchInfo, answers: seq<Answer>)
    requires AnswersFit(info, answers)
    requires info.isDefault || forall i :: 0 <= i < |answers| && answers[i].Accept? ==>
      answers[i].choice.Latest?
    ensures AnswersFit(ChooseVersions(info, answers), answers)
    ensures ChooseVersions(ChooseVersions(info, answers), answers).dependencies
      == ChooseVersions(info, answers).dependencies
  {
  }

  /** A second latest switch with the same answers writes into `package.json`
      the values the first one wrote. */
  lemma LatestSwitchPackagesStable(info: SwitchInfo, answers: seq<Answer>)
    requires AnswersFit(info, answers)
    requires info.isDefault || forall i :: 0 <= i < |answers| && answers[i].Accept? ==>
      answers[i].choice.Latest?
    ensures AnswersFit(ChooseVersions(info, answers), answers)
    ensures ChooseVersions(ChooseVersions(info, answers), answers).packageDependencies
      == ChooseVersions(info, answers).packageDependencies
  {
    var once := ChooseVersions(info, answers);
    var twice := ChooseVersions(once, answers);
    var n := |answers|;
    SwitchKeepsDecisions(info, answers, "");
    forall k | k in twice.packageDependencies
      ensures k in once.packageDependencies
      ensures twice.packageDependencies[k] == once.packageDependencies[k]
    {
      SwitchKeepsDecisions(info, answers, k);
      var l := LastSwitched(info, answers, n, k);
      if l.Some? {
        var i := l.value;
        assert ModuleNameOrEmpty(once.dependencies[i]) == ModuleNameOrEmpty(info.dependencies[i]);
        assert EffectiveChoice(info.isDefault, answers[i]) == Latest;
        assert SwitchedNpmVersion(once, answers, i) == SwitchedNpmVersion(info, answers, i);
      }
    }
    assert twice.packageDependencies == once.packageDependencies;
  }

  /** Switching to the latest versions twice with the same answers and the
      same catalogs gives the same descriptors as switching once. */
  lemma LatestSwitchIdempotent(info: SwitchInfo, answers: seq<Answer>)
    requires AnswersFit(info, answers)
    requires info.isDefault || forall i :: 0 <= i < |answers| && answers[i].Accept? ==>
      answers[i].choice.Latest?
    ensures AnswersFit(ChooseVersions(info, answers), answers)
    ensures ChooseVersions(ChooseVersions(info, answers), answers) == ChooseVersions(info, answers)
  {
    LatestSwitchEntriesStable(info, answers);
    LatestSwitchPackagesStable(info, answers);
  }

  /** Only the answers at eligible entries and, there, only the yes/no and
      the version choice that takes effect matter: with `--yes` the manual
      choices are never consulted. */
  lemma ChooseVersionsReadsOnlyEffectiveAnswers(info: SwitchInfo, a: seq<Answer>, b: seq<Answer>)
    requires AnswersFit(info, a) && AnswersFit(info, b)
    requires forall i :: 0 <= i < |a| ==> Switched(info, a, i) == Switched(info, b, i)
    requires forall i :: 0 <= i < |a| && Switched(info, a, i) && Switched(info, b, i) ==>
      EffectiveChoice(info.isDefault, a[i]) == EffectiveChoice(info.isDefault, b[i])
    ensures ChooseVersions(info, a) == ChooseVersions(info, b)
  {
    var ra := ChooseVersions(info, a);
    var rb := ChooseVersions(info, b);
    var n := |a|;
    forall k ensures LastSwitched(info, a, n, k) == LastSwitched(info, b, n, k) {
      SameSwitchesSameLast(info, a, b, n, k);
    }
    forall i | 0 <= i < n ensures ra.dependencies[i] == rb.dependencies[i] {
      if Switched(info, a, i) {
        assert SwitchedManifestVersion(info, a, i) == SwitchedManifestVersion(info, b, i);
      }
    }
    assert ra.dependencies == rb.dependencies;
    forall k | k in ra.packageDependencies
      ensures k in rb.packageDependencies
      ensures ra.packageDependencies[k] == rb.packageDependencies[k]
    {
      var l := LastSwitched(info, a, n, k);
      if l.Some? {
        assert SwitchedNpmVersion(info, a, l.value) == SwitchedNpmVersion(info, b, l.value);
      }
    }
    assert ra.packageDependencies == rb.packageDependencies;
  }

  /** A manifest whose switched entries already hold the versions they would
      be switched to, and whose `package.json` already holds each switched
      package's new version, is left as it is. */
  lemma SwitchFixpoint(info: SwitchInfo, answers: seq<Answer>)
    requires AnswersFit(info, answers)
    requires forall i :: 0 <= i < |answers| && Switched(info, answers, i) ==>
      && info.dependencies[i].version == SwitchedManifestVersion(info, answers, i)
      && ModuleNameOrEmpty(info.dependencies[i]) in info.packageDependencies
      && info.packageDependencies[ModuleNameOrEmpty(info.dependencies[i])]
         == SwitchedNpmVersion(info, answers, i)
    ensures ChooseVersions(info, answers) == info
  {
    var r := ChooseVersions(info, answers);
    assert r.dependencies == info.dependencies;
    forall k | k in r.packageDependencies
      ensures k in info.packageDependencies
      ensures r.packageDependencies[k] == info.packageDependencies[k]
    {
      var l := LastSwitched(info, answers, |answers|, k);
    }
    assert r.packageDependencies == info.packageDependencies;
  }

  /** Answer sequences that switch the same entries agree on the last
      switched entry of every name. */
  lemma SameSwitchesSameLast(info: SwitchInfo, a: seq<Answer>, b: seq<Answer>,
                              n: nat, k: string)
    requires AnswersFit(info, a) && AnswersFit(info, b) && n <= |a|
    requires forall i :: 0 <= i < |a| ==> Switched(info, a, i) == Switched(info, b, i)
    ensures LastSwitched(info, a, n, k) == LastSwitched(info, b, n, k)
    decreases n
  {
  }
}
