/** How `init` and `switch` fit together over a project's lifetime. */
module Lifecycle {
  import opened Values
  import opened Text
  import opened Selections
  import opened Init
  import opened Switch

  /** A name without `@` never contains the vendor pattern. */
  lemma NoAtSignNotEligible(s: string)
    requires '@' !in s
    ensures Search(s, VendorPattern) == -1
  {
    SearchSpec(s, VendorPattern);
    forall i: nat ensures !OccursAt(s, VendorPattern, i) {
      if i + |VendorPattern| <= |s| {
        assert s[i..i + |VendorPattern|][0] == s[i];
      }
    }
  }

  /** No build tool `init` adds to `package.json` is ever switched. */
  lemma ToolingNeverEligible(k: string)
    requires k in ToolingDependencies
    ensures Search(k, VendorPattern) == -1
  {
    NoAtSignNotEligible(k);
  }

  /** In a project created without manual choices, an eligible manifest
      entry is a package entry holding the catalogs' versions in both
      descriptors. */
  lemma EligibleInitEntryIsLatest(info: Information, cat: Catalog, resuuid: string, j: nat)
    requires ManualNames(info.packageVersions) == {}
    requires j < |InitProject(info, cat, resuuid).behaviorDependencies|
    requires Eligible(InitProject(info, cat, resuuid).behaviorDependencies[j])
    ensures var art := InitProject(info, cat, resuuid);
      var e := art.behaviorDependencies[j];
      && e.moduleName.Some?
      && e.moduleName.value in NeededNames(info.packageVersions)
      && e.version == Lookup(cat.versions, e.moduleName.value)
      && e.moduleName.value in art.packageDependencies
      && art.packageDependencies[e.moduleName.value] == Lookup(cat.npmVersions, e.moduleName.value)
  {
    var a := DealDependencies(info, cat, resuuid);
    var e := a.dependencies[j];
    assert e.moduleName.Some?;
    assert j >= ResourceOffset(info);
    var k := e.moduleName.value;
    assert k in a.npmVersionsFiltered;
    if k in ToolingDependencies {
      ToolingNeverEligible(k);
    }
  }

  /** A project created without manual version choices is already up to
      date: switching it to the latest versions against the same catalogs,
      whatever entries the user accepts, changes neither descriptor. */
  lemma LatestInitIsSwitchFixpoint(info: Information, cat: Catalog, resuuid: string,
                                   isDefault: bool, answers: seq<Answer>)
    requires forall i :: 0 <= i < |info.packageVersions| ==> !IsManual(info.packageVersions[i])
    requires |answers| == |InitProject(info, cat, resuuid).behaviorDependencies|
    requires isDefault || forall i :: 0 <= i < |answers| && answers[i].Accept? ==>
      answers[i].choice.Latest?
    ensures var art := InitProject(info, cat, resuuid);
      var loaded := SwitchInfo(isDefault, art.behaviorDependencies, art.packageDependencies, cat);
      ChooseVersions(loaded, answers) == loaded
  {
    var ps := info.packageVersions;
    assert ManualNames(ps) == {} by {
      forall k | k in ManualNames(ps) ensures false {
        ManualNameWitness(ps, k);
      }
    }
    var art := InitProject(info, cat, resuuid);
    var loaded := SwitchInfo(isDefault, art.behaviorDependencies, art.packageDependencies, cat);
    forall j | 0 <= j < |answers| && Switched(loaded, answers, j)
      ensures loaded.dependencies[j].version == SwitchedManifestVersion(loaded, answers, j)
      ensures ModuleNameOrEmpty(loaded.dependencies[j]) in loaded.packageDependencies
      ensures loaded.packageDependencies[ModuleNameOrEmpty(loaded.dependencies[j])]
              == SwitchedNpmVersion(loaded, answers, j)
    {
      EligibleInitEntryIsLatest(info, cat, resuuid, j);
    }
    SwitchFixpoint(loaded, answers);
  }
}
