/** The project version as a dotted string (`"1.0.0"`) and as the numeric
    array written into the pack manifests (`[1, 0, 0]`). Only versions whose
    components are all non-empty digit strings of at most
    `Number.MAX_SAFE_INTEGER` are modelled: there `parseInt` is exact. What it
    makes of anything else (`NaN`, a rounded double, `Infinity`) is outside
    this model. */
module VersionArray {
  import opened Text

  /** `Number.MAX_SAFE_INTEGER`, the largest integer up to which every
      integer is a double. */
  const MaxSafeInteger: nat := 0x1F_FFFF_FFFF_FFFF

  /** Every dot-separated component is a non-empty string of digits whose
      value `parseInt` represents exactly. */
  predicate WellFormedVersion(version: string)
  {
    var parts := Split(version, '.');
    forall k :: 0 <= k < |parts| ==> IsDigits(parts[k]) && DigitsValue(parts[k]) <= MaxSafeInteger
  }

  /** `version.split('.').map((x) => parseInt(x))` on a well-formed version. */
  function ParseVersionArray(version: string): seq<nat>
    requires WellFormedVersion(version)
  {
    var parts := Split(version, '.');
    seq(|parts|, k requires 0 <= k < |parts| => DigitsValue(parts[k]))
  }

  /** The dotted decimal rendering of a version array. */
  function FormatVersion(ns: seq<nat>): (version: string)
    requires |ns| >= 1
  {
    Join(seq(|ns|, k requires 0 <= k < |ns| => ShowNat(ns[k])), '.')
  }

  /** Rendering a version array whose components are safe integers and
      parsing it back yields the same array; in particular every such
      rendering is well formed. */
  lemma FormatThenParse(ns: seq<nat>)
    requires |ns| >= 1
    requires forall k :: 0 <= k < |ns| ==> ns[k] <= MaxSafeInteger
    ensures WellFormedVersion(FormatVersion(ns))
    ensures ParseVersionArray(FormatVersion(ns)) == ns
  {
    var parts := seq(|ns|, k requires 0 <= k < |ns| => ShowNat(ns[k]));
    forall k | 0 <= k < |parts|
      ensures '.' !in parts[k]
    {
      assert IsDigits(parts[k]);
    }
    SplitJoin(parts, '.');
    forall k | 0 <= k < |ns|
      ensures DigitsValue(parts[k]) == ns[k]
    {
      DigitsValueShowNat(ns[k]);
    }
  }

  /** The default project version `"1.0.0"` parses to `[1, 0, 0]`. */
  lemma DefaultVersionParses()
    ensures WellFormedVersion("1.0.0")
    ensures ParseVersionArray("1.0.0") == [1, 0, 0]
  {
    var ns: seq<nat> := [1, 0, 0];
    assert ShowNat(1) == "1" && ShowNat(0) == "0";
    var parts := seq(|ns|, k requires 0 <= k < |ns| => ShowNat(ns[k]));
    assert parts == ["1", "0", "0"];
    assert Join(parts, '.') == "1.0.0" by {
      assert parts[1..] == ["0", "0"];
      assert parts[1..][1..] == ["0"];
      assert Join(["0"], '.') == "0";
      assert Join(["0", "0"], '.') == "0" + ['.'] + "0";
      assert Join(parts, '.') == "1" + ['.'] + ("0" + ['.'] + "0");
    }
    FormatThenParse(ns);
  }
}
