/** JSON-like values shared by the two generated descriptors and the remote
    version catalogs. */
module Values {

  /** A field that a JSON object may or may not carry. */
  datatype Option<+T> = None | Some(value: T)

  /** A version as it sits in a descriptor: a string taken from a catalog or
      from a manual choice, the project's numeric version array (only the
      resource-pack dependency entry carries one), or JavaScript's `undefined`,
      which is what reading a catalog yields for a name it does not list. */
  datatype Value = Undefined | Str(s: string) | Nums(ns: seq<int>)

  /** The two remote catalogs, both keyed by package name: `versions` holds
      the version written into the content manifest, `npmVersions` the one
      written into the package descriptor. */
  datatype Catalog = Catalog(versions: map<string, string>, npmVersions: map<string, string>)

  /** Property access on a plain object used as a map. */
  function Lookup(m: map<string, string>, k: string): (r: Value)
    ensures k in m ==> r == Str(m[k])
    ensures r.Undefined? <==> k !in m
  {
    if k in m then Str(m[k]) else Undefined
  }
}
