/** The dependency entries of a behaviour-pack manifest and the header of a
    resource-pack manifest. */
module Manifest {
  import opened Values

  /** One element of a manifest's `dependencies` array. A script package is
      referenced by `module_name`; the project's own resource pack by `uuid`. */
  datatype DepEntry = DepEntry(moduleName: Option<string>, uuid: Option<string>, version: Value)

  /** `{uuid: resuuid, version: versionArray}` */
  function ResourcePackEntry(resuuid: string, versionArray: seq<int>): DepEntry
  {
    DepEntry(None, Some(resuuid), Nums(versionArray))
  }

  /** `{module_name: name, version: version}` */
  function ModuleEntry(name: string, version: Value): DepEntry
  {
    DepEntry(Some(name), None, version)
  }

  /** The part of a manifest `header` the resolver decides. */
  datatype Header = Header(uuid: string, version: seq<int>)
}
