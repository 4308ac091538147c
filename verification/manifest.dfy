/** The fields of a `package.json` manifest that the launcher decodes. */
module Manifest {
  import opened Wrappers

  /** The `engines` object: the version constraints for `node` and `npm`. */
  datatype Engines = Engines(node: Option<string>, npm: Option<string>)

  /** A manifest, reduced to its optional `engines` object; all other fields are ignored. */
  datatype PackageJson = PackageJson(engines: Option<Engines>)
}
