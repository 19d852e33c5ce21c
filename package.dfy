/**
 * Package metadata: an immutable record of a distribution's name, version
 * and the raw constraint tuples it depends on or conflicts with.
 */
module Packages {
  import opened Kinds
  import opened Requirements

  /**
   * `PackageMetadata`. `installRequires` and `conflicts` hold the nested
   * `(name, ((constraint, ...),))` tuples that `Requirement.from_constraints`
   * reads.
   */
  datatype Package = Package(name: string, version: Version, installRequires: seq<Value>, conflicts: seq<Value>)
}
