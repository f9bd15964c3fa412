/**
 * The values of `golang.org/x/mod` that the core passes around.  The
 * go.mod parser itself (`modfile.Parse`) is not part of this model: its
 * result is an input, see `GoProxy.ModBody`.
 */
module Mod {
  import opened Wrappers

  /** `module.Version`: a module path and a (possibly empty) version. */
  datatype ModuleVersion = ModuleVersion(path: string, version: string)

  /** One `require` line of a go.mod file. */
  datatype Require = Require(mod: ModuleVersion, indirect: bool)

  /**
   * `modfile.File`, reduced to its `module` directive (absent when the
   * file has none) and its `require` lines in file order.
   */
  datatype ModFile = ModFile(moduleDirective: Option<ModuleVersion>, require: seq<Require>)
}
