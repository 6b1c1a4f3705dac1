/**
 * The part of the Unity editor the resolver talks to, reduced to plain data:
 * the assembly definition files it finds and rewrites, the scripting define
 * symbols of the active build target, the package.json asset, and an ordered
 * log of every externally visible effect (file writes, package manager
 * requests, define-symbol writes).
 */
module Editor {
  import opened Wrappers
  import opened Manifests

  /** An assembly definition asset: its asset name and its optional `defineConstraints` list. */
  datatype AssemblyDefinition = AssemblyDefinition(name: string, defineConstraints: Option<seq<string>>)

  /** One `Client.AddAndRemove` call; an argument the caller leaves out is the empty list. */
  datatype Request = Request(packagesToAdd: seq<string>, packagesToRemove: seq<string>)

  datatype Effect =
    | FileWritten(path: string, content: AssemblyDefinition)
    | PackagesRequested(request: Request)
    | DefineSymbolsSet(symbols: string)

  class Host {
    /** Assembly definition files on disk, by asset path. */
    var assets: map<string, AssemblyDefinition>
    /** What the asset search for assembly definitions under the resolver's folder returns, in enumeration order. */
    var assemblyPaths: seq<string>
    /** What loading `<folder>/package.json` returns; None when the asset is missing. */
    var packageAsset: Option<Manifest>
    /** Scripting define symbols of the active named build target. */
    var symbols: string
    /** Every effect, oldest first. */
    var log: seq<Effect>

    /** Every path the asset search returns names an existing asset. */
    ghost predicate Valid()
      reads this
    {
      forall p :: p in assemblyPaths ==> p in assets
    }

    constructor (assets: map<string, AssemblyDefinition>, assemblyPaths: seq<string>,
                 packageAsset: Option<Manifest>, symbols: string)
      ensures this.assets == assets && this.assemblyPaths == assemblyPaths
      ensures this.packageAsset == packageAsset && this.symbols == symbols
      ensures log == []
    {
      this.assets := assets;
      this.assemblyPaths := assemblyPaths;
      this.packageAsset := packageAsset;
      this.symbols := symbols;
      log := [];
    }

    /** File.WriteAllText on an assembly definition: the file now holds `content`. */
    method WriteAllText(path: string, content: AssemblyDefinition)
      modifies this`assets, this`log
      ensures assets == old(assets)[path := content]
      ensures log == old(log) + [FileWritten(path, content)]
    {
      assets := assets[path := content];
      log := log + [FileWritten(path, content)];
    }

    /** Client.AddAndRemove: the request is recorded; its asynchronous outcome is not observed. */
    method AddAndRemove(packagesToAdd: seq<string>, packagesToRemove: seq<string>)
      modifies this`log
      ensures log == old(log) + [PackagesRequested(Request(packagesToAdd, packagesToRemove))]
    {
      log := log + [PackagesRequested(Request(packagesToAdd, packagesToRemove))];
    }

    /** PlayerSettings.SetScriptingDefineSymbols for the active named build target. */
    method SetScriptingDefineSymbols(s: string)
      modifies this`symbols, this`log
      ensures symbols == s
      ensures log == old(log) + [DefineSymbolsSet(s)]
    {
      symbols := s;
      log := log + [DefineSymbolsSet(s)];
    }
  }
}
