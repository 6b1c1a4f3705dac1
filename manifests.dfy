/**
 * The resolver's own package.json, already parsed: the package `name` and the
 * `gitDependencies` object, whose properties (dependency name to git url) are
 * kept in the order the JSON object enumerates them.
 */
module Manifests {

  /** One property of `gitDependencies`: its key is the package name, its value the git url. */
  datatype Dependency = Dependency(name: string, url: string)

  datatype Manifest = Manifest(name: string, gitDependencies: seq<Dependency>)

  /** JSON object keys are unique. */
  ghost predicate UniqueNames(deps: seq<Dependency>) {
    forall i, j :: 0 <= i < j < |deps| ==> deps[i].name != deps[j].name
  }

  /** GetGitsName: the property names of `gitDependencies`, in manifest order. */
  function GitsName(deps: seq<Dependency>): (names: seq<string>)
    ensures |names| == |deps|
    ensures forall i :: 0 <= i < |deps| ==> names[i] == deps[i].name
  {
    if deps == [] then [] else [deps[0].name] + GitsName(deps[1..])
  }

  /** GetGitsUrl: the property values of `gitDependencies`, in manifest order. */
  function GitsUrl(deps: seq<Dependency>): (urls: seq<string>)
    ensures |urls| == |deps|
    ensures forall i :: 0 <= i < |deps| ==> urls[i] == deps[i].url
  {
    if deps == [] then [] else [deps[0].url] + GitsUrl(deps[1..])
  }

  /** Rebuilds a dependency list from a list of names and a list of urls of the same length. */
  function Pair(names: seq<string>, urls: seq<string>): (deps: seq<Dependency>)
    requires |names| == |urls|
    ensures |deps| == |names|
  {
    if names == [] then [] else [Dependency(names[0], urls[0])] + Pair(names[1..], urls[1..])
  }

  /**
   * The two projections lose nothing and stay aligned: the i-th name and the
   * i-th url come from the same `gitDependencies` entry.
   */
  lemma {:induction false} PairGits(deps: seq<Dependency>)
    ensures Pair(GitsName(deps), GitsUrl(deps)) == deps
  {
    if deps != [] {
      PairGits(deps[1..]);
      assert GitsName(deps)[1..] == GitsName(deps[1..]);
      assert GitsUrl(deps)[1..] == GitsUrl(deps[1..]);
    }
  }

  /** The names handed to the package manager for removal carry no duplicate. */
  lemma GitsNameDistinct(deps: seq<Dependency>)
    requires UniqueNames(deps)
    ensures forall i, j :: 0 <= i < j < |deps| ==> GitsName(deps)[i] != GitsName(deps)[j]
  {
  }
}
