/**
 * The static PackageResolver class: the lazily loaded package.json, the
 * entry points that add or remove the git dependencies, the marker injection
 * passes, and the two lifecycle hooks (start-up and package removal).
 */
module Resolver {
  import opened Wrappers
  import opened Manifests
  import opened Editor
  import opened Constraints
  import opened Symbols

  /** One entry of a package-registration event's `removed` list. */
  datatype PackageInfo = PackageInfo(name: string)

  /** How an entry point ended: normally, or on the null package.json asset (a NullReferenceException). */
  datatype Outcome = Done | MissingPackageFile

  /** AddDependencies' request: every git url, nothing to remove. */
  function AddRequest(m: Manifest): Request {
    Request(GitsUrl(m.gitDependencies), [])
  }

  /** RemoveDependencies' request: every git dependency name, nothing to add. */
  function RemoveRequest(m: Manifest): Request {
    Request([], GitsName(m.gitDependencies))
  }

  /** The effects OnRegistering has for a `removed` list, given the manifest: one removal request per matching entry. */
  function RemovalRequests(removed: seq<PackageInfo>, m: Manifest): (rs: seq<Effect>)
    ensures |rs| <= |removed|
    ensures forall k :: 0 <= k < |rs| ==> rs[k] == PackagesRequested(RemoveRequest(m))
  {
    if removed == [] then []
    else
      var last := removed[|removed| - 1];
      RemovalRequests(removed[..|removed| - 1], m)
        + (if last.name == m.name then [PackagesRequested(RemoveRequest(m))] else [])
  }

  /** One more entry of the event: its own request, if it is named like the manifest, after the earlier ones. */
  lemma RemovalRequestsStep(removed: seq<PackageInfo>, i: nat, m: Manifest)
    requires i < |removed|
    ensures RemovalRequests(removed[..i + 1], m) == RemovalRequests(removed[..i], m)
      + (if removed[i].name == m.name then [PackagesRequested(RemoveRequest(m))] else [])
  {
    assert removed[..i + 1][..i] == removed[..i];
  }

  function RemovedNames(removed: seq<PackageInfo>): (names: seq<string>)
    ensures |names| == |removed|
  {
    seq(|removed|, k requires 0 <= k < |removed| => removed[k].name)
  }

  /** OnRegistering issues exactly as many removal requests as there are removed entries named like the manifest. */
  lemma {:induction false} RemovalRequestsCount(removed: seq<PackageInfo>, m: Manifest)
    ensures |RemovalRequests(removed, m)| == multiset(RemovedNames(removed))[m.name]
  {
    if removed != [] {
      var init := removed[..|removed| - 1];
      RemovalRequestsCount(init, m);
      assert RemovedNames(removed) == RemovedNames(init) + [removed[|removed| - 1].name];
    }
  }

  /** A removal event with no entry named like the manifest issues no request. */
  lemma {:induction false} RemovalRequestsNone(removed: seq<PackageInfo>, m: Manifest)
    requires forall k :: 0 <= k < |removed| ==> removed[k].name != m.name
    ensures RemovalRequests(removed, m) == []
  {
    RemovalRequestsCount(removed, m);
    assert m.name !in multiset(RemovedNames(removed));
  }

  /** Two removal events in a row issue what one event listing both batches would. */
  lemma {:induction false} RemovalRequestsConcat(a: seq<PackageInfo>, b: seq<PackageInfo>, m: Manifest)
    ensures RemovalRequests(a + b, m) == RemovalRequests(a, m) + RemovalRequests(b, m)
    decreases |b|
  {
    if b != [] {
      var init := b[..|b| - 1];
      assert (a + b)[..|a + b| - 1] == a + init;
      RemovalRequestsConcat(a, init, m);
    } else {
      assert a + b == a;
    }
  }

  class PackageResolver {
    /** The values of PackageResolverSettings the resolver uses. */
    const settings: Settings
    const host: Host
    /** The cached package.json (the static `packageFile` field); None stands for null. */
    var packageFile: Option<Manifest>

    constructor (settings: Settings, host: Host)
      ensures this.settings == settings && this.host == host && packageFile == None
    {
      this.settings := settings;
      this.host := host;
      packageFile := None;
    }

    /** What the PackageFile getter returns in the current state: the cache, or else a fresh load. */
    ghost function Current(): Option<Manifest>
      reads this, host
    {
      if packageFile.Some? then packageFile else host.packageAsset
    }

    /** Loads `<folder>/package.json` into the cache, replacing whatever it held. */
    method ReloadPackageFile()
      modifies this`packageFile
      ensures packageFile == host.packageAsset
    {
      packageFile := host.packageAsset;
    }

    /** The PackageFile getter: loads on first use (or while the asset stays missing), then serves the cache. */
    method GetPackageFile() returns (m: Option<Manifest>)
      modifies this`packageFile
      ensures m == old(Current()) && packageFile == m
      ensures old(packageFile).Some? ==> packageFile == old(packageFile)
    {
      if packageFile.None? {
        ReloadPackageFile();
      }
      m := packageFile;
    }

    /** GetPackagesName: the manifest's `name`, or the missing-asset failure. */
    method GetPackagesName() returns (name: Option<string>)
      modifies this`packageFile
      ensures packageFile == old(Current())
      ensures name == if packageFile.Some? then Some(packageFile.value.name) else None
    {
      var m := GetPackageFile();
      if m.None? {
        return None;
      }
      name := Some(m.value.name);
    }

    /** AddDependencies: one package manager request adding every git url of the manifest. */
    method AddDependencies() returns (outcome: Outcome)
      modifies this`packageFile, host`log
      ensures packageFile == old(Current())
      ensures outcome == MissingPackageFile <==> packageFile.None?
      ensures host.log == old(host.log) + if packageFile.Some? then [PackagesRequested(AddRequest(packageFile.value))] else []
    {
      var m := GetPackageFile();
      if m.None? {
        return MissingPackageFile;
      }
      var urls := GitsUrl(m.value.gitDependencies);
      host.AddAndRemove(urls, []);
      outcome := Done;
    }

    /** RemoveDependencies: one package manager request removing every git dependency name of the manifest. */
    method RemoveDependencies() returns (outcome: Outcome)
      modifies this`packageFile, host`log
      ensures packageFile == old(Current())
      ensures outcome == MissingPackageFile <==> packageFile.None?
      ensures host.log == old(host.log) + if packageFile.Some? then [PackagesRequested(RemoveRequest(packageFile.value))] else []
    {
      var m := GetPackageFile();
      if m.None? {
        return MissingPackageFile;
      }
      var names := GitsName(m.value.gitDependencies);
      host.AddAndRemove([], names);
      outcome := Done;
    }

    /**
     * DefineConstraint: reads the active target's define symbols, appends
     * `;` and the marker unless the marker occurs in them as a substring, and
     * writes the symbols back in both cases.
     */
    method DefineConstraint()
      modifies host`symbols, host`log
      ensures host.symbols == Published(old(host.symbols), settings.marker)
      ensures host.log == old(host.log) + [DefineSymbolsSet(host.symbols)]
    {
      var defines := host.symbols;
      if !Contains(defines, settings.marker) {
        defines := defines + ";" + settings.marker;
      }
      host.SetScriptingDefineSymbols(defines);
    }

    /**
     * AddConstraint: the resolver's own assembly is left alone and not
     * written; any other gets a `defineConstraints` list (created empty when
     * absent) holding the marker, and its file is written even when the
     * marker was already there.
     */
    method AddConstraint(path: string)
      requires path in host.assets
      modifies host`assets, host`log
      ensures host.assets == old(host.assets)[path := Constrained(old(host.assets)[path], settings)]
      ensures host.log == old(host.log) + VisitWrites(old(host.assets), path, settings)
    {
      var asset := host.assets[path];
      if asset.name == settings.assemblyName {
        return;
      }
      var defineConstraints := if asset.defineConstraints.Some? then asset.defineConstraints.value else [];
      if settings.marker !in defineConstraints {
        defineConstraints := defineConstraints + [settings.marker];
      }
      host.WriteAllText(path, asset.(defineConstraints := Some(defineConstraints)));
    }

    /** AddConstraints: AddConstraint on every assembly definition the asset search finds, in its order. */
    method AddConstraints()
      requires host.Valid()
      modifies host`assets, host`log
      ensures host.assets == Inject(old(host.assets), host.assemblyPaths, settings)
      ensures host.log == old(host.log) + InjectWrites(old(host.assets), host.assemblyPaths, settings)
    {
      ghost var target, targetLog := Inject(host.assets, host.assemblyPaths, settings),
        old(host.log) + InjectWrites(host.assets, host.assemblyPaths, settings);
      var rest := host.assemblyPaths;
      while rest != []
        invariant Found(host.assets, rest)
        invariant Inject(host.assets, rest, settings) == target
        invariant host.log + InjectWrites(host.assets, rest, settings) == targetLog
        decreases |rest|
      {
        var path := rest[0];
        PassStep(host.assets, rest, settings, host.log, target, targetLog);
        AddConstraint(path);
        rest := rest[1..];
      }
    }

    /** OnRegistering: for each removed package named like the manifest, RemoveDependencies once. */
    method OnRegistering(removed: seq<PackageInfo>) returns (outcome: Outcome)
      modifies this`packageFile, host`log
      ensures removed == [] ==> outcome == Done && packageFile == old(packageFile) && host.log == old(host.log)
      ensures removed != [] ==> packageFile == old(Current())
      ensures removed != [] ==> (outcome == MissingPackageFile <==> packageFile.None?)
      ensures removed != [] && packageFile.None? ==> host.log == old(host.log)
      ensures removed != [] && packageFile.Some? ==>
        host.log == old(host.log) + RemovalRequests(removed, packageFile.value)
    {
      outcome := Done;
      var i := 0;
      while i < |removed|
        invariant 0 <= i <= |removed|
        invariant i == 0 ==> packageFile == old(packageFile) && host.log == old(host.log)
        invariant i > 0 ==>
          (packageFile == old(Current()) && packageFile.Some? &&
           host.log == old(host.log) + RemovalRequests(removed[..i], packageFile.value))
      {
        var targeted := GetPackagesName();
        if targeted.None? {
          return MissingPackageFile;
        }
        RemovalRequestsStep(removed, i, packageFile.value);
        if targeted.value == removed[i].name {
          var _ := RemoveDependencies();
        }
        i := i + 1;
      }
      assert removed[..i] == removed;
    }

    /** OnLoad: AddConstraints, then AddDependencies, then DefineConstraint. */
    method OnLoad() returns (outcome: Outcome)
      requires host.Valid()
      modifies this`packageFile, host`assets, host`symbols, host`log
      ensures packageFile == old(Current())
      ensures outcome == MissingPackageFile <==> packageFile.None?
      ensures host.assets == Inject(old(host.assets), host.assemblyPaths, settings)
      ensures packageFile.None? ==>
        host.log == old(host.log) + InjectWrites(old(host.assets), host.assemblyPaths, settings) &&
        host.symbols == old(host.symbols)
      ensures packageFile.Some? ==>
        host.symbols == Published(old(host.symbols), settings.marker) &&
        host.log == old(host.log) + InjectWrites(old(host.assets), host.assemblyPaths, settings)
                    + [PackagesRequested(AddRequest(packageFile.value)), DefineSymbolsSet(host.symbols)]
    {
      AddConstraints();
      outcome := AddDependencies();
      if outcome == MissingPackageFile {
        return;
      }
      DefineConstraint();
    }
  }
}
