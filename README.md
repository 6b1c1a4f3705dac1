# PackageResolver, modelled in Dafny

`PackageResolver` is a Unity editor script. It installs a package's git dependencies and keeps them in step with the package. It also keeps a "dependencies loaded" marker in two places:

- in the `defineConstraints` list of every assembly definition in the package, so that those assemblies do not compile until the dependencies are there;
- in the active build target's scripting define symbols.

This project models the reconciliation logic under the Unity calls. The editor is reduced to plain data (the `Editor.Host` class):

- the assembly definition files, keyed by asset path;
- the list of paths the asset search returns;
- the `package.json` asset, which may be missing;
- the define-symbol string;
- one ordered log of every visible effect: file writes, package manager requests and define-symbol writes.

Because all effects go into one log, the order of the start-up steps can be stated in a single postcondition.

Modules:

- `Wrappers`: `Option`.
- `Manifests`: the parsed `package.json` (`name`, and `gitDependencies` as an ordered list of name/url properties), and the two projections of that list.
- `Editor`: assembly definitions, package manager requests, effects, and the `Host` class with the three editor calls the resolver makes.
- `Constraints`: marker injection. `WithMarker` and `Constrained` describe one visit. `Inject` and `InjectWrites` describe a whole pass. The lemmas cover each asset's result, idempotence, and which files are written.
- `Symbols`: publishing the marker into the define-symbol string. The presence test is a substring test. `Split` gives the `;`-separated entries, and the lemmas relate the two views.
- `Resolver`: the `PackageResolver` class. It holds the lazy `packageFile` cache and the entry points `AddConstraint(s)`, `DefineConstraint`, `Add/RemoveDependencies`, `OnRegistering` and `OnLoad`. The module also has `RemovalRequests`, the request list a removal event produces, with lemmas on its count.

Four behaviours of the code are easy to misread. The model follows the code in each:

- `AddConstraint` writes the assembly definition file every time it visits a non-resolver assembly, even when the marker is already there (PackageResolver.cs:104). A second pass therefore writes again. `Constraints.SecondPassRewritesSame` proves that those writes carry the content the files already hold, and `Constraints.InjectIdempotent` proves that the second pass changes nothing.
- `DefineConstraint` writes the symbols back even when they are unchanged (PackageResolver.cs:66).
- The symbol test is `string.Contains` on the whole `;`-joined string (PackageResolver.cs:64). It is not membership in the list of entries. A present entry is never duplicated (`Symbols.PublishedKeepsEntry`). But a longer symbol that merely contains the marker also stops the append (`Symbols.PrefixedSymbolSuppressesMarker`).
- A missing `package.json` asset leaves the cache null, and the next use throws. The model represents this as the `MissingPackageFile` outcome. In that case no request is issued. In `OnLoad`, the exception raised in `AddDependencies` also means `DefineConstraint` never runs.

## Model

| member | source | states |
|---|---|---|
| `Manifests.GitsName` | PackageResolver.cs:142-146 | one name per `gitDependencies` property, in manifest order; the i-th name is the i-th property's key |
| `Manifests.GitsUrl` | PackageResolver.cs:148-152 | one url per `gitDependencies` property, in manifest order; the i-th url is the i-th property's value |
| `Manifests.PairGits` | PackageResolver.cs:142-158 | pairing the names with the urls rebuilds `gitDependencies` exactly: both projections have its length, and the i-th name and i-th url come from the same entry |
| `Manifests.GitsNameDistinct` | PackageResolver.cs:142-146 | with unique JSON keys, the names passed for removal contain no duplicate |
| `Editor.Host.WriteAllText` | PackageResolver.cs:104 | the file at the path now holds the new content; one `FileWritten` effect is appended |
| `Editor.Host.AddAndRemove` | PackageResolver.cs:134 | exactly one request with the given add- and remove-lists is appended to the log |
| `Editor.Host.SetScriptingDefineSymbols` | PackageResolver.cs:66 | the active target's symbols become the given string; one `DefineSymbolsSet` effect is appended |
| `Constraints.WithMarker` | PackageResolver.cs:93-101 | the resulting list starts with the old list (empty if the key was absent) and keeps its order; it contains the marker; it is one longer exactly when no element already equalled the marker |
| `Constraints.WithMarkerIdempotent` | PackageResolver.cs:96-101 | a second visit leaves the list as the first visit left it |
| `Constraints.Constrained` | PackageResolver.cs:86-101 | the name is kept; the resolver's own assembly is returned unchanged; any other assembly ends with a `defineConstraints` list that exists and holds the marker |
| `Constraints.ConstrainedIdempotent` | PackageResolver.cs:86-101 | visiting one assembly twice equals visiting it once |
| `Constraints.Inject` | PackageResolver.cs:77-80 | a pass creates and deletes no assembly definition (same set of paths) |
| `Constraints.InjectWrites` | PackageResolver.cs:77-104 | a pass performs at most one write per visited path; each write is to a visited path and never to the resolver's own assembly |
| `Constraints.InjectAt` | PackageResolver.cs:77-104 | after a pass, a visited asset is what one visit makes of it and an unvisited asset is unchanged |
| `Constraints.InjectMarksEveryFound` | PackageResolver.cs:77-101 | after a pass every visited assembly except the resolver's own has a `defineConstraints` list holding the marker; the resolver's own assembly and unvisited assets are unchanged |
| `Constraints.InjectIdempotent` | PackageResolver.cs:70-104 | running the pass a second time leaves every assembly definition as the first pass left it |
| `Constraints.InjectWritesAt` | PackageResolver.cs:77-104 | the writes of a pass are exactly one per visited path whose assembly is not the resolver's own, in visiting order, whether or not the marker was already present, each holding that file's final content |
| `Constraints.SecondPassRewritesSame` | PackageResolver.cs:104 | every write of a second pass stores the content the file already holds |
| `Symbols.Published` | PackageResolver.cs:62-66 | the written symbols start with the old string and contain the marker; unchanged when the marker already occurred as a substring, otherwise exactly `;` plus the marker longer |
| `Symbols.PublishedIdempotent` | PackageResolver.cs:64-66 | publishing twice gives what publishing once gives |
| `Symbols.SplitConcat` | PackageResolver.cs:65 | joining with `;` concatenates the entry lists |
| `Symbols.EntryOccurs` | PackageResolver.cs:64 | any `;`-separated entry occurs as a substring of the symbol string |
| `Symbols.PublishedEntries` | PackageResolver.cs:64-65 | when the marker (which has no `;`) is appended, the entry list gains exactly the marker at its end, so an empty string becomes the entries `""` and the marker |
| `Symbols.PublishedKeepsEntry` | PackageResolver.cs:64 | when the marker is already an entry, the symbol string is written back unchanged (no duplicate marker) |
| `Symbols.PrefixedSymbolSuppressesMarker` | PackageResolver.cs:64 | for the symbols `marker + "X"`, nothing is appended, although the marker is not one of their entries |
| `Resolver.RemovalRequests` | PackageResolver.cs:106-115 | a removal event yields no more requests than it has entries, and each is the request removing every git dependency name |
| `Resolver.RemovalRequestsCount` | PackageResolver.cs:106-115 | the number of removal requests equals the number of removed entries whose name equals the manifest `name` |
| `Resolver.RemovalRequestsNone` | PackageResolver.cs:106-115 | an event with no entry named like the manifest issues no request |
| `Resolver.RemovalRequestsConcat` | PackageResolver.cs:106-115 | two events in a row issue the same requests as one event listing both batches |
| `Resolver.PackageResolver.ReloadPackageFile` | PackageResolver.cs:41-46 | the cache now holds what loading `package.json` returns (nothing when the asset is missing) |
| `Resolver.PackageResolver.GetPackageFile` | PackageResolver.cs:16-27 | a filled cache is returned untouched; an empty one is loaded first; the returned value is then what the cache holds |
| `Resolver.PackageResolver.GetPackagesName` | PackageResolver.cs:125-129 | returns the manifest `name` from the (possibly freshly loaded) package file, or fails when the asset is missing |
| `Resolver.PackageResolver.AddDependencies` | PackageResolver.cs:136-141 | exactly one request is appended: every git url in manifest order to add, nothing to remove; no request and a failure when the package file is missing |
| `Resolver.PackageResolver.RemoveDependencies` | PackageResolver.cs:130-135 | exactly one request is appended: every git dependency name in manifest order to remove, nothing to add; no request and a failure when the package file is missing |
| `Resolver.PackageResolver.DefineConstraint` | PackageResolver.cs:57-69 | the active symbols become `Published(old symbols, marker)` and are written back once, changed or not |
| `Resolver.PackageResolver.AddConstraint` | PackageResolver.cs:84-105 | the asset becomes `Constrained` of itself; exactly one write for any assembly but the resolver's own, none for that one |
| `Resolver.PackageResolver.AddConstraints` | PackageResolver.cs:70-83 | visits the found paths in enumeration order: the assets become `Inject(old assets, paths)` and the log gains exactly `InjectWrites(old assets, paths)` |
| `Resolver.PackageResolver.OnRegistering` | PackageResolver.cs:106-115 | for a non-empty event, the log gains `RemovalRequests(removed, manifest)`, one removal request per matching entry in order; nothing for an empty event; a failure with no request when the package file is missing |
| `Resolver.PackageResolver.OnLoad` | PackageResolver.cs:48-53 | the log gains the constraint writes, then the add request, then the symbol write, in that order; without a package file it stops after the constraint writes and leaves the symbols alone |

## Left out

- `GetFolderPath` (PackageResolver.cs:116-124) is not modelled. It depends on the asset search and on .NET path semantics. Its two results are inputs of the model: the paths the assembly-definition search returns (`Host.assemblyPaths`) and the loaded `package.json` (`Host.packageAsset`). Its error log when the search does not find exactly one match is left out too.
- `PackageResolverSettings` is not part of this model. Its two constants become the fields of a `Settings` record. The `defineConstraints` key name is implicit in the typed `AssemblyDefinition` record.
- JSON parsing and serialisation are left out. The manifest and the assembly definitions are already-parsed typed records. Several failing casts therefore cannot occur in the model: a `defineConstraints` value that is not an array, a `gitDependencies` value that is not an object, a missing `name`. The model also does not track key order or formatting: a newly created `defineConstraints` key becomes the last JSON property, which the model does not show.
- The elements of `defineConstraints` are modelled as strings. `JValue.ToString()` of a non-string element (a number, say) is not modelled.
- `LoadAssetAtPath` returning null for a path the search returned is excluded by `Host.Valid()`.
- A file write becomes visible to later loads at once, whereas Unity re-imports on `Refresh`. The two differ only if the search returned a path twice, which asset GUIDs rule out.
- `AssetDatabase.SaveAssets` and `AssetDatabase.Refresh` (PackageResolver.cs:81-82) are asset-database I/O with no effect on the modelled state.
- The completion and failure of `Client.AddAndRemove`: it runs asynchronously and the resolver never observes it. Only the request is recorded.
- Event wiring (`AddCallback`, `EditorApplication.delayCall`, `Events.registeringPackages`) and the menu attributes are left out. The entry points are methods the host calls.
- The mapping from build target to target group to named build target (PackageResolver.cs:59-61) is platform API. It is modelled as a single active symbol string.
- `Beep`, `Debug.Log` and `Debug.LogError` have no effect on the state.
- The `PackageFile` setter (PackageResolver.cs:26) is modelled only through `ReloadPackageFile`, its one caller. Unity's overloaded null test on destroyed assets is modelled as an ordinary missing value.
