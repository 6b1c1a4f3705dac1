/**
 * Marker injection into assembly definitions: every assembly definition found
 * under the resolver's folder, except the resolver's own, gets the marker in
 * its `defineConstraints` list (created empty when the key is absent), and its
 * file is rewritten whether or not the list changed.
 */
module Constraints {
  import opened Wrappers
  import opened Editor

  /** The resolver's fixed names: its own assembly, and the "dependencies loaded" marker. */
  datatype Settings = Settings(assemblyName: string, marker: string)

  /**
   * The `defineConstraints` list after one visit: the existing list (empty when
   * the key is absent) keeps its elements and their order, and the marker is
   * appended, once, exactly when no element already equals it.
   */
  function WithMarker(constraints: Option<seq<string>>, marker: string): (r: seq<string>)
    ensures var l := constraints.GetOr([]); |l| <= |r| <= |l| + 1 && r[..|l|] == l
    ensures marker in r
    ensures |r| == |constraints.GetOr([])| + 1 <==> marker !in constraints.GetOr([])
  {
    var l := constraints.GetOr([]);
    if marker in l then l else l + [marker]
  }

  /** A second visit finds the marker and leaves the list as the first visit left it. */
  lemma WithMarkerIdempotent(constraints: Option<seq<string>>, marker: string)
    ensures WithMarker(Some(WithMarker(constraints, marker)), marker) == WithMarker(constraints, marker)
  {
  }

  /** The descriptor AddConstraint leaves behind. */
  function Constrained(d: AssemblyDefinition, s: Settings): (r: AssemblyDefinition)
    ensures r.name == d.name
    ensures d.name == s.assemblyName ==> r == d
    ensures d.name != s.assemblyName ==>
      r.defineConstraints.Some? && s.marker in r.defineConstraints.value &&
      r.defineConstraints.value == WithMarker(d.defineConstraints, s.marker)
  {
    if d.name == s.assemblyName then d
    else d.(defineConstraints := Some(WithMarker(d.defineConstraints, s.marker)))
  }

  lemma ConstrainedIdempotent(d: AssemblyDefinition, s: Settings)
    ensures Constrained(Constrained(d, s), s) == Constrained(d, s)
  {
  }

  /** Every path the asset search returned names an asset. */
  ghost predicate Found(assets: map<string, AssemblyDefinition>, paths: seq<string>) {
    forall p :: p in paths ==> p in assets
  }

  /** The assembly definitions on disk after AddConstraints visits `paths` in order. */
  function Inject(assets: map<string, AssemblyDefinition>, paths: seq<string>, s: Settings)
    : (r: map<string, AssemblyDefinition>)
    requires Found(assets, paths)
    ensures r.Keys == assets.Keys
    decreases |paths|
  {
    if paths == [] then assets
    else
      var p := paths[0];
      Inject(assets[p := Constrained(assets[p], s)], paths[1..], s)
  }

  /** The file write one visit performs: none for the resolver's own assembly, otherwise exactly one. */
  function VisitWrites(assets: map<string, AssemblyDefinition>, p: string, s: Settings): (ws: seq<Effect>)
    requires p in assets
  {
    if assets[p].name == s.assemblyName then [] else [FileWritten(p, Constrained(assets[p], s))]
  }

  /** The file writes AddConstraints performs while visiting `paths` in order. */
  function InjectWrites(assets: map<string, AssemblyDefinition>, paths: seq<string>, s: Settings)
    : (ws: seq<Effect>)
    requires Found(assets, paths)
    ensures |ws| <= |paths|
    ensures forall i :: 0 <= i < |ws| ==>
      ws[i].FileWritten? && ws[i].path in paths && ws[i].content.name != s.assemblyName
    decreases |paths|
  {
    if paths == [] then []
    else
      var p := paths[0];
      VisitWrites(assets, p, s) + InjectWrites(assets[p := Constrained(assets[p], s)], paths[1..], s)
  }

  /** One step of a pass: visiting the first path, then the rest from the state it leaves. */
  lemma InjectStep(assets: map<string, AssemblyDefinition>, paths: seq<string>, s: Settings)
    requires Found(assets, paths) && paths != []
    ensures var p := paths[0];
      var next := assets[p := Constrained(assets[p], s)];
      Found(next, paths[1..]) &&
      Inject(assets, paths, s) == Inject(next, paths[1..], s) &&
      InjectWrites(assets, paths, s) == VisitWrites(assets, p, s) + InjectWrites(next, paths[1..], s)
  {
  }

  /** A pass that still has `paths` to visit keeps its destination after one more visit. */
  lemma PassStep(assets: map<string, AssemblyDefinition>, paths: seq<string>, s: Settings,
                 log: seq<Effect>, target: map<string, AssemblyDefinition>, targetLog: seq<Effect>)
    requires Found(assets, paths) && paths != []
    requires Inject(assets, paths, s) == target
    requires log + InjectWrites(assets, paths, s) == targetLog
    ensures var next := assets[paths[0] := Constrained(assets[paths[0]], s)];
      Found(next, paths[1..]) && Inject(next, paths[1..], s) == target &&
      (log + VisitWrites(assets, paths[0], s)) + InjectWrites(next, paths[1..], s) == targetLog
  {
    InjectStep(assets, paths, s);
  }

  /** The visited paths whose assembly is not the resolver's own, in visiting order. */
  function NonSelf(assets: map<string, AssemblyDefinition>, paths: seq<string>, s: Settings)
    : (ns: seq<string>)
    requires Found(assets, paths)
    ensures forall q :: q in ns ==> q in paths
  {
    if paths == [] then []
    else
      (if assets[paths[0]].name == s.assemblyName then [] else [paths[0]])
        + NonSelf(assets, paths[1..], s)
  }

  /** NonSelf looks only at asset names. */
  lemma {:induction false} NonSelfByName(a: map<string, AssemblyDefinition>, b: map<string, AssemblyDefinition>,
                                         paths: seq<string>, s: Settings)
    requires Found(a, paths) && Found(b, paths)
    requires forall p :: p in paths ==> a[p].name == b[p].name
    ensures NonSelf(a, paths, s) == NonSelf(b, paths, s)
  {
    if paths != [] {
      NonSelfByName(a, b, paths[1..], s);
    }
  }

  /**
   * What a pass does to one asset: a visited asset ends as one visit leaves it
   * (the resolver's own unchanged, every other one holding the marker), an
   * asset that was not visited is unchanged.
   */
  lemma {:induction false} InjectAt(assets: map<string, AssemblyDefinition>, paths: seq<string>,
                                    s: Settings, q: string)
    requires Found(assets, paths) && q in assets
    ensures Inject(assets, paths, s)[q] == if q in paths then Constrained(assets[q], s) else assets[q]
    decreases |paths|
  {
    if paths != [] {
      var p := paths[0];
      var next := assets[p := Constrained(assets[p], s)];
      InjectAt(next, paths[1..], s, q);
      if q == p {
        ConstrainedIdempotent(assets[q], s);
      }
    }
  }

  /** After a pass, every visited assembly but the resolver's own lists the marker, and the resolver's own is untouched. */
  lemma {:induction false} InjectMarksEveryFound(assets: map<string, AssemblyDefinition>, paths: seq<string>, s: Settings)
    requires Found(assets, paths)
    ensures forall q :: q in paths && assets[q].name != s.assemblyName ==>
      Inject(assets, paths, s)[q].defineConstraints.Some? &&
      s.marker in Inject(assets, paths, s)[q].defineConstraints.value
    ensures forall q :: q in assets && assets[q].name == s.assemblyName ==> Inject(assets, paths, s)[q] == assets[q]
    ensures forall q :: q in assets && q !in paths ==> Inject(assets, paths, s)[q] == assets[q]
  {
    forall q | q in assets {
      InjectAt(assets, paths, s, q);
    }
  }

  /** Running AddConstraints a second time leaves every assembly definition as the first run left it. */
  lemma InjectIdempotent(assets: map<string, AssemblyDefinition>, paths: seq<string>, s: Settings)
    requires Found(assets, paths)
    ensures Inject(Inject(assets, paths, s), paths, s) == Inject(assets, paths, s)
  {
    var once := Inject(assets, paths, s);
    forall q | q in assets
      ensures Inject(once, paths, s)[q] == once[q]
    {
      InjectAt(assets, paths, s, q);
      InjectAt(once, paths, s, q);
      ConstrainedIdempotent(assets[q], s);
    }
  }

  /**
   * A pass writes exactly one file per visited path whose assembly is not the
   * resolver's own, in visiting order, whether or not the marker was already
   * there, and each write holds that file's final content.
   */
  lemma {:induction false} InjectWritesAt(assets: map<string, AssemblyDefinition>, paths: seq<string>, s: Settings)
    requires Found(assets, paths)
    ensures var ws, ns := InjectWrites(assets, paths, s), NonSelf(assets, paths, s);
      |ws| == |ns| &&
      forall i :: 0 <= i < |ws| ==> ws[i] == FileWritten(ns[i], Inject(assets, paths, s)[ns[i]])
    decreases |paths|
  {
    if paths != [] {
      var p := paths[0];
      var next := assets[p := Constrained(assets[p], s)];
      InjectWritesAt(next, paths[1..], s);
      NonSelfByName(assets, next, paths[1..], s);
      InjectAt(assets, paths, s, p);
    }
  }

  /** The second pass rewrites every file it touches with the content it already holds. */
  lemma SecondPassRewritesSame(assets: map<string, AssemblyDefinition>, paths: seq<string>, s: Settings)
    requires Found(assets, paths)
    ensures var once := Inject(assets, paths, s);
      forall w :: w in InjectWrites(once, paths, s) ==> w.path in once && once[w.path] == w.content
  {
    var once := Inject(assets, paths, s);
    InjectIdempotent(assets, paths, s);
    InjectWritesAt(once, paths, s);
  }
}
