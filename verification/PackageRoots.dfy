/**
 The two package-root worklists: project resolution from candidate manifests
 (src/project_resolution.rs:285-336, 516-535) and discovery of path dependencies
 (src/discovery.rs:292-320). Paths and manifests are given by the environment.
 */
module PackageRoots {
  import opened Wrappers
  import opened Text
  import Glob

  type Path = string

  // ----- project resolution

  /**
   What resolution reads: the root of a package relative to the workspace in normal form (absent
   outside it), the candidate manifests by package directory, the exclude patterns, and the path
   dependencies each package declares.
   */
  datatype Workspace = Workspace(
    relative: Path -> Option<Path>,
    manifestDirs: set<Path>,
    excludes: seq<string>,
    pathDependencies: Path -> set<Path>)

  ghost predicate Excluded(excludes: seq<string>, relative: Path)
  {
    exists i :: 0 <= i < |excludes| && Glob.MemberAccepts(excludes[i], ForwardSlashes(relative))
  }

  /** The package an entry names, if resolution admits it. */
  ghost function Admitted(workspace: Workspace, root: Path): Option<Path>
  {
    match workspace.relative(root)
    case None => None
    case Some(relative) =>
      if relative in workspace.manifestDirs && !Excluded(workspace.excludes, relative) then Some(relative) else None
  }

  method AdmittedPackageRoot(workspace: Workspace, root: Path) returns (admitted: Option<Path>)
    ensures admitted == Admitted(workspace, root)
  {
    var relative := workspace.relative(root);
    if relative.None? || relative.value !in workspace.manifestDirs {
      return None;
    }
    var display := ForwardSlashes(relative.value);
    for i := 0 to |workspace.excludes|
      invariant forall k :: 0 <= k < i ==> !Glob.MemberAccepts(workspace.excludes[k], display)
    {
      var matches := Glob.WorkspaceMemberPatternMatches(workspace.excludes[i], display);
      if matches {
        return None;
      }
    }
    return relative;
  }

  /** A set of packages that holds the admitted seeds and every admitted dependency of its members. */
  ghost predicate ClosedUnder(workspace: Workspace, seeds: set<Path>, packages: set<Path>)
  {
    && (forall s :: s in seeds ==> Inside(workspace, s, packages))
    && (forall p, d :: p in packages && d in workspace.pathDependencies(p) ==> Inside(workspace, d, packages))
  }

  ghost predicate Inside(workspace: Workspace, root: Path, packages: set<Path>)
  {
    Admitted(workspace, root).Some? ==> Admitted(workspace, root).value in packages
  }

  ghost predicate InEveryClosedSet(workspace: Workspace, seeds: set<Path>, root: Path)
  {
    forall q: set<Path> :: ClosedUnder(workspace, seeds, q) ==> Inside(workspace, root, q)
  }

  // ----- the chains behind a package

  /** The entry is a package of the workspace with a candidate manifest that no pattern excludes. */
  ghost predicate Admits(workspace: Workspace, root: Path, package: Path)
  {
    && workspace.relative(root) == Some(package) && package in workspace.manifestDirs
    && forall i :: 0 <= i < |workspace.excludes| ==>
         !Glob.MemberAccepts(workspace.excludes[i], ForwardSlashes(package))
  }

  lemma AdmittedExactlyWhen(workspace: Workspace, root: Path, package: Path)
    ensures Admitted(workspace, root) == Some(package) <==> Admits(workspace, root, package)
  {
  }

  ghost predicate SomeAdmits(workspace: Workspace, roots: set<Path>, package: Path)
  {
    exists root :: root in roots && Admits(workspace, root, package)
  }

  /** Packages, the first admitted from a seed and each next one from a dependency of the one before. */
  ghost predicate IsChain(workspace: Workspace, seeds: set<Path>, chain: seq<Path>)
  {
    && |chain| >= 1 && SomeAdmits(workspace, seeds, chain[0])
    && forall i :: 0 < i < |chain| ==> SomeAdmits(workspace, workspace.pathDependencies(chain[i - 1]), chain[i])
  }

  ghost predicate Chained(workspace: Workspace, seeds: set<Path>, package: Path)
  {
    exists chain :: IsChain(workspace, seeds, chain) && chain[|chain| - 1] == package
  }

  /** The entry is a seed or a dependency of a chained package. */
  ghost predicate Wanted(workspace: Workspace, seeds: set<Path>, entry: Path)
  {
    entry in seeds || exists p :: Chained(workspace, seeds, p) && entry in workspace.pathDependencies(p)
  }

  lemma WantedIsChained(workspace: Workspace, seeds: set<Path>, entry: Path)
    requires Wanted(workspace, seeds, entry) && Admitted(workspace, entry).Some?
    ensures Chained(workspace, seeds, Admitted(workspace, entry).value)
  {
    var package := Admitted(workspace, entry).value;
    AdmittedExactlyWhen(workspace, entry, package);
    if entry in seeds {
      assert IsChain(workspace, seeds, [package]);
    } else {
      var p :| Chained(workspace, seeds, p) && entry in workspace.pathDependencies(p);
      var chain :| IsChain(workspace, seeds, chain) && chain[|chain| - 1] == p;
      assert IsChain(workspace, seeds, chain + [package]);
    }
  }

  lemma {:induction false} ChainInside(workspace: Workspace, seeds: set<Path>, packages: set<Path>, chain: seq<Path>)
    requires ClosedUnder(workspace, seeds, packages) && IsChain(workspace, seeds, chain)
    ensures chain[|chain| - 1] in packages
    decreases |chain|
  {
    var last := |chain| - 1;
    var before := if last == 0 then seeds else workspace.pathDependencies(chain[last - 1]);
    if last > 0 {
      assert SomeAdmits(workspace, workspace.pathDependencies(chain[last - 1]), chain[last]);
      ChainInside(workspace, seeds, packages, chain[..last]);
    }
    assert SomeAdmits(workspace, before, chain[last]);
    var root :| root in before && Admits(workspace, root, chain[last]);
    AdmittedExactlyWhen(workspace, root, chain[last]);
    assert Inside(workspace, root, packages);
  }

  datatype Resolution = Resolved(packages: set<Path>) | ProjectEntryInvalid

  /**
   The worklist ends, whatever entry it takes next, with exactly the least closed set. Each turn
   shrinks the manifests not yet admitted or, these unchanged, the pending entries.
   */
  method ResolvePackageRoots(workspace: Workspace, seeds: set<Path>) returns (r: Resolution)
    ensures r.ProjectEntryInvalid? <==> seeds == {}
    ensures r.Resolved? ==> ClosedUnder(workspace, seeds, r.packages)
    ensures r.Resolved? ==> forall q: set<Path> :: ClosedUnder(workspace, seeds, q) ==> r.packages <= q
    ensures r.Resolved? ==> forall p :: p in r.packages <==> Chained(workspace, seeds, p)
  {
    if seeds == {} {
      return ProjectEntryInvalid;
    }
    var packages: set<Path> := {};
    var pending := seeds;
    while pending != {}
      invariant packages <= workspace.manifestDirs
      invariant forall s :: s in seeds ==> s in pending || Inside(workspace, s, packages)
      invariant forall p, d :: p in packages && d in workspace.pathDependencies(p) ==>
                  d in pending || Inside(workspace, d, packages)
      invariant forall e :: e in pending ==> InEveryClosedSet(workspace, seeds, e)
      invariant forall q: set<Path> :: ClosedUnder(workspace, seeds, q) ==> packages <= q
      invariant forall p :: p in packages ==> Chained(workspace, seeds, p)
      invariant forall e :: e in pending ==> Wanted(workspace, seeds, e)
      decreases workspace.manifestDirs - packages, |pending|
    {
      var entry :| entry in pending;
      assert InEveryClosedSet(workspace, seeds, entry);
      pending := pending - {entry};
      var admitted := AdmittedPackageRoot(workspace, entry);
      if admitted.None? {
        continue;
      }
      var package := admitted.value;
      if package in packages {
        continue;
      }
      DependenciesInEveryClosedSet(workspace, seeds, entry);
      WantedIsChained(workspace, seeds, entry);
      packages := packages + {package};
      pending := pending + workspace.pathDependencies(package);
    }
    forall p | Chained(workspace, seeds, p) ensures p in packages {
      var chain :| IsChain(workspace, seeds, chain) && chain[|chain| - 1] == p;
      ChainInside(workspace, seeds, packages, chain);
    }
    return Resolved(packages);
  }

  lemma DependenciesInEveryClosedSet(workspace: Workspace, seeds: set<Path>, entry: Path)
    requires Admitted(workspace, entry).Some? && InEveryClosedSet(workspace, seeds, entry)
    ensures forall d :: d in workspace.pathDependencies(Admitted(workspace, entry).value) ==>
              InEveryClosedSet(workspace, seeds, d)
  {
  }

  // ----- discovery

  /** Manifests that exist, exclusion of a root, and the normalised path dependencies of a manifest. */
  datatype Disk = Disk(
    manifestDirs: set<Path>,
    excluded: Path -> bool,
    pathDependencies: Path -> seq<Path>)

  predicate Insertable(disk: Disk, root: Path)
  {
    !disk.excluded(root) && root in disk.manifestDirs
  }

  ghost predicate ClosedOnDisk(disk: Disk, roots: set<Path>)
  {
    forall p, d :: p in roots && d in disk.pathDependencies(p) && Insertable(disk, d) ==> d in roots
  }

  /** Roots, the first an initial one and each next one an existing, not excluded dependency of the one before. */
  ghost predicate IsRootChain(disk: Disk, initial: set<Path>, chain: seq<Path>)
  {
    && |chain| >= 1 && chain[0] in initial
    && forall i :: 0 < i < |chain| ==>
         && chain[i] in disk.pathDependencies(chain[i - 1])
         && !disk.excluded(chain[i]) && chain[i] in disk.manifestDirs
  }

  ghost predicate RootChained(disk: Disk, initial: set<Path>, root: Path)
  {
    exists chain :: IsRootChain(disk, initial, chain) && chain[|chain| - 1] == root
  }

  lemma RootChainGrows(disk: Disk, initial: set<Path>, root: Path, next: Path)
    requires RootChained(disk, initial, root) && next in disk.pathDependencies(root) && Insertable(disk, next)
    ensures RootChained(disk, initial, next)
  {
    var chain :| IsRootChain(disk, initial, chain) && chain[|chain| - 1] == root;
    assert IsRootChain(disk, initial, chain + [next]);
  }

  lemma {:induction false} RootChainInside(disk: Disk, initial: set<Path>, roots: set<Path>, chain: seq<Path>)
    requires initial <= roots && ClosedOnDisk(disk, roots) && IsRootChain(disk, initial, chain)
    ensures chain[|chain| - 1] in roots
    decreases |chain|
  {
    if |chain| > 1 { RootChainInside(disk, initial, roots, chain[..|chain| - 1]); }
  }

  ghost predicate AllChained(disk: Disk, initial: set<Path>, roots: set<Path>)
  {
    forall p :: p in roots ==> RootChained(disk, initial, p)
  }

  lemma InitialChained(disk: Disk, initial: set<Path>)
    ensures AllChained(disk, initial, initial)
  {
    forall p | p in initial ensures RootChained(disk, initial, p) { assert IsRootChain(disk, initial, [p]); }
  }

  lemma InsertedChained(disk: Disk, initial: set<Path>, roots: set<Path>, root: Path, roots': set<Path>)
    requires root in roots && AllChained(disk, initial, roots)
    requires forall p :: p in roots' ==> p in roots || (p in disk.pathDependencies(root) && Insertable(disk, p))
    ensures AllChained(disk, initial, roots')
  {
    forall p | p in roots' ensures RootChained(disk, initial, p) {
      if p !in roots { RootChainGrows(disk, initial, root, p); }
    }
  }

  lemma ChainedInside(disk: Disk, initial: set<Path>, roots: set<Path>)
    requires initial <= roots && ClosedOnDisk(disk, roots)
    ensures forall p :: RootChained(disk, initial, p) ==> p in roots
  {
    forall p | RootChained(disk, initial, p) ensures p in roots {
      var chain :| IsRootChain(disk, initial, chain) && chain[|chain| - 1] == p;
      RootChainInside(disk, initial, roots, chain);
    }
  }

  lemma ChainedIsLeast(disk: Disk, initial: set<Path>, roots: set<Path>)
    requires initial <= roots && ClosedOnDisk(disk, roots) && AllChained(disk, initial, roots)
    ensures forall q: set<Path> :: initial <= q && ClosedOnDisk(disk, q) ==> roots <= q
    ensures forall p :: p in roots <==> RootChained(disk, initial, p)
  {
    ChainedInside(disk, initial, roots);
    forall q: set<Path> | initial <= q && ClosedOnDisk(disk, q) ensures roots <= q {
      ChainedInside(disk, initial, q);
    }
  }

  /** The loop's state: every root is visited with its dependencies inserted, or still pending. */
  ghost predicate Progress(disk: Disk, initial: set<Path>, roots: set<Path>, pending: seq<Path>, visited: set<Path>)
  {
    && initial <= roots && visited <= roots
    && (forall p :: p in pending ==> p in roots)
    && (forall p :: p in roots ==> p in visited || p in pending)
    && (forall p, d :: p in visited && d in disk.pathDependencies(p) && Insertable(disk, d) ==> d in roots)
  }

  lemma StartKeeps(disk: Disk, initial: set<Path>, order: seq<Path>)
    requires forall p :: p in order <==> p in initial
    ensures Progress(disk, initial, initial, order, {}) && AllChained(disk, initial, initial)
  {
    InitialChained(disk, initial);
  }

  lemma SkipKeeps(disk: Disk, initial: set<Path>, roots: set<Path>, rest: seq<Path>, root: Path, visited: set<Path>)
    requires Progress(disk, initial, roots, rest + [root], visited) && root in visited
    ensures Progress(disk, initial, roots, rest, visited)
  {
    assert forall p :: p in rest + [root] <==> p in rest || p == root;
  }

  /** What one turn of the inner loop gives. */
  ghost predicate Inserts(disk: Disk, dependencies: seq<Path>, roots: set<Path>, pending: seq<Path>,
                          roots': set<Path>, pending': seq<Path>)
  {
    && (forall p :: p in roots' <==> p in roots || (p in dependencies && Insertable(disk, p)))
    && (forall p :: p in pending' <==> p in pending || (p in roots' && p !in roots))
  }

  lemma InsertKeeps(disk: Disk, initial: set<Path>, roots: set<Path>, rest: seq<Path>, root: Path, visited: set<Path>,
                    roots': set<Path>, pending': seq<Path>)
    requires Progress(disk, initial, roots, rest + [root], visited)
    requires Inserts(disk, disk.pathDependencies(root), roots, rest, roots', pending')
    ensures Progress(disk, initial, roots', pending', visited + {root})
  {
    assert forall p :: p in rest + [root] <==> p in rest || p == root;
  }

  /** The least superset of the initial roots that holds every insertable dependency of its members. */
  method InsertPathDependencyRoots(disk: Disk, initial: set<Path>, order: seq<Path>) returns (roots: set<Path>)
    requires forall p :: p in order <==> p in initial
    ensures initial <= roots && ClosedOnDisk(disk, roots)
    ensures forall q: set<Path> :: initial <= q && ClosedOnDisk(disk, q) ==> roots <= q
    ensures forall p :: p in roots <==> RootChained(disk, initial, p)
  {
    roots := initial;
    var pending := order;
    var visited: set<Path> := {};
    StartKeeps(disk, initial, order);
    while pending != []
      invariant Progress(disk, initial, roots, pending, visited) && AllChained(disk, initial, roots)
      decreases disk.manifestDirs - roots, |pending|
    {
      var root := pending[|pending| - 1];
      var rest := pending[..|pending| - 1];
      assert pending == rest + [root];
      if root in visited {
        SkipKeeps(disk, initial, roots, rest, root, visited);
        pending := rest;
        continue;
      }
      var known := roots;
      roots, pending := InsertDependencies(disk, disk.pathDependencies(root), known, rest);
      InsertKeeps(disk, initial, known, rest, root, visited, roots, pending);
      InsertedChained(disk, initial, known, root, roots);
      visited := visited + {root};
    }
    ChainedIsLeast(disk, initial, roots);
  }

  /** The inner loop: each newly inserted root is queued once. */
  method InsertDependencies(disk: Disk, dependencies: seq<Path>, roots: set<Path>, pending: seq<Path>)
    returns (roots': set<Path>, pending': seq<Path>)
    ensures Inserts(disk, dependencies, roots, pending, roots', pending')
    ensures roots' == roots ==> pending' == pending
    ensures disk.manifestDirs - roots' <= disk.manifestDirs - roots
    ensures roots' == roots || disk.manifestDirs - roots' < disk.manifestDirs - roots
  {
    roots', pending' := roots, pending;
    for i := 0 to |dependencies|
      invariant forall p :: p in roots' <==> p in roots || (p in dependencies[..i] && Insertable(disk, p))
      invariant forall p :: p in pending' <==> p in pending || (p in roots' && p !in roots)
      invariant roots <= roots'
      invariant roots' == roots ==> pending' == pending
    {
      var dependency := dependencies[i];
      assert dependencies[..i + 1] == dependencies[..i] + [dependency];
      if Insertable(disk, dependency) && dependency !in roots' {
        roots' := roots' + {dependency};
        pending' := pending' + [dependency];
      }
    }
    assert dependencies[..|dependencies|] == dependencies;
    if roots' != roots {
      var p :| p in roots' && p !in roots;
      assert p in disk.manifestDirs - roots && p !in disk.manifestDirs - roots';
    }
  }
}
