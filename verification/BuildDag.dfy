/**
 The Cargo workspace Build DAG: catalog of packages, local dependency names, the
 three-colour depth-first order, and the packages materialised from it
 (src/workspace_dependency_graph.rs).
 */
module BuildDag {
  import opened Wrappers
  import opened Digraph
  import opened Lexical

  type Name = string
  type Root = string

  datatype DagError =
    | DuplicateName(name: Name)
    | CycleThrough(name: Name)
    | MissingPackage(name: Name)

  type DagResult<+T> = Result<T, DagError>

  /** One workspace package: its normalised root and the facts parsed from its manifest. */
  datatype Package = Package(root: Root, name: Name, localDependencyRoots: seq<Root>)

  datatype Catalog = Catalog(packageByRoot: map<Root, Package>, rootByName: map<Name, Root>)

  datatype DagPackage =
    DagPackage(name: Name, root: Root, localDependencies: seq<Name>, executionIndex: nat)

  // ----- the depth-first order

  /** What an error reports about the graph searched from `starts`. */
  ghost predicate ErrorIsReal(g: Adjacency<Name>, starts: seq<Name>, e: DagError)
  {
    match e
    case CycleThrough(n) => ReachedFrom(g, starts, n) && OnCycle(g, n)
    case MissingPackage(n) => ReachedFrom(g, starts, n) && n !in g
    case DuplicateName(_) => false
  }

  /** The state that `visit_dependency_graph_package` threads through its recursion. */
  class DependencyVisitor {
    const dependencies: Adjacency<Name>
    var visiting: set<Name>
    var visited: set<Name>
    var order: seq<Name>

    ghost predicate Valid()
      reads this
    {
      && DependencyFirst(dependencies, order)
      && (forall n :: n in visited <==> n in order)
      && visited !! visiting
    }

    constructor (dependencies: Adjacency<Name>)
      ensures this.dependencies == dependencies
      ensures Valid() && visiting == {} && visited == {} && order == []
    {
      this.dependencies := dependencies;
      visiting, visited, order := {}, {}, [];
    }

    /**
     One recursive visit. `stack` is the walk of packages being visited, so meeting
     one of them again closes a cycle; the packages neither visiting nor visited
     shrink at every recursive call.
     */
    method Visit(package: Name, ghost stack: seq<Name>) returns (r: DagResult<()>)
      requires Valid()
      requires forall n :: n in visiting <==> n in stack
      requires Walk(dependencies, stack + [package])
      modifies this
      ensures r.Ok? ==>
                && Valid()
                && visiting == old(visiting)
                && old(order) <= order
                && old(visited) <= visited
                && package in visited
                && forall n :: n in visited ==> n in old(visited) || Reaches(dependencies, package, n)
      ensures r.Err? ==> ErrorIsReal(dependencies, [package], r.error)
      decreases dependencies.Keys - visiting - visited
    {
      ReachesSelf(dependencies, package);
      ReachedFromOne(dependencies, package, package);
      if package in visited {
        return Ok(());
      }
      if package in visiting {
        StackClosesCycle(dependencies, stack, package);
        return Err(CycleThrough(package));
      }
      visiting := visiting + {package};
      if package !in dependencies {
        return Err(MissingPackage(package));
      }
      var targets := dependencies[package];
      for i := 0 to |targets|
        invariant Valid()
        invariant visiting == old(visiting) + {package}
        invariant old(order) <= order
        invariant old(visited) <= visited
        invariant forall k :: 0 <= k < i ==> targets[k] in visited
        invariant forall n :: n in visited ==> n in old(visited) || Reaches(dependencies, package, n)
      {
        ghost var before := visited;
        assert Edge(dependencies, package, targets[i]);
        ExtendWalk(dependencies, stack + [package], targets[i]);
        assert dependencies.Keys - visiting - visited < old(dependencies.Keys - visiting - visited) by {
          assert package in old(dependencies.Keys - visiting - visited);
        }
        r := Visit(targets[i], stack + [package]);
        if r.Err? {
          PrependError(dependencies, package, targets[i], r.error);
          return;
        }
        forall n | n in visited && n !in before ensures Reaches(dependencies, package, n) {
          ReachesPrepend(dependencies, package, targets[i], n);
        }
      }
      AppendKeepsDependencyFirst(dependencies, order, package);
      visiting := visiting - {package};
      visited := visited + {package};
      order := order + [package];
      return Ok(());
    }
  }

  lemma PrependError(g: Adjacency<Name>, package: Name, target: Name, e: DagError)
    requires Edge(g, package, target) && ErrorIsReal(g, [target], e)
    ensures ErrorIsReal(g, [package], e)
  {
    ReachesPrepend(g, package, target, e.name);
    assert Reaches(g, [package][0], e.name);
  }

  /** Everything an error-free search can reach: present in the map and on no cycle. */
  ghost predicate Orderable(g: Adjacency<Name>, packages: seq<Name>)
  {
    forall n :: ReachedFrom(g, packages, n) ==> n in g && !OnCycle(g, n)
  }

  /**
   The order succeeds if and only if nothing reachable is missing or on a cycle, and it
   then lists exactly the reachable packages, once each, dependencies first.
   */
  method DependencyFirstPackageOrder(packages: seq<Name>, dependencies: Adjacency<Name>)
    returns (r: DagResult<seq<Name>>)
    ensures r.Ok? <==> Orderable(dependencies, packages)
    ensures r.Ok? ==> DependencyFirst(dependencies, r.value)
    ensures r.Ok? ==> forall n :: n in r.value <==> ReachedFrom(dependencies, packages, n)
    ensures r.Err? ==> ErrorIsReal(dependencies, packages, r.error)
  {
    var visitor := new DependencyVisitor(dependencies);
    for i := 0 to |packages|
      invariant visitor.dependencies == dependencies
      invariant visitor.Valid() && visitor.visiting == {}
      invariant forall k :: 0 <= k < i ==> packages[k] in visitor.visited
      invariant forall n :: n in visitor.visited ==> ReachedFrom(dependencies, packages, n)
    {
      assert Walk(dependencies, [] + [packages[i]]);
      ghost var before := visitor.visited;
      var step := visitor.Visit(packages[i], []);
      if step.Err? {
        assert Reaches(dependencies, packages[i], step.error.name);
        assert ErrorIsReal(dependencies, packages, step.error);
        return Err(step.error);
      }
      forall n | n in visitor.visited && n !in before ensures ReachedFrom(dependencies, packages, n) {
        assert Reaches(dependencies, packages[i], n);
      }
    }
    OrderHoldsReached(dependencies, packages, visitor.order);
    OrderedIsOrderable(dependencies, visitor.order);
    return Ok(visitor.order);
  }

  /** A dependency-first order holding the starts holds everything they reach. */
  lemma OrderHoldsReached(g: Adjacency<Name>, packages: seq<Name>, order: seq<Name>)
    requires DependencyFirst(g, order)
    requires forall k :: 0 <= k < |packages| ==> packages[k] in order
    ensures forall n :: ReachedFrom(g, packages, n) ==> n in order
  {
    forall n | ReachedFrom(g, packages, n) ensures n in order {
      var k :| 0 <= k < |packages| && Reaches(g, packages[k], n);
      var w :| WalkBetween(g, w, packages[k], n);
      var i :| 0 <= i < |order| && order[i] == packages[k];
      var j := WalkDescends(g, order, w, i);
    }
  }

  lemma OrderedIsOrderable(g: Adjacency<Name>, order: seq<Name>)
    requires DependencyFirst(g, order)
    ensures forall n :: n in order ==> n in g && !OnCycle(g, n)
  {
    forall n | n in order ensures n in g && !OnCycle(g, n) {
      var i :| 0 <= i < |order| && order[i] == n;
      if OnCycle(g, n) {
        var w :| ClosedWalk(g, w) && w[0] == n;
        var j := WalkDescends(g, order, w, i);
      }
    }
  }

  // ----- the catalog and the maps derived from it

  ghost predicate DistinctRoots(packages: seq<Package>)
  {
    forall i, j :: 0 <= i < j < |packages| ==> packages[i].root != packages[j].root
  }

  ghost predicate DistinctNames(packages: seq<Package>)
  {
    forall i, j :: 0 <= i < j < |packages| ==> packages[i].name != packages[j].name
  }

  ghost predicate HasRoot(packages: seq<Package>, limit: nat, r: Root)
  {
    exists i :: 0 <= i < limit <= |packages| && packages[i].root == r
  }

  ghost predicate HasName(packages: seq<Package>, limit: nat, n: Name)
  {
    exists i :: 0 <= i < limit <= |packages| && packages[i].name == n
  }

  ghost predicate Catalogued(catalog: Catalog, p: Package)
  {
    && p.root in catalog.packageByRoot && catalog.packageByRoot[p.root] == p
    && p.name in catalog.rootByName && catalog.rootByName[p.name] == p.root
  }

  /** Both maps hold exactly the first `limit` packages. */
  ghost predicate CatalogOf(catalog: Catalog, packages: seq<Package>, limit: nat)
    requires limit <= |packages|
  {
    && (forall r :: r in catalog.packageByRoot ==> HasRoot(packages, limit, r))
    && (forall n :: n in catalog.rootByName ==> HasName(packages, limit, n))
    && (forall i :: 0 <= i < limit ==> Catalogued(catalog, packages[i]))
  }

  /** The roots arrive normalised, sorted and deduplicated (src/parser/cargo_package_graph.rs:61-75). */
  method BuildCatalog(packages: seq<Package>) returns (r: DagResult<Catalog>)
    requires DistinctRoots(packages)
    ensures r.Ok? <==> DistinctNames(packages)
    ensures r.Ok? ==> CatalogOf(r.value, packages, |packages|)
    ensures r.Err? ==> r.error.DuplicateName? &&
                       exists i, j :: 0 <= i < j < |packages| && packages[i].name == packages[j].name == r.error.name
  {
    var catalog := Catalog(map[], map[]);
    for k := 0 to |packages|
      invariant CatalogOf(catalog, packages, k)
      invariant forall i, j :: 0 <= i < j < k ==> packages[i].name != packages[j].name
    {
      var p := packages[k];
      if p.name in catalog.rootByName {
        assert HasName(packages, k, p.name);
        return Err(DuplicateName(p.name));
      }
      ExtendCatalog(catalog, packages, k);
      catalog := Enter(catalog, p);
    }
    return Ok(catalog);
  }

  function Enter(catalog: Catalog, p: Package): Catalog
  {
    Catalog(catalog.packageByRoot[p.root := p], catalog.rootByName[p.name := p.root])
  }

  lemma EnteringKeepsOthers(catalog: Catalog, p: Package, q: Package)
    requires Catalogued(catalog, q) && p.root != q.root && p.name !in catalog.rootByName
    ensures p.name != q.name && Catalogued(Enter(catalog, p), q)
  {
  }

  lemma EnteredPackages(catalog: Catalog, packages: seq<Package>, k: nat)
    requires k < |packages| && DistinctRoots(packages) && packages[k].name !in catalog.rootByName
    requires forall i :: 0 <= i < k ==> Catalogued(catalog, packages[i])
    ensures forall i :: 0 <= i < k ==> packages[i].name != packages[k].name
    ensures forall i :: 0 <= i < k + 1 ==> Catalogued(Enter(catalog, packages[k]), packages[i])
  {
    forall i | 0 <= i < k
      ensures packages[i].name != packages[k].name && Catalogued(Enter(catalog, packages[k]), packages[i])
    {
      EnteringKeepsOthers(catalog, packages[k], packages[i]);
    }
  }

  lemma ExtendCatalog(catalog: Catalog, packages: seq<Package>, k: nat)
    requires k < |packages| && CatalogOf(catalog, packages, k) && DistinctRoots(packages)
    requires packages[k].name !in catalog.rootByName
    ensures forall i :: 0 <= i < k ==> packages[i].name != packages[k].name
    ensures CatalogOf(Enter(catalog, packages[k]), packages, k + 1)
  {
    EnteredPackages(catalog, packages, k);
    EnteredKeys(catalog, packages, k);
  }

  lemma EnteredKeys(catalog: Catalog, packages: seq<Package>, k: nat)
    requires k < |packages| && CatalogOf(catalog, packages, k)
    ensures forall r :: r in Enter(catalog, packages[k]).packageByRoot ==> HasRoot(packages, k + 1, r)
    ensures forall n :: n in Enter(catalog, packages[k]).rootByName ==> HasName(packages, k + 1, n)
  {
    var grown := Enter(catalog, packages[k]);
    forall r | r in grown.packageByRoot ensures HasRoot(packages, k + 1, r) {
      assert r == packages[k].root || HasRoot(packages, k, r);
    }
    forall n | n in grown.rootByName ensures HasName(packages, k + 1, n) {
      assert n == packages[k].name || HasName(packages, k, n);
    }
  }

  /** The package names behind the dependency roots that are catalogued. */
  function ResolvedNames(roots: seq<Root>, packageByRoot: map<Root, Package>): (names: seq<Name>)
    ensures forall n :: n in names <==> exists r :: r in roots && r in packageByRoot && packageByRoot[r].name == n
  {
    if roots == [] then []
    else
      assert roots == [roots[0]] + roots[1..];
      var rest := ResolvedNames(roots[1..], packageByRoot);
      if roots[0] in packageByRoot then [packageByRoot[roots[0]].name] + rest else rest
  }

  function LocalDependencyNames(facts: Package, packageByRoot: map<Root, Package>): (names: seq<Name>)
    ensures StrictlySorted(names)
    ensures forall n :: n in names <==>
              exists r :: r in facts.localDependencyRoots && r in packageByRoot && packageByRoot[r].name == n
  {
    SortedDistinct(ResolvedNames(facts.localDependencyRoots, packageByRoot))
  }

  function DependencyNamesByPackage(catalog: Catalog): Adjacency<Name>
    requires forall n :: n in catalog.rootByName ==> catalog.rootByName[n] in catalog.packageByRoot
  {
    map n | n in catalog.rootByName ::
      LocalDependencyNames(catalog.packageByRoot[catalog.rootByName[n]], catalog.packageByRoot)
  }

  function Names(packages: seq<Package>): (names: seq<Name>)
    ensures |names| == |packages|
    ensures forall i :: 0 <= i < |packages| ==> names[i] == packages[i].name
  {
    seq(|packages|, i requires 0 <= i < |packages| => packages[i].name)
  }

  /** Package `a` declares a path dependency on package `b` of the same workspace. */
  ghost predicate DependsOn(packages: seq<Package>, a: Name, b: Name)
  {
    exists i, j :: 0 <= i < |packages| && 0 <= j < |packages| && packages[i].name == a &&
                   packages[j].name == b && packages[j].root in packages[i].localDependencyRoots
  }

  /** The derived map is closed over the workspace and holds exactly its path dependencies. */
  lemma DerivedMapIsClosed(packages: seq<Package>, catalog: Catalog)
    requires DistinctNames(packages) && CatalogOf(catalog, packages, |packages|)
    ensures forall n :: n in catalog.rootByName ==> catalog.rootByName[n] in catalog.packageByRoot
    ensures var deps := DependencyNamesByPackage(catalog);
            && deps.Keys == catalog.rootByName.Keys
            && (forall a, b :: Edge(deps, a, b) <==> DependsOn(packages, a, b))
            && (forall a, b :: Edge(deps, a, b) ==> b in deps)
  {
    forall n | n in catalog.rootByName ensures catalog.rootByName[n] in catalog.packageByRoot {
      assert HasName(packages, |packages|, n);
      var i :| 0 <= i < |packages| && packages[i].name == n;
      assert Catalogued(catalog, packages[i]);
    }
    var deps := DependencyNamesByPackage(catalog);
    assert forall i :: 0 <= i < |packages| ==> Catalogued(catalog, packages[i]);
    forall a, b ensures Edge(deps, a, b) <==> DependsOn(packages, a, b) {
      EdgeIsDependency(packages, catalog, a, b);
    }
    forall a, b | Edge(deps, a, b) ensures b in deps {
      assert DependsOn(packages, a, b);
    }
  }

  lemma EdgeIsDependency(packages: seq<Package>, catalog: Catalog, a: Name, b: Name)
    requires DistinctNames(packages) && CatalogOf(catalog, packages, |packages|)
    requires forall n :: n in catalog.rootByName ==> catalog.rootByName[n] in catalog.packageByRoot
    ensures Edge(DependencyNamesByPackage(catalog), a, b) <==> DependsOn(packages, a, b)
  {
    var deps := DependencyNamesByPackage(catalog);
    if Edge(deps, a, b) {
      assert HasName(packages, |packages|, a);
      var i :| 0 <= i < |packages| && packages[i].name == a;
      assert Catalogued(catalog, packages[i]);
      var facts := catalog.packageByRoot[catalog.rootByName[packages[i].name]];
      assert facts == packages[i];
      var r :| r in facts.localDependencyRoots && r in catalog.packageByRoot && catalog.packageByRoot[r].name == b;
      assert HasRoot(packages, |packages|, r);
      var j :| 0 <= j < |packages| && packages[j].root == r;
      assert Catalogued(catalog, packages[j]);
      assert packages[j] == catalog.packageByRoot[r];
    }
    if DependsOn(packages, a, b) {
      var i, j :| 0 <= i < |packages| && 0 <= j < |packages| && packages[i].name == a &&
                  packages[j].name == b && packages[j].root in packages[i].localDependencyRoots;
      assert Catalogued(catalog, packages[i]);
      assert Catalogued(catalog, packages[j]);
      assert a in deps;
    }
  }

  // ----- materialisation and the whole derivation

  datatype Lookup<+T> = Found(value: T) | LookupPanics

  /** The packages from position `i` of the order on; a failed `expect` lookup panics. */
  function MaterializeFrom(order: seq<Name>, i: nat, rootByName: map<Name, Root>, dependencies: Adjacency<Name>)
    : Lookup<seq<DagPackage>>
    requires i <= |order|
    decreases |order| - i
  {
    if i == |order| then Found([])
    else if order[i] !in rootByName || order[i] !in dependencies then LookupPanics
    else
      match MaterializeFrom(order, i + 1, rootByName, dependencies)
      case LookupPanics => LookupPanics
      case Found(rest) => Found([DagPackage(order[i], rootByName[order[i]], dependencies[order[i]], i)] + rest)
  }

  function Materialize(order: seq<Name>, rootByName: map<Name, Root>, dependencies: Adjacency<Name>)
    : Lookup<seq<DagPackage>>
  {
    MaterializeFrom(order, 0, rootByName, dependencies)
  }

  lemma {:induction false} MaterializeFromAt(
    order: seq<Name>, i: nat, rootByName: map<Name, Root>, dependencies: Adjacency<Name>)
    requires i <= |order|
    requires forall k :: i <= k < |order| ==> order[k] in rootByName && order[k] in dependencies
    ensures var r := MaterializeFrom(order, i, rootByName, dependencies);
            && r.Found? && |r.value| == |order| - i
            && forall k :: i <= k < |order| ==>
                 r.value[k - i] == DagPackage(order[k], rootByName[order[k]], dependencies[order[k]], k)
    decreases |order| - i
  {
    if i < |order| { MaterializeFromAt(order, i + 1, rootByName, dependencies); }
  }

  /** A DAG entry tells the truth about one workspace package: its root and its path dependencies, sorted. */
  ghost predicate Describes(packages: seq<Package>, entry: DagPackage)
  {
    && (exists k :: 0 <= k < |packages| && packages[k].name == entry.name && packages[k].root == entry.root)
    && StrictlySorted(entry.localDependencies)
    && (forall b :: b in entry.localDependencies <==> DependsOn(packages, entry.name, b))
  }

  /**
   On a catalogued workspace neither lookup panics for any list of its package names, repeats
   included, and entry by entry the result describes the package of that name at its position.
   */
  lemma LookupsNeverPanic(packages: seq<Package>, catalog: Catalog, order: seq<Name>)
    requires DistinctNames(packages) && CatalogOf(catalog, packages, |packages|)
    requires forall i :: 0 <= i < |order| ==> HasName(packages, |packages|, order[i])
    ensures forall n :: n in catalog.rootByName ==> catalog.rootByName[n] in catalog.packageByRoot
    ensures var r := Materialize(order, catalog.rootByName, DependencyNamesByPackage(catalog));
            && r.Found? && |r.value| == |order|
            && forall i :: 0 <= i < |order| ==>
                 r.value[i].name == order[i] && r.value[i].executionIndex == i && Describes(packages, r.value[i])
  {
    DerivedMapIsClosed(packages, catalog);
    var deps := DependencyNamesByPackage(catalog);
    forall i | 0 <= i < |order| ensures order[i] in catalog.rootByName && order[i] in deps {
      var k := PackageNamed(packages, catalog, order[i]);
    }
    MaterializeFromAt(order, 0, catalog.rootByName, deps);
    var dag := Materialize(order, catalog.rootByName, deps).value;
    forall i | 0 <= i < |order| ensures Describes(packages, dag[i]) {
      assert dag[i] == DagPackage(order[i], catalog.rootByName[order[i]], deps[order[i]], i);
      assert HasName(packages, |packages|, order[i]);
      EntryDescribes(packages, catalog, dag[i]);
    }
  }

  lemma EntryDescribes(packages: seq<Package>, catalog: Catalog, entry: DagPackage)
    requires DistinctNames(packages) && CatalogOf(catalog, packages, |packages|)
    requires forall n :: n in catalog.rootByName ==> catalog.rootByName[n] in catalog.packageByRoot
    requires HasName(packages, |packages|, entry.name)
    requires entry.name in catalog.rootByName && entry.root == catalog.rootByName[entry.name]
    requires entry.localDependencies == DependencyNamesByPackage(catalog)[entry.name]
    ensures Describes(packages, entry)
  {
    var k := PackageNamed(packages, catalog, entry.name);
    forall b ensures b in entry.localDependencies <==> DependsOn(packages, entry.name, b) {
      EdgeIsDependency(packages, catalog, entry.name, b);
    }
  }

  lemma PackageNamed(packages: seq<Package>, catalog: Catalog, name: Name) returns (k: nat)
    requires CatalogOf(catalog, packages, |packages|) && HasName(packages, |packages|, name)
    ensures k < |packages| && packages[k].name == name
    ensures name in catalog.rootByName && catalog.rootByName[name] == packages[k].root
  {
    k :| 0 <= k < |packages| && packages[k].name == name;
    assert Catalogued(catalog, packages[k]);
  }

  ghost predicate NoDependencyCycle(packages: seq<Package>)
  {
    !exists w: seq<Name> ::
        |w| >= 2 && w[0] == w[|w| - 1] && forall i :: 0 <= i < |w| - 1 ==> DependsOn(packages, w[i], w[i + 1])
  }

  /** Each workspace package, under its own root, exactly once, at its execution index. */
  ghost predicate ListsEachPackageOnce(dag: seq<DagPackage>, packages: seq<Package>)
  {
    && (forall i :: 0 <= i < |dag| ==> dag[i].executionIndex == i)
    && (forall i, j :: 0 <= i < j < |dag| ==> dag[i].name != dag[j].name)
    && (forall k :: 0 <= k < |packages| ==> Listed(dag, packages[k].name, packages[k].root))
    && (forall i :: 0 <= i < |dag| ==> HasName(packages, |packages|, dag[i].name))
  }

  ghost predicate Listed(dag: seq<DagPackage>, name: Name, root: Root)
  {
    exists i :: 0 <= i < |dag| && dag[i].name == name && dag[i].root == root
  }

  /** Its direct local dependencies are the declared ones, all strictly earlier. */
  ghost predicate DependenciesStandEarlier(dag: seq<DagPackage>, packages: seq<Package>, i: nat)
    requires i < |dag|
  {
    && Describes(packages, dag[i])
    && (forall b :: b in dag[i].localDependencies ==> exists j :: 0 <= j < i && dag[j].name == b)
  }

  /** What the documentation promises of a Build DAG. */
  ghost predicate IsBuildDag(dag: seq<DagPackage>, packages: seq<Package>)
  {
    && ListsEachPackageOnce(dag, packages)
    && forall i :: 0 <= i < |dag| ==> DependenciesStandEarlier(dag, packages, i)
  }

  /**
   The derivation succeeds if and only if package names are unique and no path
   dependency cycle exists; neither a missing package nor a failed lookup can occur.
   */
  method DeriveBuildDag(packages: seq<Package>) returns (r: DagResult<seq<DagPackage>>)
    requires DistinctRoots(packages)
    ensures r.Ok? <==> DistinctNames(packages) && NoDependencyCycle(packages)
    ensures r.Ok? ==> IsBuildDag(r.value, packages)
    ensures r.Err? ==> !r.error.MissingPackage?
    ensures r.Err? && r.error.DuplicateName? <==> !DistinctNames(packages)
  {
    var built := BuildCatalog(packages);
    if built.Err? {
      return Err(built.error);
    }
    var catalog := built.value;
    DerivedMapIsClosed(packages, catalog);
    var dependencies := DependencyNamesByPackage(catalog);
    var workspacePackages := SortedDistinct(Names(packages));
    CyclesAgree(packages, dependencies);
    KeysAreNames(packages, catalog);
    WorkspaceOrderable(dependencies, workspacePackages);
    var ordered := DependencyFirstPackageOrder(workspacePackages, dependencies);
    if ordered.Err? {
      return Err(ordered.error);
    }
    var order := ordered.value;
    DagOfOrder(packages, catalog, order);
    var materialized := Materialize(order, catalog.rootByName, dependencies);
    return Ok(materialized.value);
  }

  lemma KeysAreNames(packages: seq<Package>, catalog: Catalog)
    requires CatalogOf(catalog, packages, |packages|)
    ensures forall n :: n in SortedDistinct(Names(packages)) <==> n in catalog.rootByName
  {
    forall n ensures n in Names(packages) <==> n in catalog.rootByName {
      if n in catalog.rootByName {
        assert HasName(packages, |packages|, n);
        var i :| 0 <= i < |packages| && packages[i].name == n;
        assert Names(packages)[i] == n;
      }
      if n in Names(packages) {
        var i :| 0 <= i < |packages| && Names(packages)[i] == n;
        assert Catalogued(catalog, packages[i]);
      }
    }
  }

  lemma CyclesAgree(packages: seq<Package>, deps: Adjacency<Name>)
    requires forall a, b :: Edge(deps, a, b) <==> DependsOn(packages, a, b)
    ensures NoDependencyCycle(packages) <==> !Cyclic(deps)
  {
    if Cyclic(deps) {
      var w :| ClosedWalk(deps, w);
      assert forall i :: 0 <= i < |w| - 1 ==> DependsOn(packages, w[i], w[i + 1]);
    }
    if !NoDependencyCycle(packages) {
      var w: seq<Name> :| |w| >= 2 && w[0] == w[|w| - 1] &&
        forall i :: 0 <= i < |w| - 1 ==> DependsOn(packages, w[i], w[i + 1]);
      assert ClosedWalk(deps, w);
    }
  }

  /** On a closed map searched from all its keys, only a cycle can stop the order. */
  lemma WorkspaceOrderable(deps: Adjacency<Name>, packages: seq<Name>)
    requires forall a, b :: Edge(deps, a, b) ==> b in deps
    requires forall n :: n in packages <==> n in deps
    ensures Orderable(deps, packages) <==> !Cyclic(deps)
    ensures forall n :: ReachedFrom(deps, packages, n) <==> n in deps
  {
    forall n ensures ReachedFrom(deps, packages, n) <==> n in deps {
      if n in deps {
        var k :| 0 <= k < |packages| && packages[k] == n;
        ReachesSelf(deps, packages[k]);
      }
      if ReachedFrom(deps, packages, n) {
        var k :| 0 <= k < |packages| && Reaches(deps, packages[k], n);
        assert packages[k] in packages;
        var w :| WalkBetween(deps, w, packages[k], n);
        if |w| >= 2 { assert Edge(deps, w[|w| - 2], w[|w| - 1]); }
      }
    }
    if Cyclic(deps) {
      var w :| ClosedWalk(deps, w);
      assert Edge(deps, w[0], w[1]) && OnCycle(deps, w[0]);
    }
  }

  lemma DagOfOrder(packages: seq<Package>, catalog: Catalog, order: seq<Name>)
    requires DistinctNames(packages) && CatalogOf(catalog, packages, |packages|)
    requires forall n :: n in catalog.rootByName ==> catalog.rootByName[n] in catalog.packageByRoot
    requires var deps := DependencyNamesByPackage(catalog);
             DependencyFirst(deps, order) && forall n :: n in order <==> n in deps
    ensures var r := Materialize(order, catalog.rootByName, DependencyNamesByPackage(catalog));
            r.Found? && IsBuildDag(r.value, packages)
  {
    var deps := DependencyNamesByPackage(catalog);
    forall i | 0 <= i < |order| ensures HasName(packages, |packages|, order[i]) {
      assert order[i] in order && order[i] in deps;
    }
    LookupsNeverPanic(packages, catalog, order);
    var dag := Materialize(order, catalog.rootByName, deps).value;
    forall k | 0 <= k < |packages| ensures Listed(dag, packages[k].name, packages[k].root) {
      assert Catalogued(catalog, packages[k]);
      assert packages[k].name in order;
      var i :| 0 <= i < |order| && order[i] == packages[k].name;
      assert Describes(packages, dag[i]);
    }
    forall i | 0 <= i < |dag| ensures DependenciesStandEarlier(dag, packages, i) {
      assert dag[i].name == order[i] && Describes(packages, dag[i]);
      DerivedMapIsClosed(packages, catalog);
      EarlierInOrder(packages, deps, order, dag, i);
    }
  }

  lemma EarlierInOrder(packages: seq<Package>, deps: Adjacency<Name>, order: seq<Name>, dag: seq<DagPackage>, i: nat)
    requires forall a, b :: Edge(deps, a, b) <==> DependsOn(packages, a, b)
    requires DependencyFirst(deps, order) && |dag| == |order| && i < |dag|
    requires forall k :: 0 <= k < |dag| ==> dag[k].name == order[k]
    requires Describes(packages, dag[i])
    ensures DependenciesStandEarlier(dag, packages, i)
  {
    forall b | b in dag[i].localDependencies ensures exists j :: 0 <= j < i && dag[j].name == b {
      assert Edge(deps, order[i], b);
      assert b in order[..i];
      var j :| 0 <= j < i && order[j] == b;
      assert dag[j].name == b;
    }
  }
}
