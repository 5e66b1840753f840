/**
 Reachability of Rust source files through module declarations, path attributes and literal
 includes (src/parser/module_tree.rs, src/parser/reasoning_tree.rs:205-243). A path is the
 sequence of its components.
 */
module ModuleTree {
  import opened Digraph
  import opened Reachability
  import opened Wrappers
  import opened Text

  type Path = seq<string>

  datatype ModuleDeclaration = ModuleDeclaration(
    ident: string,
    isInline: bool,
    isCfgTest: bool,
    resolvedPathAttr: Option<Path>)

  /** A top-level item: the resolved target of a literal include, and a module declaration. */
  datatype TopLevelItem = TopLevelItem(includePath: Option<Path>, declaration: Option<ModuleDeclaration>)

  type Modules = map<Path, seq<TopLevelItem>>

  // ----- where a declared module may live

  function FileName(path: Path): string
  {
    if path == [] then "" else path[|path| - 1]
  }

  function Parent(path: Path): Path
  {
    if path == [] then [] else path[..|path| - 1]
  }

  /** `Path::file_stem`: the name before its last dot, unless that dot leads the name. */
  function Stem(name: string): string
  {
    match RFind(name, ".")
    case None => name
    case Some(i) => if i == 0 then name else name[..i]
  }

  function ChildModuleBase(path: Path): Path
  {
    if FileName(path) in {"lib.rs", "main.rs", "mod.rs"} then Parent(path)
    else if path == [] then Parent(path)
    else Parent(path) + [Stem(FileName(path))]
  }

  function FileForm(path: Path, ident: string): Path
  {
    ChildModuleBase(path) + [ident + ".rs"]
  }

  function ModForm(path: Path, ident: string): Path
  {
    ChildModuleBase(path) + [ident, "mod.rs"]
  }

  /** The stem of a name: before its last dot, or the whole name when no dot follows its first character. */
  ghost predicate StemOf(name: string, stem: string)
  {
    || (stem != "" && exists extension :: Without(extension, '.') && name == stem + "." + extension)
    || (stem == name && (name == "" || Without(name[1..], '.')))
  }

  lemma DotAt(s: string, i: int)
    ensures OccursAt(s, ".", i) <==> 0 <= i < |s| && s[i] == '.'
  {
    if 0 <= i < |s| { assert s[i..i + 1] == [s[i]]; }
  }

  /** Position `i` holds the last dot. */
  ghost predicate IsLastDot(name: string, i: int)
  {
    0 <= i < |name| && name[i] == '.' && Without(name[i + 1..], '.')
  }

  lemma LastDotFound(name: string)
    ensures RFind(name, ".").Some? ==> IsLastDot(name, RFind(name, ".").value)
    ensures RFind(name, ".").None? ==> Without(name, '.')
  {
    var last := RFind(name, ".");
    if last.Some? {
      var i, extension := last.value, name[last.value + 1..];
      DotAt(name, i);
      forall k | 0 <= k < |extension| ensures extension[k] != '.' { DotAt(name, i + 1 + k); }
    } else {
      forall k | 0 <= k < |name| ensures name[k] != '.' { DotAt(name, k); }
    }
  }

  lemma StemBeforeDot(name: string, stem: string, i: nat)
    requires i > 0 && IsLastDot(name, i)
    ensures StemOf(name, stem) <==> stem == name[..i]
  {
    assert name == name[..i] + "." + name[i + 1..];
    assert name[1..][i - 1] == '.';
    forall other | Without(other, '.') && name == stem + "." + other ensures stem == name[..i] {
      assert forall k :: i < k < |name| ==> name[k] == name[i + 1..][k - i - 1];
      LastDot(stem, other, i);
    }
  }

  lemma StemIsName(name: string, stem: string)
    requires name == "" || Without(name[1..], '.')
    ensures StemOf(name, stem) <==> stem == name
  {
    if stem != "" {
      forall other ensures name != stem + "." + other {
        assert (stem + "." + other)[1..][|stem| - 1] == '.';
      }
    }
  }

  lemma StemExactlyWhen(name: string, stem: string)
    ensures Stem(name) == stem <==> StemOf(name, stem)
  {
    var last := RFind(name, ".");
    LastDotFound(name);
    if last.Some? && last.value > 0 {
      StemBeforeDot(name, stem, last.value);
    } else {
      StemIsName(name, stem);
    }
  }

  /** A dot followed by none is the one before a dot-free extension. */
  lemma LastDot(stem: string, extension: string, i: nat)
    requires Without(extension, '.') && i <= |stem| + |extension|
    requires (stem + "." + extension)[i] == '.'
    requires forall k :: i < k <= |stem| + |extension| ==> (stem + "." + extension)[k] != '.'
    ensures i == |stem|
  {
    var name := stem + "." + extension;
    assert name[|stem|] == '.';
    assert forall k :: |stem| < k < |name| ==> name[k] == extension[k - |stem| - 1];
  }

  /** Where the child modules of the file `name` in `dir` live. */
  ghost predicate ModulesLiveIn(dir: Path, name: string, base: Path)
  {
    if name == "lib.rs" || name == "main.rs" || name == "mod.rs" then base == dir
    else exists stem :: StemOf(name, stem) && base == dir + [stem]
  }

  lemma BaseExactlyWhen(dir: Path, name: string, base: Path)
    ensures ChildModuleBase(dir + [name]) == base <==> ModulesLiveIn(dir, name, base)
  {
    assert Parent(dir + [name]) == dir && FileName(dir + [name]) == name;
    StemExactlyWhen(name, Stem(name));
    forall stem | StemOf(name, stem) ensures stem == Stem(name) { StemExactlyWhen(name, stem); }
  }

  /** A declaration in the file `name` of `dir`, without its rejections, leads to `child`. */
  ghost predicate NamesModule(dir: Path, name: string, declaration: ModuleDeclaration, child: Path)
  {
    match declaration.resolvedPathAttr
    case Some(target) => child == target
    case None =>
      exists base ::
        && ModulesLiveIn(dir, name, base)
        && (child == base + [declaration.ident + ".rs"] || child == base + [declaration.ident, "mod.rs"])
  }

  /** An item leads to its include, and to the module it declares outside the file and, unless wanted, the tests. */
  lemma ItemExactlyWhen(dir: Path, name: string, item: TopLevelItem, includeCfgTest: bool, child: Path)
    ensures ItemLeadsTo(dir + [name], item, includeCfgTest, child) <==>
            || item.includePath == Some(child)
            || (item.declaration.Some? && var declaration := item.declaration.value;
                && !declaration.isInline && (!declaration.isCfgTest || includeCfgTest)
                && NamesModule(dir, name, declaration, child))
  {
    BaseExactlyWhen(dir, name, ChildModuleBase(dir + [name]));
    forall base | ModulesLiveIn(dir, name, base) ensures base == ChildModuleBase(dir + [name]) {
      BaseExactlyWhen(dir, name, base);
    }
  }

  // ----- edges

  /** `item` of the file at `path` leads to `child`: by include, path attribute or module file. */
  predicate ItemLeadsTo(path: Path, item: TopLevelItem, includeCfgTest: bool, child: Path)
  {
    || item.includePath == Some(child)
    || (item.declaration.Some? && DeclarationLeadsTo(path, item.declaration.value, includeCfgTest, child))
  }

  predicate DeclarationLeadsTo(path: Path, declaration: ModuleDeclaration, includeCfgTest: bool, child: Path)
  {
    && !declaration.isInline
    && (declaration.isCfgTest ==> includeCfgTest)
    && (if declaration.resolvedPathAttr.Some? then declaration.resolvedPathAttr.value == child
        else child == FileForm(path, declaration.ident) || child == ModForm(path, declaration.ident))
  }

  /** The targets of one item that are source files, in the order the source pushes them. */
  function ItemEdges(path: Path, item: TopLevelItem, files: set<Path>, includeCfgTest: bool): (edges: seq<Path>)
    ensures forall child :: child in edges <==> child in files && ItemLeadsTo(path, item, includeCfgTest, child)
  {
    (if item.includePath.Some? then Existing(item.includePath.value, files) else []) +
    (if item.declaration.None? then []
     else
       var declaration := item.declaration.value;
       if declaration.isInline || (declaration.isCfgTest && !includeCfgTest) then []
       else if declaration.resolvedPathAttr.Some? then Existing(declaration.resolvedPathAttr.value, files)
       else Existing(FileForm(path, declaration.ident), files) + Existing(ModForm(path, declaration.ident), files))
  }

  function Existing(path: Path, files: set<Path>): (r: seq<Path>)
    ensures forall p :: p in r <==> p == path && p in files
  {
    if path in files then [path] else []
  }

  /** `external_child_module_edges_with_test_cfg` */
  function ChildEdges(path: Path, items: seq<TopLevelItem>, files: set<Path>, includeCfgTest: bool): (edges: seq<Path>)
    decreases |items|
  {
    if items == [] then []
    else ItemEdges(path, items[0], files, includeCfgTest) + ChildEdges(path, items[1..], files, includeCfgTest)
  }

  ghost predicate SomeItemLeadsTo(path: Path, items: seq<TopLevelItem>, includeCfgTest: bool, child: Path)
  {
    exists i :: 0 <= i < |items| && ItemLeadsTo(path, items[i], includeCfgTest, child)
  }

  lemma {:induction false} ChildEdgesMeaning(path: Path, items: seq<TopLevelItem>, files: set<Path>,
                                             includeCfgTest: bool, child: Path)
    ensures child in ChildEdges(path, items, files, includeCfgTest) <==>
            child in files && SomeItemLeadsTo(path, items, includeCfgTest, child)
    decreases |items|
  {
    if items != [] {
      ChildEdgesMeaning(path, items[1..], files, includeCfgTest, child);
      if SomeItemLeadsTo(path, items, includeCfgTest, child) {
        var i :| 0 <= i < |items| && ItemLeadsTo(path, items[i], includeCfgTest, child);
        if i > 0 { assert ItemLeadsTo(path, items[1..][i - 1], includeCfgTest, child); }
      }
      if SomeItemLeadsTo(path, items[1..], includeCfgTest, child) {
        var i :| 0 <= i < |items[1..]| && ItemLeadsTo(path, items[1..][i], includeCfgTest, child);
        assert ItemLeadsTo(path, items[i + 1], includeCfgTest, child);
      }
    }
  }

  /** The module graph over a set of files. */
  function ModuleGraph(modules: Modules, files: set<Path>, includeCfgTest: bool): Adjacency<Path>
  {
    map path | path in modules :: ChildEdges(path, modules[path], files, includeCfgTest)
  }

  /** One step along a declared edge between source files. */
  ghost predicate Leads(modules: Modules, files: set<Path>, includeCfgTest: bool, a: Path, b: Path)
  {
    a in modules && b in files && SomeItemLeadsTo(a, modules[a], includeCfgTest, b)
  }

  lemma GraphMeaning(modules: Modules, files: set<Path>, includeCfgTest: bool)
    ensures forall a, b :: Edge(ModuleGraph(modules, files, includeCfgTest), a, b) <==>
              Leads(modules, files, includeCfgTest, a, b)
  {
    forall a, b ensures Edge(ModuleGraph(modules, files, includeCfgTest), a, b) <==>
                        Leads(modules, files, includeCfgTest, a, b)
    {
      if a in modules { ChildEdgesMeaning(a, modules[a], files, includeCfgTest, b); }
    }
  }

  /** A chain of declared edges runs from some root to `b`. */
  ghost predicate Reachable(modules: Modules, files: set<Path>, includeCfgTest: bool, roots: set<Path>, b: Path)
  {
    exists chain: seq<Path> ::
      Chain(modules, files, includeCfgTest, chain) && chain[0] in roots && chain[|chain| - 1] == b
  }

  ghost predicate Chain(modules: Modules, files: set<Path>, includeCfgTest: bool, chain: seq<Path>)
  {
    |chain| >= 1 && forall i :: 0 <= i < |chain| - 1 ==> Leads(modules, files, includeCfgTest, chain[i], chain[i + 1])
  }

  lemma ChainsAreWalks(modules: Modules, files: set<Path>, includeCfgTest: bool, roots: set<Path>, b: Path)
    ensures Reachable(modules, files, includeCfgTest, roots, b) <==>
            ReachedFromSet(ModuleGraph(modules, files, includeCfgTest), roots, b)
  {
    var g := ModuleGraph(modules, files, includeCfgTest);
    GraphMeaning(modules, files, includeCfgTest);
    if Reachable(modules, files, includeCfgTest, roots, b) {
      var chain: seq<Path> :|
        Chain(modules, files, includeCfgTest, chain) && chain[0] in roots && chain[|chain| - 1] == b;
      assert WalkBetween(g, chain, chain[0], b);
    }
    if ReachedFromSet(g, roots, b) {
      var a :| a in roots && Reaches(g, a, b);
      var w :| WalkBetween(g, w, a, b);
      assert Chain(modules, files, includeCfgTest, w);
    }
  }

  /** The files some chain reaches from the roots, with or without test-only modules. */
  method ReachableFiles(modules: Modules, files: set<Path>, includeCfgTest: bool, roots: seq<Path>)
    returns (reachable: set<Path>)
    requires Elements(roots) <= files
    ensures forall b :: b in reachable <==> Reachable(modules, files, includeCfgTest, Elements(roots), b)
  {
    GraphMeaning(modules, files, includeCfgTest);
    reachable := Search(ModuleGraph(modules, files, includeCfgTest), files, roots);
    forall b ensures b in reachable <==> Reachable(modules, files, includeCfgTest, Elements(roots), b) {
      ChainsAreWalks(modules, files, includeCfgTest, Elements(roots), b);
    }
  }

  /** Following test-only modules too never loses a file. */
  lemma CfgTestOnlyAdds(modules: Modules, files: set<Path>, roots: set<Path>, b: Path)
    requires Reachable(modules, files, false, roots, b)
    ensures Reachable(modules, files, true, roots, b)
  {
    var chain: seq<Path> :| Chain(modules, files, false, chain) && chain[0] in roots && chain[|chain| - 1] == b;
    forall i | 0 <= i < |chain| - 1 ensures Leads(modules, files, true, chain[i], chain[i + 1]) {
      assert Leads(modules, files, false, chain[i], chain[i + 1]);
      var items := modules[chain[i]];
      var k :| 0 <= k < |items| && ItemLeadsTo(chain[i], items[k], false, chain[i + 1]);
      assert ItemLeadsTo(chain[i], items[k], true, chain[i + 1]);
    }
    assert Chain(modules, files, true, chain);
  }

  // ----- the facts reported

  predicate StartsWithDir(path: Path, dir: Path)
  {
    |dir| <= |path| && path[..|dir|] == dir
  }

  predicate UnderAnyDir(path: Path, dirs: seq<Path>)
  {
    exists i :: 0 <= i < |dirs| && StartsWithDir(path, dirs[i])
  }

  lemma UnderExactlyWhen(path: Path, dirs: seq<Path>)
    ensures UnderAnyDir(path, dirs) <==> exists i, rest :: 0 <= i < |dirs| && path == dirs[i] + rest
  {
    if UnderAnyDir(path, dirs) {
      var i :| 0 <= i < |dirs| && StartsWithDir(path, dirs[i]);
      assert path == dirs[i] + path[|dirs[i]|..];
    }
    forall i, rest | 0 <= i < |dirs| && path == dirs[i] + rest ensures StartsWithDir(path, dirs[i]) {
    }
  }

  predicate RootOf(dir: Path, path: Path)
  {
    || path == dir + ["lib.rs"] || path == dir + ["main.rs"]
    || (StartsWithDir(path, dir) && var relative := path[|dir|..];
        || (|relative| == 2 && relative[0] == "bin")
        || (|relative| == 3 && relative[0] == "bin" && relative[2] == "main.rs"))
  }

  /** Roots are the library, the main program, and programs under `bin`, as files or directories. */
  lemma RootExactlyWhen(dir: Path, path: Path)
    ensures RootOf(dir, path) <==>
            || path == dir + ["lib.rs"] || path == dir + ["main.rs"]
            || (exists program :: path == dir + ["bin", program])
            || (exists program :: path == dir + ["bin", program, "main.rs"])
  {
    if StartsWithDir(path, dir) {
      var relative := path[|dir|..];
      assert path == dir + relative;
      if |relative| == 2 && relative[0] == "bin" { assert relative == ["bin", relative[1]]; }
      if |relative| == 3 && relative[0] == "bin" && relative[2] == "main.rs" {
        assert relative == ["bin", relative[1], "main.rs"];
      }
    }
    forall program | path == dir + ["bin", program] || path == dir + ["bin", program, "main.rs"]
      ensures RootOf(dir, path)
    {
      assert path[..|dir|] == dir;
      assert path[|dir|..] == ["bin", program] || path[|dir|..] == ["bin", program, "main.rs"];
    }
  }

  predicate IsModuleTreeRoot(sourceDirs: seq<Path>, path: Path)
  {
    exists i :: 0 <= i < |sourceDirs| && RootOf(sourceDirs[i], path)
  }

  function SourceFiles(sourceDirs: seq<Path>, modules: Modules): set<Path>
  {
    set path | path in modules && UnderAnyDir(path, sourceDirs)
  }

  ghost function TreeRoots(sourceDirs: seq<Path>, files: set<Path>): set<Path>
  {
    set path | path in files && IsModuleTreeRoot(sourceDirs, path)
  }

  /** Unreachable files are exactly the source files that no chain reaches from a module-tree root. */
  method UnreachableSourceFiles(sourceDirs: seq<Path>, modules: Modules) returns (unreachable: set<Path>)
    ensures var files := SourceFiles(sourceDirs, modules);
            forall path :: path in unreachable <==>
              path in files && !Reachable(modules, files, false, TreeRoots(sourceDirs, files), path)
  {
    var files := SourceFiles(sourceDirs, modules);
    var roots := set path | path in files && IsModuleTreeRoot(sourceDirs, path);
    var stack := Listing(roots);
    assert Elements(stack) == roots;
    var reachable := ReachableFiles(modules, files, false, stack);
    forall path | path in roots ensures Reachable(modules, files, false, roots, path) {
      assert Chain(modules, files, false, [path]);
    }
    unreachable := set path | path in files && path !in reachable && !IsModuleTreeRoot(sourceDirs, path);
  }

  /** Some listing of a set. */
  method Listing(paths: set<Path>) returns (listing: seq<Path>)
    ensures forall p :: p in listing <==> p in paths
  {
    listing := [];
    var rest := paths;
    while rest != {}
      invariant rest <= paths
      invariant forall p :: p in listing <==> p in paths && p !in rest
      decreases |rest|
    {
      var p :| p in rest;
      rest := rest - {p};
      listing := listing + [p];
    }
  }
}
