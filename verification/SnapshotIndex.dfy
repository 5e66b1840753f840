/**
 The dev gate's content snapshot and its incremental digest index: a directory walk that reuses
 a stored digest while a file's size and modification time stay the same
 (src/dev_gate/cache.rs:128-191, 365-500).
 */
module SnapshotIndex {
  import opened Decimals
  import opened Lexical
  import opened Text

  type Path = string
  type Digest = string

  datatype Node =
    | File(content: string, modified: int)
    | Directory(entries: seq<Entry>)
    | Symlink
    | Special
    | Unlistable       // a directory that cannot be read
    | Uninspectable    // without metadata
    | Outside          // a regular file not below the project root

  datatype Entry = Entry(name: string, node: Node)

  /** A regular file as the walk sees it: contents and modification time since the epoch. */
  datatype Stat = Stat(content: string, modified: int)

  datatype IndexEntry = IndexEntry(byteCount: nat, modified: int, digest: Digest)

  datatype SnapshotFile = SnapshotFile(byteCount: nat, digest: Digest)

  type Index = map<Path, IndexEntry>

  /** Directory names left out, hidden ones let in, and package roots owned by others. */
  datatype WalkPolicy = WalkPolicy(ignoredDirs: set<string>, hiddenDirs: set<string>, excludedRoots: set<Path>)

  predicate SkipDirectory(policy: WalkPolicy, name: string)
  {
    name in policy.ignoredDirs || (name != "" && name[0] == '.' && name !in policy.hiddenDirs)
  }

  predicate IsDirectory(node: Node)
  {
    node.Directory? || node.Unlistable?
  }

  function Child(path: Path, name: string): Path
  {
    if path == "" then name else path + "/" + name
  }

  // ----- the files a walk selects

  function Selected(policy: WalkPolicy, path: Path, node: Node): map<Path, Stat>
    decreases node, 0
  {
    match node
    case Symlink => map[]
    case Special => map[]
    case Unlistable => map[]
    case Uninspectable => map[]
    case Outside => map[]
    case File(content, modified) => map[path := Stat(content, modified)]
    case Directory(entries) => if path in policy.excludedRoots then map[] else SelectedEntries(policy, path, entries)
  }

  function SelectedEntries(policy: WalkPolicy, path: Path, entries: seq<Entry>): map<Path, Stat>
    decreases entries, 1
  {
    if entries == [] then map[]
    else SelectedEntry(policy, path, entries[0]) + SelectedEntries(policy, path, entries[1..])
  }

  function SelectedEntry(policy: WalkPolicy, path: Path, entry: Entry): map<Path, Stat>
    decreases entry, 1
  {
    if IsDirectory(entry.node) && SkipDirectory(policy, entry.name) then map[]
    else Selected(policy, Child(path, entry.name), entry.node)
  }

  /** The inputs of one gate call: monitored paths and the manifest, later ones overriding. */
  function SelectedInputs(policy: WalkPolicy, inputs: seq<(Path, Node)>): map<Path, Stat>
  {
    if inputs == [] then map[]
    else Selected(policy, inputs[0].0, inputs[0].1) + SelectedInputs(policy, inputs[1..])
  }

  // ----- the same by routes

  /** Hop by hop through listed directories, none an excluded root or skipped by name, to a node at a path. */
  ghost predicate Route(policy: WalkPolicy, path: Path, node: Node, hops: seq<Entry>, at: Path, target: Node)
    decreases |hops|
  {
    if hops == [] then node == target && at == path
    else
      && node.Directory? && path !in policy.excludedRoots && hops[0] in node.entries
      && !(IsDirectory(hops[0].node) && SkipDirectory(policy, hops[0].name))
      && Route(policy, Child(path, hops[0].name), hops[0].node, hops[1..], at, target)
  }

  ghost predicate Routed(policy: WalkPolicy, path: Path, node: Node, at: Path, target: Node)
  {
    exists hops :: Route(policy, path, node, hops, at, target)
  }

  function Regular(stat: Stat): Node
  {
    File(stat.content, stat.modified)
  }

  /** A tree as file systems have them: names in a directory differ, are not empty and hold no slash. */
  ghost predicate WellNamed(node: Node)
    decreases node
  {
    node.Directory? ==>
      && (forall i, j :: 0 <= i < j < |node.entries| ==> node.entries[i].name != node.entries[j].name)
      && (forall i :: 0 <= i < |node.entries| ==>
            node.entries[i].name != "" && Without(node.entries[i].name, '/') && WellNamed(node.entries[i].node))
  }

  /** The path itself or one below it. */
  ghost predicate Under(path: Path, file: Path)
  {
    file == path || StartsWith(file, path + "/")
  }

  lemma {:induction false} EntrySelecting(policy: WalkPolicy, path: Path, entries: seq<Entry>, file: Path)
    returns (k: nat)
    requires file in SelectedEntries(policy, path, entries)
    ensures k < |entries| && file in SelectedEntry(policy, path, entries[k])
    ensures SelectedEntry(policy, path, entries[k])[file] == SelectedEntries(policy, path, entries)[file]
  {
    if file in SelectedEntries(policy, path, entries[1..]) {
      k := EntrySelecting(policy, path, entries[1..], file);
      k := k + 1;
    } else {
      k := 0;
    }
  }

  lemma {:induction false} SelectedByEntry(policy: WalkPolicy, path: Path, entries: seq<Entry>, k: nat, file: Path)
    requires k < |entries| && file in SelectedEntry(policy, path, entries[k])
    ensures file in SelectedEntries(policy, path, entries)
  {
    if k > 0 { SelectedByEntry(policy, path, entries[1..], k - 1, file); }
  }

  lemma {:induction false} SelectedHasRoute(policy: WalkPolicy, path: Path, node: Node, file: Path)
    requires file in Selected(policy, path, node)
    ensures Routed(policy, path, node, file, Regular(Selected(policy, path, node)[file]))
    decreases node
  {
    var target := Regular(Selected(policy, path, node)[file]);
    if node.File? {
      assert Route(policy, path, node, [], file, target);
    } else {
      var k := EntrySelecting(policy, path, node.entries, file);
      var entry := node.entries[k];
      SelectedHasRoute(policy, Child(path, entry.name), entry.node, file);
      var hops :| Route(policy, Child(path, entry.name), entry.node, hops, file, target);
      assert ([entry] + hops)[1..] == hops;
      assert Route(policy, path, node, [entry] + hops, file, target);
    }
  }

  lemma {:induction false} SelectedUnder(policy: WalkPolicy, path: Path, node: Node, file: Path)
    requires path != "" && WellNamed(node) && file in Selected(policy, path, node)
    ensures Under(path, file)
    decreases node
  {
    if node.Directory? {
      var k := EntrySelecting(policy, path, node.entries, file);
      var child := Child(path, node.entries[k].name);
      SelectedUnder(policy, child, node.entries[k].node, file);
      assert file[..|path| + 1] == child[..|path| + 1];
    }
  }

  /** Of two children of one directory only one can be above a path. */
  lemma ChildrenApart(path: Path, a: string, b: string, file: Path)
    requires a != "" && b != "" && Without(a, '/') && Without(b, '/')
    requires Under(Child(path, a), file) && Under(Child(path, b), file)
    ensures a == b
  {
    var base := if path == "" then "" else path + "/";
    assert Child(path, a) == base + a && Child(path, b) == base + b;
    NextPart(base, a, file);
    NextPart(base, b, file);
    var rest := file[|base|..];
    assert forall i :: 0 <= i < |a| ==> rest[..|a|][i] == a[i] && rest[i] != '/';
    assert forall i :: 0 <= i < |b| ==> rest[..|b|][i] == b[i] && rest[i] != '/';
  }

  lemma NextPart(base: string, name: string, file: Path)
    requires Under(base + name, file)
    ensures |base| + |name| <= |file| && file[|base|..][..|name|] == name
    ensures |file| > |base| + |name| ==> file[|base|..][|name|] == '/'
  {
    var whole := base + name;
    if file != whole {
      assert file[..|whole| + 1] == whole + "/";
      assert file[..|whole|] == file[..|whole| + 1][..|whole|] == whole;
      assert file[|whole|] == file[..|whole| + 1][|whole|] == '/';
    }
    assert file[|base|..][..|name|] == file[..|whole|][|base|..] == name;
  }

  lemma EntryUnder(policy: WalkPolicy, path: Path, entry: Entry, file: Path)
    requires entry.name != "" && WellNamed(entry.node) && file in SelectedEntry(policy, path, entry)
    ensures Under(Child(path, entry.name), file)
  {
    SelectedUnder(policy, Child(path, entry.name), entry.node, file);
  }

  /** On a well-named tree the entry on the route decides what is selected. */
  lemma RoutingEntry(policy: WalkPolicy, path: Path, node: Node, k: nat, file: Path)
    requires WellNamed(node) && node.Directory? && path !in policy.excludedRoots
    requires k < |node.entries| && file in SelectedEntry(policy, path, node.entries[k])
    ensures file in Selected(policy, path, node)
    ensures Selected(policy, path, node)[file] == SelectedEntry(policy, path, node.entries[k])[file]
  {
    SelectedByEntry(policy, path, node.entries, k, file);
    var m := EntrySelecting(policy, path, node.entries, file);
    EntryUnder(policy, path, node.entries[k], file);
    EntryUnder(policy, path, node.entries[m], file);
    ChildrenApart(path, node.entries[k].name, node.entries[m].name, file);
  }

  lemma {:induction false} RouteIsSelected(
    policy: WalkPolicy, path: Path, node: Node, hops: seq<Entry>, file: Path, stat: Stat)
    requires WellNamed(node) && Route(policy, path, node, hops, file, Regular(stat))
    ensures file in Selected(policy, path, node) && Selected(policy, path, node)[file] == stat
    decreases |hops|
  {
    if hops != [] {
      var k :| 0 <= k < |node.entries| && node.entries[k] == hops[0];
      RouteIsSelected(policy, Child(path, hops[0].name), hops[0].node, hops[1..], file, stat);
      RoutingEntry(policy, path, node, k, file);
    }
  }

  /** A file is selected, with this content and time, if and only if a route leads to it. */
  lemma SelectedExactlyWhen(policy: WalkPolicy, path: Path, node: Node, file: Path, stat: Stat)
    requires WellNamed(node)
    ensures (file in Selected(policy, path, node) && Selected(policy, path, node)[file] == stat) <==>
            Routed(policy, path, node, file, Regular(stat))
  {
    if file in Selected(policy, path, node) {
      SelectedHasRoute(policy, path, node, file);
    }
    if Routed(policy, path, node, file, Regular(stat)) {
      var hops :| Route(policy, path, node, hops, file, Regular(stat));
      RouteIsSelected(policy, path, node, hops, file, stat);
    }
  }

  // ----- all inputs together

  ghost predicate WellNamedInputs(inputs: seq<(Path, Node)>)
  {
    forall k :: 0 <= k < |inputs| ==> WellNamed(inputs[k].1)
  }

  /** Input `k` has a regular file at this path. */
  ghost predicate InputRoutes(policy: WalkPolicy, inputs: seq<(Path, Node)>, k: nat, file: Path, stat: Stat)
  {
    k < |inputs| && Routed(policy, inputs[k].0, inputs[k].1, file, Regular(stat))
  }

  /** The last input with a regular file at the path decides it. */
  ghost predicate LastRoutes(policy: WalkPolicy, inputs: seq<(Path, Node)>, k: nat, file: Path, stat: Stat)
  {
    InputRoutes(policy, inputs, k, file, stat) &&
    forall m: nat, other :: k < m < |inputs| ==> !InputRoutes(policy, inputs, m, file, other)
  }

  lemma {:induction false} InputSelecting(policy: WalkPolicy, inputs: seq<(Path, Node)>, file: Path) returns (k: nat)
    requires file in SelectedInputs(policy, inputs)
    ensures k < |inputs| && file in Selected(policy, inputs[k].0, inputs[k].1)
    ensures Selected(policy, inputs[k].0, inputs[k].1)[file] == SelectedInputs(policy, inputs)[file]
    ensures forall m :: k < m < |inputs| ==> file !in Selected(policy, inputs[m].0, inputs[m].1)
  {
    if file in SelectedInputs(policy, inputs[1..]) {
      k := InputSelecting(policy, inputs[1..], file);
      k := k + 1;
      forall m | k < m < |inputs| ensures file !in Selected(policy, inputs[m].0, inputs[m].1) {
        assert inputs[m] == inputs[1..][m - 1];
      }
    } else {
      k := 0;
      forall m | k < m < |inputs| ensures file !in Selected(policy, inputs[m].0, inputs[m].1) {
        assert inputs[m] == inputs[1..][m - 1];
        if file in Selected(policy, inputs[m].0, inputs[m].1) { SelectedByInput(policy, inputs[1..], m - 1, file); }
      }
    }
  }

  lemma {:induction false} SelectedByInput(policy: WalkPolicy, inputs: seq<(Path, Node)>, k: nat, file: Path)
    requires k < |inputs| && file in Selected(policy, inputs[k].0, inputs[k].1)
    ensures file in SelectedInputs(policy, inputs)
  {
    if k > 0 { SelectedByInput(policy, inputs[1..], k - 1, file); }
  }

  /** A file is selected, with this content and time, if and only if the last input that routes to it does. */
  lemma InputsExactlyWhen(policy: WalkPolicy, inputs: seq<(Path, Node)>, file: Path, stat: Stat)
    requires WellNamedInputs(inputs)
    ensures (file in SelectedInputs(policy, inputs) && SelectedInputs(policy, inputs)[file] == stat) <==>
            exists k: nat :: LastRoutes(policy, inputs, k, file, stat)
  {
    if file in SelectedInputs(policy, inputs) {
      var k := InputSelecting(policy, inputs, file);
      SelectedExactlyWhen(policy, inputs[k].0, inputs[k].1, file, SelectedInputs(policy, inputs)[file]);
      forall m: nat, other | k < m < |inputs| ensures !InputRoutes(policy, inputs, m, file, other) {
        SelectedExactlyWhen(policy, inputs[m].0, inputs[m].1, file, other);
      }
      assert LastRoutes(policy, inputs, k, file, SelectedInputs(policy, inputs)[file]);
    }
    if exists k: nat :: LastRoutes(policy, inputs, k, file, stat) {
      var k: nat :| LastRoutes(policy, inputs, k, file, stat);
      SelectedExactlyWhen(policy, inputs[k].0, inputs[k].1, file, stat);
      SelectedByInput(policy, inputs, k, file);
      var m := InputSelecting(policy, inputs, file);
      SelectedExactlyWhen(policy, inputs[m].0, inputs[m].1, file, SelectedInputs(policy, inputs)[file]);
      assert InputRoutes(policy, inputs, m, file, SelectedInputs(policy, inputs)[file]);
    }
  }

  // ----- routes hop by hop

  function HopNames(hops: seq<Entry>): (names: seq<string>)
    ensures |names| == |hops| && forall k :: 0 <= k < |hops| ==> names[k] == hops[k].name
  {
    seq(|hops|, k requires 0 <= k < |hops| => hops[k].name)
  }

  /** Where a route stands after `k` hops: the names so far between slashes, below the starting path. */
  function PathAfter(path: Path, hops: seq<Entry>, k: nat): Path
    requires k <= |hops|
  {
    if k == 0 then path
    else if path == "" then Join(HopNames(hops[..k]), '/')
    else Join([path] + HopNames(hops[..k]), '/')
  }

  function NodeAfter(node: Node, hops: seq<Entry>, k: nat): Node
    requires k <= |hops|
  {
    if k == 0 then node else hops[k - 1].node
  }

  /** A hop from a listed directory that is no excluded root, to an entry that is not skipped. */
  ghost predicate HopAllowed(policy: WalkPolicy, path: Path, node: Node, hop: Entry)
  {
    && node.Directory? && path !in policy.excludedRoots && hop in node.entries
    && ((hop.node.Directory? || hop.node.Unlistable?) ==>
          && hop.name !in policy.ignoredDirs
          && (hop.name in policy.hiddenDirs || hop.name == "" || hop.name[0] != '.'))
  }

  ghost predicate HopsAllowed(policy: WalkPolicy, path: Path, node: Node, hops: seq<Entry>)
  {
    forall k :: 0 <= k < |hops| ==>
      HopAllowed(policy, PathAfter(path, hops, k), NodeAfter(node, hops, k), hops[k])
  }

  lemma PathAfterFirst(path: Path, hops: seq<Entry>, k: nat)
    requires k < |hops| && hops[0].name != ""
    ensures PathAfter(path, hops, k + 1) == PathAfter(Child(path, hops[0].name), hops[1..], k)
  {
    var first, rest := hops[0].name, HopNames(hops[1..][..k]);
    assert HopNames(hops[..k + 1]) == [first] + rest;
    if k == 0 {
      assert [first] + rest == [first];
      assert path != "" ==> [path] + [first] == [path, first] && [path, first][1..] == [first];
    } else if path != "" {
      var names := [path] + ([first] + rest);
      assert names[1..] == [first] + rest && names == [path] + HopNames(hops[..k + 1]);
      assert ([first] + rest)[1..] == rest && ([path + "/" + first] + rest)[1..] == rest;
      assert path + "/" + (first + "/" + Join(rest, '/')) == path + "/" + first + "/" + Join(rest, '/');
      assert Join(names, '/') == path + "/" + Join([first] + rest, '/');
      assert Join([first] + rest, '/') == first + "/" + Join(rest, '/');
    }
  }

  lemma HopsAllowedFirst(policy: WalkPolicy, path: Path, node: Node, hops: seq<Entry>)
    requires hops != [] && hops[0].name != ""
    ensures HopsAllowed(policy, path, node, hops) <==>
            && HopAllowed(policy, path, node, hops[0])
            && HopsAllowed(policy, Child(path, hops[0].name), hops[0].node, hops[1..])
  {
    var below, rest := Child(path, hops[0].name), hops[1..];
    forall k | 0 <= k < |rest|
      ensures PathAfter(path, hops, k + 1) == PathAfter(below, rest, k)
      ensures NodeAfter(node, hops, k + 1) == NodeAfter(hops[0].node, rest, k) && hops[k + 1] == rest[k]
    {
      PathAfterFirst(path, hops, k);
    }
    if HopsAllowed(policy, path, node, hops) {
      assert HopAllowed(policy, PathAfter(path, hops, 0), NodeAfter(node, hops, 0), hops[0]);
      forall k | 0 <= k < |rest|
        ensures HopAllowed(policy, PathAfter(below, rest, k), NodeAfter(hops[0].node, rest, k), rest[k])
      {
        assert HopAllowed(policy, PathAfter(path, hops, k + 1), NodeAfter(node, hops, k + 1), hops[k + 1]);
      }
    }
    if HopAllowed(policy, path, node, hops[0]) && HopsAllowed(policy, below, hops[0].node, rest) {
      forall k | 0 <= k < |hops|
        ensures HopAllowed(policy, PathAfter(path, hops, k), NodeAfter(node, hops, k), hops[k])
      {
        if k > 0 {
          assert PathAfter(path, hops, k - 1 + 1) == PathAfter(below, rest, k - 1);
          assert HopAllowed(policy, PathAfter(below, rest, k - 1), NodeAfter(hops[0].node, rest, k - 1), rest[k - 1]);
        }
      }
    }
  }

  ghost predicate EndsAt(path: Path, node: Node, hops: seq<Entry>, at: Path, target: Node)
  {
    at == PathAfter(path, hops, |hops|) && target == NodeAfter(node, hops, |hops|)
  }

  lemma EndsAtFirst(path: Path, node: Node, hops: seq<Entry>, at: Path, target: Node)
    requires hops != [] && hops[0].name != ""
    ensures EndsAt(path, node, hops, at, target) <==>
            EndsAt(Child(path, hops[0].name), hops[0].node, hops[1..], at, target)
  {
    PathAfterFirst(path, hops, |hops| - 1);
  }

  lemma RouteFirst(policy: WalkPolicy, path: Path, node: Node, hops: seq<Entry>, at: Path, target: Node)
    requires hops != []
    ensures Route(policy, path, node, hops, at, target) <==>
            && HopAllowed(policy, path, node, hops[0])
            && Route(policy, Child(path, hops[0].name), hops[0].node, hops[1..], at, target)
  {
  }

  ghost predicate Named(hops: seq<Entry>)
  {
    forall k :: 0 <= k < |hops| ==> hops[k].name != ""
  }

  /** A route is a chain of allowed hops; it spells the path it ends at. */
  lemma {:induction false} RouteExactlyWhen(
    policy: WalkPolicy, path: Path, node: Node, hops: seq<Entry>, at: Path, target: Node)
    requires Named(hops)
    ensures Route(policy, path, node, hops, at, target) <==>
            HopsAllowed(policy, path, node, hops) && EndsAt(path, node, hops, at, target)
    decreases |hops|
  {
    if hops == [] {
      assert HopsAllowed(policy, path, node, hops);
    } else {
      RouteExactlyWhen(policy, Child(path, hops[0].name), hops[0].node, hops[1..], at, target);
      RouteFirst(policy, path, node, hops, at, target);
      EndsAtFirst(path, node, hops, at, target);
      HopsAllowedFirst(policy, path, node, hops);
    }
  }

  /** No route goes through a directory that is ignored, or hidden and not let in. */
  lemma {:induction false} RoutesAvoidSkipped(
    policy: WalkPolicy, path: Path, node: Node, hops: seq<Entry>, at: Path, target: Node, k: nat)
    requires Route(policy, path, node, hops, at, target) && k < |hops| && IsDirectory(hops[k].node)
    ensures hops[k].name !in policy.ignoredDirs
    ensures hops[k].name in policy.hiddenDirs || hops[k].name == "" || hops[k].name[0] != '.'
    decreases |hops|
  {
    if k > 0 {
      RoutesAvoidSkipped(policy, Child(path, hops[0].name), hops[0].node, hops[1..], at, target, k - 1);
    }
  }

  /** A directory that is neither ignored nor hidden is never skipped, and a hidden one that is let in neither. */
  lemma SkippedOnlyIf(policy: WalkPolicy, name: string)
    ensures SkipDirectory(policy, name) ==>
              name in policy.ignoredDirs || (StartsWith(name, ".") && name !in policy.hiddenDirs)
    ensures name in policy.ignoredDirs || (StartsWith(name, ".") && name !in policy.hiddenDirs) ==>
              SkipDirectory(policy, name)
  {
    if name != "" { assert name[..1] == [name[0]]; }
  }

  // ----- digests, read or reused

  function DirectEntry(digest: string -> Digest, stat: Stat): IndexEntry
  {
    IndexEntry(|stat.content|, stat.modified, digest(stat.content))
  }

  /** `snapshot_file`: reuse the previous entry while size and time agree, else read the file. */
  function IndexedEntry(digest: string -> Digest, previous: Index, path: Path, stat: Stat): IndexEntry
  {
    if path in previous && previous[path].byteCount == |stat.content| && previous[path].modified == stat.modified
    then previous[path] else DirectEntry(digest, stat)
  }

  function NextIndex(digest: string -> Digest, previous: Index, selected: map<Path, Stat>): Index
  {
    map path | path in selected :: IndexedEntry(digest, previous, path, selected[path])
  }

  function DirectIndex(digest: string -> Digest, selected: map<Path, Stat>): Index
  {
    map path | path in selected :: DirectEntry(digest, selected[path])
  }

  function FilesOf(index: Index): map<Path, SnapshotFile>
  {
    map path | path in index :: SnapshotFile(index[path].byteCount, index[path].digest)
  }

  /**
   A directory that cannot be listed, an entry without metadata, a file outside the root or a time
   before the epoch stops the walk; an input path without metadata is passed over.
   */
  predicate WalkableNode(policy: WalkPolicy, path: Path, node: Node)
    decreases node, 0
  {
    match node
    case Symlink => true
    case Special => true
    case Unlistable => path in policy.excludedRoots
    case Uninspectable => true
    case Outside => false
    case File(_, modified) => modified >= 0
    case Directory(entries) => path in policy.excludedRoots || WalkableEntries(policy, path, entries)
  }

  predicate WalkableEntries(policy: WalkPolicy, path: Path, entries: seq<Entry>)
    decreases entries, 1
  {
    entries == [] || (WalkableEntry(policy, path, entries[0]) && WalkableEntries(policy, path, entries[1..]))
  }

  predicate WalkableEntry(policy: WalkPolicy, path: Path, entry: Entry)
    decreases entry, 1
  {
    (IsDirectory(entry.node) && SkipDirectory(policy, entry.name)) ||
    (!entry.node.Uninspectable? && WalkableNode(policy, Child(path, entry.name), entry.node))
  }

  predicate WalkableInputs(policy: WalkPolicy, inputs: seq<(Path, Node)>)
  {
    inputs == [] || (WalkableNode(policy, inputs[0].0, inputs[0].1) && WalkableInputs(policy, inputs[1..]))
  }

  /** What no listing gets past, at the end of a route. */
  predicate Blocks(policy: WalkPolicy, hops: seq<Entry>, at: Path, target: Node)
  {
    || (target.Unlistable? && at !in policy.excludedRoots)
    || (target.Uninspectable? && hops != [])
    || target.Outside?
  }

  /** What the walk does not get past. */
  predicate Stops(policy: WalkPolicy, hops: seq<Entry>, at: Path, target: Node)
  {
    Blocks(policy, hops, at, target) || (target.File? && target.modified < 0)
  }

  ghost predicate Stopped(policy: WalkPolicy, path: Path, node: Node)
  {
    exists hops, at, target :: Route(policy, path, node, hops, at, target) && Stops(policy, hops, at, target)
  }

  lemma {:induction false} WalkableEach(policy: WalkPolicy, path: Path, entries: seq<Entry>)
    ensures WalkableEntries(policy, path, entries) <==>
            forall k :: 0 <= k < |entries| ==> WalkableEntry(policy, path, entries[k])
  {
    if entries != [] {
      WalkableEach(policy, path, entries[1..]);
      assert forall k :: 0 < k < |entries| ==> entries[k] == entries[1..][k - 1];
    }
  }

  lemma {:induction false} RouteStops(
    policy: WalkPolicy, path: Path, node: Node, hops: seq<Entry>, at: Path, target: Node)
    requires Route(policy, path, node, hops, at, target) && Stops(policy, hops, at, target)
    ensures !WalkableNode(policy, path, node)
    decreases |hops|
  {
    if hops != [] {
      WalkableEach(policy, path, node.entries);
      if Stops(policy, hops[1..], at, target) {
        RouteStops(policy, Child(path, hops[0].name), hops[0].node, hops[1..], at, target);
      }
    }
  }

  lemma {:induction false} UnwalkableIsStopped(policy: WalkPolicy, path: Path, node: Node)
    requires !WalkableNode(policy, path, node)
    ensures Stopped(policy, path, node)
    decreases node
  {
    if node.Directory? {
      WalkableEach(policy, path, node.entries);
      var k :| 0 <= k < |node.entries| && !WalkableEntry(policy, path, node.entries[k]);
      var entry := node.entries[k];
      var child := Child(path, entry.name);
      if entry.node.Uninspectable? {
        LongerRoute(policy, path, node, entry, [], child, entry.node);
      } else {
        UnwalkableIsStopped(policy, child, entry.node);
        var hops, at, target :| Route(policy, child, entry.node, hops, at, target) && Stops(policy, hops, at, target);
        LongerRoute(policy, path, node, entry, hops, at, target);
        assert Stops(policy, [entry] + hops, at, target);
      }
    } else {
      assert Route(policy, path, node, [], path, node) && Stops(policy, [], path, node);
    }
  }

  lemma LongerRoute(
    policy: WalkPolicy, path: Path, node: Node, entry: Entry, hops: seq<Entry>, at: Path, target: Node)
    requires node.Directory? && path !in policy.excludedRoots && entry in node.entries
    requires !(IsDirectory(entry.node) && SkipDirectory(policy, entry.name))
    requires Route(policy, Child(path, entry.name), entry.node, hops, at, target)
    ensures Route(policy, path, node, [entry] + hops, at, target)
  {
    assert ([entry] + hops)[1..] == hops;
  }

  /** The walk fails if and only if a route leads to something it does not get past. */
  lemma WalkFailsExactlyWhen(policy: WalkPolicy, path: Path, node: Node)
    ensures !WalkableNode(policy, path, node) <==> Stopped(policy, path, node)
  {
    if Stopped(policy, path, node) {
      var hops, at, target :| Route(policy, path, node, hops, at, target) && Stops(policy, hops, at, target);
      RouteStops(policy, path, node, hops, at, target);
    }
    if !WalkableNode(policy, path, node) {
      UnwalkableIsStopped(policy, path, node);
    }
  }

  ghost predicate SomeStopped(policy: WalkPolicy, inputs: seq<(Path, Node)>)
  {
    exists k :: 0 <= k < |inputs| && Stopped(policy, inputs[k].0, inputs[k].1)
  }

  /** The walk over all inputs fails if and only if that over some input does. */
  lemma {:induction false} InputsFailExactlyWhen(policy: WalkPolicy, inputs: seq<(Path, Node)>)
    ensures !WalkableInputs(policy, inputs) <==> SomeStopped(policy, inputs)
  {
    if inputs != [] {
      InputsFailExactlyWhen(policy, inputs[1..]);
      WalkFailsExactlyWhen(policy, inputs[0].0, inputs[0].1);
      if SomeStopped(policy, inputs) {
        var k :| 0 <= k < |inputs| && Stopped(policy, inputs[k].0, inputs[k].1);
        assert k > 0 ==> inputs[k] == inputs[1..][k - 1];
      }
      if SomeStopped(policy, inputs[1..]) {
        var k :| 0 <= k < |inputs[1..]| && Stopped(policy, inputs[1..][k].0, inputs[1..][k].1);
        assert inputs[k + 1] == inputs[1..][k];
      }
    }
  }

  /** Every directory on the way can be listed and every entry inspected; times may still be wrong. */
  ghost predicate Listable(policy: WalkPolicy, inputs: seq<(Path, Node)>)
  {
    forall k, hops, at, target ::
      0 <= k < |inputs| && Route(policy, inputs[k].0, inputs[k].1, hops, at, target) ==>
        !Blocks(policy, hops, at, target)
  }

  lemma {:induction false} WalkableInput(policy: WalkPolicy, inputs: seq<(Path, Node)>, k: nat)
    requires WalkableInputs(policy, inputs) && k < |inputs|
    ensures WalkableNode(policy, inputs[k].0, inputs[k].1)
  {
    if k > 0 { WalkableInput(policy, inputs[1..], k - 1); }
  }

  lemma WalkableIsListable(policy: WalkPolicy, inputs: seq<(Path, Node)>)
    requires WalkableInputs(policy, inputs)
    ensures Listable(policy, inputs)
  {
    forall k, hops, at, target | 0 <= k < |inputs| && Route(policy, inputs[k].0, inputs[k].1, hops, at, target)
      ensures !Blocks(policy, hops, at, target)
    {
      WalkableInput(policy, inputs, k);
      if Blocks(policy, hops, at, target) {
        RouteStops(policy, inputs[k].0, inputs[k].1, hops, at, target);
      }
    }
  }

  /** In a walk that succeeds every selected file has a time since the epoch. */
  lemma {:induction false} WalkableIsTimely(policy: WalkPolicy, inputs: seq<(Path, Node)>, path: Path)
    requires WalkableInputs(policy, inputs) && path in SelectedInputs(policy, inputs)
    ensures SelectedInputs(policy, inputs)[path].modified >= 0
  {
    if path in SelectedInputs(policy, inputs[1..]) {
      WalkableIsTimely(policy, inputs[1..], path);
    } else {
      var (start, node) := inputs[0];
      SelectedHasRoute(policy, start, node, path);
      var target := Regular(Selected(policy, start, node)[path]);
      var hops :| Route(policy, start, node, hops, path, target);
      if target.modified < 0 {
        RouteStops(policy, start, node, hops, path, target);
      }
    }
  }

  /** The maps `collect_snapshot_path` fills during one snapshot. */
  class Collector {
    const digest: string -> Digest
    const policy: WalkPolicy
    const previous: Index
    var nextIndex: Index
    var files: map<Path, SnapshotFile>

    constructor (digest: string -> Digest, policy: WalkPolicy, previous: Index)
      ensures this.digest == digest && this.policy == policy && this.previous == previous
      ensures nextIndex == map[] && files == map[]
    {
      this.digest, this.policy, this.previous := digest, policy, previous;
      nextIndex, files := map[], map[];
    }

    /** The state after adding the selected files to an earlier one. */
    ghost predicate Added(before: Index, filesBefore: map<Path, SnapshotFile>, selected: map<Path, Stat>)
      reads this
    {
      && nextIndex == before + NextIndex(digest, previous, selected)
      && files == filesBefore + FilesOf(NextIndex(digest, previous, selected))
    }

    method AddFile(path: Path, stat: Stat) returns (ok: bool)
      modifies this
      ensures ok == (stat.modified >= 0)
      ensures ok ==> Added(old(nextIndex), old(files), map[path := stat])
    {
      if stat.modified < 0 {
        return false;
      }
      var indexed := IndexedEntry(digest, previous, path, stat);
      files := files[path := SnapshotFile(indexed.byteCount, indexed.digest)];
      nextIndex := nextIndex[path := indexed];
      return true;
    }

    /** Fails where the walk cannot go on; otherwise adds exactly the selected files. */
    method CollectPath(path: Path, node: Node) returns (ok: bool)
      modifies this
      ensures ok == WalkableNode(policy, path, node)
      ensures ok ==> Added(old(nextIndex), old(files), Selected(policy, path, node))
      decreases node, 0
    {
      match node {
        case Symlink =>
          return true;
        case Special =>
          return true;
        case Unlistable =>
          return path in policy.excludedRoots;
        case Uninspectable =>
          return true;
        case Outside =>
          return false;
        case File(content, modified) =>
          ok := AddFile(path, Stat(content, modified));
        case Directory(entries) =>
          if path in policy.excludedRoots {
            return true;
          }
          ok := CollectEntries(path, entries);
      }
    }

    method CollectEntries(path: Path, entries: seq<Entry>) returns (ok: bool)
      modifies this
      ensures ok == WalkableEntries(policy, path, entries)
      ensures ok ==> Added(old(nextIndex), old(files), SelectedEntries(policy, path, entries))
      decreases entries, 1
    {
      if entries == [] {
        return true;
      }
      var entry := entries[0];
      ghost var first := SelectedEntry(policy, path, entry);
      if entry.node.Uninspectable? {
        return false;
      }
      if !IsDirectory(entry.node) || !SkipDirectory(policy, entry.name) {
        ok := CollectPath(Child(path, entry.name), entry.node);
        if !ok {
          return;
        }
      }
      assert Added(old(nextIndex), old(files), first);
      ok := CollectEntries(path, entries[1..]);
      if ok {
        AddingCombines(digest, previous, old(nextIndex), old(files), first,
                       SelectedEntries(policy, path, entries[1..]));
      }
    }

    /** The loop over the inputs of a snapshot. */
    method CollectInputs(inputs: seq<(Path, Node)>) returns (ok: bool)
      modifies this
      ensures ok == WalkableInputs(policy, inputs)
      ensures ok ==> Added(old(nextIndex), old(files), SelectedInputs(policy, inputs))
      decreases |inputs|
    {
      if inputs == [] {
        return true;
      }
      ok := CollectPath(inputs[0].0, inputs[0].1);
      if !ok {
        return;
      }
      ok := CollectInputs(inputs[1..]);
      if ok {
        AddingCombines(digest, previous, old(nextIndex), old(files), Selected(policy, inputs[0].0, inputs[0].1),
                       SelectedInputs(policy, inputs[1..]));
      }
    }
  }

  lemma AddingCombines(digest: string -> Digest, previous: Index, before: Index, files: map<Path, SnapshotFile>,
                       first: map<Path, Stat>, rest: map<Path, Stat>)
    ensures before + NextIndex(digest, previous, first) + NextIndex(digest, previous, rest) ==
            before + NextIndex(digest, previous, first + rest)
    ensures files + FilesOf(NextIndex(digest, previous, first)) + FilesOf(NextIndex(digest, previous, rest)) ==
            files + FilesOf(NextIndex(digest, previous, first + rest))
  {
    var a, b := NextIndex(digest, previous, first), NextIndex(digest, previous, rest);
    NextIndexOfUnion(digest, previous, first, rest);
    FilesOfUnion(a, b);
    UnionAssociates(before, a, b);
    UnionAssociates(files, FilesOf(a), FilesOf(b));
  }

  lemma NextIndexOfUnion(digest: string -> Digest, previous: Index, first: map<Path, Stat>, rest: map<Path, Stat>)
    ensures NextIndex(digest, previous, first + rest) ==
            NextIndex(digest, previous, first) + NextIndex(digest, previous, rest)
  {
  }

  lemma FilesOfUnion(a: Index, b: Index)
    ensures FilesOf(a + b) == FilesOf(a) + FilesOf(b)
  {
  }

  lemma EmptyUnion<K, V>(m: map<K, V>)
    ensures map[] + m == m
  {
  }

  lemma UnionAssociates<K, V>(a: map<K, V>, b: map<K, V>, c: map<K, V>)
    ensures a + b + c == a + (b + c)
  {
  }

  /** The bytes of all files, added up in path order. */
  function TotalBytes(files: map<Path, SnapshotFile>): nat
    decreases |files|
  {
    if files == map[] then 0
    else
      var path := FirstPath(files);
      files[path].byteCount + TotalBytes(files - {path})
  }

  /** Nothing adds up to nothing, one file to its size. */
  lemma SmallTotals(path: Path, file: SnapshotFile)
    ensures TotalBytes(map[]) == 0 && TotalBytes(map[path := file]) == file.byteCount
  {
    var one := map[path := file];
    assert FirstPath(one) == path && one - {path} == map[];
  }

  /** The order of adding does not matter. */
  lemma {:induction false} TotalWithout(files: map<Path, SnapshotFile>, path: Path)
    requires path in files
    ensures TotalBytes(files) == files[path].byteCount + TotalBytes(files - {path})
    decreases |files|
  {
    var first := FirstPath(files);
    if path != first {
      TotalWithout(files - {first}, path);
      FirstStays(files, path);
      assert files - {first} - {path} == files - {path} - {first};
    }
  }

  lemma FirstStays(files: map<Path, SnapshotFile>, path: Path)
    requires path in files && path != FirstPath(files)
    ensures files - {path} != map[] && FirstPath(files - {path}) == FirstPath(files)
  {
    var first := FirstPath(files);
    assert first in files - {path};
    assert IsLeast((files - {path}).Keys, first);
    LeastIsUnique((files - {path}).Keys, first, FirstPath(files - {path}));
  }

  function FirstPath(files: map<Path, SnapshotFile>): (path: Path)
    requires files != map[]
    ensures path in files && IsLeast(files.Keys, path)
  {
    HasLeast(files.Keys);
    assert forall a, b :: IsLeast(files.Keys, a) && IsLeast(files.Keys, b) ==> a == b by {
      forall a, b | IsLeast(files.Keys, a) && IsLeast(files.Keys, b) ensures a == b {
        LeastIsUnique(files.Keys, a, b);
      }
    }
    var path :| path in files && IsLeast(files.Keys, path);
    path
  }

  /** One snapshot through the index: its files, their total and the index to store, or a failure. */
  datatype Taken = Taken(files: map<Path, SnapshotFile>, byteCount: nat, next: Index) | WalkFailed

  function Take(digest: string -> Digest, policy: WalkPolicy, previous: Index, inputs: seq<(Path, Node)>): Taken
  {
    var next := NextIndex(digest, previous, SelectedInputs(policy, inputs));
    if WalkableInputs(policy, inputs) && TotalBytes(FilesOf(next)) < U64
    then Taken(FilesOf(next), TotalBytes(FilesOf(next)), next)
    else WalkFailed
  }

  method TakeSnapshot(digest: string -> Digest, policy: WalkPolicy, previous: Index, inputs: seq<(Path, Node)>)
    returns (taken: Taken)
    ensures taken == Take(digest, policy, previous, inputs)
  {
    var collector := new Collector(digest, policy, previous);
    var ok := collector.CollectInputs(inputs);
    if !ok {
      return WalkFailed;
    }
    ghost var next := NextIndex(digest, previous, SelectedInputs(policy, inputs));
    EmptyUnion(next);
    EmptyUnion(FilesOf(next));
    assert collector.nextIndex == next && collector.files == FilesOf(next);
    var byteCount := TotalBytes(collector.files);
    if byteCount >= U64 {
      return WalkFailed;
    }
    return Taken(collector.files, byteCount, collector.nextIndex);
  }

  /** The entry of a file: its size and time, with the stored digest where these agree, else that of its bytes. */
  ghost predicate EntryFor(digest: string -> Digest, previous: Index, file: Path, stat: Stat, entry: IndexEntry)
  {
    && entry.byteCount == |stat.content| && entry.modified == stat.modified
    && entry.digest ==
       if file in previous && previous[file].byteCount == |stat.content| && previous[file].modified == stat.modified
       then previous[file].digest else digest(stat.content)
  }

  lemma EntryExactlyWhen(digest: string -> Digest, previous: Index, file: Path, stat: Stat, entry: IndexEntry)
    ensures IndexedEntry(digest, previous, file, stat) == entry <==> EntryFor(digest, previous, file, stat, entry)
  {
  }

  /** Some last route gives the file the entry. */
  ghost predicate Enters(digest: string -> Digest, policy: WalkPolicy, previous: Index, inputs: seq<(Path, Node)>,
                         file: Path, entry: IndexEntry)
  {
    exists k: nat, stat ::
      LastRoutes(policy, inputs, k, file, stat) && EntryFor(digest, previous, file, stat, entry)
  }

  /** The next index holds exactly the entries that the routes of the inputs give. */
  lemma NextExactlyWhen(digest: string -> Digest, policy: WalkPolicy, previous: Index, inputs: seq<(Path, Node)>,
                        file: Path, entry: IndexEntry)
    requires WellNamedInputs(inputs)
    ensures var next := NextIndex(digest, previous, SelectedInputs(policy, inputs));
            file in next && next[file] == entry <==> Enters(digest, policy, previous, inputs, file, entry)
  {
    var selected := SelectedInputs(policy, inputs);
    if file in selected {
      InputsExactlyWhen(policy, inputs, file, selected[file]);
      EntryExactlyWhen(digest, previous, file, selected[file], entry);
    }
    forall k: nat, stat | LastRoutes(policy, inputs, k, file, stat) ensures file in selected && selected[file] == stat {
      InputsExactlyWhen(policy, inputs, file, stat);
    }
  }

  /** A snapshot is taken unless an input stops the walk or the bytes exceed 64 bits; then its files are as indexed. */
  lemma TakenExactlyWhen(digest: string -> Digest, policy: WalkPolicy, previous: Index, inputs: seq<(Path, Node)>)
    requires WellNamedInputs(inputs)
    ensures var taken := Take(digest, policy, previous, inputs);
            && (taken == WalkFailed <==>
                  || SomeStopped(policy, inputs)
                  || TotalBytes(FilesOf(NextIndex(digest, previous, SelectedInputs(policy, inputs)))) >=
                     0x1_0000_0000_0000_0000)
            && (taken.Taken? ==>
                  && taken.byteCount == TotalBytes(taken.files)
                  && taken.files.Keys == taken.next.Keys
                  && (forall file :: file in taken.next ==>
                        taken.files[file] == SnapshotFile(taken.next[file].byteCount, taken.next[file].digest))
                  && (forall file, entry :: file in taken.next && taken.next[file] == entry <==>
                        Enters(digest, policy, previous, inputs, file, entry)))
  {
    InputsFailExactlyWhen(policy, inputs);
    var next := NextIndex(digest, previous, SelectedInputs(policy, inputs));
    forall file, entry
      ensures file in next && next[file] == entry <==> Enters(digest, policy, previous, inputs, file, entry)
    {
      NextExactlyWhen(digest, policy, previous, inputs, file, entry);
    }
  }

  // ----- when the index tells the truth

  ghost predicate Injective(digest: string -> Digest)
  {
    forall x, y :: digest(x) == digest(y) ==> x == y
  }

  /** The selected files at successive moments of a project's life. */
  type History = seq<map<Path, Stat>>

  /** A snapshot at a moment of the history, possibly with the stored index lost or unreadable. */
  datatype Visit = Visit(moment: nat, indexLost: bool)

  ghost predicate IsSchedule(history: History, schedule: seq<Visit>)
  {
    && (forall k :: 0 <= k < |schedule| ==> schedule[k].moment < |history|)
    && (forall k, m :: 0 <= k < m < |schedule| ==> schedule[k].moment < schedule[m].moment)
  }

  /** The index found by the k-th visit. */
  ghost function IndexBefore(digest: string -> Digest, history: History, schedule: seq<Visit>, k: nat): Index
    requires IsSchedule(history, schedule) && k < |schedule|
    decreases k
  {
    if k == 0 || schedule[k].indexLost then map[]
    else NextIndex(digest, IndexBefore(digest, history, schedule, k - 1), history[schedule[k - 1].moment])
  }

  ghost predicate VisitCorrect(digest: string -> Digest, history: History, schedule: seq<Visit>, k: nat)
    requires IsSchedule(history, schedule) && k < |schedule|
  {
    var selected := history[schedule[k].moment];
    NextIndex(digest, IndexBefore(digest, history, schedule, k), selected) == DirectIndex(digest, selected)
  }

  ghost predicate AllVisitsCorrect(digest: string -> Digest, history: History)
  {
    forall schedule, k :: IsSchedule(history, schedule) && 0 <= k < |schedule| ==>
      VisitCorrect(digest, history, schedule, k)
  }

  /** No file comes back with the same size and time but other contents. */
  ghost predicate Honest(history: History)
  {
    forall i, j, path :: 0 <= i < j < |history| && path in history[i] && path in history[j] ==>
      SameStamp(history[i][path], history[j][path]) ==> history[i][path].content == history[j][path].content
  }

  predicate SameStamp(a: Stat, b: Stat)
  {
    |a.content| == |b.content| && a.modified == b.modified
  }

  lemma {:induction false} HonestVisit(digest: string -> Digest, history: History, schedule: seq<Visit>, k: nat)
    requires Honest(history) && IsSchedule(history, schedule) && k < |schedule|
    ensures VisitCorrect(digest, history, schedule, k)
    decreases k
  {
    if k > 0 && !schedule[k].indexLost {
      HonestVisit(digest, history, schedule, k - 1);
      var i, j := schedule[k - 1].moment, schedule[k].moment;
      assert i < j;
      HonestPair(digest, history, i, j);
    }
  }

  lemma HonestPair(digest: string -> Digest, history: History, i: nat, j: nat)
    requires Honest(history) && i < j < |history|
    ensures NextIndex(digest, DirectIndex(digest, history[i]), history[j]) == DirectIndex(digest, history[j])
  {
    var previous := DirectIndex(digest, history[i]);
    forall path | path in history[j]
      ensures IndexedEntry(digest, previous, path, history[j][path]) == DirectEntry(digest, history[j][path])
    {
    }
  }

  lemma DishonestPair(digest: string -> Digest, history: History, i: nat, j: nat, path: Path)
    requires Injective(digest) && i < j < |history| && path in history[i] && path in history[j]
    requires SameStamp(history[i][path], history[j][path]) && history[i][path].content != history[j][path].content
    ensures !AllVisitsCorrect(digest, history)
  {
    var schedule := [Visit(i, false), Visit(j, false)];
    assert IsSchedule(history, schedule);
    var found := IndexBefore(digest, history, schedule, 1);
    assert schedule[0] == Visit(i, false) && schedule[1] == Visit(j, false);
    assert IndexBefore(digest, history, schedule, 0) == map[];
    assert found == NextIndex(digest, map[], history[i]);
    assert IndexedEntry(digest, found, path, history[j][path]).digest == digest(history[i][path].content);
    assert NextIndex(digest, found, history[j])[path] != DirectIndex(digest, history[j])[path];
    assert !VisitCorrect(digest, history, schedule, 1);
  }

  /**
   Through every schedule of snapshots and index losses the indexed snapshot equals the one that
   reads every file, if and only if no file repeats its size and time with other contents.
   */
  lemma IndexCorrectExactlyWhen(digest: string -> Digest, history: History)
    requires Injective(digest)
    ensures AllVisitsCorrect(digest, history) <==> Honest(history)
  {
    if Honest(history) {
      forall schedule, k | IsSchedule(history, schedule) && 0 <= k < |schedule|
        ensures VisitCorrect(digest, history, schedule, k)
      {
        HonestVisit(digest, history, schedule, k);
      }
    } else {
      var i, j, path :| 0 <= i < j < |history| && path in history[i] && path in history[j] &&
        SameStamp(history[i][path], history[j][path]) && history[i][path].content != history[j][path].content;
      DishonestPair(digest, history, i, j, path);
    }
  }
}
