/**
 The workspace snapshot root: owner paths normalised, collected into an ordered map, and hashed
 part by part (src/provider_workspace_search_identity.rs). The hash itself is a parameter.
 */
module SnapshotRoot {
  import opened Decimals
  import opened Text
  import opened Lexical
  import opened Framing
  import opened Wrappers

  // ----- path normalisation

  /** One step of the fold over path components. */
  function PushComponent(stack: seq<string>, component: string): seq<string>
  {
    if component == "" || component == "." then stack
    else if component == ".." then (if stack == [] then [] else stack[..|stack| - 1])
    else stack + [component]
  }

  function FoldComponents(stack: seq<string>, components: seq<string>): seq<string>
    decreases |components|
  {
    if components == [] then stack else FoldComponents(PushComponent(stack, components[0]), components[1..])
  }

  function JoinStack(stack: seq<string>): string
  {
    if stack == [] then "" else Join(stack, '/')
  }

  function NormalizePath(path: string): string
  {
    JoinStack(FoldComponents([], Split(ForwardSlashes(path), '/')))
  }

  predicate Ordinary(component: string)
  {
    component != "" && component != "." && component != ".."
  }

  ghost predicate OrdinaryStack(stack: seq<string>)
  {
    forall i :: 0 <= i < |stack| ==> Ordinary(stack[i]) && Without(stack[i], '/') && Without(stack[i], '\\')
  }

  lemma {:induction false} FoldKeepsOrdinary(stack: seq<string>, components: seq<string>)
    requires OrdinaryStack(stack) && AllWithout(components, '/') && AllWithout(components, '\\')
    ensures OrdinaryStack(FoldComponents(stack, components))
    decreases |components|
  {
    if components != [] {
      assert Without(components[0], '/') && Without(components[0], '\\');
      assert AllWithout(components[1..], '/') && AllWithout(components[1..], '\\');
      FoldKeepsOrdinary(PushComponent(stack, components[0]), components[1..]);
    }
  }

  lemma {:induction false} FoldOrdinaryAppends(stack: seq<string>, components: seq<string>)
    requires OrdinaryStack(components)
    ensures FoldComponents(stack, components) == stack + components
    decreases |components|
  {
    if components != [] {
      assert Ordinary(components[0]);
      FoldOrdinaryAppends(stack + [components[0]], components[1..]);
      assert stack + [components[0]] + components[1..] == stack + components;
    } else {
      assert stack + components == stack;
    }
  }

  lemma ForwardSlashesIdentity(path: string)
    requires Without(path, '\\')
    ensures ForwardSlashes(path) == path
  {
  }

  /** A normalised path has only ordinary components, and normalising again changes nothing. */
  lemma NormalizeIdempotent(path: string)
    ensures var stack := FoldComponents([], Split(ForwardSlashes(path), '/'));
            OrdinaryStack(stack) && NormalizePath(path) == JoinStack(stack)
    ensures NormalizePath(NormalizePath(path)) == NormalizePath(path)
  {
    var forward := ForwardSlashes(path);
    JoinSplit(forward, '/');
    SplitKeepsOut(forward, '/', '\\');
    FoldKeepsOrdinary([], Split(forward, '/'));
    var stack := FoldComponents([], Split(forward, '/'));
    var normal := NormalizePath(path);
    if stack == [] {
      ForwardSlashesIdentity(normal);
      assert Split("", '/') == [""];
    } else {
      JoinKeepsOut(stack, '/', '\\');
      ForwardSlashesIdentity(normal);
      SplitJoin(stack, '/');
      FoldOrdinaryAppends([], stack);
      assert [] + stack == stack;
    }
  }

  /** What a component does to the depth. */
  function Weight(component: string): int
  {
    if component == "" || component == "." then 0 else if component == ".." then -1 else 1
  }

  /** The change of depth over the components from `i` to `j`. */
  function Balance(components: seq<string>, i: nat, j: nat): int
    requires j <= |components|
  {
    if j <= i then 0 else Balance(components, i, j - 1) + Weight(components[j - 1])
  }

  ghost predicate NeverBelow(components: seq<string>, start: nat, n: nat)
    requires n <= |components|
  {
    forall j: nat :: start <= j <= n ==> Balance(components, start, j) >= 0
  }

  /** A named component that no later `..` takes back: the depth never falls below its own. */
  ghost predicate Survives(components: seq<string>, i: nat, n: nat)
  {
    i < n <= |components| && Weight(components[i]) == 1 && NeverBelow(components, i + 1, n)
  }

  ghost predicate ArePositions(components: seq<string>, positions: seq<nat>, n: nat)
  {
    && (forall k :: 0 <= k < |positions| ==> positions[k] < n)
    && (forall k, m :: 0 <= k < m < |positions| ==> positions[k] < positions[m])
    && (forall i: nat :: i in positions <==> Survives(components, i, n))
  }

  function Pick(components: seq<string>, positions: seq<nat>): (picked: seq<string>)
    requires forall k :: 0 <= k < |positions| ==> positions[k] < |components|
    ensures |picked| == |positions|
    ensures forall k :: 0 <= k < |positions| ==> picked[k] == components[positions[k]]
  {
    seq(|positions|, k requires 0 <= k < |positions| && positions[k] < |components| => components[positions[k]])
  }

  lemma {:induction false} FoldAppend(stack: seq<string>, components: seq<string>, component: string)
    ensures FoldComponents(stack, components + [component]) ==
            PushComponent(FoldComponents(stack, components), component)
    decreases |components|
  {
    var longer := components + [component];
    if components == [] {
      assert longer[1..] == [];
    } else {
      FoldAppend(PushComponent(stack, components[0]), components[1..], component);
      assert longer[1..] == components[1..] + [component];
    }
  }

  /** The depth above each surviving position counts the survivors after it. */
  ghost predicate Counted(components: seq<string>, positions: seq<nat>, n: nat)
    requires n <= |components|
  {
    forall k :: 0 <= k < |positions| ==> Balance(components, positions[k] + 1, n) == |positions| - 1 - k
  }

  lemma SurvivesStep(components: seq<string>, i: nat, n: nat)
    requires n < |components|
    ensures Survives(components, i, n + 1) <==>
            if i == n then Weight(components[n]) == 1
            else Survives(components, i, n) && Balance(components, i + 1, n) + Weight(components[n]) >= 0
  {
    if i < n { NeverBelowStep(components, i + 1, n); }
  }

  lemma NeverBelowStep(components: seq<string>, start: nat, n: nat)
    requires start <= n < |components|
    ensures NeverBelow(components, start, n + 1) <==>
            NeverBelow(components, start, n) && Balance(components, start, n) + Weight(components[n]) >= 0
  {
    assert Balance(components, start, n + 1) == Balance(components, start, n) + Weight(components[n]);
  }

  lemma PushName(components: seq<string>, positions: seq<nat>, n: nat)
    requires n < |components| && ArePositions(components, positions, n) && Counted(components, positions, n)
    requires Weight(components[n]) == 1
    ensures ArePositions(components, positions + [n], n + 1) && Counted(components, positions + [n], n + 1)
  {
    forall i: nat ensures i in positions + [n] <==> Survives(components, i, n + 1) {
      SurvivesStep(components, i, n);
      if i in positions {
        var k :| 0 <= k < |positions| && positions[k] == i;
        assert Balance(components, positions[k] + 1, n) == |positions| - 1 - k;
      }
      if Survives(components, i, n) { assert i in positions; }
    }
  }

  lemma PassNoise(components: seq<string>, positions: seq<nat>, n: nat)
    requires n < |components| && ArePositions(components, positions, n) && Counted(components, positions, n)
    requires Weight(components[n]) == 0 || (Weight(components[n]) == -1 && positions == [])
    ensures ArePositions(components, positions, n + 1) && Counted(components, positions, n + 1)
  {
    forall i: nat ensures i in positions <==> Survives(components, i, n + 1) {
      SurvivesStep(components, i, n);
      if i in positions {
        var k :| 0 <= k < |positions| && positions[k] == i;
        assert Balance(components, positions[k] + 1, n) == |positions| - 1 - k;
      }
    }
  }

  lemma PopName(components: seq<string>, positions: seq<nat>, n: nat)
    requires n < |components| && ArePositions(components, positions, n) && Counted(components, positions, n)
    requires Weight(components[n]) == -1 && positions != []
    ensures var next := positions[..|positions| - 1];
            ArePositions(components, next, n + 1) && Counted(components, next, n + 1)
  {
    var m := |positions| - 1;
    var next := positions[..m];
    forall i: nat ensures i in next <==> Survives(components, i, n + 1) {
      SurvivesStep(components, i, n);
      if i in positions {
        var k :| 0 <= k < |positions| && positions[k] == i;
        assert Balance(components, positions[k] + 1, n) == m - k;
        if k < m { assert next[k] == i; }
      }
    }
  }

  lemma NextPositions(components: seq<string>, positions: seq<nat>, n: nat) returns (next: seq<nat>)
    requires n < |components| && ArePositions(components, positions, n) && Counted(components, positions, n)
    ensures ArePositions(components, next, n + 1) && Counted(components, next, n + 1)
    ensures Pick(components, next) == PushComponent(Pick(components, positions), components[n])
  {
    if Weight(components[n]) == 1 {
      PushName(components, positions, n);
      next := positions + [n];
    } else if Weight(components[n]) == 0 || positions == [] {
      PassNoise(components, positions, n);
      next := positions;
    } else {
      PopName(components, positions, n);
      next := positions[..|positions| - 1];
    }
  }

  lemma {:induction false} FoldSurvivors(components: seq<string>, n: nat) returns (positions: seq<nat>)
    requires n <= |components|
    ensures ArePositions(components, positions, n) && Counted(components, positions, n)
    ensures FoldComponents([], components[..n]) == Pick(components, positions)
  {
    if n == 0 {
      positions := [];
    } else {
      var before := FoldSurvivors(components, n - 1);
      positions := NextPositions(components, before, n - 1);
      assert components[..n] == components[..n - 1] + [components[n - 1]];
      FoldAppend([], components[..n - 1], components[n - 1]);
    }
  }

  /** Normalising keeps, in order, exactly the named components that no later `..` takes back. */
  lemma NormalizeKeepsSurvivors(path: string, components: seq<string>) returns (positions: seq<nat>)
    requires ComponentsOf(path, components)
    ensures ArePositions(components, positions, |components|)
    ensures NormalizePath(path) == if positions == [] then "" else Join(Pick(components, positions), '/')
  {
    ComponentsSplit(path, components);
    positions := FoldSurvivors(components, |components|);
    assert components[..|components|] == components;
  }

  // ----- the collected map and its ordered keys

  type Files = seq<(string, string)>

  /** `collect::<BTreeMap>`: later entries replace earlier ones. */
  function Collect(files: Files): map<string, string>
  {
    if files == [] then map[]
    else
      var last := files[|files| - 1];
      Collect(files[..|files| - 1])[NormalizePath(last.0) := last.1]
  }

  function OwnerPaths(files: Files): (paths: seq<string>)
    ensures |paths| == |files|
  {
    seq(|files|, i requires 0 <= i < |files| => NormalizePath(files[i].0))
  }

  lemma {:induction false} CollectKeys(files: Files)
    ensures forall p :: p in Collect(files) <==> p in OwnerPaths(files)
  {
    if files != [] {
      var init := files[..|files| - 1];
      CollectKeys(init);
      assert OwnerPaths(files) == OwnerPaths(init) + [NormalizePath(files[|files| - 1].0)];
    }
  }

  /** `files[k]` is the last entry whose path normalises to `p`. */
  ghost predicate LastFor(files: Files, p: string, k: nat)
  {
    && k < |files| && NormalizePath(files[k].0) == p
    && forall later :: k < later < |files| ==> NormalizePath(files[later].0) != p
  }

  /** The map holds, under each normalised path, the digest of the last entry for it. */
  lemma {:induction false} CollectExactlyWhen(files: Files, p: string, digest: string)
    ensures p in Collect(files) && Collect(files)[p] == digest <==>
            exists k: nat :: LastFor(files, p, k) && files[k].1 == digest
  {
    if files != [] {
      var n := |files| - 1;
      var init := files[..n];
      CollectExactlyWhen(init, p, digest);
      if NormalizePath(files[n].0) == p {
        assert LastFor(files, p, n);
      } else {
        forall k: nat ensures LastFor(files, p, k) <==> LastFor(init, p, k) { LastBefore(files, p, k); }
      }
    }
  }

  lemma LastBefore(files: Files, p: string, k: nat)
    requires files != [] && NormalizePath(files[|files| - 1].0) != p
    ensures LastFor(files, p, k) <==> LastFor(files[..|files| - 1], p, k)
  {
    var init := files[..|files| - 1];
    assert forall j :: 0 <= j < |init| ==> files[j] == init[j];
  }

  /** The map's keys in the order a `BTreeMap` yields them. */
  function OrderedPaths(files: Files): (paths: seq<string>)
    ensures StrictlySorted(paths)
    ensures forall p :: p in paths <==> p in Collect(files)
  {
    CollectKeys(files);
    SortedDistinct(OwnerPaths(files))
  }

  // ----- the root preimage

  const HEADER_PARTS: seq<string> :=
    ["asp.node.v1", "sourceSnapshot", "asp.source-snapshot.v1", "1", "none", "none", "none"]
  const LEAF_PARTS: seq<string> := ["asp.leaf.v1", "text", "application/vnd.asp.source-content-digest"]

  /** The bytes of a run of parts. */
  function PartsBytes(parts: seq<string>): string
  {
    if parts == [] then "" else BigField(parts[0]) + PartsBytes(parts[1..])
  }

  /** The digest of one source leaf. */
  function Leaf(hash: string -> string, digest: string): string
  {
    hash(PartsBytes(LEAF_PARTS + [digest]))
  }

  /** One child of the snapshot node: its path and leaf digest. */
  datatype Child = Child(path: string, leaf: string)

  function ChildParts(child: Child, index: nat): (parts: seq<string>)
    ensures |parts| == 5 && parts[1] == child.path && parts[3] == child.leaf
  {
    ["source", child.path, "blake3", child.leaf, BigEndian(index, 8)]
  }

  /** The parts of the children from `index` on, in path order. */
  function ChildrenParts(children: seq<Child>, index: nat): seq<string>
    requires index <= |children|
    decreases |children| - index
  {
    if index == |children| then [] else ChildParts(children[index], index) + ChildrenParts(children, index + 1)
  }

  function Children(hash: string -> string, paths: seq<string>, files: map<string, string>): (children: seq<Child>)
    requires forall p :: p in paths ==> p in files
    ensures |children| == |paths|
    ensures forall i :: 0 <= i < |paths| ==> children[i] == Child(paths[i], Leaf(hash, files[paths[i]]))
  {
    seq(|paths|, i requires 0 <= i < |paths| && paths[i] in files => Child(paths[i], Leaf(hash, files[paths[i]])))
  }

  function RootPreimage(hash: string -> string, files: Files): string
  {
    PartsBytes(HEADER_PARTS) + PartsBytes(ChildrenParts(Children(hash, OrderedPaths(files), Collect(files)), 0))
  }

  /** `WorkspaceSnapshot::from_file_hashes`: collect, then feed header and children. */
  method FromFileHashes(hash: string -> string, files: Files) returns (rootDigest: string)
    ensures rootDigest == hash(RootPreimage(hash, files))
  {
    var collected := CollectFiles(files);
    var hasher := new Hasher();
    FeedParts(hasher, HEADER_PARTS);
    FeedChildren(hasher, Children(hash, OrderedPaths(files), collected));
    assert "" + PartsBytes(HEADER_PARTS) == PartsBytes(HEADER_PARTS);
    rootDigest := hash(hasher.fed);
  }

  method CollectFiles(files: Files) returns (collected: map<string, string>)
    ensures collected == Collect(files)
  {
    collected := map[];
    for i := 0 to |files|
      invariant collected == Collect(files[..i])
    {
      assert files[..i + 1][..i] == files[..i];
      collected := collected[NormalizePath(files[i].0) := files[i].1];
    }
    assert files[..|files|] == files;
  }

  method FeedParts(hasher: Hasher, parts: seq<string>)
    modifies hasher
    ensures hasher.fed == old(hasher.fed) + PartsBytes(parts)
  {
    assert parts[0..] == parts;
    for i := 0 to |parts|
      invariant old(hasher.fed) + PartsBytes(parts) == hasher.fed + PartsBytes(parts[i..])
    {
      ghost var before := hasher.fed;
      hasher.UpdateBigField(parts[i]);
      assert parts[i..][1..] == parts[i + 1..];
      Associate(before, BigField(parts[i]), PartsBytes(parts[i + 1..]));
    }
  }

  method FeedChildren(hasher: Hasher, children: seq<Child>)
    modifies hasher
    ensures hasher.fed == old(hasher.fed) + PartsBytes(ChildrenParts(children, 0))
  {
    for index := 0 to |children|
      invariant old(hasher.fed) + PartsBytes(ChildrenParts(children, 0)) ==
                hasher.fed + PartsBytes(ChildrenParts(children, index))
    {
      ghost var before := hasher.fed;
      var parts := ChildParts(children[index], index);
      FeedParts(hasher, parts);
      PartsConcat(parts, ChildrenParts(children, index + 1));
      Associate(before, PartsBytes(parts), PartsBytes(ChildrenParts(children, index + 1)));
    }
  }

  lemma {:induction false} PartsConcat(parts: seq<string>, more: seq<string>)
    ensures PartsBytes(parts + more) == PartsBytes(parts) + PartsBytes(more)
  {
    if parts == [] {
      assert parts + more == more && "" + PartsBytes(more) == PartsBytes(more);
    } else {
      var field, tail := BigField(parts[0]), PartsBytes(parts[1..]);
      PartsConcat(parts[1..], more);
      assert (parts + more)[0] == parts[0] && (parts + more)[1..] == parts[1..] + more;
      assert PartsBytes(parts + more) == field + PartsBytes(parts[1..] + more);
      Associate(field, tail, PartsBytes(more));
    }
  }

  // ----- reading the preimage back

  /** The parts behind bytes, each cut off by the length it announces; none when bytes are left over. */
  function ReadParts(s: string): Option<seq<string>>
  {
    if s == "" then Some([])
    else
      match CutField(s, FromBig)
      case NoField => None
      case Cut(part, rest) =>
        if |rest| >= |s| then None
        else match ReadParts(rest) case None => None case Some(parts) => Some([part] + parts)
  }

  lemma {:induction false} PartsReadBack(parts: seq<string>)
    requires PartsFit(parts)
    ensures ReadParts(PartsBytes(parts)) == Some(parts)
  {
    if parts != [] {
      BigFieldReadsBack(parts[0], PartsBytes(parts[1..]));
      PartsReadBack(parts[1..]);
      assert [parts[0]] + parts[1..] == parts;
    }
  }

  /** A leaf digest hashes four parts, the content digest last. */
  lemma LeafLayout(hash: string -> string, digest: string) returns (fed: string)
    requires |digest| < U64
    ensures Leaf(hash, digest) == hash(fed)
    ensures ReadParts(fed) == Some(["asp.leaf.v1", "text", "application/vnd.asp.source-content-digest", digest])
  {
    var parts := ["asp.leaf.v1", "text", "application/vnd.asp.source-content-digest", digest];
    fed := PartsBytes(parts);
    assert LEAF_PARTS + [digest] == parts;
    PartsReadBack(parts);
  }

  /** The five parts at child `i`: role, path, algorithm, leaf digest and big-endian index. */
  ghost predicate IsChild(parts: seq<string>, i: nat, path: string, leaf: string)
  {
    && |parts| == 5 && parts[0] == "source" && parts[1] == path && parts[2] == "blake3" && parts[3] == leaf
    && |parts[4]| == 8 && FromBig(parts[4]) == i
  }

  /** The child's parts stand at position `at`. */
  ghost predicate ChildStands(parts: seq<string>, at: nat, i: nat, child: Child)
  {
    at + 5 <= |parts| && IsChild(parts[at..at + 5], i, child.path, child.leaf)
  }

  lemma ChildShifted(header: seq<string>, parts: seq<string>, at: nat, i: nat, child: Child)
    requires ChildStands(parts, at, i, child)
    ensures ChildStands(header + parts, |header| + at, i, child)
  {
    assert (header + parts)[|header| + at..|header| + at + 5] == parts[at..at + 5];
  }

  lemma ChildFirst(child: Child, i: nat, rest: seq<string>)
    requires i < U64
    ensures ChildStands(ChildParts(child, i) + rest, 0, i, child)
  {
    EightBytes();
    BigReadsBack(i, 8);
    assert (ChildParts(child, i) + rest)[0..5] == ChildParts(child, i);
  }

  lemma {:induction false} ChildPlaced(children: seq<Child>, index: nat, i: nat)
    requires index <= i < |children| && i < U64
    ensures ChildStands(ChildrenParts(children, index), 5 * (i - index), i, children[i])
    decreases |children| - index
  {
    if index == i {
      ChildFirst(children[i], i, ChildrenParts(children, i + 1));
    } else {
      ChildPlaced(children, index + 1, i);
      ChildShifted(ChildParts(children[index], index), ChildrenParts(children, index + 1),
                   5 * (i - index - 1), i, children[i]);
    }
  }

  /** The header, then five parts for each child. */
  ghost predicate IsLayout(parts: seq<string>, header: seq<string>, children: seq<Child>)
  {
    && |parts| == |header| + 5 * |children| && parts[..|header|] == header
    && forall i :: 0 <= i < |children| ==> ChildStands(parts, |header| + 5 * i, i, children[i])
  }

  lemma ChildAtFive(children: seq<Child>, i: nat)
    requires i < |children| < U64
    ensures ChildStands(ChildrenParts(children, 0), 5 * i, i, children[i])
  {
    ChildPlaced(children, 0, i);
  }

  lemma HeaderBefore(header: seq<string>, tail: seq<string>, children: seq<Child>)
    requires |tail| == 5 * |children|
    requires forall i :: 0 <= i < |children| ==> ChildStands(tail, 5 * i, i, children[i])
    ensures IsLayout(header + tail, header, children)
  {
    forall i | 0 <= i < |children| ensures ChildStands(header + tail, |header| + 5 * i, i, children[i]) {
      ChildShifted(header, tail, 5 * i, i, children[i]);
    }
  }

  lemma ChildrenLaidOut(header: seq<string>, children: seq<Child>)
    requires |children| < U64
    ensures IsLayout(header + ChildrenParts(children, 0), header, children)
  {
    ChildrenPartsLength(children, 0);
    forall i | 0 <= i < |children| ensures ChildStands(ChildrenParts(children, 0), 5 * i, i, children[i]) {
      ChildAtFive(children, i);
    }
    HeaderBefore(header, ChildrenParts(children, 0), children);
  }

  lemma PreimageReadsBack(header: seq<string>, children: seq<Child>)
    requires PartsFit(header) && ChildrenFit(children)
    ensures ReadParts(PartsBytes(header) + PartsBytes(ChildrenParts(children, 0))) ==
            Some(header + ChildrenParts(children, 0))
  {
    var tail := ChildrenParts(children, 0);
    ChildrenPartsFit(children, 0);
    PartsConcat(header, tail);
    PartsReadBack(header + tail);
  }

  /** The children are the files of the snapshot in path order, each with its leaf digest. */
  ghost predicate ChildrenOf(hash: string -> string, files: Files, children: seq<Child>)
  {
    && (forall i, j :: 0 <= i < j < |children| ==> Less(children[i].path, children[j].path))
    && (forall i :: 0 <= i < |children| ==> children[i].path in Collect(files))
    && (forall p :: p in Collect(files) ==> Child(p, Leaf(hash, Collect(files)[p])) in children)
  }

  lemma ChildrenAreFiles(hash: string -> string, files: Files)
    ensures ChildrenOf(hash, files, Children(hash, OrderedPaths(files), Collect(files)))
  {
    var paths := OrderedPaths(files);
    var children := Children(hash, paths, Collect(files));
    forall p | p in Collect(files) ensures Child(p, Leaf(hash, Collect(files)[p])) in children {
      assert p in paths;
      var i :| 0 <= i < |paths| && paths[i] == p;
      assert children[i] == Child(p, Leaf(hash, Collect(files)[p]));
    }
  }

  /** The bytes hashed for a snapshot read back as its header and its files in path order. */
  lemma RootLayout(hash: string -> string, files: Files) returns (parts: seq<string>, children: seq<Child>)
    requires Representable(hash, files) && |OrderedPaths(files)| < U64
    ensures ReadParts(RootPreimage(hash, files)) == Some(parts)
    ensures var header := ["asp.node.v1", "sourceSnapshot", "asp.source-snapshot.v1", "1", "none", "none", "none"];
            IsLayout(parts, header, children)
    ensures ChildrenOf(hash, files, children)
  {
    children := Children(hash, OrderedPaths(files), Collect(files));
    parts := HEADER_PARTS + ChildrenParts(children, 0);
    RepresentableChildren(hash, files);
    HeaderFits();
    PreimageReadsBack(HEADER_PARTS, children);
    ChildrenLaidOut(HEADER_PARTS, children);
    ChildrenAreFiles(hash, files);
  }

  lemma HeaderFits()
    ensures PartsFit(HEADER_PARTS)
  {
  }

  // ----- injectivity

  ghost predicate CollisionFree(hash: string -> string)
  {
    forall x, y :: hash(x) == hash(y) ==> x == y
  }

  ghost predicate PartsFit(parts: seq<string>)
  {
    forall i :: 0 <= i < |parts| ==> |parts[i]| < U64
  }

  /** Every length fits 64 bits. */
  ghost predicate Representable(hash: string -> string, files: Files)
  {
    forall p :: p in Collect(files) ==>
      |p| < U64 && |Collect(files)[p]| < U64 && |Leaf(hash, Collect(files)[p])| < U64
  }

  /** Length prefixes make a list of parts readable from its bytes alone. */
  lemma {:induction false} PartsInjective(parts: seq<string>, parts': seq<string>)
    requires PartsFit(parts) && PartsFit(parts') && PartsBytes(parts) == PartsBytes(parts')
    ensures parts == parts'
    decreases |parts|
  {
    PartsEmpty(parts);
    PartsEmpty(parts');
    if parts != [] {
      BigFieldPrefixFree(parts[0], parts'[0], PartsBytes(parts[1..]), PartsBytes(parts'[1..]));
      PartsInjective(parts[1..], parts'[1..]);
      assert parts == [parts[0]] + parts[1..] && parts' == [parts'[0]] + parts'[1..];
    }
  }

  lemma PartsEmpty(parts: seq<string>)
    ensures PartsBytes(parts) == "" <==> parts == []
  {
    if parts != [] {
      assert |BigField(parts[0])| >= 8;
    }
  }

  lemma LeafInjective(hash: string -> string, a: string, b: string)
    requires CollisionFree(hash) && |a| < U64 && |b| < U64 && Leaf(hash, a) == Leaf(hash, b)
    ensures a == b
  {
    var x, y := LEAF_PARTS + [a], LEAF_PARTS + [b];
    PartsInjective(x, y);
    assert x[|LEAF_PARTS|] == a && y[|LEAF_PARTS|] == b;
  }

  ghost predicate ChildrenFit(children: seq<Child>)
  {
    forall i :: 0 <= i < |children| ==> |children[i].path| < U64 && |children[i].leaf| < U64
  }

  lemma {:induction false} ChildrenPartsFit(children: seq<Child>, index: nat)
    requires index <= |children| && ChildrenFit(children)
    ensures PartsFit(ChildrenParts(children, index))
    decreases |children| - index
  {
    if index < |children| {
      ChildrenPartsFit(children, index + 1);
      assert |BigEndian(index, 8)| == 8;
    }
  }

  lemma {:induction false} ChildrenPartsLength(children: seq<Child>, index: nat)
    requires index <= |children|
    ensures |ChildrenParts(children, index)| == 5 * (|children| - index)
    decreases |children| - index
  {
    if index < |children| { ChildrenPartsLength(children, index + 1); }
  }

  /** Each child contributes five parts, its path and leaf at fixed offsets. */
  lemma {:induction false} ChildAt(children: seq<Child>, index: nat, i: nat)
    requires index <= i < |children|
    ensures var parts := ChildrenParts(children, index);
            && 5 * (i - index) + 4 < |parts|
            && children[i] == Child(parts[5 * (i - index) + 1], parts[5 * (i - index) + 3])
    decreases |children| - index
  {
    ChildrenPartsLength(children, index);
    if index < i { ChildAt(children, index + 1, i); }
  }

  lemma ChildrenPartsInjective(children: seq<Child>, children': seq<Child>)
    requires ChildrenParts(children, 0) == ChildrenParts(children', 0)
    ensures children == children'
  {
    ChildrenPartsLength(children, 0);
    ChildrenPartsLength(children', 0);
    forall i | 0 <= i < |children| ensures children[i] == children'[i] {
      ChildAt(children, 0, i);
      ChildAt(children', 0, i);
    }
  }

  lemma SameChildrenSameFiles(
    hash: string -> string, paths: seq<string>, files: map<string, string>, paths': seq<string>,
    files': map<string, string>)
    requires CollisionFree(hash)
    requires forall p :: p in paths <==> p in files
    requires forall p :: p in paths' <==> p in files'
    requires (forall p :: p in files ==> |files[p]| < U64) && (forall p :: p in files' ==> |files'[p]| < U64)
    requires Children(hash, paths, files) == Children(hash, paths', files')
    ensures files == files'
  {
    var children := Children(hash, paths, files);
    assert forall i :: 0 <= i < |paths| ==> children[i].path == paths[i] == paths'[i];
    assert paths == paths';
    forall p | p in files ensures files[p] == files'[p] {
      assert p in paths;
      var i :| 0 <= i < |paths| && paths[i] == p;
      assert children[i].leaf == Leaf(hash, files[p]) == Leaf(hash, files'[p]);
      LeafInjective(hash, files[p], files'[p]);
    }
    assert files.Keys == files'.Keys;
  }

  /** Two owner lists have the same root preimage if and only if they name the same snapshot. */
  lemma RootIdentifiesSnapshot(hash: string -> string, files: Files, files': Files)
    requires CollisionFree(hash) && Representable(hash, files) && Representable(hash, files')
    ensures RootPreimage(hash, files) == RootPreimage(hash, files') <==> Collect(files) == Collect(files')
  {
    var children := Children(hash, OrderedPaths(files), Collect(files));
    var children' := Children(hash, OrderedPaths(files'), Collect(files'));
    if Collect(files) == Collect(files') {
      SortedUnique(OrderedPaths(files), OrderedPaths(files'));
      assert children == children';
    }
    if RootPreimage(hash, files) == RootPreimage(hash, files') {
      RepresentableChildren(hash, files);
      RepresentableChildren(hash, files');
      SameBytesSameChildren(PartsBytes(HEADER_PARTS), children, children');
      SameChildrenSameFiles(hash, OrderedPaths(files), Collect(files), OrderedPaths(files'), Collect(files'));
    }
  }

  lemma SameBytesSameChildren(header: string, children: seq<Child>, children': seq<Child>)
    requires ChildrenFit(children) && ChildrenFit(children')
    requires header + PartsBytes(ChildrenParts(children, 0)) == header + PartsBytes(ChildrenParts(children', 0))
    ensures children == children'
  {
    SplitAt(header, header, PartsBytes(ChildrenParts(children, 0)), PartsBytes(ChildrenParts(children', 0)));
    ChildrenPartsFit(children, 0);
    ChildrenPartsFit(children', 0);
    PartsInjective(ChildrenParts(children, 0), ChildrenParts(children', 0));
    ChildrenPartsInjective(children, children');
  }

  lemma RepresentableChildren(hash: string -> string, files: Files)
    requires Representable(hash, files)
    ensures ChildrenFit(Children(hash, OrderedPaths(files), Collect(files)))
  {
    var paths := OrderedPaths(files);
    forall i | 0 <= i < |paths| ensures |paths[i]| < U64 && |Leaf(hash, Collect(files)[paths[i]])| < U64 {
      assert paths[i] in paths;
    }
  }
}
