# Proofs about the asp-rust policy and evidence provider

A Dafny model of the parts of the provider that carry algorithms: the workspace Build DAG and
the proof pilot's cycle oracle, the dev gate's content-addressed cache with its digest index and
its concurrent publication, the identity encodings (selectors, nested items, workspace snapshot,
projection items), HTTP/JSON framing and the server loop, the package-root and module-tree
worklists, the self-measuring `projectedBytes`, and the greedy glob matcher. Loops and
state-changing code are methods and classes proved against a specification; the specifications
are then related to independent definitions (walks and cycles, declarative globs, least closed
sets, the uncached gate, the stream alone).

Rust strings are modelled as their bytes, one character below 256 per byte. SHA-256 and BLAKE3 are
function parameters, assumed collision-free where a lemma says so.

| module | what it is about |
|---|---|
| `Wrappers`, `Digraph`, `Lexical`, `Text`, `Utf8`, `Decimals`, `Framing`, `Reachability` | options and results, graphs and walks, string order, `str` operations, UTF-8, numerals, length-prefixed fields, the stack search |
| `BuildDag`, `CycleOracle` | the dependency-first order and the proof pilot |
| `SnapshotIndex`, `DevGate`, `ConcurrentGate`, `UndisturbedGate`, `AtomicRename`, `Publication` | the dev-gate cache |
| `Selector`, `ProjectionItems`, `NestedItems`, `SnapshotRoot` | identities |
| `HttpHead`, `HttpRequest`, `ServerLoop` | the provider server |
| `PackageRoots`, `ModuleTree` | worklists |
| `ProjectedBytes`, `Glob` | the cost iteration and the matcher |

Where a promise turned out not to hold of the code, the model keeps the code, shows an input and
states exactly when the promise holds:

- The comment at src/exact_source_projection.rs:98-100 expects three rounds to settle
  `projectedBytes`. They leave it off by one in exactly two digit-boundary cases
  (`ProjectedBytes.ThreeRounds`), one byte short or one long (`ProjectedBytes.NotAlwaysStable`,
  `ProjectedBytes.NotAlwaysEnough`).
- The glob matcher places the last literal leftmost, so `a*b` rejects `abb`; it is complete for a
  pattern if and only if the pattern has no `*` or ends in one (`Glob.CompleteExactlyWhen`).
- Beyond the frame limit the outcome of `read_request` can depend on how the stream is cut, in
  exactly two families (`HttpRequest.CutIndependentExactlyWhen`), both inhabited
  (`HttpRequest.CutsDiffer`).
- The digest index is right over every schedule of snapshots if and only if no path shows two
  contents under one size and time (`SnapshotIndex.IndexCorrectExactlyWhen`).
- The cache key holds neither the gate label nor the order of the baseline packages, so a hit
  recorded under another label or order panics (`DevGate.DriftHappens`).
- The analysis of a miss reads the project again, and its report is stored under the snapshot taken
  before. An edit in between poisons the record: once it is undone, calls return the report on
  contents that are gone (`DevGate.PoisoningHappens`). A returned report is the uncached one on the
  contents walked if and only if the analysis behind it, the call's own or its record's maker's, has
  the same outcome there (`DevGate.CachedGateIsTransparent`, `ConcurrentGate.ConcurrentGateIsTransparent`);
  that holds whatever the analysis exactly when it saw the contents walked (`DevGate.QuietExactlyWhen`),
  and then failed stores and drift are the only differences (`DevGate.QuietGateIsTransparent`,
  `ConcurrentGate.QuietCallsAreTransparent`).
- The server has no timeout: a connection that never ends keeps the drain waiting
  (`ServerLoop.DrainBlockedExactlyWhen`).

The nested-item preimage has no scope count and bare tags. It would be ambiguous for arbitrary scope
kinds (`NestedItems.ArbitraryKindsCollide`), and identifies every item with the kinds the visitor
pushes (`NestedItems.EmittedPreimagesIdentify`).

## Model

| member | source | states |
|---|---|---|
| `BuildDag.DependencyVisitor.Visit` | src/workspace_dependency_graph.rs:267-292 | Visiting with the three colours either extends a dependency-first order by everything reachable, restoring the stack, or reports a real cycle or a real missing package; it terminates because unvisited packages shrink |
| `BuildDag.DependencyFirstPackageOrder` | src/workspace_dependency_graph.rs:223-240 | For every dependency map: succeeds if and only if every reached package is known and lies on no cycle; the order is dependency first and holds exactly the reached packages |
| `BuildDag.OrderHoldsReached` | src/workspace_dependency_graph.rs:223-240 | A dependency-first order that holds the starting packages holds everything reachable from them |
| `BuildDag.BuildCatalog` | src/workspace_dependency_graph.rs:137-188 | The catalog loop fails exactly on a repeated package name, otherwise maps each root to its package and each name to its root |
| `BuildDag.LocalDependencyNames` | src/workspace_dependency_graph.rs:204-221 | Sorted, without repeats, exactly the names of catalogued packages behind the dependency roots |
| `BuildDag.DerivedMapIsClosed` | src/workspace_dependency_graph.rs:190-221 | In the derived map every dependency is itself a key, so a missing package cannot arise |
| `BuildDag.EdgeIsDependency` | src/workspace_dependency_graph.rs:190-221 | An edge of the derived map is exactly a path dependency between two workspace packages |
| `BuildDag.LookupsNeverPanic` | src/workspace_dependency_graph.rs:242-265 | On a catalogued workspace neither `expect` can panic for any list of package names, and each entry describes the package of that name: its position, its root, its path dependencies sorted |
| `BuildDag.CyclesAgree` | src/workspace_dependency_graph.rs:190-221 | The derived map has a cycle exactly when the packages' own dependencies do |
| `BuildDag.WorkspaceOrderable` | src/workspace_dependency_graph.rs:223-240 | On a closed map over all packages, orderable means acyclic, and everything is reached |
| `BuildDag.DagOfOrder` | src/workspace_dependency_graph.rs:223-265 | Packages materialised from the order list each package once, dependencies strictly earlier |
| `BuildDag.DeriveBuildDag` | src/workspace_dependency_graph.rs:86-115 | For every workspace: a DAG is returned if and only if names are distinct and no package depends on itself through others; it lists each package once, at its index, after its dependencies; the missing-package error never occurs |
| `Digraph.StackClosesCycle` | src/workspace_dependency_graph.rs:267-292 | Meeting a package already on the visiting stack exhibits a directed cycle through it |
| `Digraph.OrderedIsAcyclic` | src/workspace_dependency_graph.rs:223-240 | A graph with a dependency-first order of all its nodes has no cycle, self-edges included |
| `CycleOracle.DfsHasCycle` | src/verification/formal_proof_pilot.rs:474-495 | With states shared across start nodes: true exhibits a cycle; false leaves the node finished and all finished nodes in dependency-first order |
| `CycleOracle.GraphHasDirectedCycle` | src/verification/formal_proof_pilot.rs:465-473 | For every node count and edge list: true if and only if the edge set has a directed cycle |
| `CycleOracle.PossibleDirectedEdges` | src/verification/formal_proof_pilot.rs:453-463 | The nested loops list the ordered pairs row by row |
| `CycleOracle.RowsFacts` | src/verification/formal_proof_pilot.rs:453-463 | That list holds each ordered pair of different nodes exactly once, n(n-1) in all |
| `CycleOracle.MasksEnumerateGraphs` | src/verification/formal_proof_pilot.rs:413-426 | Every mask below 2^(n(n-1)) lists a loop-free graph, and each such graph is listed by exactly one mask |
| `CycleOracle.MasksDecideAgreement` | src/verification/formal_proof_pilot.rs:410-451 | The rule core agrees with the oracle at every mask if and only if it does on every loop-free graph |
| `CycleOracle.CheckNodeCount` | src/verification/formal_proof_pilot.rs:413-445 | The mask loop finds no counterexample if and only if the rule core is right about every loop-free graph of that size, after 2^(n(n-1)) models; a counterexample is the real disagreement at the lowest mask that has one, and the count is that mask plus one |
| `CycleOracle.ExhaustiveDependencyGraphCheck` | src/verification/formal_proof_pilot.rs:410-451 | No counterexample if and only if the rule core is right on all graphs up to the bound, and then the model count is the sum of 2^(n(n-1)); a counterexample is the first in the order of node counts and masks, and the count its position there |
| `SnapshotIndex.Collector.CollectPath` | src/dev_gate/cache.rs:365-447 | The recursive walk succeeds as `WalkFailsExactlyWhen` says and then adds exactly the files that `SelectedExactlyWhen` characterises, digests reused or computed |
| `SnapshotIndex.SelectedExactlyWhen` | src/dev_gate/cache.rs:365-447 | On every well-named tree: a file is selected with its contents and time if and only if a route of entries leads to it through no symlink, skipped directory or excluded root |
| `SnapshotIndex.RouteExactlyWhen` | src/dev_gate/cache.rs:365-447 | A route is a chain of entries, each listed by the directory before it, that directory no excluded root, no directory entered that is ignored or hidden and not let in; its end is spelled by the names between slashes |
| `SnapshotIndex.InputsExactlyWhen` | src/dev_gate/cache.rs:142-171 | Over the whole list of inputs: a file is selected with its contents and time if and only if some input routes to it so and no later input routes to that path |
| `SnapshotIndex.SkippedOnlyIf` | src/dev_gate/cache.rs:413-416 | A directory name is skipped if and only if it is ignored, or starts with a dot and is not let in |
| `SnapshotIndex.WalkFailsExactlyWhen` | src/dev_gate/cache.rs:365-475 | The walk fails if and only if such a route leads to an unlistable directory, an entry without metadata, a file outside the root, or a time before the epoch; an input path itself without metadata is passed over |
| `SnapshotIndex.InputsFailExactlyWhen` | src/dev_gate/cache.rs:142-171 | The walk over all inputs fails if and only if a route of some input leads to what stops it |
| `SnapshotIndex.Collector.AddFile` | src/dev_gate/cache.rs:449-488 | One file: the stored digest when size and time agree, else the digest of its bytes |
| `SnapshotIndex.TakeSnapshot` | src/dev_gate/cache.rs:128-191 | The snapshot's files, byte total and next index over all inputs in order; fails on a failed walk or a total beyond 64 bits |
| `SnapshotIndex.TakenExactlyWhen` | src/dev_gate/cache.rs:128-191 | It fails if and only if a route stops the walk or the bytes reach 2^64; otherwise the next index holds exactly the entries that last routes give, stored digest where size and time agree, else the digest of the bytes, and the files repeat their sizes and digests |
| `SnapshotIndex.TotalWithout` | src/dev_gate/cache.rs:173-176 | The byte total is the sum over the files, whatever the order |
| `SnapshotIndex.SmallTotals` | src/dev_gate/cache.rs:173-176 | Nothing adds up to zero, one file to its size |
| `SnapshotIndex.IndexCorrectExactlyWhen` | src/dev_gate/cache.rs:128-191 | Over every schedule of snapshots of a history: all equal the ones read directly if and only if no path has two contents under one size and time |
| `SnapshotIndex.HonestVisit` | src/dev_gate/cache.rs:449-500 | On an honest history each stored entry is the true digest, so each snapshot is direct |
| `DevGate.CacheDirectory.RunDownstreamPolicy` | src/dev_gate/downstream.rs:103-249 | Hit and miss paths with their early exits, the analysis reading the project again, and stores that fail at the index, the temporary or the rename: the outcome, index and record of the gate function that transparency is about |
| `DevGate.LoadAfterStore` | src/dev_gate/cache.rs:291-318 | After a store, its own key loads that record if it is self-consistent, any other key of the same stem loads nothing, and every other key loads what it did before |
| `DevGate.KeyDetermines` | src/dev_gate/cache.rs:244-282 | Calls of one key have harness, authority, configuration, walked contents and the multiset of baseline receipts in common |
| `DevGate.KeyedApartMisses` | src/dev_gate/cache.rs:255-277 | After a call, a call with another authority or other baseline receipts never loads its record and ends as its uncached gate |
| `DevGate.MakerOfLoaded` | src/dev_gate/downstream.rs:137-178 | A record under a call's key was made by a call of the run with the same authority, receipts and contents; it drifts if and only if the maker's label or the order of its receipts differs |
| `DevGate.VerdictExactlyWhen` | src/dev_gate/downstream.rs:190-239 | When the uncached gate panics, and on which check, in terms of a clean report, its advice, the accepted plan and the baseline; otherwise it returns the report |
| `DevGate.HitAgrees` | src/dev_gate/downstream.rs:137-178 | A hit ends as the uncached gate on the contents that the record's maker analysed, except that another label or baseline order panics unless the report is rejected first |
| `DevGate.HitExactlyWhen` | src/dev_gate/downstream.rs:137-178 | For any record loaded, each panic and the return by its cause in the order of the checks: report, plan, receipt, baseline receipts, baseline |
| `DevGate.IndexedIsDirect` | src/dev_gate/cache.rs:449-488 | Through a sound index the snapshot is the direct one and the next index is sound |
| `DevGate.TakenIsTrue` | src/dev_gate/cache.rs:128-191 | With a true index the snapshot is taken exactly when the undisturbed walk succeeds, and then holds the true files |
| `DevGate.GateStores` | src/dev_gate/downstream.rs:103-249 | One call, whatever fails in it, leaves a true index and adds at most the record it makes |
| `DevGate.GateAgrees` | src/dev_gate/downstream.rs:103-249 | One call ends exactly as expected from the contents behind its report, the record loaded and the disk |
| `DevGate.RunStaysSound` | src/dev_gate/downstream.rs:103-249 | After every run of edits, also between a call's walk and its analysis, of lockfile changes, failing stores and cache damage, the index is true and every readable record was made by a call of the run |
| `DevGate.CachedGateIsTransparent` | src/dev_gate/downstream.rs:103-288 | After every such run a call ends exactly as expected from the contents its own analysis, or on a hit that of the run's call that made the record, has seen; a return is acceptable if asserted, and is the undisturbed gate's if and only if those contents have the outcome of the ones walked |
| `DevGate.QuietGateIsTransparent` | src/dev_gate/downstream.rs:103-288 | When no analysis saw other contents than its walk, a call differs from the undisturbed uncached gate only by failed stores and drifted hits |
| `DevGate.QuietExactlyWhen` | src/dev_gate/downstream.rs:180-239 | The outcomes on the contents seen and on those walked agree whatever the analysis if and only if the contents are the same |
| `DevGate.DriftHappens` | src/dev_gate/downstream.rs:156-169 | After any call that returned, the same call under another label panics although its uncached gate returns |
| `DevGate.PoisoningHappens` | src/dev_gate/downstream.rs:180-239 | For all trees: an edit between walk and analysis files the report on the second tree under the first's key, and after the edit is undone an undisturbed call returns that report |
| `ConcurrentGate.IndexReadIsSound` | src/dev_gate/cache.rs:494-500 | A finished read of the index's name, whatever was renamed meanwhile, gives an index that is true for its stamps |
| `ConcurrentGate.RecordReadIsMade` | src/dev_gate/cache.rs:291-318 | A finished read of a record's name gives a record that some call of the run made and published |
| `ConcurrentGate.LoadKeeps` | src/dev_gate/downstream.rs:137-178 | A hit takes a record of exactly its key that some call of the run made and published |
| `ConcurrentGate.StatKeeps` | src/dev_gate/cache.rs:405-488 | Reading one file of a tree that may have changed keeps what was read true to its stamps, and breaks off a walk over a tree that stood still only where it fails anyway |
| `ConcurrentGate.EndWalkKeeps` | src/dev_gate/cache.rs:128-191 | The files and the next index are true of the contents read, and of the tree listed if it stood still |
| `ConcurrentGate.CheckKeeps` | src/dev_gate/downstream.rs:180-239 | The analysis reads the tree on disk by then, and the record files its report under the contents read earlier |
| `ConcurrentGate.MoveKeeps` | src/dev_gate/downstream.rs:103-249 | Each step of a call, with its reads and stores as directory steps, keeps what the call knows and what the directory holds |
| `ConcurrentGate.RunKeepsSound` | src/dev_gate/downstream.rs:103-249 | Directory, stores and every call in flight stay sound under every interleaving of their steps with edits, failing reads, failing stores and crashes |
| `ConcurrentGate.HitExplained` | src/dev_gate/downstream.rs:137-178 | A hit's outcome is the one on the contents that the analysis of the record's maker saw |
| `ConcurrentGate.ConcurrentGateIsTransparent` | src/dev_gate/downstream.rs:103-288 | In every interleaving of concurrent calls, with edits between any two steps: a finished call has exactly the outcome on the contents its own analysis saw, or on a hit those seen by a call of the run that read the same contents and published the record, up to drift and its own failed reads or stores; a return is acceptable if asserted, and is the outcome on the contents it read if and only if the two outcomes agree |
| `ConcurrentGate.QuietCallsAreTransparent` | src/dev_gate/downstream.rs:103-288 | With an analysis behind it that saw the contents read, a call has the uncached outcome on those contents up to drift and its own failures, and on the tree listed if it stood still |
| `UndisturbedGate.LoneCallFinishes` | src/dev_gate/downstream.rs:103-249 | Every call on a tree whose walk succeeds has a run of its own steps to the end: reads, stores and analysis come through and it ends as the uncached gate |
| `UndisturbedGate.SecondCallHits` | src/dev_gate/downstream.rs:103-249 | Every call that returns has a run in which it and then the same call again return the uncached report, the second by loading the record of the first |
| `AtomicRename.RenameKeeps` | src/dev_gate/cache.rs:356-356 | Renaming over a destination keeps the directory invariant: files match what their writers wrote, every destination was published whole |
| `AtomicRename.RenamePublishes` | src/dev_gate/cache.rs:356-362 | The rename of a written file puts the complete content at the destination, removes the temporary, and leaves every other name as it was |
| `AtomicRename.RemovalSettles` | src/dev_gate/cache.rs:356-362 | After a failed rename the temporary goes if it can be removed, and the store counts as done exactly when it forgives another's file and one is there |
| `AtomicRename.WriteKeeps` | src/dev_gate/cache.rs:352-355 | A write through the handle touches no published file and no other writer's |
| `AtomicRename.WriteFinishes` | src/dev_gate/cache.rs:352-355 | Writing the remaining bytes completes the temporary without touching a name |
| `AtomicRename.CreateKeeps` | src/dev_gate/cache.rs:347-351 | Exclusive creation gives the writer a file and name of its own, or fails |
| `AtomicRename.CreationGives` | src/dev_gate/cache.rs:343-351 | A free temporary name gets a new empty file, a taken one ends the store and changes nothing |
| `AtomicRename.HeldNamesDiffer` | src/dev_gate/cache.rs:343-351 | Writers under way never share a temporary name, whatever their process identifiers |
| `AtomicRename.RemoveKeeps` | src/dev_gate/cache.rs:356-363 | Cleaning up after a failed rename removes only the writer's own file |
| `AtomicRename.ReadKeeps` | src/dev_gate/cache.rs:295-295 | A piecewise read stays a prefix of one published file |
| `AtomicRename.ReadFinishes` | src/dev_gate/cache.rs:291-296 | An undisturbed read of a name gets exactly the bytes it shows and meets the end |
| `AtomicRename.StepKeeps` | src/dev_gate/cache.rs:336-363 | Every step of any writer or reader keeps the directory invariant |
| `Publication.TemporariesDiffer` | src/dev_gate/cache.rs:343-344 | Temporary names are injective in process and sequence, and records' never equal the index's |
| `Publication.TemporaryIsNoDestination` | src/dev_gate/cache.rs:509-514 | No temporary is a published name |
| `Publication.RecordMeetsIndexExactlyWhen` | src/dev_gate/cache.rs:490-492 | A record takes the index's name if and only if its stem is the index's |
| `Publication.DigestKeysAvoidIndex` | src/dev_gate/cache.rs:548-568 | Keys as the gate makes them never do |
| `Publication.RunKeepsInvariant` | src/dev_gate/cache.rs:336-363 | The invariant holds after every interleaving, with crashes and reused process identifiers |
| `Publication.PublishedNamesAreWhole` | src/dev_gate/cache.rs:336-363 | In every run each published name is absent or holds one store's complete bytes for that name |
| `Publication.FinishedReadsAreWhole` | src/dev_gate/cache.rs:291-296 | A read that met the end got one store's complete bytes, whatever was renamed meanwhile |
| `Publication.LoadsExactlyTheStored` | src/dev_gate/cache.rs:291-318 | A load returns the record it found if and only if its key is the requested one and its digests agree, even when two keys share a stem |
| `Publication.SuccessIsLasting` | src/dev_gate/cache.rs:356-363 | After a store reports success its destination exists for the rest of the run |
| `Publication.StoreComesThrough` | src/dev_gate/cache.rs:336-363 | The steps of one undisturbed store, from any state reached that holds no temporaries, end in success with the destination showing its content and all other names as they were |
| `Publication.StoreIsFound` | src/dev_gate/cache.rs:336-363 | Afterwards looking up the destination finds exactly the content stored |
| `Publication.ForgivenExactlyWhen` | src/dev_gate/cache.rs:356-362 | A failed rename is forgiven if and only if the store is one of a record and its destination exists; an index store fails |
| `Publication.TemporaryFormats` | src/dev_gate/cache.rs:342-342 | The temporaries are spelled from process identifier and sequence number, with a marker for the index |
| `Publication.TakenMeansReused` | src/dev_gate/cache.rs:343-351 | Exclusive creation fails only on a reused process identifier or a wrapped sequence |
| `Publication.DistinctProcessesNeverCollide` | src/dev_gate/cache.rs:502-522 | With neither, it never fails |
| `Selector.EncodeComponent` | src/structural_selector.rs:106-117 | The loop over bytes gives the percent encoding that decoding inverts |
| `Selector.DecodeComponent` | src/structural_selector.rs:73-95 | The index-driven loop decodes as specified, rejecting malformed escapes and bytes that are no UTF-8 |
| `Selector.DecodeEncode` | src/structural_selector.rs:73-117 | Decoding an encoded component gives it back, for every UTF-8 string |
| `Selector.EncodeSpells` | src/structural_selector.rs:106-117 | Letters, digits and `-._~` print as themselves, every other byte as `%` and two upper-case hexadecimal digits, in order |
| `Selector.DecodeExactlyWhen` | src/structural_selector.rs:73-104 | A component decodes to a text if and only if it is a run of characters other than `%` and escapes with digits of either case that read as its bytes, and these are UTF-8; the two errors exactly otherwise |
| `Selector.EncodedAlphabet` | src/structural_selector.rs:106-117 | An encoded component holds only unreserved characters and percent signs |
| `Selector.EncodeIdentityPath` | src/structural_selector.rs:56-71 | The path is the encoded kind, symbol and scopes in order |
| `Selector.CollectScopes` | src/structural_selector.rs:28-49 | The component loop reads the scopes in order, with the same errors |
| `Selector.ParseCanonicalItemSelector` | src/structural_selector.rs:6-53 | Scheme, last fragment, components, scopes and validation, with each error, as the parse function that the round trip is about |
| `Selector.ParseExactlyWhen` | src/structural_selector.rs:6-53 | A text parses to an identity if and only if it is the language without `://`, the scheme, any owner, the last `#item/`, and slash-separated components that decode to kind, symbol and groups of `scope`, relation, kind and symbol, none of them blank |
| `Selector.ParseErrorExactlyWhen` | src/structural_selector.rs:6-53 | Each error if and only if its cause is the first: no scheme, no fragment, kind, symbol, an empty part, the first bad scope group, a blank part |
| `Utf8.ValidExactlyWhen` | src/structural_selector.rs:93-94 | Bytes are accepted as text if and only if they are the encodings of Unicode scalar values one after the other |
| `Utf8.BlankExactlyWhen` | src/content_identity.rs:107-189 | A component is blank if and only if it is a run of White_Space characters |
| `Selector.FragmentFound` | src/structural_selector.rs:10-12 | The last `#item/` is the printer's, even when the owner path holds one |
| `Selector.SplitPath` | src/structural_selector.rs:56-71 | Splitting the printed path at `/` gives exactly the encoded components |
| `Selector.RoundTripExactlyWhen` | src/structural_selector.rs:6-71 | Parsing a printed selector recovers the identity if and only if it is valid and its language has no `://`, for every owner |
| `Selector.ParsedIdentityReprints` | src/content_identity.rs:107-189 | Whatever parses is a valid identity that prints and parses back |
| `Selector.PathInjective` | src/structural_selector.rs:56-71 | Equal paths mean equal kind, symbol and scopes |
| `ProjectionItems.FilterSeen` | src/provider_server/projection.rs:238-245 | The seen-set filter keeps each item whose selector no earlier item has, in order |
| `ProjectionItems.ProjectItems` | src/provider_server/projection.rs:236-245 | The items are those of the first occurrence of each identity |
| `ProjectionItems.ItemsDescribe` | src/provider_server/projection.rs:240-304 | Each item carries kind and symbol of its artifact, its id is `item` and the encoded components between colons, and its selector is printed for the path and parses back |
| `ProjectionItems.ProjectOwner` | src/provider_server/projection.rs:229-304 | The items with their callable projections, or the error of the first kept item whose projection fails; repeated identities are never projected |
| `ProjectionItems.NamesIdentify` | src/provider_server/projection.rs:242-290 | Equal item ids, or equal selectors, mean equal identities |
| `ProjectionItems.ItemIdsDistinct` | src/provider_server/projection.rs:236-304 | Item ids within an owner are pairwise distinct |
| `ProjectionItems.EachIdentityKeptOnce` | src/provider_server/projection.rs:236-304 | Every parsed identity keeps exactly one item, its first |
| `NestedItems.FeedIdentity` | src/nested_item_facts.rs:432-470 | Feeding field by field gives exactly the preimage that injectivity is about |
| `NestedItems.PreimageReadsBack` | src/nested_item_facts.rs:432-470 | A reader of fields, tags and scopes gets back owner, kind, symbol, scopes and both owners from the bytes fed, under the same condition |
| `NestedItems.PreimageInjective` | src/nested_item_facts.rs:432-470 | The preimage identifies the item whenever no scope kind's length has low byte 0 or 1 |
| `NestedItems.ArbitraryKindsCollide` | src/nested_item_facts.rs:432-470 | With a 257-byte scope kind two different items share a preimage |
| `NestedItems.Visitor.Visit` | src/nested_item_facts.rs:204-413 | Visiting restores scopes and owners and appends exactly the facts of the subtree that `FactExactlyWhen` characterises |
| `NestedItems.Visitor.VisitImpl` | src/nested_item_facts.rs:252-266 | Both owners are swapped before recording, the scope pushed and popped, and everything restored |
| `NestedItems.Visitor.VisitTrait` | src/nested_item_facts.rs:296-304 | The trait is recorded under the outer owner, its members under itself, and everything restored |
| `NestedItems.NestedItemFacts` | src/nested_item_facts.rs:107-133 | Fails exactly for an empty owner path or syntax that does not parse, in that order; otherwise exactly the facts of the file's items, ordered by start, end, kind and symbol |
| `NestedItems.FactExactlyWhen` | src/nested_item_facts.rs:170-413 | A fact is emitted if and only if a chain of nested nodes from the file ends at a node with a symbol and a slice; its scopes are the labels and symbols of the scope-opening nodes above, its impl owner the self type of the deepest impl, its trait owner that impl's trait path or the symbol of a trait above, whichever is deeper |
| `NestedItems.OneFactEach` | src/nested_item_facts.rs:170-413 | As many facts as nodes with a symbol and a slice |
| `NestedItems.SortFacts` | src/nested_item_facts.rs:125-131 | The order is kept and no fact is lost or added |
| `NestedItems.OrderedByKeys` | src/nested_item_facts.rs:125-131 | Of two facts in order the earlier has the smaller start, then end, then kind, then symbol, or the same |
| `NestedItems.EmittedKinds` | src/nested_item_facts.rs:204-413 | Every emitted item's scope kinds have 2 to 255 bytes |
| `NestedItems.EmittedPreimagesIdentify` | src/nested_item_facts.rs:204-470 | Over all files and owners, emitted items with equal preimages are equal |
| `Framing.LittleFieldPrefixFree` | src/nested_item_facts.rs:457-460 | A little-endian length-prefixed field is prefix-free |
| `Framing.LittleFieldReadsBack` | src/nested_item_facts.rs:457-460 | The 64-bit little-endian length before a field cuts the field off whatever follows |
| `Framing.BigFieldPrefixFree` | src/provider_workspace_search_identity.rs:92-95 | A big-endian length-prefixed part is prefix-free |
| `Framing.BigFieldReadsBack` | src/provider_workspace_search_identity.rs:92-95 | The 64-bit big-endian length before a part cuts the part off whatever follows |
| `SnapshotRoot.NormalizeIdempotent` | src/provider_workspace_search_identity.rs:67-82 | Normalised paths have only ordinary components, and normalising again changes nothing |
| `SnapshotRoot.NormalizeKeepsSurvivors` | src/provider_workspace_search_identity.rs:67-82 | Between slashes of either kind, exactly the named components that no later `..` takes back are kept, in order; the depth after a component decides |
| `SnapshotRoot.CollectExactlyWhen` | src/provider_workspace_search_identity.rs:24-27 | Each normalised path has the digest of the last entry for it |
| `Lexical.LessExactlyWhen` | src/provider_workspace_search_identity.rs:24-27 | The order of the map's keys: a proper prefix, or smaller at the first difference |
| `SnapshotRoot.FromFileHashes` | src/provider_workspace_search_identity.rs:23-58 | The root digest is the hash of the preimage of the collected map |
| `SnapshotRoot.RootLayout` | src/provider_workspace_search_identity.rs:28-53 | The bytes hashed read back as the seven header parts and, for each file in path order, its role, path, algorithm, leaf digest and big-endian index |
| `SnapshotRoot.LeafLayout` | src/provider_workspace_search_identity.rs:84-90 | The bytes hashed for a leaf read back as its domain, kind, media type and the content digest |
| `SnapshotRoot.PartsInjective` | src/provider_workspace_search_identity.rs:92-95 | The bytes fed determine the sequence of parts |
| `SnapshotRoot.RootIdentifiesSnapshot` | src/provider_workspace_search_identity.rs:23-58 | Two inputs have one root preimage if and only if their normalised path-to-digest maps are equal |
| `HttpHead.HeadExactlyWhen` | src/provider_server/http_json.rs:132-156 | Every header: accepted with a verb, path and length if and only if it is UTF-8 and is CRLF-joined lines whose first spells the request and whose first Content-Length spells the length |
| `HttpHead.HeadErrorExactlyWhen` | src/provider_server/http_json.rs:132-156 | Each error exactly when: not UTF-8, a blank first line, one word, no request, a first Content-Length that is no number |
| `HttpHead.RequestLineExactlyWhen` | src/provider_server/http_json.rs:138-149 | A line gives verb, path and version if and only if it is blanks, verb, blanks, path, blanks, the version and anything after a boundary |
| `HttpHead.NumberExactlyWhen` | src/provider_server/http_json.rs:153-153 | A value is read as a number if and only if it is blanks, an optional plus, digits of that value within 64 bits, and blanks |
| `HttpHead.FirstContentLengthWins` | src/provider_server/http_json.rs:150-156 | The first Content-Length field, in any case of letters, decides whatever follows |
| `HttpHead.FieldNameExactlyWhen` | src/provider_server/http_json.rs:150-153 | A field is recognised if and only if the text before its first colon spells content-length in any mixture of cases |
| `HttpHead.LengthExactlyWhen` | src/provider_server/http_json.rs:150-156 | The length is the number the first Content-Length field spells, or zero exactly without one |
| `HttpRequest.BufferHeader` | src/provider_server/http_json.rs:113-131 | The first loop stops as specified with exactly the delivered bytes, never more than limit + 4095 |
| `HttpRequest.BufferFrame` | src/provider_server/http_json.rs:164-174 | The second loop ends with the whole frame, or the stream was too short |
| `HttpRequest.FinishRequest` | src/provider_server/http_json.rs:132-180 | From the blank line on: head errors, both limit checks, early end, or exactly the body |
| `HttpRequest.ReadRequest` | src/provider_server/http_json.rs:113-180 | The reader's outcome for every stream and cut, with at most limit + 4095 bytes read |
| `HttpRequest.HeaderLoop` | src/provider_server/http_json.rs:113-131 | Where the first loop can stop, under every cut |
| `HttpRequest.AcceptedIsFrame` | src/provider_server/http_json.rs:113-180 | Whatever is accepted is the frame that the stream alone determines |
| `HttpRequest.AcceptedBeginsStream` | src/provider_server/http_json.rs:113-180 | Under every cut of every stream, an accepted request's body is the bytes right after the first blank line, and the bytes up to there spell its verb, its path and the length of its body |
| `HttpRequest.AcceptedExactlyWhen` | src/provider_server/http_json.rs:113-180 | A stream within the limit is accepted with a request if and only if it begins so |
| `HttpRequest.FrameExactlyWhen` | src/provider_server/http_json.rs:132-180 | The frame of a stream is a request if and only if the stream begins with it and the frame is within the limit |
| `HttpRequest.RejectedExactlyWhen` | src/provider_server/http_json.rs:113-180 | Below the limit each rejection exactly when: no blank line, a length beyond the limit, a body cut short, a head that spells nothing |
| `HttpRequest.WithinLimitIsFrame` | src/provider_server/http_json.rs:113-180 | A stream within the limit has one outcome under every cut |
| `HttpRequest.CutIndependentExactlyWhen` | src/provider_server/http_json.rs:113-180 | Every stream: the outcome is cut-independent if and only if the stream is not in one of two over-limit families |
| `HttpRequest.OvershootAccepted` | src/provider_server/http_json.rs:157-163 | A good frame near the limit of a longer stream is accepted byte by byte |
| `HttpRequest.OvershootRejected` | src/provider_server/http_json.rs:157-163 | The same stream is rejected when one read runs past the limit |
| `HttpRequest.LateBadHeadDiffers` | src/provider_server/http_json.rs:115-133 | A bad head just over the limit gets different errors under different cuts |
| `HttpRequest.CutsDiffer` | src/provider_server/http_json.rs:115-163 | Both families are inhabited: a padded request that ends at the limit, and bytes that are no UTF-8 up to it |
| `ServerLoop.ConnectionParallelism` | src/provider_server/http_json.rs:14-19 | Between 4 and 16, the value in range nearest to the available parallelism, 4 when unknown |
| `ServerLoop.RunKeepsInvariant` | src/provider_server/http_json.rs:46-91 | In every state of every run: in-flight within the parallelism, accepted = joined + in-flight, at most one accept after shutdown is set |
| `ServerLoop.NothingAcceptedAfterBreak` | src/provider_server/http_json.rs:58-80 | Once the loop head saw shutdown nothing more is accepted |
| `ServerLoop.OkMeansAllClean` | src/provider_server/http_json.rs:77-91 | An Ok return means every accepted connection completed without error |
| `ServerLoop.OkNeedsShutdown` | src/provider_server/http_json.rs:58-80 | Ok is returned only after the loop head saw shutdown, in a run without a fatal step |
| `ServerLoop.ErrExactlyWhen` | src/provider_server/http_json.rs:62-91 | The server has returned an error if and only if the watch closed, an accept failed or a connection was joined with an error |
| `ServerLoop.WaitingServes` | src/provider_server/http_json.rs:61-76 | While it waits it can accept if and only if fewer connections than the limit are in flight, and join exactly those that ended |
| `ServerLoop.DrainAdvances` | src/provider_server/http_json.rs:77-80 | Each server step of the drain returns or joins one connection |
| `ServerLoop.DrainBlockedExactlyWhen` | src/provider_server/http_json.rs:77-80 | The drain waits if and only if connections remain and every one of them is still running |
| `ServerLoop.DrainEndsOnceAllEnded` | src/provider_server/http_json.rs:77-80 | Once all remaining connections have ended it never waits, takes at most one step per connection and one more, and returns Ok if and only if none ended in an error |
| `PackageRoots.AdmittedPackageRoot` | src/project_resolution.rs:516-535 | Admitted exactly when inside the workspace, with a candidate manifest, and matching no exclude |
| `PackageRoots.ResolvePackageRoots` | src/project_resolution.rs:285-336 | The worklist ends with exactly the least set holding the admitted seeds and closed under admitted path dependencies, which is the packages at the end of a chain from a seed, each in the workspace, with a candidate manifest and matching no exclude; it fails exactly without seeds |
| `PackageRoots.InsertPathDependencyRoots` | src/discovery.rs:292-306 | The discovery worklist reaches the least closed set above its initial roots: those at the end of a chain of path dependencies with manifests, none excluded |
| `PackageRoots.InsertDependencies` | src/discovery.rs:308-320 | Adds exactly the insertable dependencies, and puts exactly the new roots on the worklist |
| `ModuleTree.ChildEdgesMeaning` | src/parser/module_tree.rs:138-188 | The edges of a file are exactly the existing files some declaration, path attribute or include leads to |
| `ModuleTree.ItemExactlyWhen` | src/parser/module_tree.rs:138-204 | An item leads to its include, and to its declared module unless inline or test-only and not wanted: the path attribute's file, else name.rs or name/mod.rs in the directory itself for lib.rs, main.rs and mod.rs, below the stem otherwise |
| `ModuleTree.ReachableFiles` | src/parser/module_tree.rs:99-129 | The stack loop ends with exactly the reachable files, despite duplicate entries |
| `ModuleTree.ChainsAreWalks` | src/parser/module_tree.rs:99-188 | Reachable means a chain of leading files from a root |
| `ModuleTree.CfgTestOnlyAdds` | src/parser/reasoning_tree.rs:205-243 | Following cfg(test) edges never loses a reachable file |
| `ModuleTree.UnreachableSourceFiles` | src/parser/module_tree.rs:44-65 | The reported files are exactly the source files no chain from a root reaches |
| `ModuleTree.RootExactlyWhen` | src/parser/module_tree.rs:206-226 | The roots below a source directory are lib.rs, main.rs, and bin/x or bin/x/main.rs |
| `Reachability.Search` | src/parser/module_tree.rs:108-128 | The pop/skip/push loop computes reachability and terminates |
| `ProjectedBytes.Cost.Stabilize` | src/exact_source_projection.rs:88-107 | Three rounds leave the recorded size within one byte of the true length, and exact if and only if no digit boundary is crossed |
| `ProjectedBytes.ThreeRounds` | src/exact_source_projection.rs:88-107 | For every base size and source length: within one byte, exact exactly outside two boundary cases |
| `ProjectedBytes.ShortSourceExact` | src/exact_source_projection.rs:73-107 | Exact whenever the source is no longer than the first measured size |
| `ProjectedBytes.NotAlwaysStable` | src/exact_source_projection.rs:88-107 | Base 500 and source 605 record 505 for a payload of 506 bytes |
| `ProjectedBytes.NotAlwaysEnough` | src/exact_source_projection.rs:88-107 | Base 997 and source 1012 record 1003 for a payload of 1002 bytes |
| `Glob.ComponentMatches` | src/discovery.rs:412-441 | The matcher decides: a match, and for a trailing literal no shorter prefix matches |
| `Glob.MatchParts` | src/parser/cargo_manifest.rs:329-358 | The loop over `remaining` decides leftmost placement of the parts |
| `Glob.GreedyDecides` | src/discovery.rs:412-441 | Leftmost placement accepts exactly the shortest matches, or all matches when the pattern ends in `*` |
| `Glob.GreedyIsShortest` | src/discovery.rs:425-438 | Greedy placement ends no later than any placement |
| `Glob.CompleteExactlyWhen` | src/discovery.rs:412-441 | Every matching value is accepted if and only if the pattern has no `*` or ends in one |
| `Glob.TrailingLiteralRejected` | src/discovery.rs:432-438 | `a*b` means `abb` but rejects it |
| `Glob.GlobPatternMatches` | src/discovery.rs:395-410 | Backslashes normalised on both sides, then component by component |
| `Glob.DiscoveryExactlyWhen` | src/discovery.rs:395-410 | With the components between slashes of either kind on both sides, as many on each and accepted one by one: no star crosses a slash |
| `Glob.WorkspaceMemberPatternMatches` | src/parser/cargo_manifest.rs:313-327 | Component by component, with equality for a pattern without `*` |
| `Glob.MemberExactlyWhen` | src/parser/cargo_manifest.rs:313-327 | The same with a star in the pattern, but a backslash in the path is no separator |
| `Glob.StarFreePath` | src/parser/cargo_manifest.rs:313-327 | A pattern without `*` accepts exactly itself |
| `Glob.CopiesAgreeExactlyWhen` | src/parser/cargo_manifest.rs:313-358 | The two copies agree on every backslash-free path if and only if the pattern has a `*` or no backslash |

## Left out

- Parsing and serialisation by `syn`, `cargo_toml`, `globset` and `serde_json`: syntax trees and manifests are datatypes, JSON codecs are parameters, a JSON payload's size is a constant plus digit counts.
- SHA-256 and BLAKE3 internals: injectivity is proved of what they are fed.
- I/O errors other than those named: a file whose metadata can be read but whose contents cannot, permissions.
- The owner dependency cycle rule compared with the oracle (`owner_dependency_cycle_indices`) and the other rule cores: parameters.
- Shift overflow of the mask count: unreachable because more than five nodes are rejected before the check (src/verification/formal_proof_pilot.rs:294).
- Lexical path normalisation for packages: a given function; the Build DAG takes roots already normalised and without repeats, as src/parser/cargo_package_graph.rs:61-75 delivers them.
- BuildDag.BuildCatalog: takes distinct roots, for that reason.
- DevGate.CachedGateIsTransparent: takes the analysis as a function of harness, configuration and selected contents, and one project per cache root, because the key holds nothing else; the walk and the analysis of a call are one moment each.
- DevGate.KeyDetermines: the key sorts baseline receipts by all their fields and is modelled over their multiset; the constant schema fields and the fixed package scope are left out of the material.
- DevGate.LoadAfterStore: the constant schema fields are left out.
- DevGate.CacheDirectory.RunDownstreamPolicy: one call at a time, index and record stores being single steps that succeed or fail; overlapping calls, reads file by file and stepwise stores are modelled in `ConcurrentGate`.
- ConcurrentGate.ConcurrentGateIsTransparent: the listing of the inputs and the analysis are one moment each; codecs read back what they print, and keys avoid the index's stem, as digests do.
- UndisturbedGate.LoneCallFinishes: takes a tree whose walk succeeds; a walk that fails ends the call as `ConcurrentGate.ConcurrentGateIsTransparent` says.
- SnapshotIndex.Collector.CollectPath: metadata and contents of one file are read in one step; entries are walked in the given order.
- SnapshotIndex.TakeSnapshot: the snapshot's own digest is part of the key in `DevGate`.
- AtomicRename.StepKeeps: the directory's steps are a state machine on values, not a class, because its writers belong to different processes; directory creation and `sync_all` are left out.
- ServerLoop.RunKeepsInvariant: the `select!` loop is a state machine over its branches rather than a method, because the branch order is the scheduler's.
- ProjectionItems.ProjectOwner: the callable projection itself is a given function of the item.
- NestedItems.NestedItemFacts: schema fields and slice digests are left out.
- ProjectedBytes.Cost.Stabilize: takes sizes that fit 64 bits with room for the digits, as any payload in memory does.
- PackageRoots.ResolvePackageRoots: the two errors for missing manifests before the worklist are left out.
- Renderers, receipts, report bundles, proof-packet fields, configuration builders, metrics and planners: record copying with no deep property.
- Environment variables, clocks and the network: parameters or absent.
