/**
 The downstream dev gate with its content-addressed result cache (src/dev_gate/downstream.rs:103-288,
 src/dev_gate/cache.rs:244-318). Digests, analysis, planning and the lockfile check are given
 functions; one cache serves one project root.
 */
module DevGate {
  import opened Wrappers
  import opened Text
  import opened Decimals
  import opened SnapshotIndex

  type Plan = string
  type Analysis = string
  type Lock = string

  datatype Package = Package(name: string, version: string, sourceContains: string)

  datatype Config = Config(allowsAdvice: bool, settings: string)

  datatype Policy = Policy(gateLabel: string, config: Config, baseline: Option<seq<Package>>)

  datatype Report = Report(clean: bool, advice: string, body: string)

  datatype Receipt = Receipt(gateLabel: string, baselinePackages: seq<Package>, planFacts: string)

  /** Everything the key digests: the receipts are sorted by all their fields, so only their multiset counts. */
  datatype KeyMaterial = KeyMaterial(
    harness: string,
    authority: string,
    config: Config,
    receipts: multiset<Package>,
    snapshotDigest: Digest)

  datatype Payload = Payload(report: Report, plan: Plan, receipt: Receipt, baselineReceipts: seq<Package>)

  datatype Record = Record(
    cacheKey: Digest,
    snapshotDigest: Digest,
    files: map<Path, SnapshotFile>,
    fileCount: nat,
    byteCount: nat,
    payloadDigest: Digest,
    payload: Payload)

  /** A cache file as it reads back. */
  datatype Stored = Readable(record: Record) | Unreadable

  /** The stored digest index, absent when missing or unreadable, and the records by file stem. */
  datatype Cache = Cache(index: Option<Index>, records: map<string, Stored>)

  datatype Env = Env(
    contentDigest: string -> Digest,
    filesDigest: map<Path, SnapshotFile> -> Digest,
    keyDigest: KeyMaterial -> Digest,
    payloadDigest: Payload -> Digest,
    walkPolicy: (Config, Node) -> WalkPolicy,
    inputs: (Config, Node) -> seq<(Path, Node)>,
    analyze: (string, Config, map<Path, string>) -> Option<Analysis>,
    report: (Analysis, Config) -> Report,
    plan: (Analysis, Config) -> Plan,
    planAccepted: (Plan, Config) -> bool,
    planFacts: Plan -> string,
    baselineHolds: (Lock, seq<Package>) -> bool)

  /** One gate call: which harness and authority, under which policy, asserting the report or not. */
  datatype Call = Call(harness: string, authority: string, policy: Policy, assertReport: bool)

  /** Whether a call manages to store the index, to write its record's temporary file, and to rename it. */
  datatype Disk = Disk(storesIndex: bool, writesRecord: bool, renamesRecord: bool)

  const WORKING: Disk := Disk(true, true, true)

  datatype Reason =
    | SnapshotFailed
    | AnalysisFailed
    | ReportRejected
    | PlanRejected
    | ReceiptDrift
    | BaselineDrift
    | BaselineFailed
    | PublishFailed

  datatype Outcome = Returned(report: Report) | Panicked(reason: Reason)

  // ----- the gate without a cache

  /** `build_report_rejection` */
  predicate Rejects(report: Report, config: Config)
  {
    !report.clean || (!config.allowsAdvice && report.advice != "")
  }

  function BaselineReceipts(policy: Policy): seq<Package>
  {
    match policy.baseline case None => [] case Some(packages) => packages
  }

  predicate BaselineFails(env: Env, lock: Lock, policy: Policy)
  {
    policy.baseline.Some? && !env.baselineHolds(lock, policy.baseline.value)
  }

  function SelectedFor(env: Env, config: Config, tree: Node): map<Path, Stat>
  {
    SelectedInputs(env.walkPolicy(config, tree), env.inputs(config, tree))
  }

  predicate WalkSucceeds(env: Env, config: Config, tree: Node)
  {
    && WalkableInputs(env.walkPolicy(config, tree), env.inputs(config, tree))
    && TotalBytes(ContentFiles(env, Contents(SelectedFor(env, config, tree)))) < U64
  }

  function Contents(selected: map<Path, Stat>): map<Path, string>
  {
    map path | path in selected :: selected[path].content
  }

  function ContentFiles(env: Env, contents: map<Path, string>): map<Path, SnapshotFile>
  {
    map path | path in contents :: SnapshotFile(|contents[path]|, env.contentDigest(contents[path]))
  }

  /** The contents a call's configuration selects from a tree. */
  function ContentsOf(env: Env, call: Call, tree: Node): map<Path, string>
  {
    Contents(SelectedFor(env, call.policy.config, tree))
  }

  function Analyzed(env: Env, call: Call, contents: map<Path, string>): Option<Analysis>
  {
    env.analyze(call.harness, call.policy.config, contents)
  }

  /** The checks after an analysis, in the order the gate makes them. */
  function FreshOutcome(env: Env, call: Call, lock: Lock, analysis: Analysis): Outcome
  {
    var report := env.report(analysis, call.policy.config);
    if call.assertReport && Rejects(report, call.policy.config) then Panicked(ReportRejected)
    else if !env.planAccepted(env.plan(analysis, call.policy.config), call.policy.config) then Panicked(PlanRejected)
    else if BaselineFails(env, lock, call.policy) then Panicked(BaselineFailed)
    else Returned(report)
  }

  /** The gate's outcome when it analyses these contents. */
  function UncachedOn(env: Env, call: Call, contents: map<Path, string>, lock: Lock): Outcome
  {
    match Analyzed(env, call, contents)
    case None => Panicked(AnalysisFailed)
    case Some(analysis) => FreshOutcome(env, call, lock, analysis)
  }

  /** When a call panics, and for which reason: in the order analysis, report, plan, baseline. */
  lemma VerdictExactlyWhen(env: Env, call: Call, contents: map<Path, string>, lock: Lock, analysis: Analysis)
    requires Analyzed(env, call, contents) == Some(analysis)
    ensures var outcome, config := UncachedOn(env, call, contents, lock), call.policy.config;
            var report := env.report(analysis, config);
            var rejected := call.assertReport && (!report.clean || (report.advice != "" && !config.allowsAdvice));
            var planned := env.planAccepted(env.plan(analysis, config), config);
            var held := call.policy.baseline.None? || env.baselineHolds(lock, call.policy.baseline.value);
            && (outcome == Panicked(ReportRejected) <==> rejected)
            && (outcome == Panicked(PlanRejected) <==> !rejected && !planned)
            && (outcome == Panicked(BaselineFailed) <==> !rejected && planned && !held)
            && (outcome == Returned(report) <==> !rejected && planned && held)
            && (outcome.Returned? ==> outcome.report == report)
  {
  }

  /** Without an analysis there is nothing to judge. */
  lemma NoVerdict(env: Env, call: Call, contents: map<Path, string>, lock: Lock)
    ensures UncachedOn(env, call, contents, lock) == Panicked(AnalysisFailed) <==>
            Analyzed(env, call, contents).None?
  {
  }

  /** An undisturbed call without a cache. */
  function Uncached(env: Env, call: Call, tree: Node, lock: Lock): Outcome
  {
    if !WalkSucceeds(env, call.policy.config, tree) then Panicked(SnapshotFailed)
    else UncachedOn(env, call, ContentsOf(env, call, tree), lock)
  }

  // ----- the gate with its cache

  function CacheKey(env: Env, call: Call, snapshotDigest: Digest): Digest
  {
    env.keyDigest(KeyMaterial(call.harness, call.authority, call.policy.config,
                              multiset(BaselineReceipts(call.policy)), snapshotDigest))
  }

  /** `cache_file_stem`: the part of the key after its last colon. */
  function FileStem(key: Digest): string
  {
    match RFind(key, ":")
    case None => key
    case Some(i) => key[i + 1..]
  }

  predicate SelfConsistent(env: Env, record: Record)
  {
    && record.fileCount == |record.files|
    && TotalBytes(record.files) < U64 && record.byteCount == TotalBytes(record.files)
    && record.snapshotDigest == env.filesDigest(record.files)
    && record.payloadDigest == env.payloadDigest(record.payload)
  }

  function Load(env: Env, cache: Cache, key: Digest): (r: Option<Record>)
    ensures r.Some? ==> r.value.cacheKey == key && SelfConsistent(env, r.value)
    ensures r.Some? ==> r.value.fileCount == |r.value.files|
    ensures r.Some? ==> r.value.byteCount == TotalBytes(r.value.files) < U64
    ensures r.Some? ==> r.value.snapshotDigest == env.filesDigest(r.value.files)
    ensures r.Some? ==> r.value.payloadDigest == env.payloadDigest(r.value.payload)
  {
    if FileStem(key) in cache.records && cache.records[FileStem(key)].Readable? &&
       cache.records[FileStem(key)].record.cacheKey == key && SelfConsistent(env, cache.records[FileStem(key)].record)
    then Some(cache.records[FileStem(key)].record) else None
  }

  function ReceiptFor(env: Env, policy: Policy, plan: Plan): Receipt
  {
    Receipt(policy.gateLabel, BaselineReceipts(policy), env.planFacts(plan))
  }

  function HitOutcome(env: Env, call: Call, lock: Lock, payload: Payload): Outcome
  {
    if call.assertReport && Rejects(payload.report, call.policy.config) then Panicked(ReportRejected)
    else if !env.planAccepted(payload.plan, call.policy.config) then Panicked(PlanRejected)
    else if payload.receipt != ReceiptFor(env, call.policy, payload.plan) then Panicked(ReceiptDrift)
    else if payload.baselineReceipts != BaselineReceipts(call.policy) then Panicked(BaselineDrift)
    else if BaselineFails(env, lock, call.policy) then Panicked(BaselineFailed)
    else Returned(payload.report)
  }

  /** Every outcome of a hit by its cause, in the order the gate checks. */
  lemma HitExactlyWhen(env: Env, call: Call, lock: Lock, payload: Payload)
    ensures var outcome, policy := HitOutcome(env, call, lock, payload), call.policy;
            var report, receipt := payload.report, payload.receipt;
            var wanted := match policy.baseline case None => [] case Some(packages) => packages;
            var passed := !call.assertReport ||
                          (report.clean && (report.advice == "" || policy.config.allowsAdvice));
            var planned := env.planAccepted(payload.plan, policy.config);
            var same := receipt.gateLabel == policy.gateLabel && receipt.baselinePackages == wanted &&
                        receipt.planFacts == env.planFacts(payload.plan);
            var held := policy.baseline.None? || env.baselineHolds(lock, policy.baseline.value);
            && (outcome == Panicked(ReportRejected) <==> !passed)
            && (outcome == Panicked(PlanRejected) <==> passed && !planned)
            && (outcome == Panicked(ReceiptDrift) <==> passed && planned && !same)
            && (outcome == Panicked(BaselineDrift) <==> passed && planned && same && payload.baselineReceipts != wanted)
            && (outcome == Panicked(BaselineFailed) <==>
                passed && planned && same && payload.baselineReceipts == wanted && !held)
            && (outcome == Returned(report) <==>
                passed && planned && same && payload.baselineReceipts == wanted && held)
  {
  }

  function RecordFor(env: Env, call: Call, files: map<Path, SnapshotFile>, analysis: Analysis): Record
  {
    var plan := env.plan(analysis, call.policy.config);
    var payload := Payload(env.report(analysis, call.policy.config), plan, ReceiptFor(env, call.policy, plan),
                           BaselineReceipts(call.policy));
    Record(CacheKey(env, call, env.filesDigest(files)), env.filesDigest(files), files, |files|, TotalBytes(files),
           env.payloadDigest(payload), payload)
  }

  function PreviousIndex(cache: Cache): Index
  {
    match cache.index case None => map[] case Some(index) => index
  }

  function TakenFor(env: Env, cache: Cache, call: Call, tree: Node): Taken
  {
    Take(env.contentDigest, env.walkPolicy(call.policy.config, tree), PreviousIndex(cache),
         env.inputs(call.policy.config, tree))
  }

  function KeyFor(env: Env, call: Call, files: map<Path, SnapshotFile>): Digest
  {
    CacheKey(env, call, env.filesDigest(files))
  }

  function Store(cache: Cache, record: Record): Cache
  {
    cache.(records := cache.records[FileStem(record.cacheKey) := Readable(record)])
  }

  /** The last record stored under a stem is the one that loads, for its own key only. */
  lemma LoadAfterStore(env: Env, cache: Cache, record: Record, key: Digest)
    ensures Load(env, Store(cache, record), key) ==
            if key == record.cacheKey && SelfConsistent(env, record) then Some(record)
            else if FileStem(key) == FileStem(record.cacheKey) then None
            else Load(env, cache, key)
  {
  }

  /**
   The end of a miss whose checks passed: a temporary that cannot be written panics, a failed rename
   is forgiven when the destination exists.
   */
  function Publish(cache: Cache, record: Record, disk: Disk, outcome: Outcome): (Outcome, Cache)
  {
    if !disk.writesRecord then (Panicked(PublishFailed), cache)
    else if disk.renamesRecord then (outcome, Store(cache, record))
    else if FileStem(record.cacheKey) in cache.records then (outcome, cache)
    else (Panicked(PublishFailed), cache)
  }

  /**
   The outcome of a cached call and the cache it leaves. The call walks one tree; its analysis, which
   reads the project again, finds whatever is there by then.
   */
  function Gate(env: Env, cache: Cache, call: Call, tree: Node, analysed: Node, lock: Lock, disk: Disk)
    : (Outcome, Cache)
  {
    match TakenFor(env, cache, call, tree)
    case WalkFailed => (Panicked(SnapshotFailed), cache)
    case Taken(files, _, next) =>
      if !disk.storesIndex then (Panicked(SnapshotFailed), cache)
      else
        var indexed := cache.(index := Some(next));
        match Load(env, indexed, KeyFor(env, call, files))
        case Some(record) => (HitOutcome(env, call, lock, record.payload), indexed)
        case None =>
          match Analyzed(env, call, ContentsOf(env, call, analysed))
          case None => (Panicked(AnalysisFailed), indexed)
          case Some(analysis) =>
            var outcome := FreshOutcome(env, call, lock, analysis);
            if outcome.Returned? then Publish(indexed, RecordFor(env, call, files, analysis), disk, outcome)
            else (outcome, indexed)
  }

  /** `run_asp_rust_downstream_policy` over a cache directory it updates. */
  class CacheDirectory {
    var index: Option<Index>
    var records: map<string, Stored>

    constructor ()
      ensures Contents() == Cache(None, map[])
    {
      index, records := None, map[];
    }

    function Contents(): Cache
      reads this
    {
      Cache(index, records)
    }

    method RunDownstreamPolicy(env: Env, call: Call, tree: Node, analysed: Node, lock: Lock, disk: Disk)
      returns (outcome: Outcome)
      modifies this
      ensures (outcome, Contents()) == Gate(env, old(Contents()), call, tree, analysed, lock, disk)
    {
      var config := call.policy.config;
      var taken := TakeSnapshot(env.contentDigest, env.walkPolicy(config, tree), PreviousIndex(Contents()),
                                env.inputs(config, tree));
      if taken.WalkFailed? || !disk.storesIndex {
        return Panicked(SnapshotFailed);
      }
      index := Some(taken.next);
      var key := KeyFor(env, call, taken.files);
      var loaded := Load(env, Contents(), key);
      if loaded.Some? {
        return HitOutcome(env, call, lock, loaded.value.payload);
      }
      var analysis := Analyzed(env, call, ContentsOf(env, call, analysed));
      if analysis.None? {
        return Panicked(AnalysisFailed);
      }
      outcome := FreshOutcome(env, call, lock, analysis.value);
      if outcome.Panicked? {
        return;
      }
      var record := RecordFor(env, call, taken.files, analysis.value);
      if !disk.writesRecord {
        return Panicked(PublishFailed);
      }
      if disk.renamesRecord {
        records := records[FileStem(record.cacheKey) := Readable(record)];
      } else if FileStem(record.cacheKey) !in records {
        return Panicked(PublishFailed);
      }
    }
  }

  // ----- what every stored thing means

  ghost predicate CollisionFree(env: Env)
  {
    && (forall x, y :: env.contentDigest(x) == env.contentDigest(y) ==> x == y)
    && (forall x, y :: env.filesDigest(x) == env.filesDigest(y) ==> x == y)
    && (forall x, y :: env.keyDigest(x) == env.keyDigest(y) ==> x == y)
  }

  /** The contents a path has whenever it has this size and time. */
  type Stamps = (Path, nat, int) -> string

  ghost predicate Stamped(stamps: Stamps, selected: map<Path, Stat>)
  {
    forall path :: path in selected ==>
      selected[path].content == stamps(path, |selected[path].content|, selected[path].modified)
  }

  ghost predicate StampedTree(env: Env, stamps: Stamps, tree: Node)
  {
    forall config :: Stamped(stamps, SelectedFor(env, config, tree))
  }

  ghost predicate IndexSound(env: Env, stamps: Stamps, index: Index)
  {
    forall path :: path in index ==>
      index[path].digest == env.contentDigest(stamps(path, index[path].byteCount, index[path].modified))
  }

  /** The call a record was made by, the contents it walked, those it analysed, and the analysis. */
  datatype Origin = Origin(call: Call, walked: map<Path, string>, seen: map<Path, string>, analysis: Analysis)

  ghost predicate ComputedFrom(env: Env, record: Record, origin: Origin)
  {
    && Analyzed(env, origin.call, origin.seen) == Some(origin.analysis)
    && record == RecordFor(env, origin.call, ContentFiles(env, origin.walked), origin.analysis)
    && env.planAccepted(record.payload.plan, origin.call.policy.config)
  }

  lemma IndexedIsDirect(env: Env, stamps: Stamps, previous: Index, selected: map<Path, Stat>)
    requires IndexSound(env, stamps, previous) && Stamped(stamps, selected)
    ensures NextIndex(env.contentDigest, previous, selected) == DirectIndex(env.contentDigest, selected)
    ensures IndexSound(env, stamps, DirectIndex(env.contentDigest, selected))
    ensures FilesOf(DirectIndex(env.contentDigest, selected)) == ContentFiles(env, Contents(selected))
  {
    forall path | path in selected
      ensures IndexedEntry(env.contentDigest, previous, path, selected[path]) ==
              DirectEntry(env.contentDigest, selected[path])
    {
    }
  }

  lemma ContentFilesInjective(env: Env, a: map<Path, string>, b: map<Path, string>)
    requires CollisionFree(env) && ContentFiles(env, a) == ContentFiles(env, b)
    ensures a == b
  {
    assert a.Keys == ContentFiles(env, a).Keys && b.Keys == ContentFiles(env, b).Keys;
    forall path | path in a ensures a[path] == b[path] {
      assert ContentFiles(env, a)[path] == ContentFiles(env, b)[path];
    }
  }

  /** Calls of one key have harness, authority, configuration, baseline packages and walked contents in common. */
  lemma KeyDetermines(env: Env, a: Call, walkedA: map<Path, string>, b: Call, walkedB: map<Path, string>)
    requires CollisionFree(env)
    requires KeyFor(env, a, ContentFiles(env, walkedA)) == KeyFor(env, b, ContentFiles(env, walkedB))
    ensures walkedA == walkedB && a.harness == b.harness && a.authority == b.authority
    ensures a.policy.config == b.policy.config
    ensures multiset(BaselineReceipts(a.policy)) == multiset(BaselineReceipts(b.policy))
  {
    ContentFilesInjective(env, walkedA, walkedB);
  }

  predicate OtherLabelOrOrder(record: Record, call: Call)
  {
    record.payload.receipt.gateLabel != call.policy.gateLabel ||
    record.payload.baselineReceipts != BaselineReceipts(call.policy)
  }

  /** What a hit makes of the outcome behind its record. */
  function Adjusted(record: Record, call: Call, uncached: Outcome): Outcome
  {
    if OtherLabelOrOrder(record, call) && uncached != Panicked(ReportRejected) then Panicked(ReceiptDrift) else uncached
  }

  /** A hit ends as if the call had analysed what the record's maker analysed. */
  lemma HitAgrees(env: Env, call: Call, walked: map<Path, string>, lock: Lock, record: Record, origin: Origin)
    requires CollisionFree(env) && ComputedFrom(env, record, origin)
    requires record.cacheKey == KeyFor(env, call, ContentFiles(env, walked))
    ensures origin.walked == walked
    ensures HitOutcome(env, call, lock, record.payload) ==
            Adjusted(record, call, UncachedOn(env, call, origin.seen, lock))
  {
    KeyDetermines(env, origin.call, origin.walked, call, walked);
  }

  // ----- one call on a true index

  function TrueFiles(env: Env, call: Call, tree: Node): map<Path, SnapshotFile>
  {
    ContentFiles(env, ContentsOf(env, call, tree))
  }

  /** What a call would load after its walk. */
  function LoadedFor(env: Env, cache: Cache, call: Call, tree: Node): Option<Record>
  {
    Load(env, cache, KeyFor(env, call, TrueFiles(env, call, tree)))
  }

  /** A miss that would return fails when its record cannot be published. */
  function MissOutcome(env: Env, cache: Cache, call: Call, tree: Node, disk: Disk, outcome: Outcome): Outcome
  {
    if outcome.Returned? &&
       (!disk.writesRecord ||
        (!disk.renamesRecord && FileStem(KeyFor(env, call, TrueFiles(env, call, tree))) !in cache.records))
    then Panicked(PublishFailed) else outcome
  }

  /**
   The outcome in terms of the contents `seen` behind the report: a failed walk or index store; a
   hit, perhaps under another label or order of its baseline packages; a miss, perhaps unpublished.
   */
  function Expected(env: Env, cache: Cache, call: Call, tree: Node, lock: Lock, disk: Disk, seen: map<Path, string>)
    : Outcome
  {
    var uncached := UncachedOn(env, call, seen, lock);
    var loaded := LoadedFor(env, cache, call, tree);
    if !WalkSucceeds(env, call.policy.config, tree) || !disk.storesIndex then Panicked(SnapshotFailed)
    else if loaded.Some? then Adjusted(loaded.value, call, uncached)
    else MissOutcome(env, cache, call, tree, disk, uncached)
  }

  /** With a true index a call takes the true snapshot or fails as the undisturbed gate does. */
  lemma TakenIsTrue(env: Env, stamps: Stamps, cache: Cache, call: Call, tree: Node)
    requires IndexSound(env, stamps, PreviousIndex(cache)) && StampedTree(env, stamps, tree)
    ensures var taken := TakenFor(env, cache, call, tree);
            && (taken.Taken? <==> WalkSucceeds(env, call.policy.config, tree))
            && (taken.Taken? ==> taken.files == TrueFiles(env, call, tree) && IndexSound(env, stamps, taken.next))
  {
    IndexedIsDirect(env, stamps, PreviousIndex(cache), SelectedFor(env, call.policy.config, tree));
  }

  /** The part of the gate after the walk, once the index is stored. */
  lemma GateAfterWalk(env: Env, cache: Cache, call: Call, tree: Node, analysed: Node, lock: Lock, disk: Disk)
    requires disk.storesIndex && TakenFor(env, cache, call, tree).Taken?
    requires TakenFor(env, cache, call, tree).files == TrueFiles(env, call, tree)
    ensures var loaded := LoadedFor(env, cache, call, tree);
            Gate(env, cache, call, tree, analysed, lock, disk).0 ==
            if loaded.Some? then HitOutcome(env, call, lock, loaded.value.payload)
            else MissOutcome(env, cache, call, tree, disk, UncachedOn(env, call, ContentsOf(env, call, analysed), lock))
  {
    var taken := TakenFor(env, cache, call, tree);
    assert Load(env, cache.(index := Some(taken.next)), KeyFor(env, call, taken.files)) ==
           LoadedFor(env, cache, call, tree);
  }

  ghost predicate AnalysedBy(env: Env, record: Record, seen: map<Path, string>)
  {
    exists origin :: ComputedFrom(env, record, origin) && origin.seen == seen
  }

  /** The contents behind the report of a call: its own analysis's, or those its record's maker analysed. */
  ghost predicate Basis(env: Env, cache: Cache, call: Call, tree: Node, analysed: Node, seen: map<Path, string>)
  {
    match LoadedFor(env, cache, call, tree)
    case None => seen == ContentsOf(env, call, analysed)
    case Some(record) => AnalysedBy(env, record, seen)
  }

  lemma GateAgrees(
    env: Env, stamps: Stamps, cache: Cache, call: Call, tree: Node, analysed: Node, lock: Lock, disk: Disk,
    seen: map<Path, string>)
    requires CollisionFree(env) && IndexSound(env, stamps, PreviousIndex(cache)) && StampedTree(env, stamps, tree)
    requires Basis(env, cache, call, tree, analysed, seen)
    ensures Gate(env, cache, call, tree, analysed, lock, disk).0 == Expected(env, cache, call, tree, lock, disk, seen)
  {
    TakenIsTrue(env, stamps, cache, call, tree);
    if WalkSucceeds(env, call.policy.config, tree) && disk.storesIndex {
      GateAfterWalk(env, cache, call, tree, analysed, lock, disk);
      var loaded := LoadedFor(env, cache, call, tree);
      if loaded.Some? {
        var origin :| ComputedFrom(env, loaded.value, origin) && origin.seen == seen;
        HitAgrees(env, call, ContentsOf(env, call, tree), lock, loaded.value, origin);
      }
    }
  }

  /** A returned outcome is the uncached one on the contents behind it, and acceptable if asserted. */
  lemma ExpectedReturn(env: Env, cache: Cache, call: Call, tree: Node, lock: Lock, disk: Disk, seen: map<Path, string>)
    requires Expected(env, cache, call, tree, lock, disk, seen).Returned?
    ensures WalkSucceeds(env, call.policy.config, tree)
    ensures Expected(env, cache, call, tree, lock, disk, seen) == UncachedOn(env, call, seen, lock)
    ensures call.assertReport ==> !Rejects(UncachedOn(env, call, seen, lock).report, call.policy.config)
  {
  }

  // ----- whole runs

  datatype System = System(cache: Cache, tree: Node, lock: Lock)

  /** A gate call leaves the tree its analysis found: `analysed` differs if an edit came in between. */
  datatype Event =
    | Edit(tree: Node)
    | ChangeLock(lock: Lock)
    | RunGate(call: Call, analysed: Node, disk: Disk)
    | LoseIndex
    | SpoilRecord(stem: string)

  function Step(env: Env, s: System, event: Event): System
  {
    match event
    case Edit(tree) => s.(tree := tree)
    case ChangeLock(lock) => s.(lock := lock)
    case RunGate(call, analysed, disk) =>
      s.(cache := Gate(env, s.cache, call, s.tree, analysed, s.lock, disk).1, tree := analysed)
    case LoseIndex => s.(cache := s.cache.(index := None))
    case SpoilRecord(stem) => s.(cache := s.cache.(records := s.cache.records[stem := Unreadable]))
  }

  function After(env: Env, s: System, events: seq<Event>): System
  {
    if events == [] then s else Step(env, After(env, s, events[..|events| - 1]), events[|events| - 1])
  }

  function Fresh(tree: Node, lock: Lock): System
  {
    System(Cache(None, map[]), tree, lock)
  }

  ghost predicate StampedEvent(env: Env, stamps: Stamps, event: Event)
  {
    match event
    case Edit(tree) => StampedTree(env, stamps, tree)
    case RunGate(_, analysed, _) => StampedTree(env, stamps, analysed)
    case _ => true
  }

  ghost predicate StampedRun(env: Env, stamps: Stamps, tree: Node, events: seq<Event>)
  {
    StampedTree(env, stamps, tree) && forall k :: 0 <= k < |events| ==> StampedEvent(env, stamps, events[k])
  }

  /** The record that a gate call makes when it misses and all its checks pass. */
  ghost predicate Makes(env: Env, s: System, event: Event, record: Record)
  {
    event.RunGate? &&
    var seen := ContentsOf(env, event.call, event.analysed);
    && WalkSucceeds(env, event.call.policy.config, s.tree)
    && Analyzed(env, event.call, seen).Some? && UncachedOn(env, event.call, seen, s.lock).Returned?
    && record == RecordFor(env, event.call, TrueFiles(env, event.call, s.tree), Analyzed(env, event.call, seen).value)
  }

  /** The k-th event of the run made the record. */
  ghost predicate StoredAt(env: Env, start: System, events: seq<Event>, k: nat, record: Record)
  {
    k < |events| && Makes(env, After(env, start, events[..k]), events[k], record)
  }

  ghost predicate StoredInRun(env: Env, start: System, events: seq<Event>, record: Record)
  {
    exists k: nat :: StoredAt(env, start, events, k, record)
  }

  /** The index is true for its stamps and every readable record was made by a call of the run. */
  ghost predicate RunSound(env: Env, stamps: Stamps, start: System, events: seq<Event>)
  {
    var s := After(env, start, events);
    && IndexSound(env, stamps, PreviousIndex(s.cache)) && StampedTree(env, stamps, s.tree)
    && forall stem :: stem in s.cache.records && s.cache.records[stem].Readable? ==>
         StoredInRun(env, start, events, s.cache.records[stem].record)
  }

  lemma MadeIsComputed(env: Env, s: System, event: Event, record: Record)
    requires Makes(env, s, event, record)
    ensures ComputedFrom(env, record, Origin(event.call, ContentsOf(env, event.call, s.tree),
              ContentsOf(env, event.call, event.analysed),
              Analyzed(env, event.call, ContentsOf(env, event.call, event.analysed)).value))
  {
  }

  /** A call leaves the cache alone, or stores its index, or its index and its record. */
  lemma GateLeaves(env: Env, cache: Cache, call: Call, tree: Node, analysed: Node, lock: Lock, disk: Disk)
    ensures var after := Gate(env, cache, call, tree, analysed, lock, disk).1;
            var taken := TakenFor(env, cache, call, tree);
            var seen := ContentsOf(env, call, analysed);
            || after == cache
            || (taken.Taken? && after == cache.(index := Some(taken.next)))
            || (taken.Taken? && Analyzed(env, call, seen).Some? && UncachedOn(env, call, seen, lock).Returned? &&
                after == Store(cache.(index := Some(taken.next)),
                               RecordFor(env, call, taken.files, Analyzed(env, call, seen).value)))
  {
  }

  /** A call adds at most the record it makes. */
  lemma GateStores(env: Env, stamps: Stamps, s: System, event: Event, stem: string)
    requires event.RunGate? && IndexSound(env, stamps, PreviousIndex(s.cache)) && StampedTree(env, stamps, s.tree)
    ensures var after := Step(env, s, event).cache;
            && IndexSound(env, stamps, PreviousIndex(after))
            && (stem in after.records && after.records[stem].Readable? ==>
                  || (stem in s.cache.records && s.cache.records[stem] == after.records[stem])
                  || Makes(env, s, event, after.records[stem].record))
  {
    TakenIsTrue(env, stamps, s.cache, event.call, s.tree);
    GateLeaves(env, s.cache, event.call, s.tree, event.analysed, s.lock, event.disk);
    var taken := TakenFor(env, s.cache, event.call, s.tree);
    var seen := ContentsOf(env, event.call, event.analysed);
    var after := Gate(env, s.cache, event.call, s.tree, event.analysed, s.lock, event.disk).1;
    if taken.Taken? && Analyzed(env, event.call, seen).Some? {
      var record := RecordFor(env, event.call, taken.files, Analyzed(env, event.call, seen).value);
      StoredRecord(s.cache.(index := Some(taken.next)), record, stem);
    }
  }

  lemma StoredRecord(cache: Cache, record: Record, stem: string)
    ensures var after := Store(cache, record);
            && after.index == cache.index
            && (stem in after.records ==> after.records[stem] == Readable(record) ||
                                          (stem in cache.records && after.records[stem] == cache.records[stem]))
  {
  }

  lemma StoredStays(env: Env, start: System, events: seq<Event>, record: Record)
    requires events != [] && StoredInRun(env, start, events[..|events| - 1], record)
    ensures StoredInRun(env, start, events, record)
  {
    var before := events[..|events| - 1];
    var k: nat :| StoredAt(env, start, before, k, record);
    assert before[..k] == events[..k];
    assert StoredAt(env, start, events, k, record);
  }

  lemma {:induction false} RunStaysSound(env: Env, stamps: Stamps, tree: Node, lock: Lock, events: seq<Event>)
    requires StampedRun(env, stamps, tree, events)
    ensures RunSound(env, stamps, Fresh(tree, lock), events)
  {
    if events != [] {
      var before, last := events[..|events| - 1], |events| - 1;
      RunStaysSound(env, stamps, tree, lock, before);
      LastEventKeeps(env, stamps, Fresh(tree, lock), events);
    }
  }

  lemma LastEventKeeps(env: Env, stamps: Stamps, start: System, events: seq<Event>)
    requires events != [] && RunSound(env, stamps, start, events[..|events| - 1])
    requires StampedEvent(env, stamps, events[|events| - 1])
    ensures RunSound(env, stamps, start, events)
  {
    var before, event := events[..|events| - 1], events[|events| - 1];
    var s, t := After(env, start, before), After(env, start, events);
    if event.RunGate? { GateStores(env, stamps, s, event, ""); }
    forall stem | stem in t.cache.records && t.cache.records[stem].Readable?
      ensures StoredInRun(env, start, events, t.cache.records[stem].record)
    {
      var record := t.cache.records[stem].record;
      if event.RunGate? { GateStores(env, stamps, s, event, stem); }
      if stem in s.cache.records && s.cache.records[stem] == t.cache.records[stem] {
        StoredStays(env, start, events, record);
      } else {
        assert StoredAt(env, start, events, |events| - 1, record);
      }
    }
  }

  /** The contents behind the report of a call at the end of a run. */
  ghost predicate BasisInRun(
    env: Env, start: System, events: seq<Event>, call: Call, analysed: Node, seen: map<Path, string>)
  {
    var s := After(env, start, events);
    match LoadedFor(env, s.cache, call, s.tree)
    case None => seen == ContentsOf(env, call, analysed)
    case Some(record) => exists k: nat ::
      StoredAt(env, start, events, k, record) && seen == ContentsOf(env, events[k].call, events[k].analysed)
  }

  /** Every basis explains the call, and there is one. */
  lemma RunBasis(env: Env, stamps: Stamps, start: System, events: seq<Event>, call: Call, analysed: Node)
    requires RunSound(env, stamps, start, events)
    ensures exists seen :: BasisInRun(env, start, events, call, analysed, seen)
    ensures var s := After(env, start, events);
            forall seen :: BasisInRun(env, start, events, call, analysed, seen) ==>
              Basis(env, s.cache, call, s.tree, analysed, seen)
  {
    var s := After(env, start, events);
    var loaded := LoadedFor(env, s.cache, call, s.tree);
    if loaded.None? {
      assert BasisInRun(env, start, events, call, analysed, ContentsOf(env, call, analysed));
    } else {
      var k: nat :| StoredAt(env, start, events, k, loaded.value);
      assert BasisInRun(env, start, events, call, analysed, ContentsOf(env, events[k].call, events[k].analysed));
      forall seen | BasisInRun(env, start, events, call, analysed, seen) ensures AnalysedBy(env, loaded.value, seen) {
        var m: nat :| StoredAt(env, start, events, m, loaded.value) &&
          seen == ContentsOf(env, events[m].call, events[m].analysed);
        MadeIsComputed(env, After(env, start, events[..m]), events[m], loaded.value);
      }
    }
  }

  /**
   After any run of edits, also between the walk and the analysis of a call, of lockfile and policy
   changes, failing stores and cache damage: a call ends exactly as expected from the contents
   behind its report, which a miss analysed itself and which on a hit the call that made the record
   analysed. A return is the uncached outcome on those contents, acceptable if asserted; it is the
   undisturbed gate's if and only if those contents have the same outcome as the ones walked.
   */
  lemma CachedGateIsTransparent(
    env: Env, stamps: Stamps, tree: Node, lock: Lock, events: seq<Event>, call: Call, analysed: Node, disk: Disk)
    requires CollisionFree(env) && StampedRun(env, stamps, tree, events)
    ensures var s := After(env, Fresh(tree, lock), events);
            var outcome := Gate(env, s.cache, call, s.tree, analysed, s.lock, disk).0;
            && (exists seen :: BasisInRun(env, Fresh(tree, lock), events, call, analysed, seen))
            && (forall seen :: BasisInRun(env, Fresh(tree, lock), events, call, analysed, seen) ==>
                  Ends(env, s, call, disk, seen, outcome))
  {
    RunStaysSound(env, stamps, tree, lock, events);
    RunBasis(env, stamps, Fresh(tree, lock), events, call, analysed);
    var s := After(env, Fresh(tree, lock), events);
    forall seen | BasisInRun(env, Fresh(tree, lock), events, call, analysed, seen)
      ensures Ends(env, s, call, disk, seen, Gate(env, s.cache, call, s.tree, analysed, s.lock, disk).0)
    {
      GateAgrees(env, stamps, s.cache, call, s.tree, analysed, s.lock, disk, seen);
      EndsAsExpected(env, s, call, disk, seen);
    }
  }

  ghost predicate Ends(env: Env, s: System, call: Call, disk: Disk, seen: map<Path, string>, outcome: Outcome)
  {
    && outcome == Expected(env, s.cache, call, s.tree, s.lock, disk, seen)
    && (outcome.Returned? ==> outcome == UncachedOn(env, call, seen, s.lock))
    && (outcome.Returned? && call.assertReport ==> !Rejects(outcome.report, call.policy.config))
    && (outcome.Returned? ==>
          (outcome == Uncached(env, call, s.tree, s.lock) <==>
           UncachedOn(env, call, seen, s.lock) == UncachedOn(env, call, ContentsOf(env, call, s.tree), s.lock)))
  }

  lemma EndsAsExpected(env: Env, s: System, call: Call, disk: Disk, seen: map<Path, string>)
    ensures Ends(env, s, call, disk, seen, Expected(env, s.cache, call, s.tree, s.lock, disk, seen))
  {
    if Expected(env, s.cache, call, s.tree, s.lock, disk, seen).Returned? {
      ExpectedReturn(env, s.cache, call, s.tree, s.lock, disk, seen);
    }
  }

  /** No call of the run saw other contents in its analysis than in its walk. */
  ghost predicate QuietRun(env: Env, start: System, events: seq<Event>)
  {
    forall k: nat :: k < |events| && events[k].RunGate? ==>
      ContentsOf(env, events[k].call, events[k].analysed) ==
      ContentsOf(env, events[k].call, After(env, start, events[..k]).tree)
  }

  /** In a quiet run a quiet call differs from the undisturbed uncached gate only by stores and drift. */
  lemma QuietGateIsTransparent(
    env: Env, stamps: Stamps, tree: Node, lock: Lock, events: seq<Event>, call: Call, analysed: Node, disk: Disk)
    requires CollisionFree(env) && StampedRun(env, stamps, tree, events) && QuietRun(env, Fresh(tree, lock), events)
    requires var s := After(env, Fresh(tree, lock), events);
             ContentsOf(env, call, analysed) == ContentsOf(env, call, s.tree)
    ensures var s := After(env, Fresh(tree, lock), events);
            var outcome := Gate(env, s.cache, call, s.tree, analysed, s.lock, disk).0;
            && outcome == Expected(env, s.cache, call, s.tree, s.lock, disk, ContentsOf(env, call, s.tree))
            && (outcome.Returned? ==> outcome == Uncached(env, call, s.tree, s.lock))
            && (outcome.Returned? && call.assertReport ==> !Rejects(outcome.report, call.policy.config))
  {
    var start := Fresh(tree, lock);
    var s := After(env, start, events);
    CachedGateIsTransparent(env, stamps, tree, lock, events, call, analysed, disk);
    var seen :| BasisInRun(env, start, events, call, analysed, seen);
    QuietBasis(env, start, events, call, analysed, seen);
    assert Ends(env, s, call, disk, seen, Gate(env, s.cache, call, s.tree, analysed, s.lock, disk).0);
  }

  lemma QuietBasis(env: Env, start: System, events: seq<Event>, call: Call, analysed: Node, seen: map<Path, string>)
    requires CollisionFree(env) && QuietRun(env, start, events)
    requires BasisInRun(env, start, events, call, analysed, seen)
    requires ContentsOf(env, call, analysed) == ContentsOf(env, call, After(env, start, events).tree)
    ensures seen == ContentsOf(env, call, After(env, start, events).tree)
  {
    var s := After(env, start, events);
    var loaded := LoadedFor(env, s.cache, call, s.tree);
    if loaded.Some? {
      var k: nat :| StoredAt(env, start, events, k, loaded.value) &&
        seen == ContentsOf(env, events[k].call, events[k].analysed);
      KeyDetermines(env, events[k].call, ContentsOf(env, events[k].call, After(env, start, events[..k]).tree),
                    call, ContentsOf(env, call, s.tree));
    }
  }

  type Analyzer = (string, Config, map<Path, string>) -> Option<Analysis>

  ghost predicate AlwaysAgree(env: Env, call: Call, lock: Lock, seen: map<Path, string>, walked: map<Path, string>)
  {
    forall analyze: Analyzer ::
      UncachedOn(env.(analyze := analyze), call, seen, lock) == UncachedOn(env.(analyze := analyze), call, walked, lock)
  }

  /** Being quiet is exactly what makes the two outcomes agree whatever the analysis. */
  lemma QuietExactlyWhen(env: Env, call: Call, lock: Lock, seen: map<Path, string>, walked: map<Path, string>)
    ensures AlwaysAgree(env, call, lock, seen, walked) <==> seen == walked
  {
    if seen != walked {
      var analyze: Analyzer := (harness, config, contents) => if contents == seen then None else Some("");
      var other := env.(analyze := analyze);
      assert UncachedOn(other, call, seen, lock) == Panicked(AnalysisFailed);
      assert UncachedOn(other, call, walked, lock) == FreshOutcome(other, call, lock, "");
    }
  }

  // ----- what can go wrong does

  /** The record that a call from an empty cache leaves when its analysis passes. */
  lemma FirstCallStores(env: Env, stamps: Stamps, tree: Node, analysed: Node, lock: Lock, call: Call)
    requires StampedTree(env, stamps, tree) && WalkSucceeds(env, call.policy.config, tree)
    requires UncachedOn(env, call, ContentsOf(env, call, analysed), lock).Returned?
    ensures var s := After(env, Fresh(tree, lock), [RunGate(call, analysed, WORKING)]);
            && s.tree == analysed && s.lock == lock
            && LoadedFor(env, s.cache, call, tree) ==
               Some(RecordFor(env, call, TrueFiles(env, call, tree),
                              Analyzed(env, call, ContentsOf(env, call, analysed)).value))
  {
    var start, event := Fresh(tree, lock), RunGate(call, analysed, WORKING);
    assert [event][..0] == [];
    assert After(env, start, [event]) == Step(env, start, event);
    TakenIsTrue(env, stamps, start.cache, call, tree);
    var taken := TakenFor(env, start.cache, call, tree);
    var indexed := start.cache.(index := Some(taken.next));
    var record := RecordFor(env, call, taken.files, Analyzed(env, call, ContentsOf(env, call, analysed)).value);
    LoadAfterStore(env, indexed, record, KeyFor(env, call, taken.files));
  }

  /** Drift: after a call returned, the same call under another label panics though it would return uncached. */
  lemma DriftHappens(env: Env, stamps: Stamps, tree: Node, lock: Lock, call: Call, otherLabel: string)
    requires CollisionFree(env) && StampedTree(env, stamps, tree) && Uncached(env, call, tree, lock).Returned?
    requires otherLabel != call.policy.gateLabel
    ensures var s := After(env, Fresh(tree, lock), [RunGate(call, tree, WORKING)]);
            var other := call.(policy := call.policy.(gateLabel := otherLabel));
            && Uncached(env, other, s.tree, s.lock) == Uncached(env, call, tree, lock)
            && Gate(env, s.cache, other, s.tree, s.tree, s.lock, WORKING).0 == Panicked(ReceiptDrift)
  {
    var events := [RunGate(call, tree, WORKING)];
    var s := After(env, Fresh(tree, lock), events);
    var other := call.(policy := call.policy.(gateLabel := otherLabel));
    FirstCallStores(env, stamps, tree, tree, lock, call);
    assert LoadedFor(env, s.cache, other, tree) == LoadedFor(env, s.cache, call, tree);
    assert QuietRun(env, Fresh(tree, lock), events) by { assert events[..0] == []; }
    QuietGateIsTransparent(env, stamps, tree, lock, events, other, tree, WORKING);
  }

  /** Two calls that no record serves alike: another authority, harness, configuration or set of baseline packages. */
  predicate KeyedApart(a: Call, b: Call)
  {
    || a.authority != b.authority || a.harness != b.harness || a.policy.config != b.policy.config
    || multiset(BaselineReceipts(a.policy)) != multiset(BaselineReceipts(b.policy))
  }

  /** After a call, one that is keyed apart from it misses its record and ends as uncached. */
  lemma KeyedApartMisses(env: Env, stamps: Stamps, tree: Node, lock: Lock, call: Call, other: Call)
    requires CollisionFree(env) && StampedTree(env, stamps, tree) && KeyedApart(call, other)
    ensures var s := After(env, Fresh(tree, lock), [RunGate(call, tree, WORKING)]);
            && LoadedFor(env, s.cache, other, s.tree).None?
            && Gate(env, s.cache, other, s.tree, s.tree, s.lock, WORKING).0 == Uncached(env, other, tree, lock)
  {
    var events := [RunGate(call, tree, WORKING)];
    var start := Fresh(tree, lock);
    var s := After(env, start, events);
    assert events[..0] == [] && After(env, start, []) == start && s == Step(env, start, events[0]);
    assert QuietRun(env, start, events);
    RunStaysSound(env, stamps, tree, lock, events);
    var loaded := LoadedFor(env, s.cache, other, tree);
    if loaded.Some? {
      var k: nat :| StoredAt(env, start, events, k, loaded.value);
      KeyDetermines(env, call, ContentsOf(env, call, tree), other, ContentsOf(env, other, tree));
      assert false;
    }
    QuietGateIsTransparent(env, stamps, tree, lock, events, other, tree, WORKING);
  }

  /** The call that made a loaded record differs from the one that loads it by label and order at most. */
  lemma MakerOfLoaded(env: Env, start: System, events: seq<Event>, k: nat, call: Call, tree: Node, record: Record)
    requires CollisionFree(env) && StoredAt(env, start, events, k, record)
    requires record.cacheKey == KeyFor(env, call, TrueFiles(env, call, tree))
    ensures !KeyedApart(events[k].call, call)
    ensures ContentsOf(env, events[k].call, After(env, start, events[..k]).tree) == ContentsOf(env, call, tree)
    ensures OtherLabelOrOrder(record, call) <==>
            events[k].call.policy.gateLabel != call.policy.gateLabel ||
            BaselineReceipts(events[k].call.policy) != BaselineReceipts(call.policy)
  {
    KeyDetermines(env, events[k].call, ContentsOf(env, events[k].call, After(env, start, events[..k]).tree),
                  call, ContentsOf(env, call, tree));
  }

  /**
   Poisoning: an edit between the walk of `a` and the analysis stores the report on `b` under the key
   of `a`; after the edit is undone, an undisturbed call on `a` returns the report on `b`.
   */
  lemma PoisoningHappens(env: Env, stamps: Stamps, a: Node, b: Node, lock: Lock, call: Call)
    requires CollisionFree(env) && StampedTree(env, stamps, a) && StampedTree(env, stamps, b)
    requires WalkSucceeds(env, call.policy.config, a)
    requires UncachedOn(env, call, ContentsOf(env, call, b), lock).Returned?
    ensures var s := After(env, Fresh(a, lock), [RunGate(call, b, WORKING), Edit(a)]);
            var outcome := Gate(env, s.cache, call, a, a, lock, WORKING).0;
            && s.tree == a && s.lock == lock
            && outcome == UncachedOn(env, call, ContentsOf(env, call, b), lock)
            && (outcome == Uncached(env, call, a, lock) <==>
                UncachedOn(env, call, ContentsOf(env, call, b), lock) ==
                UncachedOn(env, call, ContentsOf(env, call, a), lock))
  {
    var first := [RunGate(call, b, WORKING)];
    var events := first + [Edit(a)];
    assert events == [RunGate(call, b, WORKING), Edit(a)] && events[..1] == first;
    var s := After(env, Fresh(a, lock), events);
    assert s.cache == After(env, Fresh(a, lock), first).cache;
    FirstCallStores(env, stamps, a, b, lock, call);
    RunStaysSound(env, stamps, a, lock, events);
    var seen := ContentsOf(env, call, b);
    var record := LoadedFor(env, s.cache, call, a).value;
    PoisonedBasis(env, call, a, b, lock, record);
    GateAgrees(env, stamps, s.cache, call, a, a, lock, WORKING, seen);
  }

  lemma PoisonedBasis(env: Env, call: Call, a: Node, b: Node, lock: Lock, record: Record)
    requires Makes(env, Fresh(a, lock), RunGate(call, b, WORKING), record)
    ensures AnalysedBy(env, record, ContentsOf(env, call, b)) && !OtherLabelOrOrder(record, call)
  {
    MadeIsComputed(env, Fresh(a, lock), RunGate(call, b, WORKING), record);
  }
}
