/**
 Any number of gate calls in flight on one cache directory, in any number of processes. A call reads
 the index, lists its inputs, reads them file by file, stores the next index, loads, analyses what is
 on disk by then, checks, and stores its record; each read and store of the cache is made of the
 directory's own steps. The steps of all calls interleave with edits, lockfile changes, failing reads
 and crashes (src/dev_gate/downstream.rs:103-249, src/dev_gate/cache.rs:128-191, 291-363, 405-530).
 */
module ConcurrentGate {
  import opened Wrappers
  import opened Decimals
  import opened SnapshotIndex
  import opened DevGate
  import AtomicRename
  import Publication

  type Files = map<Path, SnapshotFile>

  datatype Stage =
    | Started
    | ReadingIndex(reader: nat)
    | IndexRead(previous: Index)
    | Walking(previous: Index, todo: set<Path>)
    | Walked(files: Files, next: Index)
    | StoringIndex(files: Files, next: Index, store: nat)
    | IndexStored(files: Files)
    | Loading(files: Files, reader: nat)
    | Missed(files: Files)
    | Checked(outcome: Outcome)
    | StoringRecord(outcome: Outcome, store: nat)
    | Finished(outcome: Outcome)
    | Abandoned

  /**
   A call in flight: the tree it listed and whether that stood still while it read; the files it read,
   or whether that broke off; the contents its analysis saw and the lockfile it checked; the record it
   loaded or made; the store that failed it.
   */
  datatype Flight = Flight(
    process: nat,
    call: Call,
    stage: Stage,
    tree: Node,
    steady: bool,
    read: map<Path, Stat>,
    broken: bool,
    seen: map<Path, string>,
    lock: Lock,
    loaded: Option<Record>,
    made: Option<Record>,
    failed: Option<nat>)

  datatype World = World(stores: Publication.Stores, tree: Node, lock: Lock, flights: seq<Flight>)

  datatype Action =
    | EditTree(tree: Node)
    | EditLock(lock: Lock)
    | Spawn(pid: nat)
    | Directory(event: AtomicRename.Event)
    | Start(process: nat, call: Call)
    | Advance(flight: nat)
    | ReadFile(flight: nat, path: Path)
    | FailRead(flight: nat)
    | Abandon(flight: nat)

  // ----- the steps of a call

  function Opened(codec: Publication.Codec, s: Publication.Stores, name: string): Publication.Stores
  {
    Publication.Act(codec, s, Publication.Move(AtomicRename.Open(name)))
  }

  function Drawn(codec: Publication.Codec, s: Publication.Stores, p: nat, target: Publication.Target)
    : Publication.Stores
  {
    Publication.Act(codec, s, Publication.Draw(p, target))
  }

  predicate ReadDone(s: Publication.Stores, r: nat)
  {
    r < |s.directory.readers| && s.directory.readers[r].done
  }

  function PhaseOf(s: Publication.Stores, k: nat): AtomicRename.Phase
  {
    if k < |s.directory.writers| then s.directory.writers[k].phase else AtomicRename.Drawn
  }

  function KeyName(env: Env, call: Call, files: Files): string
  {
    Publication.RecordName(KeyFor(env, call, files))
  }

  /** A call waits while its own reads or stores are under way. */
  ghost function Move(env: Env, codec: Publication.Codec, w: World, f: Flight): (Flight, Publication.Stores)
  {
    match f.stage
    case Started =>
      if Publication.IndexName() in w.stores.directory.names
      then (f.(stage := ReadingIndex(|w.stores.directory.readers|)), Opened(codec, w.stores, Publication.IndexName()))
      else (f.(stage := IndexRead(map[])), w.stores)
    case ReadingIndex(r) =>
      (if ReadDone(w.stores, r) then ParseIndexStep(codec, f, w.stores.directory.readers[r].got) else f, w.stores)
    case IndexRead(previous) => (ListStep(env, w.tree, f, previous), w.stores)
    case Walking(previous, todo) => (if todo == {} then EndWalk(env, f, previous) else f, w.stores)
    case Walked(files, next) =>
      (f.(stage := StoringIndex(files, next, |w.stores.stores|)),
       Drawn(codec, w.stores, f.process, Publication.IndexTarget(next)))
    case StoringIndex(files, _, k) => (IndexStoreStep(f, files, k, PhaseOf(w.stores, k)), w.stores)
    case IndexStored(files) =>
      if KeyName(env, f.call, files) in w.stores.directory.names
      then (f.(stage := Loading(files, |w.stores.directory.readers|)),
            Opened(codec, w.stores, KeyName(env, f.call, files)))
      else (f.(stage := Missed(files)), w.stores)
    case Loading(files, r) =>
      (if ReadDone(w.stores, r) then LoadStep(env, codec, w.lock, f, files, w.stores.directory.readers[r].got) else f,
       w.stores)
    case Missed(files) => (CheckStep(env, w.tree, w.lock, f, files), w.stores)
    case Checked(outcome) =>
      if f.made.None? then (f, w.stores)
      else (f.(stage := StoringRecord(outcome, |w.stores.stores|)),
            Drawn(codec, w.stores, f.process, Publication.RecordTarget(f.made.value)))
    case StoringRecord(outcome, k) => (RecordStoreStep(f, outcome, k, PhaseOf(w.stores, k)), w.stores)
    case Finished(_) => (f, w.stores)
    case Abandoned => (f, w.stores)
  }

  function ParseIndexStep(codec: Publication.Codec, f: Flight, got: string): Flight
  {
    match codec.parseIndex(got)
    case None => f.(stage := IndexRead(map[]))
    case Some(index) => f.(stage := IndexRead(index))
  }

  function Broken(f: Flight): Flight
  {
    f.(stage := Finished(Panicked(SnapshotFailed)), broken := true)
  }

  /** Lists the inputs of the tree as it is now. */
  ghost function ListStep(env: Env, tree: Node, f: Flight, previous: Index): Flight
  {
    var config := f.call.policy.config;
    var listed := f.(tree := tree, steady := true, read := map[]);
    if Listable(env.walkPolicy(config, tree), env.inputs(config, tree))
    then listed.(stage := Walking(previous, SelectedFor(env, config, tree).Keys))
    else Broken(listed)
  }

  /** Reads one listed file from the tree as it is now; it may have gone. */
  function StatStep(env: Env, tree: Node, f: Flight, previous: Index, todo: set<Path>, path: Path): Flight
  {
    var selected := SelectedFor(env, f.call.policy.config, tree);
    var g := f.(steady := f.steady && tree == f.tree);
    if path !in selected || selected[path].modified < 0 then Broken(g)
    else g.(stage := Walking(previous, todo - {path}), read := f.read[path := selected[path]])
  }

  function EndWalk(env: Env, f: Flight, previous: Index): Flight
  {
    var next := NextIndex(env.contentDigest, previous, f.read);
    if TotalBytes(FilesOf(next)) < U64 then f.(stage := Walked(FilesOf(next), next)) else Broken(f)
  }

  function IndexStoreStep(f: Flight, files: Files, k: nat, phase: AtomicRename.Phase): Flight
  {
    if phase.Renamed? then f.(stage := IndexStored(files))
    else if phase.Gone? then f.(stage := Finished(Panicked(SnapshotFailed)), failed := Some(k))
    else f
  }

  function LoadStep(env: Env, codec: Publication.Codec, lock: Lock, f: Flight, files: Files, got: string): Flight
  {
    match Publication.LoadBytes(env, codec, got, KeyFor(env, f.call, files))
    case None => f.(stage := Missed(files))
    case Some(record) =>
      f.(stage := Finished(HitOutcome(env, f.call, lock, record.payload)), lock := lock, loaded := Some(record))
  }

  /** Analyses the project as it is now, and files the result under what was read earlier. */
  function CheckStep(env: Env, tree: Node, lock: Lock, f: Flight, files: Files): Flight
  {
    var seen := ContentsOf(env, f.call, tree);
    var g := f.(seen := seen, lock := lock);
    match Analyzed(env, f.call, seen)
    case None => g.(stage := Finished(Panicked(AnalysisFailed)))
    case Some(analysis) =>
      var outcome := FreshOutcome(env, f.call, lock, analysis);
      if outcome.Returned?
      then g.(stage := Checked(outcome), made := Some(RecordFor(env, f.call, files, analysis)))
      else g.(stage := Finished(outcome))
  }

  function RecordStoreStep(f: Flight, outcome: Outcome, k: nat, phase: AtomicRename.Phase): Flight
  {
    if phase.Renamed? || phase.Kept? then f.(stage := Finished(outcome))
    else if phase.Gone? then f.(stage := Finished(Panicked(PublishFailed)), failed := Some(k))
    else f
  }

  /** A read that fails, or meets bytes spoilt from outside, counts as nothing stored. */
  function LoseRead(f: Flight): Flight
  {
    match f.stage
    case Started => f.(stage := IndexRead(map[]))
    case ReadingIndex(_) => f.(stage := IndexRead(map[]))
    case IndexStored(files) => f.(stage := Missed(files))
    case Loading(files, _) => f.(stage := Missed(files))
    case _ => f
  }

  function Launched(p: nat, call: Call, w: World): Flight
  {
    Flight(p, call, Started, w.tree, true, map[], false, map[], w.lock, None, None, None)
  }

  ghost function Act(env: Env, codec: Publication.Codec, w: World, action: Action): World
  {
    match action
    case EditTree(tree) => w.(tree := tree)
    case EditLock(lock) => w.(lock := lock)
    case Spawn(pid) => w.(stores := Publication.Act(codec, w.stores, Publication.Spawn(pid)))
    case Directory(event) => w.(stores := Publication.Act(codec, w.stores, Publication.Move(event)))
    case Start(p, call) =>
      if p < |w.stores.processes|
      then w.(flights := w.flights + [Launched(p, call, w)]) else w
    case Advance(i) =>
      if i < |w.flights| then
        var (f, stores) := Move(env, codec, w, w.flights[i]);
        w.(flights := w.flights[i := f], stores := stores)
      else w
    case ReadFile(i, path) =>
      if i < |w.flights| && w.flights[i].stage.Walking? && path in w.flights[i].stage.todo then
        var f := w.flights[i];
        w.(flights := w.flights[i := StatStep(env, w.tree, f, f.stage.previous, f.stage.todo, path)])
      else w
    case FailRead(i) => if i < |w.flights| then w.(flights := w.flights[i := LoseRead(w.flights[i])]) else w
    case Abandon(i) =>
      if i < |w.flights| && !w.flights[i].stage.Finished?
      then w.(flights := w.flights[i := w.flights[i].(stage := Abandoned)]) else w
  }

  ghost function Run(env: Env, codec: Publication.Codec, tree: Node, lock: Lock, actions: seq<Action>): World
  {
    if actions == [] then World(Publication.Stores([], [], AtomicRename.EMPTY), tree, lock, [])
    else Act(env, codec, Run(env, codec, tree, lock, actions[..|actions| - 1]), actions[|actions| - 1])
  }

  // ----- what a call knows at each stage

  function FilesRead(env: Env, f: Flight): Files
  {
    ContentFiles(env, DevGate.Contents(f.read))
  }

  function Key(env: Env, f: Flight): Digest
  {
    KeyFor(env, f.call, FilesRead(env, f))
  }

  /** Still reading: what is read and what is left make up the listing. */
  ghost predicate ReadingTruly(env: Env, stamps: Stamps, f: Flight, todo: set<Path>)
  {
    var listed := SelectedFor(env, f.call.policy.config, f.tree);
    && !f.broken && Stamped(stamps, f.read)
    && f.read.Keys + todo == listed.Keys && todo <= listed.Keys
    && (f.steady ==> forall path :: path in f.read ==> f.read[path] == listed[path])
  }

  /** All is read: the files are those contents, and those of the listed tree if it stood still. */
  ghost predicate ReadTruly(env: Env, f: Flight, files: Files)
  {
    && !f.broken && files == FilesRead(env, f)
    && (f.steady ==> f.read == SelectedFor(env, f.call.policy.config, f.tree))
  }

  /** The record made holds the files read and the report on the contents analysed. */
  ghost predicate MadeTruly(env: Env, f: Flight, record: Record)
  {
    && Analyzed(env, f.call, f.seen).Some? && UncachedOn(env, f.call, f.seen, f.lock).Returned?
    && record == RecordFor(env, f.call, FilesRead(env, f), Analyzed(env, f.call, f.seen).value)
  }

  /** The outcome in terms of the contents behind the report. */
  function Explanation(env: Env, f: Flight, basis: map<Path, string>): Outcome
  {
    var uncached := UncachedOn(env, f.call, basis, f.lock);
    if f.failed.Some? then Panicked(if f.made.Some? then PublishFailed else SnapshotFailed)
    else if f.broken then Panicked(SnapshotFailed)
    else if f.loaded.Some? then Adjusted(f.loaded.value, f.call, uncached)
    else uncached
  }

  predicate Reads(s: Publication.Stores, r: nat, name: string)
  {
    r < |s.directory.readers| && s.directory.readers[r].name == name
  }

  predicate Writes(s: Publication.Stores, k: nat, process: nat, target: Publication.Target)
  {
    k < |s.stores| && s.stores[k].target == target && s.stores[k].process == process
  }

  ghost predicate StageSound(env: Env, stamps: Stamps, s: Publication.Stores, f: Flight)
  {
    match f.stage
    case Started => !f.broken
    case ReadingIndex(r) => !f.broken && Reads(s, r, Publication.IndexName())
    case IndexRead(previous) => !f.broken && IndexSound(env, stamps, previous)
    case Walking(previous, todo) => IndexSound(env, stamps, previous) && ReadingTruly(env, stamps, f, todo)
    case Walked(files, next) => ReadTruly(env, f, files) && IndexSound(env, stamps, next) && FilesOf(next) == files
    case StoringIndex(files, next, k) =>
      ReadTruly(env, f, files) && Writes(s, k, f.process, Publication.IndexTarget(next)) && FilesOf(next) == files
    case IndexStored(files) => ReadTruly(env, f, files)
    case Loading(files, r) => ReadTruly(env, f, files) && Reads(s, r, KeyName(env, f.call, files))
    case Missed(files) => ReadTruly(env, f, files)
    case Checked(outcome) =>
      f.made.Some? && outcome == UncachedOn(env, f.call, f.seen, f.lock) && ReadTruly(env, f, FilesRead(env, f))
    case StoringRecord(outcome, k) =>
      && f.made.Some? && Writes(s, k, f.process, Publication.RecordTarget(f.made.value))
      && outcome == UncachedOn(env, f.call, f.seen, f.lock) && ReadTruly(env, f, FilesRead(env, f))
    case Finished(outcome) =>
      && (f.loaded.None? ==> outcome == Explanation(env, f, f.seen))
      && (f.loaded.Some? ==> outcome == HitOutcome(env, f.call, f.lock, f.loaded.value.payload))
      && (!f.broken ==> ReadTruly(env, f, FilesRead(env, f)))
    case Abandoned => true
  }

  /** The store that failed a call is gone, and was the call's own: of its record, or of the index of what it read. */
  ghost predicate FailureIsReal(env: Env, s: Publication.Stores, f: Flight)
  {
    f.failed.Some? ==>
      var k := f.failed.value;
      && k < |s.stores| && PhaseOf(s, k).Gone? && s.stores[k].process == f.process
      && (if f.made.Some? then s.stores[k].target == Publication.RecordTarget(f.made.value)
          else s.stores[k].target.IndexTarget? && FilesOf(s.stores[k].target.index) == FilesRead(env, f))
  }

  ghost predicate FlightSound(env: Env, stamps: Stamps, s: Publication.Stores, f: Flight)
  {
    && f.process < |s.processes|
    && StageSound(env, stamps, s, f)
    && (f.made.Some? ==> MadeTruly(env, f, f.made.value))
    && (f.made.Some? ==> f.stage.Checked? || f.stage.StoringRecord? || f.stage.Finished? || f.stage.Abandoned?)
    && (f.loaded.Some? ==> f.stage.Finished? && f.made.None? && f.failed.None? && !f.broken)
    && (f.loaded.Some? ==> f.loaded.value.cacheKey == Key(env, f))
    && (f.failed.Some? ==> f.stage.Finished? && !f.broken) && FailureIsReal(env, s, f)
    && (f.broken && f.steady ==> !WalkSucceeds(env, f.call.policy.config, f.tree))
  }

  // ----- what every step of the directory keeps

  /** Readers keep their names, stores their targets, and ended stores their ends. */
  ghost predicate Grows(s: Publication.Stores, t: Publication.Stores)
  {
    && |s.processes| <= |t.processes|
    && |s.stores| <= |t.stores| && (forall k :: 0 <= k < |s.stores| ==> t.stores[k] == s.stores[k])
    && |s.directory.readers| <= |t.directory.readers|
    && (forall r :: 0 <= r < |s.directory.readers| ==> t.directory.readers[r].name == s.directory.readers[r].name)
    && |s.directory.writers| <= |t.directory.writers|
    && (forall k: nat :: k < |s.directory.writers| && (PhaseOf(s, k).Renamed? || PhaseOf(s, k).Gone?) ==>
          PhaseOf(t, k) == PhaseOf(s, k))
  }

  lemma EventGrows(codec: Publication.Codec, s: Publication.Stores, event: AtomicRename.Event)
    ensures Grows(s, Publication.Act(codec, s, Publication.Move(event)))
  {
  }

  lemma DrawGrows(codec: Publication.Codec, s: Publication.Stores, p: nat, target: Publication.Target)
    requires p < |s.processes|
    ensures var t := Drawn(codec, s, p, target);
            Grows(s, t) && |t.stores| == |s.stores| + 1 && Writes(t, |s.stores|, p, target)
  {
  }

  lemma OpenGrows(codec: Publication.Codec, s: Publication.Stores, name: string)
    requires Publication.IsDestination(name) && name in s.directory.names
    ensures var t := Opened(codec, s, name);
            Grows(s, t) && t.stores == s.stores && Reads(t, |s.directory.readers|, name)
  {
  }

  lemma FlightStays(env: Env, stamps: Stamps, s: Publication.Stores, t: Publication.Stores, f: Flight)
    requires Grows(s, t) && FlightSound(env, stamps, s, f)
    requires |s.directory.writers| == |s.stores|
    ensures FlightSound(env, stamps, t, f)
  {
  }

  // ----- what every step of the world keeps

  ghost predicate MadeInRun(flights: seq<Flight>, record: Record)
  {
    exists j: nat :: j < |flights| && flights[j].made == Some(record)
  }

  ghost predicate TargetSound(env: Env, stamps: Stamps, flights: seq<Flight>, target: Publication.Target)
  {
    match target
    case IndexTarget(index) => IndexSound(env, stamps, index)
    case RecordTarget(record) => MadeInRun(flights, record)
  }

  ghost predicate TargetsSound(env: Env, stamps: Stamps, w: World)
  {
    forall k :: 0 <= k < |w.stores.stores| ==> TargetSound(env, stamps, w.flights, w.stores.stores[k].target)
  }

  /** A loaded record was made by a call of this run and published in it. */
  ghost predicate LoadedSound(w: World, f: Flight)
  {
    f.loaded.Some? ==> MadeInRun(w.flights, f.loaded.value) && Publication.RecordStored(w.stores, f.loaded.value)
  }

  ghost predicate FlightsSound(env: Env, stamps: Stamps, w: World)
  {
    forall i :: 0 <= i < |w.flights| ==> FlightSound(env, stamps, w.stores, w.flights[i])
  }

  ghost predicate WorldSound(env: Env, stamps: Stamps, codec: Publication.Codec, w: World)
  {
    && Publication.StoresInv(codec, w.stores)
    && StampedTree(env, stamps, w.tree)
    && TargetsSound(env, stamps, w)
    && FlightsSound(env, stamps, w)
    && forall i :: 0 <= i < |w.flights| ==> LoadedSound(w, w.flights[i])
  }

  /** Keys are digests, and no digest is the index's stem. */
  ghost predicate KeysAvoidIndex(env: Env)
  {
    forall material :: FileStem(env.keyDigest(material)) != Publication.INDEX_STEM
  }

  function OriginOf(env: Env, f: Flight): Origin
    requires Analyzed(env, f.call, f.seen).Some?
  {
    Origin(f.call, DevGate.Contents(f.read), f.seen, Analyzed(env, f.call, f.seen).value)
  }

  lemma MadeIsComputed(env: Env, stamps: Stamps, w: World, record: Record) returns (j: nat)
    requires FlightsSound(env, stamps, w) && MadeInRun(w.flights, record)
    ensures j < |w.flights| && w.flights[j].made == Some(record) && MadeTruly(env, w.flights[j], record)
    ensures ComputedFrom(env, record, OriginOf(env, w.flights[j])) && record.cacheKey == Key(env, w.flights[j])
  {
    j :| j < |w.flights| && w.flights[j].made == Some(record);
    assert FlightSound(env, stamps, w.stores, w.flights[j]);
  }

  /** A finished read of the index's name gives an index that is true for its stamps. */
  lemma IndexReadIsSound(env: Env, stamps: Stamps, codec: Publication.Codec, w: World, r: nat)
    requires WorldSound(env, stamps, codec, w) && KeysAvoidIndex(env) && Publication.ReadsBack(codec)
    requires ReadDone(w.stores, r) && Reads(w.stores, r, Publication.IndexName())
    ensures var index := codec.parseIndex(w.stores.directory.readers[r].got);
            index.Some? && IndexSound(env, stamps, index.value)
  {
    var reader := w.stores.directory.readers[r];
    Publication.FinishedReadIsStored(codec, w.stores, r);
    var k: nat :| Publication.StoredBy(codec, w.stores, k, reader.name, reader.got);
    var target := w.stores.stores[k].target;
    assert TargetSound(env, stamps, w.flights, target);
    if target.RecordTarget? {
      var j := MadeIsComputed(env, stamps, w, target.record);
      Publication.RecordMeetsIndexExactlyWhen(target.record.cacheKey);
    }
    assert target.IndexTarget?;
  }

  /** A finished read of a record's name gives a record some call of this run made and published. */
  lemma RecordReadIsMade(env: Env, stamps: Stamps, codec: Publication.Codec, w: World, r: nat, key: Digest)
    returns (record: Record)
    requires WorldSound(env, stamps, codec, w) && Publication.ReadsBack(codec)
    requires FileStem(key) != Publication.INDEX_STEM
    requires ReadDone(w.stores, r) && Reads(w.stores, r, Publication.RecordName(key))
    ensures MadeInRun(w.flights, record) && Publication.RecordStored(w.stores, record)
    ensures var loaded := Publication.LoadBytes(env, codec, w.stores.directory.readers[r].got, key);
            loaded.Some? ==> loaded == Some(record) && record.cacheKey == key
  {
    record := Publication.FinishedReadHoldsRecord(codec, w.stores, r, key);
    var k: nat :| Publication.RecordStoredBy(w.stores, k, record);
    assert TargetSound(env, stamps, w.flights, w.stores.stores[k].target);
    var j := MadeIsComputed(env, stamps, w, record);
    Publication.LoadOfStored(env, codec, record, key);
  }

  /** Neither loaded, made nor failed anything yet. */
  predicate Plain(f: Flight)
  {
    f.loaded.None? && f.made.None? && f.failed.None?
  }

  predicate Early(stage: Stage)
  {
    stage.Started? || stage.ReadingIndex? || stage.IndexRead? || stage.Walking? || stage.IndexStored? ||
    stage.Loading? || stage.Missed?
  }

  lemma EarlyIsPlain(env: Env, stamps: Stamps, s: Publication.Stores, f: Flight)
    requires FlightSound(env, stamps, s, f) && Early(f.stage)
    ensures Plain(f) && !f.broken && f.process < |s.processes| && StageSound(env, stamps, s, f)
  {
  }

  lemma PlainFlight(env: Env, stamps: Stamps, s: Publication.Stores, g: Flight)
    requires Plain(g) && g.process < |s.processes| && StageSound(env, stamps, s, g)
    requires g.broken && g.steady ==> !WalkSucceeds(env, g.call.policy.config, g.tree)
    ensures FlightSound(env, stamps, s, g)
  {
  }

  lemma ListKeeps(env: Env, stamps: Stamps, s: Publication.Stores, tree: Node, f: Flight)
    requires FlightSound(env, stamps, s, f) && f.stage.IndexRead?
    ensures FlightSound(env, stamps, s, ListStep(env, tree, f, f.stage.previous))
  {
    var config := f.call.policy.config;
    var policy, inputs := env.walkPolicy(config, tree), env.inputs(config, tree);
    if WalkableInputs(policy, inputs) { WalkableIsListable(policy, inputs); }
    EarlyIsPlain(env, stamps, s, f);
    PlainFlight(env, stamps, s, ListStep(env, tree, f, f.stage.previous));
  }

  /** One more file read from a stamped tree. */
  lemma ReadMore(env: Env, stamps: Stamps, tree: Node, f: Flight, todo: set<Path>, path: Path)
    requires ReadingTruly(env, stamps, f, todo) && StampedTree(env, stamps, tree) && path in todo
    requires path in SelectedFor(env, f.call.policy.config, tree)
    ensures var stat := SelectedFor(env, f.call.policy.config, tree)[path];
            ReadingTruly(env, stamps, f.(steady := f.steady && tree == f.tree, read := f.read[path := stat]),
                         todo - {path})
  {
    var selected := SelectedFor(env, f.call.policy.config, tree);
    StampedMore(stamps, f.read, selected, path);
    MoveKey(f.read, todo, path, selected[path]);
  }

  lemma StampedMore(stamps: Stamps, read: map<Path, Stat>, selected: map<Path, Stat>, path: Path)
    requires Stamped(stamps, read) && Stamped(stamps, selected) && path in selected
    ensures Stamped(stamps, read[path := selected[path]])
  {
  }

  lemma MoveKey(read: map<Path, Stat>, todo: set<Path>, path: Path, stat: Stat)
    requires path in todo
    ensures read[path := stat].Keys + (todo - {path}) == read.Keys + todo
  {
  }

  /** A tree that stood still lets a listed file down only by its time, and then the walk fails anyway. */
  lemma SteadyBreak(env: Env, stamps: Stamps, f: Flight, todo: set<Path>, path: Path)
    requires ReadingTruly(env, stamps, f, todo) && path in todo
    requires var selected := SelectedFor(env, f.call.policy.config, f.tree);
             path !in selected || selected[path].modified < 0
    ensures !WalkSucceeds(env, f.call.policy.config, f.tree)
  {
    var config := f.call.policy.config;
    if WalkSucceeds(env, config, f.tree) {
      WalkableIsTimely(env.walkPolicy(config, f.tree), env.inputs(config, f.tree), path);
    }
  }

  /** Reading one file keeps what is read true, and breaks off a steady walk only where it would fail anyway. */
  lemma StatKeeps(env: Env, stamps: Stamps, s: Publication.Stores, tree: Node, f: Flight, path: Path)
    requires FlightSound(env, stamps, s, f) && StampedTree(env, stamps, tree)
    requires f.stage.Walking? && path in f.stage.todo
    ensures var g := StatStep(env, tree, f, f.stage.previous, f.stage.todo, path);
            FlightSound(env, stamps, s, g) && Plain(g)
  {
    var selected := SelectedFor(env, f.call.policy.config, tree);
    var g := StatStep(env, tree, f, f.stage.previous, f.stage.todo, path);
    EarlyIsPlain(env, stamps, s, f);
    if path !in selected || selected[path].modified < 0 {
      if g.steady { SteadyBreak(env, stamps, f, f.stage.todo, path); }
    } else {
      ReadMore(env, stamps, tree, f, f.stage.todo, path);
    }
    PlainFlight(env, stamps, s, g);
  }

  /** What was read, all told. */
  lemma AllRead(env: Env, stamps: Stamps, f: Flight, previous: Index)
    requires ReadingTruly(env, stamps, f, {}) && IndexSound(env, stamps, previous)
    ensures var next := NextIndex(env.contentDigest, previous, f.read);
            ReadTruly(env, f, FilesOf(next)) && IndexSound(env, stamps, next)
  {
    var listed := SelectedFor(env, f.call.policy.config, f.tree);
    IndexedIsDirect(env, stamps, previous, f.read);
    assert f.read.Keys == listed.Keys;
    assert f.steady ==> f.read == listed;
  }

  /** At the end of the reading the files and the next index are true of what was read. */
  lemma EndWalkKeeps(env: Env, stamps: Stamps, s: Publication.Stores, f: Flight)
    requires FlightSound(env, stamps, s, f) && f.stage.Walking? && f.stage.todo == {}
    ensures FlightSound(env, stamps, s, EndWalk(env, f, f.stage.previous))
  {
    EarlyIsPlain(env, stamps, s, f);
    AllRead(env, stamps, f, f.stage.previous);
    PlainFlight(env, stamps, s, EndWalk(env, f, f.stage.previous));
  }

  function Hit(env: Env, f: Flight, lock: Lock, record: Record): Flight
  {
    f.(stage := Finished(HitOutcome(env, f.call, lock, record.payload)), lock := lock, loaded := Some(record))
  }

  lemma HitKeeps(env: Env, stamps: Stamps, s: Publication.Stores, lock: Lock, f: Flight, record: Record)
    requires FlightSound(env, stamps, s, f) && f.stage.Loading?
    requires record.cacheKey == KeyFor(env, f.call, f.stage.files)
    ensures FlightSound(env, stamps, s, Hit(env, f, lock, record))
  {
  }

  lemma MissKeeps(env: Env, stamps: Stamps, s: Publication.Stores, f: Flight)
    requires FlightSound(env, stamps, s, f) && f.stage.Loading?
    ensures FlightSound(env, stamps, s, f.(stage := Missed(f.stage.files)))
  {
  }

  /** A hit takes whatever record of its key some call of the run made and published. */
  lemma LoadKeeps(env: Env, stamps: Stamps, codec: Publication.Codec, w: World, f: Flight)
    requires KeysAvoidIndex(env) && Publication.ReadsBack(codec)
    requires WorldSound(env, stamps, codec, w) && FlightSound(env, stamps, w.stores, f)
    requires f.stage.Loading? && ReadDone(w.stores, f.stage.reader)
    ensures var g := LoadStep(env, codec, w.lock, f, f.stage.files, w.stores.directory.readers[f.stage.reader].got);
            FlightSound(env, stamps, w.stores, g) && LoadedSound(w, g) && g.made == f.made
  {
    var key := KeyFor(env, f.call, f.stage.files);
    var got := w.stores.directory.readers[f.stage.reader].got;
    var record := RecordReadIsMade(env, stamps, codec, w, f.stage.reader, key);
    if Publication.LoadBytes(env, codec, got, key).Some? {
      HitKeeps(env, stamps, w.stores, w.lock, f, record);
      assert LoadStep(env, codec, w.lock, f, f.stage.files, got) == Hit(env, f, w.lock, record);
    } else {
      MissKeeps(env, stamps, w.stores, f);
      assert LoadStep(env, codec, w.lock, f, f.stage.files, got) == f.(stage := Missed(f.stage.files));
    }
  }

  /** A call that has neither loaded, made nor failed a store ends soundly with the outcome on what it saw. */
  lemma PlainEnd(env: Env, stamps: Stamps, s: Publication.Stores, g: Flight)
    requires g.process < |s.processes| && g.made.None? && g.loaded.None? && g.failed.None?
    requires ReadTruly(env, g, FilesRead(env, g))
    requires g.stage == Finished(UncachedOn(env, g.call, g.seen, g.lock))
    ensures FlightSound(env, stamps, s, g)
  {
  }

  lemma CheckedSoundly(env: Env, stamps: Stamps, s: Publication.Stores, g: Flight)
    requires g.process < |s.processes| && g.made.Some? && g.loaded.None? && g.failed.None?
    requires ReadTruly(env, g, FilesRead(env, g)) && MadeTruly(env, g, g.made.value)
    requires g.stage == Checked(UncachedOn(env, g.call, g.seen, g.lock))
    ensures FlightSound(env, stamps, s, g)
  {
  }

  lemma CheckKeeps(env: Env, stamps: Stamps, s: Publication.Stores, tree: Node, lock: Lock, f: Flight)
    requires FlightSound(env, stamps, s, f) && f.stage.Missed?
    ensures FlightSound(env, stamps, s, CheckStep(env, tree, lock, f, f.stage.files))
  {
    var g := CheckStep(env, tree, lock, f, f.stage.files);
    EarlyIsPlain(env, stamps, s, f);
    assert g.made.None? || g.stage.Checked?;
    if g.stage.Checked? {
      CheckedSoundly(env, stamps, s, g);
    } else {
      PlainEnd(env, stamps, s, g);
    }
  }

  lemma IndexStoreKeeps(env: Env, stamps: Stamps, s: Publication.Stores, f: Flight)
    requires FlightSound(env, stamps, s, f) && f.stage.StoringIndex?
    ensures FlightSound(env, stamps, s, IndexStoreStep(f, f.stage.files, f.stage.store, PhaseOf(s, f.stage.store)))
  {
  }

  lemma RecordStoreKeeps(env: Env, stamps: Stamps, s: Publication.Stores, f: Flight)
    requires FlightSound(env, stamps, s, f) && f.stage.StoringRecord?
    ensures FlightSound(env, stamps, s, RecordStoreStep(f, f.stage.outcome, f.stage.store, PhaseOf(s, f.stage.store)))
  {
  }

  /** What a call stores next. */
  ghost predicate DrawnBy(f: Flight, target: Publication.Target)
  {
    || (f.stage.Walked? && target == Publication.IndexTarget(f.stage.next))
    || (f.stage.Checked? && f.made.Some? && target == Publication.RecordTarget(f.made.value))
  }

  /** How one call's step may change the directory: it grows, by at most the store the call draws. */
  ghost predicate DirectoryMoved(codec: Publication.Codec, s: Publication.Stores, t: Publication.Stores, f: Flight)
  {
    && Publication.StoresInv(codec, t) && Grows(s, t)
    && (t.stores == s.stores || (|t.stores| == |s.stores| + 1 && DrawnBy(f, t.stores[|s.stores|].target)))
  }

  /** What a step leaves of the flight. */
  ghost predicate FlightMoved(env: Env, stamps: Stamps, w: World, f: Flight, g: Flight, t: Publication.Stores)
  {
    FlightSound(env, stamps, t, g) && LoadedSound(w, g) && (f.made.Some? ==> g.made == f.made)
  }

  lemma Unmoved(codec: Publication.Codec, s: Publication.Stores, f: Flight)
    requires Publication.StoresInv(codec, s)
    ensures DirectoryMoved(codec, s, s, f)
  {
  }

  lemma OpenMoves(codec: Publication.Codec, s: Publication.Stores, f: Flight, name: string)
    requires Publication.StoresInv(codec, s) && Publication.IsDestination(name) && name in s.directory.names
    ensures DirectoryMoved(codec, s, Opened(codec, s, name), f)
  {
    Publication.ActKeeps(codec, s, Publication.Move(AtomicRename.Open(name)));
    OpenGrows(codec, s, name);
  }

  lemma DrawMoves(codec: Publication.Codec, s: Publication.Stores, f: Flight, target: Publication.Target)
    requires Publication.StoresInv(codec, s) && f.process < |s.processes| && DrawnBy(f, target)
    ensures DirectoryMoved(codec, s, Drawn(codec, s, f.process, target), f)
  {
    Publication.ActKeeps(codec, s, Publication.Draw(f.process, target));
    DrawGrows(codec, s, f.process, target);
  }

  /** A call that opens a file for reading, or finds none. */
  lemma OpeningKeeps(env: Env, stamps: Stamps, codec: Publication.Codec, w: World, f: Flight)
    requires Publication.StoresInv(codec, w.stores) && FlightSound(env, stamps, w.stores, f)
    requires f.stage.Started? || f.stage.IndexStored?
    ensures var (g, t) := Move(env, codec, w, f);
            DirectoryMoved(codec, w.stores, t, f) && FlightMoved(env, stamps, w, f, g, t)
  {
    var name := if f.stage.Started? then Publication.IndexName() else KeyName(env, f.call, f.stage.files);
    NamesAreDestinations(if f.stage.Started? then "" else KeyFor(env, f.call, f.stage.files));
    EarlyIsPlain(env, stamps, w.stores, f);
    var (g, t) := Move(env, codec, w, f);
    if name in w.stores.directory.names {
      OpenMoves(codec, w.stores, f, name);
      OpenGrows(codec, w.stores, name);
    } else {
      Unmoved(codec, w.stores, f);
    }
    PlainFlight(env, stamps, t, g);
  }

  lemma NamesAreDestinations(key: Digest)
    ensures Publication.IsDestination(Publication.IndexName())
    ensures Publication.IsDestination(Publication.RecordName(key))
  {
  }

  /** A call that starts a store. */
  lemma DrawingKeeps(env: Env, stamps: Stamps, codec: Publication.Codec, w: World, f: Flight)
    requires Publication.StoresInv(codec, w.stores) && FlightSound(env, stamps, w.stores, f) && LoadedSound(w, f)
    requires f.stage.Walked? || f.stage.Checked?
    ensures var (g, t) := Move(env, codec, w, f);
            DirectoryMoved(codec, w.stores, t, f) && FlightMoved(env, stamps, w, f, g, t)
  {
    var target := if f.stage.Walked? then Publication.IndexTarget(f.stage.next)
                  else Publication.RecordTarget(f.made.value);
    var (g, t) := Move(env, codec, w, f);
    DrawMoves(codec, w.stores, f, target);
    DrawGrows(codec, w.stores, f.process, target);
    FlightStays(env, stamps, w.stores, t, f);
  }

  /** A call that reads what it opened. */
  lemma ReadingKeeps(env: Env, stamps: Stamps, codec: Publication.Codec, w: World, f: Flight)
    requires KeysAvoidIndex(env) && Publication.ReadsBack(codec)
    requires WorldSound(env, stamps, codec, w) && FlightSound(env, stamps, w.stores, f) && LoadedSound(w, f)
    requires f.stage.ReadingIndex? || f.stage.Loading?
    ensures var (g, t) := Move(env, codec, w, f); t == w.stores && FlightMoved(env, stamps, w, f, g, t)
  {
    if ReadDone(w.stores, f.stage.reader) {
      if f.stage.Loading? {
        LoadKeeps(env, stamps, codec, w, f);
      } else {
        IndexReadIsSound(env, stamps, codec, w, f.stage.reader);
      }
    }
  }

  /** A call that lists its inputs. */
  lemma ListingKeeps(env: Env, stamps: Stamps, codec: Publication.Codec, w: World, f: Flight)
    requires FlightSound(env, stamps, w.stores, f) && f.stage.IndexRead?
    ensures var (g, t) := Move(env, codec, w, f); t == w.stores && FlightMoved(env, stamps, w, f, g, t)
  {
    EarlyIsPlain(env, stamps, w.stores, f);
    ListKeeps(env, stamps, w.stores, w.tree, f);
  }

  /** A call that may have read everything. */
  lemma WalkingKeeps(env: Env, stamps: Stamps, codec: Publication.Codec, w: World, f: Flight)
    requires FlightSound(env, stamps, w.stores, f) && f.stage.Walking?
    ensures var (g, t) := Move(env, codec, w, f); t == w.stores && FlightMoved(env, stamps, w, f, g, t)
  {
    EarlyIsPlain(env, stamps, w.stores, f);
    if f.stage.todo == {} { EndWalkKeeps(env, stamps, w.stores, f); }
  }

  /** A call that analyses and checks. */
  lemma CheckingKeeps(env: Env, stamps: Stamps, codec: Publication.Codec, w: World, f: Flight)
    requires FlightSound(env, stamps, w.stores, f) && f.stage.Missed?
    ensures var (g, t) := Move(env, codec, w, f); t == w.stores && FlightMoved(env, stamps, w, f, g, t)
  {
    EarlyIsPlain(env, stamps, w.stores, f);
    CheckKeeps(env, stamps, w.stores, w.tree, w.lock, f);
  }

  /** A call that waits for its index. */
  lemma AwaitingIndexKeeps(env: Env, stamps: Stamps, codec: Publication.Codec, w: World, f: Flight)
    requires FlightSound(env, stamps, w.stores, f) && LoadedSound(w, f) && f.stage.StoringIndex?
    ensures var (g, t) := Move(env, codec, w, f); t == w.stores && FlightMoved(env, stamps, w, f, g, t)
  {
    IndexStoreKeeps(env, stamps, w.stores, f);
  }

  /** A call that waits for its record. */
  lemma AwaitingRecordKeeps(env: Env, stamps: Stamps, codec: Publication.Codec, w: World, f: Flight)
    requires FlightSound(env, stamps, w.stores, f) && LoadedSound(w, f) && f.stage.StoringRecord?
    ensures var (g, t) := Move(env, codec, w, f); t == w.stores && FlightMoved(env, stamps, w, f, g, t)
  {
    RecordStoreKeeps(env, stamps, w.stores, f);
  }

  lemma MoveKeeps(env: Env, stamps: Stamps, codec: Publication.Codec, w: World, f: Flight)
    requires KeysAvoidIndex(env) && Publication.ReadsBack(codec)
    requires WorldSound(env, stamps, codec, w) && FlightSound(env, stamps, w.stores, f) && LoadedSound(w, f)
    ensures var (g, t) := Move(env, codec, w, f);
            DirectoryMoved(codec, w.stores, t, f) && FlightMoved(env, stamps, w, f, g, t)
  {
    if f.stage.Started? || f.stage.IndexStored? {
      OpeningKeeps(env, stamps, codec, w, f);
    } else if f.stage.Walked? || f.stage.Checked? {
      DrawingKeeps(env, stamps, codec, w, f);
    } else {
      Unmoved(codec, w.stores, f);
      if f.stage.ReadingIndex? || f.stage.Loading? {
        ReadingKeeps(env, stamps, codec, w, f);
      } else if f.stage.IndexRead? {
        ListingKeeps(env, stamps, codec, w, f);
      } else if f.stage.Walking? {
        WalkingKeeps(env, stamps, codec, w, f);
      } else if f.stage.Missed? {
        CheckingKeeps(env, stamps, codec, w, f);
      } else if f.stage.StoringIndex? {
        AwaitingIndexKeeps(env, stamps, codec, w, f);
      } else if f.stage.StoringRecord? {
        AwaitingRecordKeeps(env, stamps, codec, w, f);
      }
    }
  }

  /** Flights are only added to, and keep the records they made. */
  ghost predicate FlightsGrow(before: seq<Flight>, after: seq<Flight>)
  {
    |before| <= |after| && forall j :: 0 <= j < |before| && before[j].made.Some? ==> after[j].made == before[j].made
  }

  lemma MadeStays(before: seq<Flight>, after: seq<Flight>, record: Record)
    requires FlightsGrow(before, after) && MadeInRun(before, record)
    ensures MadeInRun(after, record)
  {
    var j: nat :| j < |before| && before[j].made == Some(record);
    assert after[j].made == Some(record);
  }

  lemma RecordStoredStays(s: Publication.Stores, t: Publication.Stores, record: Record)
    requires Grows(s, t) && |s.directory.writers| == |s.stores| && Publication.RecordStored(s, record)
    ensures Publication.RecordStored(t, record)
  {
    var k: nat :| Publication.RecordStoredBy(s, k, record);
    assert PhaseOf(s, k).Renamed? && PhaseOf(t, k) == PhaseOf(s, k);
    assert Publication.RecordStoredBy(t, k, record);
  }

  lemma TargetStays(env: Env, stamps: Stamps, before: seq<Flight>, after: seq<Flight>, target: Publication.Target)
    requires FlightsGrow(before, after) && TargetSound(env, stamps, before, target)
    ensures TargetSound(env, stamps, after, target)
  {
    if target.RecordTarget? { MadeStays(before, after, target.record); }
  }

  lemma LoadedStays(w: World, x: World, f: Flight)
    requires FlightsGrow(w.flights, x.flights) && Grows(w.stores, x.stores)
    requires |w.stores.directory.writers| == |w.stores.stores| && LoadedSound(w, f)
    ensures LoadedSound(x, f)
  {
    if f.loaded.Some? {
      MadeStays(w.flights, x.flights, f.loaded.value);
      RecordStoredStays(w.stores, x.stores, f.loaded.value);
    }
  }

  /** The targets of the old stores stay sound; a new one is what the moving call stores. */
  lemma TargetsStay(env: Env, stamps: Stamps, w: World, x: World, f: Flight, i: nat)
    requires TargetsSound(env, stamps, w) && FlightsGrow(w.flights, x.flights) && Grows(w.stores, x.stores)
    requires x.stores.stores == w.stores.stores ||
             (|x.stores.stores| == |w.stores.stores| + 1 && DrawnBy(f, x.stores.stores[|w.stores.stores|].target))
    requires i < |w.flights| && w.flights[i] == f && FlightSound(env, stamps, w.stores, f)
    ensures TargetsSound(env, stamps, x)
  {
    forall k | 0 <= k < |x.stores.stores| ensures TargetSound(env, stamps, x.flights, x.stores.stores[k].target) {
      if k < |w.stores.stores| {
        TargetStays(env, stamps, w.flights, x.flights, w.stores.stores[k].target);
      } else if f.made.Some? && f.stage.Checked? {
        assert MadeInRun(w.flights, f.made.value);
        MadeStays(w.flights, x.flights, f.made.value);
      }
    }
  }

  /** The calls that do not move lose nothing. */
  lemma OthersStay(env: Env, stamps: Stamps, codec: Publication.Codec, w: World, x: World, i: nat)
    requires WorldSound(env, stamps, codec, w) && FlightsGrow(w.flights, x.flights) && Grows(w.stores, x.stores)
    requires forall j :: 0 <= j < |w.flights| && j != i ==> x.flights[j] == w.flights[j]
    ensures forall j :: 0 <= j < |w.flights| && j != i ==>
              FlightSound(env, stamps, x.stores, x.flights[j]) && LoadedSound(x, x.flights[j])
  {
    forall j | 0 <= j < |w.flights| && j != i
      ensures FlightSound(env, stamps, x.stores, x.flights[j]) && LoadedSound(x, x.flights[j])
    {
      FlightStays(env, stamps, w.stores, x.stores, w.flights[j]);
      LoadedStays(w, x, w.flights[j]);
    }
  }

  lemma FlightsKept(env: Env, stamps: Stamps, codec: Publication.Codec, w: World, x: World, i: nat)
    requires WorldSound(env, stamps, codec, w) && FlightsGrow(w.flights, x.flights) && Grows(w.stores, x.stores)
    requires |x.flights| == |w.flights|
    requires forall j :: 0 <= j < |w.flights| && j != i ==> x.flights[j] == w.flights[j]
    requires i < |w.flights| ==> FlightSound(env, stamps, x.stores, x.flights[i]) && LoadedSound(x, x.flights[i])
    ensures FlightsSound(env, stamps, x) && forall j :: 0 <= j < |x.flights| ==> LoadedSound(x, x.flights[j])
  {
    OthersStay(env, stamps, codec, w, x, i);
  }

  /** A flight that gives way to another of the same making leaves the rest as it was. */
  lemma ReplaceKeeps(
    env: Env, stamps: Stamps, codec: Publication.Codec, w: World, i: nat, g: Flight, t: Publication.Stores)
    requires WorldSound(env, stamps, codec, w) && i < |w.flights|
    requires DirectoryMoved(codec, w.stores, t, w.flights[i]) && FlightMoved(env, stamps, w, w.flights[i], g, t)
    ensures WorldSound(env, stamps, codec, w.(flights := w.flights[i := g], stores := t))
  {
    var x := w.(flights := w.flights[i := g], stores := t);
    assert FlightsGrow(w.flights, x.flights);
    TargetsStay(env, stamps, w, x, w.flights[i], i);
    LoadedStays(w, x, g);
    FlightsKept(env, stamps, codec, w, x, i);
  }

  lemma LoseReadKeeps(env: Env, stamps: Stamps, s: Publication.Stores, f: Flight)
    requires FlightSound(env, stamps, s, f)
    ensures FlightSound(env, stamps, s, LoseRead(f)) && LoseRead(f).made == f.made && LoseRead(f).loaded == f.loaded
  {
    if Early(f.stage) {
      EarlyIsPlain(env, stamps, s, f);
      PlainFlight(env, stamps, s, LoseRead(f));
    }
  }

  /** Steps of the directory itself, and new processes. */
  lemma StoresMoveKeeps(env: Env, stamps: Stamps, codec: Publication.Codec, w: World, t: Publication.Stores)
    requires WorldSound(env, stamps, codec, w) && Publication.StoresInv(codec, t) && Grows(w.stores, t)
    requires t.stores == w.stores.stores
    ensures WorldSound(env, stamps, codec, w.(stores := t))
  {
    FlightsKept(env, stamps, codec, w, w.(stores := t), |w.flights|);
  }

  lemma SpawnKeeps(env: Env, stamps: Stamps, codec: Publication.Codec, w: World, pid: nat)
    requires WorldSound(env, stamps, codec, w)
    ensures WorldSound(env, stamps, codec, w.(stores := Publication.Act(codec, w.stores, Publication.Spawn(pid))))
  {
    Publication.ActKeeps(codec, w.stores, Publication.Spawn(pid));
    StoresMoveKeeps(env, stamps, codec, w, Publication.Act(codec, w.stores, Publication.Spawn(pid)));
  }

  lemma DirectoryKeeps(
    env: Env, stamps: Stamps, codec: Publication.Codec, w: World, event: AtomicRename.Event)
    requires WorldSound(env, stamps, codec, w)
    ensures WorldSound(env, stamps, codec, w.(stores := Publication.Act(codec, w.stores, Publication.Move(event))))
  {
    Publication.ActKeeps(codec, w.stores, Publication.Move(event));
    EventGrows(codec, w.stores, event);
    StoresMoveKeeps(env, stamps, codec, w, Publication.Act(codec, w.stores, Publication.Move(event)));
  }

  lemma StartKeeps(env: Env, stamps: Stamps, codec: Publication.Codec, w: World, p: nat, call: Call)
    requires WorldSound(env, stamps, codec, w) && p < |w.stores.processes|
    ensures WorldSound(env, stamps, codec, Act(env, codec, w, Start(p, call)))
  {
    var x := Act(env, codec, w, Start(p, call));
    forall k | 0 <= k < |x.stores.stores| ensures TargetSound(env, stamps, x.flights, x.stores.stores[k].target) {
      TargetStays(env, stamps, w.flights, x.flights, w.stores.stores[k].target);
    }
    OthersStay(env, stamps, codec, w, x, |w.flights|);
  }

  lemma ActKeeps(env: Env, stamps: Stamps, codec: Publication.Codec, w: World, action: Action)
    requires KeysAvoidIndex(env) && Publication.ReadsBack(codec)
    requires WorldSound(env, stamps, codec, w)
    requires action.EditTree? ==> StampedTree(env, stamps, action.tree)
    ensures WorldSound(env, stamps, codec, Act(env, codec, w, action))
  {
    match action
    case EditTree(_) =>
    case EditLock(_) =>
    case Spawn(pid) => SpawnKeeps(env, stamps, codec, w, pid);
    case Directory(event) => DirectoryKeeps(env, stamps, codec, w, event);
    case Start(p, call) =>
      if p < |w.stores.processes| { StartKeeps(env, stamps, codec, w, p, call); }
    case Advance(i) =>
      if i < |w.flights| {
        var (g, t) := Move(env, codec, w, w.flights[i]);
        MoveKeeps(env, stamps, codec, w, w.flights[i]);
        ReplaceKeeps(env, stamps, codec, w, i, g, t);
      }
    case ReadFile(i, path) =>
      if i < |w.flights| && w.flights[i].stage.Walking? && path in w.flights[i].stage.todo {
        ReadFileKeeps(env, stamps, codec, w, i, path);
      }
    case FailRead(i) =>
      if i < |w.flights| { FailReadKeeps(env, stamps, codec, w, i); }
    case Abandon(i) =>
      if i < |w.flights| && !w.flights[i].stage.Finished? { AbandonKeeps(env, stamps, codec, w, i); }
  }

  lemma ReadFileKeeps(env: Env, stamps: Stamps, codec: Publication.Codec, w: World, i: nat, path: Path)
    requires WorldSound(env, stamps, codec, w) && i < |w.flights|
    requires w.flights[i].stage.Walking? && path in w.flights[i].stage.todo
    ensures var f := w.flights[i];
            var g := StatStep(env, w.tree, f, f.stage.previous, f.stage.todo, path);
            WorldSound(env, stamps, codec, w.(flights := w.flights[i := g]))
  {
    var f := w.flights[i];
    var g := StatStep(env, w.tree, f, f.stage.previous, f.stage.todo, path);
    EarlyIsPlain(env, stamps, w.stores, f);
    Unmoved(codec, w.stores, f);
    StatKeeps(env, stamps, w.stores, w.tree, f, path);
    ReplaceKeeps(env, stamps, codec, w, i, g, w.stores);
  }

  lemma FailReadKeeps(env: Env, stamps: Stamps, codec: Publication.Codec, w: World, i: nat)
    requires WorldSound(env, stamps, codec, w) && i < |w.flights|
    ensures WorldSound(env, stamps, codec, w.(flights := w.flights[i := LoseRead(w.flights[i])]))
  {
    Unmoved(codec, w.stores, w.flights[i]);
    LoseReadKeeps(env, stamps, w.stores, w.flights[i]);
    ReplaceKeeps(env, stamps, codec, w, i, LoseRead(w.flights[i]), w.stores);
  }

  lemma AbandonKeeps(env: Env, stamps: Stamps, codec: Publication.Codec, w: World, i: nat)
    requires WorldSound(env, stamps, codec, w) && i < |w.flights| && !w.flights[i].stage.Finished?
    ensures WorldSound(env, stamps, codec, w.(flights := w.flights[i := w.flights[i].(stage := Abandoned)]))
  {
    Unmoved(codec, w.stores, w.flights[i]);
    ReplaceKeeps(env, stamps, codec, w, i, w.flights[i].(stage := Abandoned), w.stores);
  }

  // ----- every run

  ghost predicate StampedEdits(env: Env, stamps: Stamps, actions: seq<Action>)
  {
    forall i :: 0 <= i < |actions| && actions[i].EditTree? ==> StampedTree(env, stamps, actions[i].tree)
  }

  lemma {:induction false} RunKeepsSound(
    env: Env, stamps: Stamps, codec: Publication.Codec, tree: Node, lock: Lock, actions: seq<Action>)
    requires KeysAvoidIndex(env) && Publication.ReadsBack(codec)
    requires StampedTree(env, stamps, tree) && StampedEdits(env, stamps, actions)
    ensures WorldSound(env, stamps, codec, Run(env, codec, tree, lock, actions))
  {
    if actions != [] {
      RunKeepsSound(env, stamps, codec, tree, lock, actions[..|actions| - 1]);
      ActKeeps(env, stamps, codec, Run(env, codec, tree, lock, actions[..|actions| - 1]), actions[|actions| - 1]);
    }
  }

  /**
   Call `j` of the run made the record that `f` loaded: same harness, authority, configuration and
   baseline packages, the same contents read, the label and baseline order the record shows, and an
   analysis that passed.
   */
  ghost predicate Recorder(env: Env, w: World, f: Flight, j: nat)
  {
    && j < |w.flights| && f.loaded.Some? && w.flights[j].made == f.loaded
    && !KeyedApart(w.flights[j].call, f.call)
    && DevGate.Contents(w.flights[j].read) == DevGate.Contents(f.read)
    && UncachedOn(env, w.flights[j].call, w.flights[j].seen, w.flights[j].lock).Returned?
    && (OtherLabelOrOrder(f.loaded.value, f.call) <==>
        w.flights[j].call.policy.gateLabel != f.call.policy.gateLabel ||
        BaselineReceipts(w.flights[j].call.policy) != BaselineReceipts(f.call.policy))
  }

  /** The contents behind a call's report: what its own analysis saw, or what its record's maker's did. */
  ghost predicate Basis(env: Env, w: World, f: Flight, basis: map<Path, string>)
  {
    if f.loaded.None? then basis == f.seen
    else exists j: nat :: Recorder(env, w, f, j) && basis == w.flights[j].seen
  }

  lemma MakerIsRecorder(env: Env, w: World, f: Flight, j: nat)
    requires CollisionFree(env) && j < |w.flights| && f.loaded.Some? && f.loaded.value.cacheKey == Key(env, f)
    requires w.flights[j].made == f.loaded && MadeTruly(env, w.flights[j], f.loaded.value)
    ensures Recorder(env, w, f, j)
  {
    var g := w.flights[j];
    KeyDetermines(env, g.call, DevGate.Contents(g.read), f.call, DevGate.Contents(f.read));
  }

  lemma LoadedHasRecorder(env: Env, stamps: Stamps, codec: Publication.Codec, w: World, i: nat) returns (j: nat)
    requires CollisionFree(env)
    requires WorldSound(env, stamps, codec, w) && i < |w.flights| && w.flights[i].loaded.Some?
    ensures Recorder(env, w, w.flights[i], j) && Publication.RecordStored(w.stores, w.flights[i].loaded.value)
  {
    var f := w.flights[i];
    assert LoadedSound(w, f) && FlightSound(env, stamps, w.stores, f);
    j := MadeIsComputed(env, stamps, w, f.loaded.value);
    MakerIsRecorder(env, w, f, j);
  }

  /** A hit's outcome is explained by what any call that made its record saw. */
  lemma HitExplained(env: Env, stamps: Stamps, w: World, f: Flight, j: nat)
    requires CollisionFree(env) && FlightSound(env, stamps, w.stores, f) && f.stage.Finished?
    requires Recorder(env, w, f, j) && FlightSound(env, stamps, w.stores, w.flights[j])
    ensures f.stage.outcome == Explanation(env, f, w.flights[j].seen)
  {
    HitAgrees(env, f.call, DevGate.Contents(f.read), f.lock, f.loaded.value, OriginOf(env, w.flights[j]));
  }

  /** An explained return is the uncached outcome on the contents behind it, and acceptable if asserted. */
  lemma ReturnIsUncached(env: Env, f: Flight, basis: map<Path, string>)
    ensures var outcome := Explanation(env, f, basis);
            && (outcome.Returned? ==> outcome == UncachedOn(env, f.call, basis, f.lock))
            && (outcome.Returned? && f.call.assertReport ==> !Rejects(outcome.report, f.call.policy.config))
  {
  }

  /** Where a finished call's outcome comes from, given the contents behind its report. */
  ghost predicate Accounted(env: Env, w: World, f: Flight, basis: map<Path, string>)
    requires f.stage.Finished?
  {
    var outcome := f.stage.outcome;
    && outcome == Explanation(env, f, basis)
    && (outcome.Returned? ==> outcome == UncachedOn(env, f.call, basis, f.lock))
    && (outcome.Returned? && f.call.assertReport ==> !Rejects(outcome.report, f.call.policy.config))
    && (outcome.Returned? ==>
          (outcome == UncachedOn(env, f.call, DevGate.Contents(f.read), f.lock) <==>
           UncachedOn(env, f.call, basis, f.lock) == UncachedOn(env, f.call, DevGate.Contents(f.read), f.lock)))
  }

  lemma FinishedIsAccounted(
    env: Env, stamps: Stamps, codec: Publication.Codec, w: World, i: nat, basis: map<Path, string>)
    requires CollisionFree(env) && WorldSound(env, stamps, codec, w)
    requires i < |w.flights| && w.flights[i].stage.Finished? && Basis(env, w, w.flights[i], basis)
    ensures Accounted(env, w, w.flights[i], basis)
  {
    var f := w.flights[i];
    assert FlightSound(env, stamps, w.stores, f);
    if f.loaded.Some? {
      var j: nat :| Recorder(env, w, f, j) && basis == w.flights[j].seen;
      HitExplained(env, stamps, w, f, j);
    }
    ReturnIsUncached(env, f, basis);
  }

  /** What a run shows of a finished call besides its outcome. */
  ghost predicate Grounded(env: Env, w: World, f: Flight)
  {
    && FailureIsReal(env, w.stores, f)
    && (f.loaded.Some? ==> Publication.RecordStored(w.stores, f.loaded.value))
    && (exists basis :: Basis(env, w, f, basis))
    && (f.steady && WalkSucceeds(env, f.call.policy.config, f.tree) ==>
          !f.broken && f.read == SelectedFor(env, f.call.policy.config, f.tree))
  }

  lemma FinishedFacts(env: Env, stamps: Stamps, s: Publication.Stores, f: Flight)
    requires FlightSound(env, stamps, s, f) && f.stage.Finished?
    ensures FailureIsReal(env, s, f)
    ensures f.steady && WalkSucceeds(env, f.call.policy.config, f.tree) ==>
              !f.broken && f.read == SelectedFor(env, f.call.policy.config, f.tree)
  {
  }

  lemma FinishedIsGrounded(env: Env, stamps: Stamps, codec: Publication.Codec, w: World, i: nat)
    requires CollisionFree(env) && WorldSound(env, stamps, codec, w)
    requires i < |w.flights| && w.flights[i].stage.Finished?
    ensures Grounded(env, w, w.flights[i])
  {
    var f := w.flights[i];
    FinishedFacts(env, stamps, w.stores, f);
    if f.loaded.Some? {
      var j := LoadedHasRecorder(env, stamps, codec, w, i);
      assert Basis(env, w, f, w.flights[j].seen);
    } else {
      assert Basis(env, w, f, f.seen);
    }
  }

  /**
   In every interleaving: a finished call has the outcome explained by the contents behind its
   report, which on a miss its own analysis saw and on a hit the analysis of a call of this run that
   read the same contents and published the record; label and order of that call decide the drift, a
   store of the call's own its failure. A return is the uncached outcome on those contents,
   acceptable if asserted, and the uncached outcome on the contents the call read if and only if the
   two outcomes agree.
   */
  lemma ConcurrentGateIsTransparent(
    env: Env, stamps: Stamps, codec: Publication.Codec, tree: Node, lock: Lock, actions: seq<Action>, i: nat)
    requires CollisionFree(env) && KeysAvoidIndex(env) && Publication.ReadsBack(codec)
    requires StampedTree(env, stamps, tree) && StampedEdits(env, stamps, actions)
    requires i < |Run(env, codec, tree, lock, actions).flights|
    requires Run(env, codec, tree, lock, actions).flights[i].stage.Finished?
    ensures var w := Run(env, codec, tree, lock, actions);
            var f := w.flights[i];
            Grounded(env, w, f) && forall basis :: Basis(env, w, f, basis) ==> Accounted(env, w, f, basis)
  {
    RunKeepsSound(env, stamps, codec, tree, lock, actions);
    var w := Run(env, codec, tree, lock, actions);
    FinishedIsGrounded(env, stamps, codec, w, i);
    forall basis | Basis(env, w, w.flights[i], basis) ensures Accounted(env, w, w.flights[i], basis) {
      FinishedIsAccounted(env, stamps, codec, w, i, basis);
    }
  }

  /** The analysis of a call saw exactly the contents it had read. */
  predicate Quiet(f: Flight)
  {
    f.seen == DevGate.Contents(f.read)
  }

  /** The call itself was quiet, or every call that made the record it loaded. */
  ghost predicate QuietBehind(env: Env, w: World, f: Flight)
  {
    if f.loaded.None? then Quiet(f) else forall j: nat :: Recorder(env, w, f, j) ==> Quiet(w.flights[j])
  }

  /**
   With a quiet analysis behind it a call differs from the uncached gate on the contents it read only
   by its own failed reads and stores and by drift; and if the tree stood still while it read, from
   the undisturbed uncached gate on that tree.
   */
  lemma QuietCallsAreTransparent(
    env: Env, stamps: Stamps, codec: Publication.Codec, tree: Node, lock: Lock, actions: seq<Action>, i: nat)
    requires CollisionFree(env) && KeysAvoidIndex(env) && Publication.ReadsBack(codec)
    requires StampedTree(env, stamps, tree) && StampedEdits(env, stamps, actions)
    requires i < |Run(env, codec, tree, lock, actions).flights|
    requires Run(env, codec, tree, lock, actions).flights[i].stage.Finished?
    requires var w := Run(env, codec, tree, lock, actions); QuietBehind(env, w, w.flights[i])
    ensures var f := Run(env, codec, tree, lock, actions).flights[i];
            && f.stage.outcome == Explanation(env, f, DevGate.Contents(f.read))
            && (f.stage.outcome.Returned? && f.steady && WalkSucceeds(env, f.call.policy.config, f.tree) ==>
                  f.stage.outcome == Uncached(env, f.call, f.tree, f.lock))
  {
    ConcurrentGateIsTransparent(env, stamps, codec, tree, lock, actions, i);
    var w := Run(env, codec, tree, lock, actions);
    QuietMeansRead(env, w, w.flights[i]);
  }

  lemma QuietMeansRead(env: Env, w: World, f: Flight)
    requires f.stage.Finished? && Grounded(env, w, f) && QuietBehind(env, w, f)
    requires forall basis :: Basis(env, w, f, basis) ==> Accounted(env, w, f, basis)
    ensures f.stage.outcome == Explanation(env, f, DevGate.Contents(f.read))
    ensures f.stage.outcome.Returned? && f.steady && WalkSucceeds(env, f.call.policy.config, f.tree) ==>
              f.stage.outcome == Uncached(env, f.call, f.tree, f.lock)
  {
    var basis :| Basis(env, w, f, basis);
    assert Accounted(env, w, f, basis);
    if f.loaded.Some? {
      var j: nat :| Recorder(env, w, f, j) && basis == w.flights[j].seen;
      assert Quiet(w.flights[j]);
    }
    assert basis == DevGate.Contents(f.read);
  }
}
