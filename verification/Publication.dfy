/**
 Concurrent publication of records and digest indexes into one cache directory: file names, the
 per-process sequence, and what a load can find (src/dev_gate/cache.rs:291-363, 502-530, 548-557).
 */
module Publication {
  import opened Wrappers
  import opened Text
  import opened Decimals
  import opened SnapshotIndex
  import opened DevGate
  import opened AtomicRename

  // ----- file names

  const INDEX_STEM: string := "snapshot-digest-index.v1"

  function RecordName(key: Digest): string
  {
    FileStem(key) + ".json"
  }

  function IndexName(): string
  {
    INDEX_STEM + ".json"
  }

  function RecordTemporary(pid: nat, sequence: nat): string
  {
    Join(["", Decimal(pid), Decimal(sequence), "tmp"], '.')
  }

  function IndexTemporary(pid: nat, sequence: nat): string
  {
    Join(["", "snapshot-index", Decimal(pid), Decimal(sequence), "tmp"], '.')
  }

  lemma RecordTemporarySplits(pid: nat, sequence: nat)
    ensures Split(RecordTemporary(pid, sequence), '.') == ["", Decimal(pid), Decimal(sequence), "tmp"]
  {
    SplitJoin(["", Decimal(pid), Decimal(sequence), "tmp"], '.');
  }

  lemma IndexTemporarySplits(pid: nat, sequence: nat)
    ensures Split(IndexTemporary(pid, sequence), '.') ==
            ["", "snapshot-index", Decimal(pid), Decimal(sequence), "tmp"]
  {
    SplitJoin(["", "snapshot-index", Decimal(pid), Decimal(sequence), "tmp"], '.');
  }

  lemma EndsWithSplit(s: string, suffix: string)
    requires Without(suffix, '.')
    ensures var parts := Split(s + ("." + suffix), '.'); parts[|parts| - 1] == suffix
  {
    JoinSplit(s, '.');
    var parts := Split(s, '.') + [suffix];
    JoinAppend(Split(s, '.'), suffix, '.');
    SplitJoin(parts, '.');
  }

  /** Temporaries of the two kinds, and of different drawn numbers, are different names. */
  lemma TemporariesDiffer(pid: nat, sequence: nat, pid': nat, sequence': nat)
    ensures RecordTemporary(pid, sequence) == RecordTemporary(pid', sequence') <==> pid == pid' && sequence == sequence'
    ensures IndexTemporary(pid, sequence) == IndexTemporary(pid', sequence') <==> pid == pid' && sequence == sequence'
    ensures RecordTemporary(pid, sequence) != IndexTemporary(pid', sequence')
  {
    RecordTemporarySplits(pid, sequence);
    RecordTemporarySplits(pid', sequence');
    IndexTemporarySplits(pid, sequence);
    IndexTemporarySplits(pid', sequence');
    assert DigitsValue(Decimal(pid)) == pid && DigitsValue(Decimal(sequence)) == sequence;
    assert DigitsValue(Decimal(pid')) == pid' && DigitsValue(Decimal(sequence')) == sequence';
  }

  /** No temporary is a name ending in `.json`. */
  lemma TemporaryIsNoDestination(pid: nat, sequence: nat, stem: string)
    ensures RecordTemporary(pid, sequence) != stem + ".json"
    ensures IndexTemporary(pid, sequence) != stem + ".json"
  {
    RecordTemporarySplits(pid, sequence);
    IndexTemporarySplits(pid, sequence);
    EndsWithSplit(stem, "json");
    assert "." + "json" == ".json";
  }

  /** A record takes the index's name exactly when its key's stem is the index's. */
  lemma RecordMeetsIndexExactlyWhen(key: Digest)
    ensures RecordName(key) == IndexName() <==> FileStem(key) == INDEX_STEM
  {
    if RecordName(key) == IndexName() {
      var name := RecordName(key);
      assert FileStem(key) == name[..|name| - 5];
      assert INDEX_STEM == IndexName()[..|IndexName()| - 5];
    }
  }

  predicate IsHexDigit(c: char)
  {
    '0' <= c <= '9' || 'a' <= c <= 'f'
  }

  /** Keys are `sha256:` and hexadecimal digits, so their records keep clear of the index. */
  lemma DigestKeysAvoidIndex(hex: string)
    requires forall i :: 0 <= i < |hex| ==> IsHexDigit(hex[i])
    ensures FileStem("sha256:" + hex) == hex
    ensures RecordName("sha256:" + hex) != IndexName()
  {
    var key := "sha256:" + hex;
    assert OccursAt(key, ":", 6);
    var i := RFind(key, ":").value;
    OccurrenceHead(key, ":", i);
    forall k | 0 <= k < |hex| ensures hex[k] != ':' && hex[k] != 's' {
      assert IsHexDigit(hex[k]);
    }
    assert key[7..] == hex && forall k :: 7 <= k < |key| ==> key[k] == hex[k - 7];
    assert INDEX_STEM[0] == 's';
    RecordMeetsIndexExactlyWhen(key);
  }

  // ----- processes and what they store

  /** What is stored, and so under which name. */
  datatype Target = RecordTarget(record: Record) | IndexTarget(index: Index)

  datatype Codec = Codec(
    printRecord: Record -> Bytes,
    printIndex: Index -> Bytes,
    parseRecord: Bytes -> Option<Record>,
    parseIndex: Bytes -> Option<Index>)

  /** A process identifier, which later processes may reuse, and the process's sequence counter. */
  datatype Process = Process(pid: nat, draws: nat)

  /** One call of `store_dev_gate_cache` or `store_snapshot_digest_index`. */
  datatype Store = Store(process: nat, pid: nat, draw: nat, target: Target)

  datatype Stores = Stores(processes: seq<Process>, stores: seq<Store>, directory: State)

  datatype Action =
    | Spawn(pid: nat)
    | Draw(process: nat, target: Target)
    | Move(event: AtomicRename.Event)

  function Destination(target: Target): Name
  {
    match target
    case RecordTarget(record) => RecordName(record.cacheKey)
    case IndexTarget(_) => IndexName()
  }

  function Content(codec: Codec, target: Target): Bytes
  {
    match target
    case RecordTarget(record) => codec.printRecord(record)
    case IndexTarget(index) => codec.printIndex(index)
  }

  /** The sequence counter wraps at 64 bits. */
  function Temporary(store: Store): Name
  {
    match store.target
    case RecordTarget(_) => RecordTemporary(store.pid, store.draw % U64)
    case IndexTarget(_) => IndexTemporary(store.pid, store.draw % U64)
  }

  function JobOf(codec: Codec, store: Store): Job
  {
    Job(Temporary(store), Destination(store.target), Content(codec, store.target), store.target.RecordTarget?)
  }

  predicate IsDestination(name: Name)
  {
    |name| >= 5 && name[|name| - 5..] == ".json"
  }

  /** `fetch_add` on the process's counter starts a store. */
  function DrawStep(codec: Codec, s: Stores, p: nat, target: Target): Stores
    requires p < |s.processes|
  {
    var process := s.processes[p];
    var store := Store(p, process.pid, process.draws, target);
    Stores(s.processes[p := process.(draws := process.draws + 1)],
           s.stores + [store],
           s.directory.(writers := s.directory.writers + [Writer(JobOf(codec, store), Drawn)]))
  }

  function Act(codec: Codec, s: Stores, action: Action): Stores
  {
    match action
    case Spawn(pid) => s.(processes := s.processes + [Process(pid, 0)])
    case Draw(p, target) => if p < |s.processes| then DrawStep(codec, s, p, target) else s
    case Move(event) =>
      if event.Begin? then s else s.(directory := AtomicRename.Step(IsDestination, s.directory, event))
  }

  function Run(codec: Codec, actions: seq<Action>): Stores
  {
    if actions == [] then Stores([], [], EMPTY)
    else Act(codec, Run(codec, actions[..|actions| - 1]), actions[|actions| - 1])
  }

  // ----- every run

  lemma NamesKeepApart(codec: Codec, store: Store)
    ensures IsDestination(JobOf(codec, store).destination) && !IsDestination(JobOf(codec, store).temporary)
  {
    var name := Temporary(store);
    if IsDestination(name) {
      var stem := name[..|name| - 5];
      assert name == stem + ".json";
      TemporaryIsNoDestination(store.pid, store.draw % U64, stem);
    }
  }

  ghost predicate JobsMatch(codec: Codec, s: Stores)
  {
    && |s.directory.writers| == |s.stores|
    && forall i: nat :: i < |s.stores| ==> s.directory.writers[i].job == JobOf(codec, s.stores[i])
  }

  ghost predicate StoreDrawn(s: Stores, store: Store)
  {
    && store.process < |s.processes| && store.pid == s.processes[store.process].pid
    && store.draw < s.processes[store.process].draws
  }

  /** No process hands out a number twice. */
  ghost predicate DrawsDistinct(s: Stores)
  {
    && (forall i: nat :: i < |s.stores| ==> StoreDrawn(s, s.stores[i]))
    && (forall i: nat, j: nat :: i < j < |s.stores| && s.stores[i].process == s.stores[j].process ==>
          s.stores[i].draw != s.stores[j].draw)
  }

  ghost predicate StoresInv(codec: Codec, s: Stores)
  {
    && Inv(IsDestination, s.directory)
    && NamesCreated(IsDestination, s.directory)
    && JobsMatch(codec, s)
    && DrawsDistinct(s)
  }

  lemma JobsUnmoved(s: State, event: AtomicRename.Event)
    requires !event.Begin?
    ensures var t := AtomicRename.Step(IsDestination, s, event);
            |t.writers| == |s.writers| && forall i: nat :: i < |s.writers| ==> t.writers[i].job == s.writers[i].job
  {
  }

  lemma ActKeeps(codec: Codec, s: Stores, action: Action)
    requires StoresInv(codec, s)
    ensures StoresInv(codec, Act(codec, s, action))
  {
    match action
    case Spawn(pid) =>
      var t := Act(codec, s, action);
      forall i: nat | i < |t.stores| ensures StoreDrawn(t, t.stores[i]) {
        assert StoreDrawn(s, s.stores[i]);
      }
    case Draw(p, target) =>
      if p < |s.processes| {
        DrawKeeps(codec, s, p, target);
      }
    case Move(event) =>
      if !event.Begin? {
        StepKeeps(IsDestination, s.directory, event);
        StepKeepsCreators(IsDestination, s.directory, event);
        JobsUnmoved(s.directory, event);
        var t := Act(codec, s, action);
        forall i: nat | i < |t.stores| ensures StoreDrawn(t, t.stores[i]) {
          assert StoreDrawn(s, s.stores[i]);
        }
      }
  }

  lemma BeginKeepsCreators(s: State, job: Job)
    requires NamesCreated(IsDestination, s)
    ensures NamesCreated(IsDestination, s.(writers := s.writers + [Writer(job, Drawn)]))
  {
    var t := s.(writers := s.writers + [Writer(job, Drawn)]);
    forall name | name in t.names ensures NameCreated(IsDestination, t, name) {
      assert NameCreated(IsDestination, s, name);
    }
  }

  lemma DrawKeepsDistinct(codec: Codec, s: Stores, p: nat, target: Target)
    requires DrawsDistinct(s) && p < |s.processes|
    ensures DrawsDistinct(DrawStep(codec, s, p, target))
  {
    var t := DrawStep(codec, s, p, target);
    forall i: nat | i < |t.stores| ensures StoreDrawn(t, t.stores[i]) {
      assert i < |s.stores| ==> StoreDrawn(s, s.stores[i]);
    }
  }

  lemma DrawKeepsJobs(codec: Codec, s: Stores, p: nat, target: Target)
    requires JobsMatch(codec, s) && p < |s.processes|
    ensures JobsMatch(codec, DrawStep(codec, s, p, target))
  {
  }

  lemma DrawKeeps(codec: Codec, s: Stores, p: nat, target: Target)
    requires StoresInv(codec, s) && p < |s.processes|
    ensures StoresInv(codec, DrawStep(codec, s, p, target))
  {
    var store := Store(p, s.processes[p].pid, s.processes[p].draws, target);
    NamesKeepApart(codec, store);
    BeginKeeps(IsDestination, s.directory, JobOf(codec, store));
    BeginKeepsCreators(s.directory, JobOf(codec, store));
    DrawKeepsDistinct(codec, s, p, target);
    DrawKeepsJobs(codec, s, p, target);
  }

  lemma {:induction false} RunKeepsInvariant(codec: Codec, actions: seq<Action>)
    ensures StoresInv(codec, Run(codec, actions))
  {
    if actions != [] {
      RunKeepsInvariant(codec, actions[..|actions| - 1]);
      ActKeeps(codec, Run(codec, actions[..|actions| - 1]), actions[|actions| - 1]);
    }
  }

  // ----- what readers and loads can see

  /** What reading a name at one instant would give. */
  function Lookup(directory: State, name: Name): Option<Bytes>
  {
    if name in directory.names && directory.names[name] < |directory.files|
    then Some(directory.files[directory.names[name]].bytes) else None
  }

  /** These bytes are the complete content of a store that renamed its file to this name. */
  predicate StoredBy(codec: Codec, s: Stores, i: nat, name: Name, bytes: Bytes)
  {
    && i < |s.stores| && i < |s.directory.writers| && s.directory.writers[i].phase.Renamed?
    && Destination(s.stores[i].target) == name && Content(codec, s.stores[i].target) == bytes
  }

  ghost predicate Stored(codec: Codec, s: Stores, name: Name, bytes: Bytes)
  {
    exists i: nat :: StoredBy(codec, s, i, name, bytes)
  }

  lemma PublishedIsStored(codec: Codec, s: Stores, name: Name, inode: Inode)
    requires StoresInv(codec, s) && Published(s.directory, name, inode)
    ensures Stored(codec, s, name, s.directory.files[inode].bytes)
  {
    var i := s.directory.files[inode].creator;
    assert OwnsFile(s.directory, i);
    assert StoredBy(codec, s, i, name, s.directory.files[inode].bytes);
  }

  ghost predicate WholeOrAbsent(codec: Codec, s: Stores, name: Name)
  {
    match Lookup(s.directory, name)
    case None => name !in s.directory.names
    case Some(bytes) => Stored(codec, s, name, bytes)
  }

  lemma PublishedNameIsWhole(codec: Codec, s: Stores, name: Name)
    requires StoresInv(codec, s) && IsDestination(name)
    ensures WholeOrAbsent(codec, s, name)
  {
    if name in s.directory.names {
      DestinationIsPublished(IsDestination, s.directory, name);
      PublishedIsStored(codec, s, name, s.directory.names[name]);
    }
  }

  /** In every run, each published name is absent or holds one store's complete bytes. */
  lemma PublishedNamesAreWhole(codec: Codec, actions: seq<Action>, name: Name)
    requires IsDestination(name)
    ensures WholeOrAbsent(codec, Run(codec, actions), name)
  {
    RunKeepsInvariant(codec, actions);
    PublishedNameIsWhole(codec, Run(codec, actions), name);
  }

  lemma FinishedReadIsStored(codec: Codec, s: Stores, r: nat)
    requires StoresInv(codec, s) && r < |s.directory.readers| && s.directory.readers[r].done
    ensures Stored(codec, s, s.directory.readers[r].name, s.directory.readers[r].got)
  {
    var reader := s.directory.readers[r];
    assert ReaderAgrees(s.directory, reader);
    PublishedIsStored(codec, s, reader.name, reader.inode);
  }

  /** A read that met the end got one store's complete bytes, whatever was renamed meanwhile. */
  lemma FinishedReadsAreWhole(codec: Codec, actions: seq<Action>, r: nat)
    requires r < |Run(codec, actions).directory.readers|
    ensures var s := Run(codec, actions);
            var reader := s.directory.readers[r];
            reader.done ==> Stored(codec, s, reader.name, reader.got)
  {
    RunKeepsInvariant(codec, actions);
    if Run(codec, actions).directory.readers[r].done {
      FinishedReadIsStored(codec, Run(codec, actions), r);
    }
  }

  /** `load_dev_gate_cache` on the bytes it read. */
  function LoadBytes(env: Env, codec: Codec, bytes: Bytes, key: Digest): Option<Record>
  {
    var stored := match codec.parseRecord(bytes) case None => Unreadable case Some(record) => Readable(record);
    Load(env, Cache(None, map[FileStem(key) := stored]), key)
  }

  ghost predicate ReadsBack(codec: Codec)
  {
    && (forall record :: codec.parseRecord(codec.printRecord(record)) == Some(record))
    && (forall index :: codec.parseIndex(codec.printIndex(index)) == Some(index))
  }

  predicate RecordStoredBy(s: Stores, i: nat, record: Record)
  {
    i < |s.stores| && i < |s.directory.writers| && s.directory.writers[i].phase.Renamed? &&
    s.stores[i].target == RecordTarget(record)
  }

  ghost predicate RecordStored(s: Stores, record: Record)
  {
    exists i: nat :: RecordStoredBy(s, i, record)
  }

  lemma LoadOfStored(env: Env, codec: Codec, record: Record, key: Digest)
    requires ReadsBack(codec)
    ensures LoadBytes(env, codec, codec.printRecord(record), key) ==
            if record.cacheKey == key && SelfConsistent(env, record) then Some(record) else None
  {
  }

  /** What a finished read of a key's file holds: one published record, perhaps of another key with the same stem. */
  lemma FinishedReadHoldsRecord(codec: Codec, s: Stores, r: nat, key: Digest) returns (record: Record)
    requires StoresInv(codec, s) && FileStem(key) != INDEX_STEM
    requires r < |s.directory.readers| && s.directory.readers[r].done && s.directory.readers[r].name == RecordName(key)
    ensures RecordStored(s, record) && RecordName(record.cacheKey) == RecordName(key)
    ensures s.directory.readers[r].got == codec.printRecord(record)
  {
    var reader := s.directory.readers[r];
    FinishedReadIsStored(codec, s, r);
    var i: nat :| StoredBy(codec, s, i, reader.name, reader.got);
    RecordMeetsIndexExactlyWhen(key);
    record := s.stores[i].target.record;
    assert RecordStoredBy(s, i, record);
  }

  /**
   A load that read a key's file to its end returns the record it found exactly when its key is the
   one asked for and its digests agree, and nothing otherwise.
   */
  lemma LoadsExactlyTheStored(env: Env, codec: Codec, actions: seq<Action>, r: nat, key: Digest)
    requires ReadsBack(codec) && FileStem(key) != INDEX_STEM
    requires r < |Run(codec, actions).directory.readers|
    requires Run(codec, actions).directory.readers[r].done
    requires Run(codec, actions).directory.readers[r].name == RecordName(key)
    ensures var s := Run(codec, actions);
            exists record ::
              && RecordStored(s, record) && RecordName(record.cacheKey) == RecordName(key)
              && LoadBytes(env, codec, s.directory.readers[r].got, key) ==
                 if record.cacheKey == key && SelfConsistent(env, record) then Some(record) else None
  {
    RunKeepsInvariant(codec, actions);
    var record := FinishedReadHoldsRecord(codec, Run(codec, actions), r, key);
    LoadOfStored(env, codec, record, key);
  }

  lemma ActKeepsName(codec: Codec, s: Stores, action: Action, name: Name)
    requires NamesApart(IsDestination, s.directory) && IsDestination(name) && name in s.directory.names
    ensures name in Act(codec, s, action).directory.names
  {
    if action.Move? {
      DestinationsStay(IsDestination, s.directory, action.event, name);
    }
  }

  lemma RunKeepsApart(codec: Codec, actions: seq<Action>)
    ensures NamesApart(IsDestination, Run(codec, actions).directory)
  {
    RunKeepsInvariant(codec, actions);
  }

  lemma RunExtends(codec: Codec, actions: seq<Action>, action: Action)
    ensures Run(codec, actions + [action]) == Act(codec, Run(codec, actions), action)
  {
    var all := actions + [action];
    assert all[..|all| - 1] == actions;
  }

  lemma {:induction false} NamesStay(codec: Codec, actions: seq<Action>, more: seq<Action>, name: Name)
    requires IsDestination(name) && name in Run(codec, actions).directory.names
    ensures name in Run(codec, actions + more).directory.names
    decreases |more|
  {
    if more == [] {
      assert actions + more == actions;
    } else {
      var next := actions + [more[0]];
      RunKeepsApart(codec, actions);
      ActKeepsName(codec, Run(codec, actions), more[0], name);
      RunExtends(codec, actions, more[0]);
      NamesStay(codec, next, more[1..], name);
      assert next + more[1..] == actions + more;
    }
  }

  /** After a store succeeds its destination is there for the rest of the run. */
  lemma SuccessIsLasting(codec: Codec, actions: seq<Action>, more: seq<Action>, i: nat)
    requires i < |Run(codec, actions).directory.writers|
    requires var phase := Run(codec, actions).directory.writers[i].phase; phase.Renamed? || phase.Kept?
    ensures i < |Run(codec, actions).stores|
    ensures Destination(Run(codec, actions).stores[i].target) in Run(codec, actions + more).directory.names
  {
    RunKeepsInvariant(codec, actions);
    NamesKeepApart(codec, Run(codec, actions).stores[i]);
    NamesStay(codec, actions, more, Destination(Run(codec, actions).stores[i].target));
  }

  // ----- when exclusive creation can fail

  /** Two stores of one kind whose names coincide: a reused process identifier or a wrapped counter. */
  predicate SharesTemporary(a: Store, b: Store)
  {
    && a.pid == b.pid && a.draw % U64 == b.draw % U64
    && a.target.RecordTarget? == b.target.RecordTarget?
    && (a.process != b.process || a.draw != b.draw)
  }

  ghost predicate NameReused(s: Stores, i: nat)
    requires i < |s.stores|
  {
    exists j: nat :: j < |s.stores| && SharesTemporary(s.stores[j], s.stores[i])
  }

  lemma EqualTemporaries(a: Store, b: Store)
    requires Temporary(a) == Temporary(b)
    ensures a.pid == b.pid && a.draw % U64 == b.draw % U64 && a.target.RecordTarget? == b.target.RecordTarget?
  {
    TemporariesDiffer(a.pid, a.draw % U64, b.pid, b.draw % U64);
    TemporariesDiffer(b.pid, b.draw % U64, a.pid, a.draw % U64);
  }

  ghost predicate NameTaken(s: Stores, i: nat)
  {
    && i < |s.stores| && i < |s.directory.writers| && s.directory.writers[i].phase.Drawn?
    && Temporary(s.stores[i]) in s.directory.names
  }

  lemma TakenByOther(codec: Codec, s: Stores, i: nat) returns (j: nat)
    requires StoresInv(codec, s) && NameTaken(s, i)
    ensures j < |s.stores| && j != i && Temporary(s.stores[j]) == Temporary(s.stores[i])
  {
    var name := Temporary(s.stores[i]);
    NamesKeepApart(codec, s.stores[i]);
    assert NameCreated(IsDestination, s.directory, name);
    j := s.directory.files[s.directory.names[name]].creator;
    assert s.directory.writers[j].job == JobOf(codec, s.stores[j]);
  }

  /** `create_new` finds its name taken only by another store of a reused identifier or a wrapped counter. */
  lemma TakenMeansReused(codec: Codec, actions: seq<Action>, i: nat)
    requires NameTaken(Run(codec, actions), i)
    ensures NameReused(Run(codec, actions), i)
  {
    RunKeepsInvariant(codec, actions);
    var s := Run(codec, actions);
    var j := TakenByOther(codec, s, i);
    EqualTemporaries(s.stores[j], s.stores[i]);
    assert SharesTemporary(s.stores[j], s.stores[i]);
  }

  ghost predicate IdentifiersDistinct(s: Stores)
  {
    && (forall p: nat, q: nat :: p < q < |s.processes| ==> s.processes[p].pid != s.processes[q].pid)
    && (forall p: nat :: p < |s.processes| ==> s.processes[p].draws <= U64)
  }

  lemma DistinctShareNothing(s: Stores, a: Store, b: Store)
    requires IdentifiersDistinct(s) && StoreDrawn(s, a) && StoreDrawn(s, b)
    ensures !SharesTemporary(a, b)
  {
  }

  /** With unreused identifiers and unwrapped counters exclusive creation always succeeds. */
  lemma DistinctProcessesNeverCollide(codec: Codec, actions: seq<Action>, i: nat)
    requires IdentifiersDistinct(Run(codec, actions))
    ensures !NameTaken(Run(codec, actions), i)
  {
    RunKeepsInvariant(codec, actions);
    var s := Run(codec, actions);
    if NameTaken(s, i) {
      TakenMeansReused(codec, actions, i);
      var j: nat :| j < |s.stores| && SharesTemporary(s.stores[j], s.stores[i]);
      DistinctShareNothing(s, s.stores[j], s.stores[i]);
      assert false;
    }
  }

  // ----- stores and reads that nothing disturbs come through

  ghost predicate OnlyDestinations(s: State)
  {
    forall name :: name in s.names ==> IsDestination(name)
  }

  /** The four steps of one store: draw, create, write everything, rename. */
  function Stored1(codec: Codec, s: Stores, p: nat, target: Target): Stores
  {
    Act(codec, s, Draw(p, target))
  }

  function Stored2(codec: Codec, s: Stores, p: nat, target: Target): Stores
  {
    Act(codec, Stored1(codec, s, p, target), Move(CreateNew(|s.stores|)))
  }

  function Stored3(codec: Codec, s: Stores, p: nat, target: Target): Stores
  {
    Act(codec, Stored2(codec, s, p, target), Move(Write(|s.stores|, |Content(codec, target)|)))
  }

  function Stored4(codec: Codec, s: Stores, p: nat, target: Target): Stores
  {
    Act(codec, Stored3(codec, s, p, target), Move(Rename(|s.stores|)))
  }

  /** Where a store by process `p` comes out: published, and everything else as before. */
  ghost predicate StoredCleanly(codec: Codec, s: Stores, p: nat, target: Target, t: Stores)
  {
    var k := |s.stores|;
    && StoresInv(codec, t) && |t.processes| == |s.processes|
    && |t.stores| == k + 1 && t.stores[..k] == s.stores && t.stores[k].target == target && t.stores[k].process == p
    && |t.directory.writers| == k + 1 && t.directory.writers[..k] == s.directory.writers
    && t.directory.writers[k].phase.Renamed?
    && Shows(t.directory, Destination(target), Content(codec, target))
    && t.directory.readers == s.directory.readers
    && (forall name, bytes :: name != Destination(target) && Shows(s.directory, name, bytes) ==>
          Shows(t.directory, name, bytes))
    && (forall name :: name in t.directory.names ==> name in s.directory.names || name == Destination(target))
  }

  /** The draw names a temporary that is free when only destinations stand in the directory. */
  lemma DrawnFree(codec: Codec, s: Stores, p: nat, target: Target)
    requires StoresInv(codec, s) && p < |s.processes| && OnlyDestinations(s.directory)
    ensures var t := Stored1(codec, s, p, target);
            var k := |s.stores|;
            && StoresInv(codec, t) && |t.directory.writers| == k + 1 && t.directory.writers[k].phase.Drawn?
            && t.directory.writers[k].job.destination == Destination(target)
            && t.directory.writers[k].job.content == Content(codec, target)
            && t.directory.writers[k].job.temporary !in t.directory.names
            && t.directory.writers[..k] == s.directory.writers
            && t.directory == s.directory.(writers := t.directory.writers)
            && t.stores[..k] == s.stores && |t.stores| == k + 1
            && t.stores[k].target == target && t.stores[k].process == p && |t.processes| == |s.processes|
  {
    ActKeeps(codec, s, Draw(p, target));
    NamesKeepApart(codec, Store(p, s.processes[p].pid, s.processes[p].draws, target));
  }

  /** The three directory steps of a writer whose temporary is free. */
  lemma WriterComesThrough(s: State, k: nat)
    requires Inv(IsDestination, s) && k < |s.writers| && s.writers[k].phase.Drawn?
    requires s.writers[k].job.temporary !in s.names
    ensures var job := s.writers[k].job;
            var a := AtomicRename.Step(IsDestination, s, CreateNew(k));
            var b := AtomicRename.Step(IsDestination, a, Write(k, |job.content|));
            var t := AtomicRename.Step(IsDestination, b, Rename(k));
            && |t.writers| == |s.writers| && t.writers[k].phase.Renamed? && t.writers[k].job == job
            && (forall i :: 0 <= i < |s.writers| && i != k ==> t.writers[i] == s.writers[i])
            && Shows(t, job.destination, job.content) && t.readers == s.readers
            && |s.files| <= |t.files| && t.files[..|s.files|] == s.files
            && (forall name :: name in t.names <==> name in s.names || name == job.destination)
            && (forall name :: name in s.names && name != job.destination ==> t.names[name] == s.names[name])
  {
    var job := s.writers[k].job;
    var a := AtomicRename.Step(IsDestination, s, CreateNew(k));
    var b := AtomicRename.Step(IsDestination, a, Write(k, |job.content|));
    StepKeeps(IsDestination, s, CreateNew(k));
    CreationGives(IsDestination, s, k);
    StepKeeps(IsDestination, a, Write(k, |job.content|));
    WriteFinishes(IsDestination, a, k, |job.content|);
    RenamePublishes(IsDestination, b, k);
    assert NamesApart(IsDestination, s);
  }

  lemma StoredSteps(codec: Codec, s: Stores, p: nat, target: Target)
    ensures var one, t, k := Stored1(codec, s, p, target), Stored4(codec, s, p, target), |s.stores|;
            && t.stores == one.stores && t.processes == one.processes
            && t.directory ==
               AtomicRename.Step(IsDestination,
                 AtomicRename.Step(IsDestination,
                   AtomicRename.Step(IsDestination, one.directory, CreateNew(k)),
                   Write(k, |Content(codec, target)|)),
                 Rename(k))
  {
  }

  lemma StoredInv(codec: Codec, s: Stores, p: nat, target: Target)
    requires StoresInv(codec, s)
    ensures StoresInv(codec, Stored4(codec, s, p, target))
  {
    var k := |s.stores|;
    ActKeeps(codec, s, Draw(p, target));
    ActKeeps(codec, Stored1(codec, s, p, target), Move(CreateNew(k)));
    ActKeeps(codec, Stored2(codec, s, p, target), Move(Write(k, |Content(codec, target)|)));
    ActKeeps(codec, Stored3(codec, s, p, target), Move(Rename(k)));
  }

  /** What shows elsewhere keeps showing when files and names are only added to. */
  lemma OthersShow(s: State, t: State, added: Name)
    requires |s.files| <= |t.files| && t.files[..|s.files|] == s.files
    requires forall name :: name in t.names <==> name in s.names || name == added
    requires forall name :: name in s.names && name != added ==> t.names[name] == s.names[name]
    ensures forall name, bytes :: name != added && Shows(s, name, bytes) ==> Shows(t, name, bytes)
  {
    forall name, bytes | name != added && Shows(s, name, bytes) ensures Shows(t, name, bytes) {
      assert t.files[s.names[name]] == t.files[..|s.files|][s.names[name]];
    }
  }

  /** A store that nothing disturbs is published under its destination, whole. */
  lemma StoreComesThrough(codec: Codec, s: Stores, p: nat, target: Target)
    requires StoresInv(codec, s) && p < |s.processes| && OnlyDestinations(s.directory)
    ensures StoredCleanly(codec, s, p, target, Stored4(codec, s, p, target))
    ensures OnlyDestinations(Stored4(codec, s, p, target).directory)
  {
    var one, t, k := Stored1(codec, s, p, target), Stored4(codec, s, p, target), |s.stores|;
    DrawnFree(codec, s, p, target);
    StoredInv(codec, s, p, target);
    StoredSteps(codec, s, p, target);
    PublishedCleanly(one.directory, t.directory, k, |Content(codec, target)|);
    NamesKeepApart(codec, one.stores[k]);
  }

  lemma PublishedCleanly(one: State, t: State, k: nat, count: nat)
    requires Inv(IsDestination, one) && |one.writers| == k + 1 && one.writers[k].phase.Drawn?
    requires one.writers[k].job.temporary !in one.names && count == |one.writers[k].job.content|
    requires t == AtomicRename.Step(IsDestination,
                    AtomicRename.Step(IsDestination, AtomicRename.Step(IsDestination, one, CreateNew(k)),
                                      Write(k, count)),
                    Rename(k))
    ensures var job := one.writers[k].job;
            && |t.writers| == k + 1 && t.writers[..k] == one.writers[..k] && t.writers[k].phase.Renamed?
            && Shows(t, job.destination, job.content) && t.readers == one.readers
            && (forall name, bytes :: name != job.destination && Shows(one, name, bytes) ==> Shows(t, name, bytes))
            && (forall name :: name in t.names ==> name in one.names || name == job.destination)
  {
    WriterComesThrough(one, k);
    OthersShow(one, t, one.writers[k].job.destination);
    assert t.writers[..k] == one.writers[..k];
  }

  /** So a reader at that moment finds the complete bytes. */
  lemma StoreIsFound(codec: Codec, s: Stores, p: nat, target: Target)
    requires StoresInv(codec, s) && p < |s.processes| && OnlyDestinations(s.directory)
    ensures Lookup(Stored4(codec, s, p, target).directory, Destination(target)) == Some(Content(codec, target))
  {
    StoreComesThrough(codec, s, p, target);
  }

  /** A failed rename is forgiven exactly for a record whose destination exists, never for the index. */
  lemma ForgivenExactlyWhen(codec: Codec, directory: State, store: Store, i: nat, removed: bool)
    requires Inv(IsDestination, directory) && i < |directory.writers| && directory.writers[i].phase.RenameFailed?
    requires directory.writers[i].job == JobOf(codec, store)
    ensures var t := RemoveStep(directory, i, removed);
            && t == AtomicRename.Step(IsDestination, directory, Remove(i, removed))
            && (t.writers[i].phase == Kept <==>
                store.target.RecordTarget? && directory.writers[i].job.destination in directory.names)
            && (t.writers[i].phase == Kept || t.writers[i].phase == Gone)
    ensures directory.writers[i].job.destination == Destination(store.target)
  {
    RemovalSettles(IsDestination, directory, i, removed);
  }

  /** The names as the source formats them. */
  lemma TemporaryFormats(pid: nat, sequence: nat)
    ensures RecordTemporary(pid, sequence) == "." + (Decimal(pid) + ("." + (Decimal(sequence) + ("." + "tmp"))))
    ensures IndexTemporary(pid, sequence) ==
            "." + ("snapshot-index" + ("." + (Decimal(pid) + ("." + (Decimal(sequence) + ("." + "tmp"))))))
  {
    var p, q := Decimal(pid), Decimal(sequence);
    JoinThree(p, q, "tmp");
    JoinCons("", [p, q, "tmp"]);
    JoinCons("snapshot-index", [p, q, "tmp"]);
    JoinCons("", ["snapshot-index", p, q, "tmp"]);
    assert [""] + [p, q, "tmp"] == ["", p, q, "tmp"];
    assert ["snapshot-index"] + [p, q, "tmp"] == ["snapshot-index", p, q, "tmp"];
    assert [""] + ["snapshot-index", p, q, "tmp"] == ["", "snapshot-index", p, q, "tmp"];
  }

  lemma JoinCons(a: string, rest: seq<string>)
    requires |rest| >= 1
    ensures Join([a] + rest, '.') == a + ("." + Join(rest, '.'))
    ensures a == "" ==> Join([a] + rest, '.') == "." + Join(rest, '.')
  {
    assert ([a] + rest)[1..] == rest;
    Associate(a, ['.'], Join(rest, '.'));
  }

  lemma JoinThree(a: string, b: string, c: string)
    ensures Join([a, b, c], '.') == a + ("." + (b + ("." + c)))
  {
    JoinCons(a, [b, c]);
    JoinCons(b, [c]);
    assert [a] + [b, c] == [a, b, c] && [b] + [c] == [b, c];
  }
}
