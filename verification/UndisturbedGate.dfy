/**
 Gate calls that nothing disturbs, stepped through the concurrent model to their end: the first one
 finishes as the uncached gate does and publishes its record, and the same call once more loads it
 (src/dev_gate/downstream.rs:103-249, src/dev_gate/cache.rs:291-363, 494-530).
 */
module UndisturbedGate {
  import opened Wrappers
  import opened Decimals
  import opened SnapshotIndex
  import opened DevGate
  import opened ConcurrentGate
  import AtomicRename
  import Publication

  type Codec = Publication.Codec

  // ----- runs from any world

  ghost function From(env: Env, codec: Codec, w: World, actions: seq<Action>): World
  {
    if actions == [] then w
    else Act(env, codec, From(env, codec, w, actions[..|actions| - 1]), actions[|actions| - 1])
  }

  ghost predicate Leads(env: Env, codec: Codec, w: World, x: World)
  {
    exists actions :: From(env, codec, w, actions) == x
  }

  lemma LeadsOn(env: Env, codec: Codec, w: World, x: World, action: Action)
    requires Leads(env, codec, w, x)
    ensures Leads(env, codec, w, Act(env, codec, x, action))
  {
    var actions :| From(env, codec, w, actions) == x;
    var more := actions + [action];
    assert more[..|more| - 1] == actions;
    assert From(env, codec, w, more) == Act(env, codec, x, action);
  }

  function Empty(tree: Node, lock: Lock): World
  {
    World(Publication.Stores([], [], AtomicRename.EMPTY), tree, lock, [])
  }

  lemma {:induction false} RunIsFrom(env: Env, codec: Codec, tree: Node, lock: Lock, actions: seq<Action>)
    ensures Run(env, codec, tree, lock, actions) == From(env, codec, Empty(tree, lock), actions)
  {
    if actions != [] { RunIsFrom(env, codec, tree, lock, actions[..|actions| - 1]); }
  }

  /** The world with one flight and the directory replaced. */
  function With(w: World, i: nat, f: Flight, s: Publication.Stores): World
    requires i < |w.flights|
  {
    w.(flights := w.flights[i := f], stores := s)
  }

  lemma AdvanceLeads(env: Env, codec: Codec, o: World, w: World, i: nat, f: Flight, s: Publication.Stores)
    requires i < |w.flights| && Leads(env, codec, o, With(w, i, f, s))
    ensures var (g, t) := Move(env, codec, With(w, i, f, s), f); Leads(env, codec, o, With(w, i, g, t))
  {
    var x := With(w, i, f, s);
    LeadsOn(env, codec, o, x, Advance(i));
    var (g, t) := Move(env, codec, x, f);
    assert Act(env, codec, x, Advance(i)) == With(w, i, g, t);
  }

  lemma DirectoryLeads(
    env: Env, codec: Codec, o: World, w: World, i: nat, f: Flight, s: Publication.Stores, event: AtomicRename.Event)
    requires i < |w.flights| && Leads(env, codec, o, With(w, i, f, s))
    ensures Leads(env, codec, o, With(w, i, f, Publication.Act(codec, s, Publication.Move(event))))
  {
    var x := With(w, i, f, s);
    LeadsOn(env, codec, o, x, Action.Directory(event));
    assert Act(env, codec, x, Action.Directory(event)) ==
           With(w, i, f, Publication.Act(codec, s, Publication.Move(event)));
  }

  // ----- the walk

  lemma FileRead(env: Env, codec: Codec, o: World, w: World, i: nat, f: Flight, s: Publication.Stores, path: Path)
    requires i < |w.flights| && Leads(env, codec, o, With(w, i, f, s))
    requires f.stage.Walking? && path in f.stage.todo
    ensures Leads(env, codec, o, With(w, i, StatStep(env, w.tree, f, f.stage.previous, f.stage.todo, path), s))
  {
    var x := With(w, i, f, s);
    LeadsOn(env, codec, o, x, ReadFile(i, path));
    assert Act(env, codec, x, ReadFile(i, path)) ==
           With(w, i, StatStep(env, w.tree, f, f.stage.previous, f.stage.todo, path), s);
  }

  /** A flight that has read some of a tree that stands still. */
  function Halfway(f: Flight, tree: Node, previous: Index, todo: set<Path>, read: map<Path, Stat>): Flight
  {
    f.(stage := Walking(previous, todo), tree := tree, steady := true, read := read)
  }

  /** What is read is of the tree, and the rest of it is still to do. */
  ghost predicate Partly(env: Env, call: Call, tree: Node, todo: set<Path>, read: map<Path, Stat>)
  {
    var selected := SelectedFor(env, call.policy.config, tree);
    todo <= selected.Keys && read.Keys + todo == selected.Keys &&
    forall path :: path in read ==> read[path] == selected[path]
  }

  lemma OneFileRead(
    env: Env, codec: Codec, o: World, w: World, i: nat, f: Flight, s: Publication.Stores, previous: Index,
    todo: set<Path>, read: map<Path, Stat>, path: Path)
    requires i < |w.flights| && WalkSucceeds(env, f.call.policy.config, w.tree)
    requires path in todo && path in SelectedFor(env, f.call.policy.config, w.tree)
    requires Leads(env, codec, o, With(w, i, Halfway(f, w.tree, previous, todo, read), s))
    ensures var stat := SelectedFor(env, f.call.policy.config, w.tree)[path];
            Leads(env, codec, o, With(w, i, Halfway(f, w.tree, previous, todo - {path}, read[path := stat]), s))
  {
    var config := f.call.policy.config;
    var stat := SelectedFor(env, config, w.tree)[path];
    var here := Halfway(f, w.tree, previous, todo, read);
    WalkableIsTimely(env.walkPolicy(config, w.tree), env.inputs(config, w.tree), path);
    FileRead(env, codec, o, w, i, here, s, path);
    assert StatStep(env, w.tree, here, previous, todo, path) ==
           Halfway(f, w.tree, previous, todo - {path}, read[path := stat]);
  }

  lemma PartlyMore(env: Env, call: Call, tree: Node, todo: set<Path>, read: map<Path, Stat>, path: Path)
    requires Partly(env, call, tree, todo, read) && path in todo
    ensures var stat := SelectedFor(env, call.policy.config, tree)[path];
            Partly(env, call, tree, todo - {path}, read[path := stat])
  {
    var stat := SelectedFor(env, call.policy.config, tree)[path];
    MoveKey(read, todo, path, stat);
  }

  lemma PartlyIsAll(env: Env, call: Call, tree: Node, read: map<Path, Stat>)
    requires Partly(env, call, tree, {}, read)
    ensures read == SelectedFor(env, call.policy.config, tree)
  {
    assert read.Keys == SelectedFor(env, call.policy.config, tree).Keys;
  }

  lemma {:induction false} AllFilesRead(
    env: Env, codec: Codec, o: World, w: World, i: nat, f: Flight, s: Publication.Stores, previous: Index,
    todo: set<Path>, read: map<Path, Stat>)
    requires i < |w.flights| && WalkSucceeds(env, f.call.policy.config, w.tree)
    requires Partly(env, f.call, w.tree, todo, read)
    requires Leads(env, codec, o, With(w, i, Halfway(f, w.tree, previous, todo, read), s))
    ensures Leads(env, codec, o,
              With(w, i, Halfway(f, w.tree, previous, {}, SelectedFor(env, f.call.policy.config, w.tree)), s))
    decreases |todo|
  {
    if todo == {} {
      PartlyIsAll(env, f.call, w.tree, read);
    } else {
      var path :| path in todo;
      PartlyMore(env, f.call, w.tree, todo, read, path);
      OneFileRead(env, codec, o, w, i, f, s, previous, todo, read, path);
      AllFilesRead(env, codec, o, w, i, f, s, previous, todo - {path},
                   read[path := SelectedFor(env, f.call.policy.config, w.tree)[path]]);
    }
  }

  /** The index that reads every file. */
  function TrueIndex(env: Env, call: Call, tree: Node): Index
  {
    DirectIndex(env.contentDigest, SelectedFor(env, call.policy.config, tree))
  }

  /** An index through which the tree reads as without one. */
  ghost predicate Harmless(env: Env, call: Call, tree: Node, previous: Index)
  {
    NextIndex(env.contentDigest, previous, SelectedFor(env, call.policy.config, tree)) == TrueIndex(env, call, tree)
  }

  lemma TrueIndexFiles(env: Env, call: Call, tree: Node)
    ensures FilesOf(TrueIndex(env, call, tree)) == TrueFiles(env, call, tree)
    ensures Harmless(env, call, tree, map[]) && Harmless(env, call, tree, TrueIndex(env, call, tree))
  {
  }

  /** A flight that has read the whole of a tree that stands still. */
  function ReadAll(env: Env, f: Flight, tree: Node, stage: Stage): Flight
  {
    f.(stage := stage, tree := tree, steady := true, read := SelectedFor(env, f.call.policy.config, tree))
  }

  lemma WalkComesThrough(
    env: Env, codec: Codec, o: World, w: World, i: nat, f: Flight, s: Publication.Stores, previous: Index)
    requires i < |w.flights| && WalkSucceeds(env, f.call.policy.config, w.tree)
    requires Harmless(env, f.call, w.tree, previous)
    requires Leads(env, codec, o, With(w, i, f.(stage := IndexRead(previous)), s))
    ensures Leads(env, codec, o,
              With(w, i, ReadAll(env, f, w.tree,
                                 Walked(TrueFiles(env, f.call, w.tree), TrueIndex(env, f.call, w.tree))), s))
  {
    var config := f.call.policy.config;
    var selected := SelectedFor(env, config, w.tree);
    var started := f.(stage := IndexRead(previous));
    WalkableIsListable(env.walkPolicy(config, w.tree), env.inputs(config, w.tree));
    AdvanceLeads(env, codec, o, w, i, started, s);
    var halfway := Halfway(f, w.tree, previous, selected.Keys, map[]);
    assert Move(env, codec, With(w, i, started, s), started) == (halfway, s);
    AllFilesRead(env, codec, o, w, i, f, s, previous, selected.Keys, map[]);
    var read := Halfway(f, w.tree, previous, {}, selected);
    AdvanceLeads(env, codec, o, w, i, read, s);
    TrueIndexFiles(env, f.call, w.tree);
    var files, next := TrueFiles(env, f.call, w.tree), TrueIndex(env, f.call, w.tree);
    assert EndWalk(env, read, previous) == ReadAll(env, f, w.tree, Walked(files, next));
    assert Move(env, codec, With(w, i, read, s), read) == (ReadAll(env, f, w.tree, Walked(files, next)), s);
  }

  // ----- stores and reads

  /** The three directory steps of a drawn store. */
  lemma StoreLeads(
    env: Env, codec: Codec, o: World, w: World, i: nat, f: Flight, s: Publication.Stores, target: Publication.Target)
    requires i < |w.flights|
    requires Leads(env, codec, o, With(w, i, f, Publication.Stored1(codec, s, f.process, target)))
    ensures Leads(env, codec, o, With(w, i, f, Publication.Stored4(codec, s, f.process, target)))
  {
    var k, p := |s.stores|, f.process;
    DirectoryLeads(env, codec, o, w, i, f, Publication.Stored1(codec, s, p, target), AtomicRename.CreateNew(k));
    DirectoryLeads(env, codec, o, w, i, f, Publication.Stored2(codec, s, p, target),
                   AtomicRename.Write(k, |Publication.Content(codec, target)|));
    DirectoryLeads(env, codec, o, w, i, f, Publication.Stored3(codec, s, p, target), AtomicRename.Rename(k));
  }

  /** A directory that nothing is left over in. */
  ghost predicate Tidy(codec: Codec, s: Publication.Stores)
  {
    Publication.StoresInv(codec, s) && Publication.OnlyDestinations(s.directory)
  }

  lemma DrawMove(env: Env, codec: Codec, w: World, f: Flight)
    ensures f.stage.Walked? ==>
              Move(env, codec, w, f) ==
              (f.(stage := StoringIndex(f.stage.files, f.stage.next, |w.stores.stores|)),
               Publication.Stored1(codec, w.stores, f.process, Publication.IndexTarget(f.stage.next)))
    ensures f.stage.Checked? && f.made.Some? ==>
              Move(env, codec, w, f) ==
              (f.(stage := StoringRecord(f.stage.outcome, |w.stores.stores|)),
               Publication.Stored1(codec, w.stores, f.process, Publication.RecordTarget(f.made.value)))
  {
  }

  lemma EndMove(env: Env, codec: Codec, w: World, f: Flight)
    ensures f.stage.StoringIndex? && PhaseOf(w.stores, f.stage.store).Renamed? ==>
              Move(env, codec, w, f) == (f.(stage := IndexStored(f.stage.files)), w.stores)
    ensures f.stage.StoringRecord? && PhaseOf(w.stores, f.stage.store).Renamed? ==>
              Move(env, codec, w, f) == (f.(stage := Finished(f.stage.outcome)), w.stores)
  {
  }

  lemma IndexComesThrough(
    env: Env, codec: Codec, o: World, w: World, i: nat, f: Flight, s: Publication.Stores, files: Files, next: Index)
    requires i < |w.flights| && f.process < |s.processes| && Tidy(codec, s)
    requires Leads(env, codec, o, With(w, i, f.(stage := Walked(files, next)), s))
    ensures Leads(env, codec, o,
              With(w, i, f.(stage := IndexStored(files)),
                   Publication.Stored4(codec, s, f.process, Publication.IndexTarget(next))))
  {
    var target := Publication.IndexTarget(next);
    var t := Publication.Stored4(codec, s, f.process, target);
    var walked, storing := f.(stage := Walked(files, next)), f.(stage := StoringIndex(files, next, |s.stores|));
    AdvanceLeads(env, codec, o, w, i, walked, s);
    DrawMove(env, codec, With(w, i, walked, s), walked);
    StoreLeads(env, codec, o, w, i, storing, s, target);
    StoreEnds(codec, s, f.process, target);
    AdvanceLeads(env, codec, o, w, i, storing, t);
    EndMove(env, codec, With(w, i, storing, t), storing);
  }

  lemma StoreEnds(codec: Codec, s: Publication.Stores, p: nat, target: Publication.Target)
    requires Tidy(codec, s) && p < |s.processes|
    ensures PhaseOf(Publication.Stored4(codec, s, p, target), |s.stores|).Renamed?
  {
    Publication.StoreComesThrough(codec, s, p, target);
  }

  lemma RecordComesThrough(
    env: Env, codec: Codec, o: World, w: World, i: nat, f: Flight, s: Publication.Stores, outcome: Outcome)
    requires i < |w.flights| && f.process < |s.processes| && Tidy(codec, s) && f.made.Some?
    requires Leads(env, codec, o, With(w, i, f.(stage := Checked(outcome)), s))
    ensures Leads(env, codec, o,
              With(w, i, f.(stage := Finished(outcome)),
                   Publication.Stored4(codec, s, f.process, Publication.RecordTarget(f.made.value))))
  {
    var target := Publication.RecordTarget(f.made.value);
    var t := Publication.Stored4(codec, s, f.process, target);
    var checked, storing := f.(stage := Checked(outcome)), f.(stage := StoringRecord(outcome, |s.stores|));
    AdvanceLeads(env, codec, o, w, i, checked, s);
    DrawMove(env, codec, With(w, i, checked, s), checked);
    StoreLeads(env, codec, o, w, i, storing, s, target);
    StoreEnds(codec, s, f.process, target);
    AdvanceLeads(env, codec, o, w, i, storing, t);
    EndMove(env, codec, With(w, i, storing, t), storing);
  }

  /** The directory after a whole read of a name. */
  function Read3(codec: Codec, s: Publication.Stores, name: string, count: nat): Publication.Stores
  {
    var r := |s.directory.readers|;
    Publication.Act(codec,
      Publication.Act(codec, Opened(codec, s, name), Publication.Move(AtomicRename.Read(r, count))),
      Publication.Move(AtomicRename.Read(r, count)))
  }

  lemma ReadLeads(
    env: Env, codec: Codec, o: World, w: World, i: nat, f: Flight, s: Publication.Stores, name: string, count: nat)
    requires i < |w.flights| && Leads(env, codec, o, With(w, i, f, Opened(codec, s, name)))
    ensures Leads(env, codec, o, With(w, i, f, Read3(codec, s, name, count)))
  {
    var r := |s.directory.readers|;
    var once := Publication.Act(codec, Opened(codec, s, name), Publication.Move(AtomicRename.Read(r, count)));
    DirectoryLeads(env, codec, o, w, i, f, Opened(codec, s, name), AtomicRename.Read(r, count));
    DirectoryLeads(env, codec, o, w, i, f, once, AtomicRename.Read(r, count));
  }

  /** A whole read gets what the name showed and leaves the directory as it was. */
  lemma ReadComesThrough(codec: Codec, s: Publication.Stores, name: string, bytes: string)
    requires Tidy(codec, s) && Publication.IsDestination(name) && AtomicRename.Shows(s.directory, name, bytes)
    ensures var t, r := Read3(codec, s, name, |bytes|), |s.directory.readers|;
            && Tidy(codec, t) && t.stores == s.stores && t.processes == s.processes
            && t.directory == s.directory.(readers := t.directory.readers)
            && ReadDone(t, r) && t.directory.readers[r].got == bytes
  {
    var r := |s.directory.readers|;
    AtomicRename.ReadFinishes(Publication.IsDestination, s.directory, name, bytes);
    var one := Opened(codec, s, name);
    Publication.ActKeeps(codec, s, Publication.Move(AtomicRename.Open(name)));
    Publication.ActKeeps(codec, one, Publication.Move(AtomicRename.Read(r, |bytes|)));
    Publication.ActKeeps(codec, Publication.Act(codec, one, Publication.Move(AtomicRename.Read(r, |bytes|))),
                         Publication.Move(AtomicRename.Read(r, |bytes|)));
  }

  // ----- whole calls

  /** A flight that has read the tree, analysed it and ended. */
  function Ended(env: Env, f: Flight, tree: Node, lock: Lock, outcome: Outcome, made: Option<Record>): Flight
  {
    ReadAll(env, f, tree, Finished(outcome)).(seen := ContentsOf(env, f.call, tree), lock := lock, made := made)
  }

  /** The record of a call on a tree that its analysis passes. */
  function RecordOn(env: Env, call: Call, tree: Node): Option<Record>
  {
    match Analyzed(env, call, ContentsOf(env, call, tree))
    case None => None
    case Some(analysis) => Some(RecordFor(env, call, TrueFiles(env, call, tree), analysis))
  }

  /** A call that finds no record analyses, and ends at once unless it returns. */
  lemma MissComesThrough(env: Env, codec: Codec, o: World, w: World, i: nat, f: Flight, s: Publication.Stores)
    requires i < |w.flights| && f.process < |s.processes| && Tidy(codec, s) && f.made.None?
    requires WalkSucceeds(env, f.call.policy.config, w.tree)
    requires Leads(env, codec, o, With(w, i, ReadAll(env, f, w.tree, Missed(TrueFiles(env, f.call, w.tree))), s))
    ensures var outcome := Uncached(env, f.call, w.tree, w.lock);
            var record := RecordOn(env, f.call, w.tree);
            if outcome.Returned? then
              record.Some? &&
              Leads(env, codec, o,
                With(w, i, Ended(env, f, w.tree, w.lock, outcome, record),
                     Publication.Stored4(codec, s, f.process, Publication.RecordTarget(record.value))))
            else Leads(env, codec, o, With(w, i, Ended(env, f, w.tree, w.lock, outcome, None), s))
  {
    var missed := ReadAll(env, f, w.tree, Missed(TrueFiles(env, f.call, w.tree)));
    var outcome := Uncached(env, f.call, w.tree, w.lock);
    AdvanceLeads(env, codec, o, w, i, missed, s);
    MissMove(env, codec, With(w, i, missed, s), f);
    if outcome.Returned? {
      var record := RecordOn(env, f.call, w.tree);
      RecordComesThrough(env, codec, o, w, i, Ended(env, f, w.tree, w.lock, outcome, record), s, outcome);
    }
  }

  lemma MissMove(env: Env, codec: Codec, w: World, f: Flight)
    requires f.made.None? && WalkSucceeds(env, f.call.policy.config, w.tree)
    ensures var missed := ReadAll(env, f, w.tree, Missed(TrueFiles(env, f.call, w.tree)));
            var outcome := Uncached(env, f.call, w.tree, w.lock);
            var record := RecordOn(env, f.call, w.tree);
            && (outcome.Returned? ==> record.Some?)
            && Move(env, codec, w, missed) ==
               (if outcome.Returned?
                then Ended(env, f, w.tree, w.lock, outcome, record).(stage := Checked(outcome))
                else Ended(env, f, w.tree, w.lock, outcome, None), w.stores)
  {
  }

  lemma FirstMoves(env: Env, codec: Codec, w: World, f: Flight)
    ensures f.stage.Started? && Publication.IndexName() !in w.stores.directory.names ==>
              Move(env, codec, w, f) == (f.(stage := IndexRead(map[])), w.stores)
    ensures f.stage.IndexStored? && KeyName(env, f.call, f.stage.files) !in w.stores.directory.names ==>
              Move(env, codec, w, f) == (f.(stage := Missed(f.stage.files)), w.stores)
  {
  }

  ghost predicate Avoids(env: Env, call: Call, tree: Node)
  {
    KeyName(env, call, TrueFiles(env, call, tree)) != Publication.IndexName()
  }

  lemma KeyAvoids(env: Env, call: Call, tree: Node)
    requires KeysAvoidIndex(env)
    ensures Avoids(env, call, tree)
  {
    Publication.RecordMeetsIndexExactlyWhen(KeyFor(env, call, TrueFiles(env, call, tree)));
  }

  /** The directory after the first call's index. */
  function Indexed(env: Env, codec: Codec, s: Publication.Stores, f: Flight, tree: Node): Publication.Stores
  {
    Publication.Stored4(codec, s, f.process, Publication.IndexTarget(TrueIndex(env, f.call, tree)))
  }

  /** A call on a directory without index and record reads, stores its index and misses. */
  lemma FirstCallMisses(env: Env, codec: Codec, o: World, w: World, i: nat, f: Flight, s: Publication.Stores)
    requires i < |w.flights| && f.process < |s.processes| && Tidy(codec, s) && Avoids(env, f.call, w.tree)
    requires f.stage == Started && s.directory.names == map[]
    requires WalkSucceeds(env, f.call.policy.config, w.tree) && Leads(env, codec, o, With(w, i, f, s))
    ensures Tidy(codec, Indexed(env, codec, s, f, w.tree))
    ensures Leads(env, codec, o, With(w, i, ReadAll(env, f, w.tree, Missed(TrueFiles(env, f.call, w.tree))),
                                      Indexed(env, codec, s, f, w.tree)))
  {
    var files, next := TrueFiles(env, f.call, w.tree), TrueIndex(env, f.call, w.tree);
    var t := Indexed(env, codec, s, f, w.tree);
    AdvanceLeads(env, codec, o, w, i, f, s);
    FirstMoves(env, codec, With(w, i, f, s), f);
    TrueIndexFiles(env, f.call, w.tree);
    WalkComesThrough(env, codec, o, w, i, f, s, map[]);
    var g := ReadAll(env, f, w.tree, Walked(files, next));
    IndexComesThrough(env, codec, o, w, i, g, s, files, next);
    Publication.StoreComesThrough(codec, s, f.process, Publication.IndexTarget(next));
    var stored := g.(stage := IndexStored(files));
    AdvanceLeads(env, codec, o, w, i, stored, t);
    FirstMoves(env, codec, With(w, i, stored, t), stored);
  }

  // ----- the first call

  /** One process and one launched call. */
  function Launch(codec: Codec, tree: Node, lock: Lock, call: Call): World
  {
    var spawned := World(Publication.Act(codec, Empty(tree, lock).stores, Publication.Spawn(0)), tree, lock, []);
    spawned.(flights := [Launched(0, call, spawned)])
  }

  lemma LaunchLeads(env: Env, codec: Codec, tree: Node, lock: Lock, call: Call)
    ensures var w := Launch(codec, tree, lock, call);
            && Leads(env, codec, Empty(tree, lock), With(w, 0, w.flights[0], w.stores))
            && Tidy(codec, w.stores) && |w.stores.processes| == 1 && w.stores.directory.names == map[]
            && w.flights[0].stage == Started && w.flights[0].call == call && w.flights[0].process == 0
            && w.flights[0].made.None? && w.flights[0].loaded.None?
  {
    var o, w := Empty(tree, lock), Launch(codec, tree, lock, call);
    assert From(env, codec, o, []) == o;
    LeadsOn(env, codec, o, o, Spawn(0));
    var spawned := Act(env, codec, o, Spawn(0));
    LeadsOn(env, codec, o, spawned, Start(0, call));
    assert Act(env, codec, spawned, Start(0, call)) == w;
    assert With(w, 0, w.flights[0], w.stores) == w;
    Publication.RunKeepsInvariant(codec, []);
    Publication.ActKeeps(codec, o.stores, Publication.Spawn(0));
  }

  /** The directory after the first call. */
  function Directory1(env: Env, codec: Codec, tree: Node, lock: Lock, call: Call): Publication.Stores
  {
    var w := Launch(codec, tree, lock, call);
    var indexed := Indexed(env, codec, w.stores, w.flights[0], tree);
    var record := RecordOn(env, call, tree);
    if Uncached(env, call, tree, lock).Returned? && record.Some?
    then Publication.Stored4(codec, indexed, 0, Publication.RecordTarget(record.value)) else indexed
  }

  function Flight1(env: Env, codec: Codec, tree: Node, lock: Lock, call: Call): Flight
  {
    var outcome := Uncached(env, call, tree, lock);
    Ended(env, Launch(codec, tree, lock, call).flights[0], tree, lock, outcome,
          if outcome.Returned? then RecordOn(env, call, tree) else None)
  }

  lemma FirstCallLeads(env: Env, codec: Codec, tree: Node, lock: Lock, call: Call)
    requires KeysAvoidIndex(env) && WalkSucceeds(env, call.policy.config, tree)
    ensures Leads(env, codec, Empty(tree, lock),
              With(Launch(codec, tree, lock, call), 0, Flight1(env, codec, tree, lock, call),
                   Directory1(env, codec, tree, lock, call)))
  {
    var o, w := Empty(tree, lock), Launch(codec, tree, lock, call);
    LaunchLeads(env, codec, tree, lock, call);
    KeyAvoids(env, call, tree);
    FirstCallMisses(env, codec, o, w, 0, w.flights[0], w.stores);
    var indexed := Indexed(env, codec, w.stores, w.flights[0], tree);
    Publication.StoreComesThrough(codec, w.stores, 0, Publication.IndexTarget(TrueIndex(env, call, tree)));
    MissComesThrough(env, codec, o, w, 0, w.flights[0], indexed);
  }

  /** Some run brings a single call on a walkable tree to its end, and it ends as the uncached gate does. */
  lemma LoneCallFinishes(env: Env, codec: Codec, tree: Node, lock: Lock, call: Call)
    requires KeysAvoidIndex(env) && WalkSucceeds(env, call.policy.config, tree)
    ensures exists actions ::
              var w := Run(env, codec, tree, lock, actions);
              |w.flights| == 1 && w.flights[0].call == call &&
              w.flights[0].stage == Finished(Uncached(env, call, tree, lock))
  {
    var o := Empty(tree, lock);
    var x := With(Launch(codec, tree, lock, call), 0, Flight1(env, codec, tree, lock, call),
                  Directory1(env, codec, tree, lock, call));
    FirstCallLeads(env, codec, tree, lock, call);
    var actions :| From(env, codec, o, actions) == x;
    RunIsFrom(env, codec, tree, lock, actions);
  }

  // ----- the same call again

  /** A tidy directory that shows a call's index and record. */
  ghost predicate Stocked(env: Env, codec: Codec, s: Publication.Stores, call: Call, tree: Node, record: Record)
  {
    && Tidy(codec, s) && |s.processes| == 1
    && AtomicRename.Shows(s.directory, Publication.IndexName(), codec.printIndex(TrueIndex(env, call, tree)))
    && AtomicRename.Shows(s.directory, KeyName(env, call, TrueFiles(env, call, tree)), codec.printRecord(record))
  }

  lemma FirstCallStocks(env: Env, codec: Codec, tree: Node, lock: Lock, call: Call)
    requires KeysAvoidIndex(env) && Uncached(env, call, tree, lock).Returned?
    ensures RecordOn(env, call, tree).Some?
    ensures Stocked(env, codec, Directory1(env, codec, tree, lock, call), call, tree, RecordOn(env, call, tree).value)
  {
    var w := Launch(codec, tree, lock, call);
    LaunchLeads(env, codec, tree, lock, call);
    KeyAvoids(env, call, tree);
    var next, record := TrueIndex(env, call, tree), RecordOn(env, call, tree).value;
    Publication.StoreComesThrough(codec, w.stores, 0, Publication.IndexTarget(next));
    var indexed := Indexed(env, codec, w.stores, w.flights[0], tree);
    Publication.StoreComesThrough(codec, indexed, 0, Publication.RecordTarget(record));
  }

  /** Reading leaves a stocked directory stocked; so does storing the same index again. */
  lemma StockedRead(env: Env, codec: Codec, s: Publication.Stores, call: Call, tree: Node, record: Record,
                    name: string, bytes: string)
    requires Stocked(env, codec, s, call, tree, record)
    requires Publication.IsDestination(name) && AtomicRename.Shows(s.directory, name, bytes)
    ensures Stocked(env, codec, Read3(codec, s, name, |bytes|), call, tree, record)
  {
    ReadComesThrough(codec, s, name, bytes);
  }

  lemma StockedStore(env: Env, codec: Codec, s: Publication.Stores, call: Call, tree: Node, record: Record)
    requires Stocked(env, codec, s, call, tree, record) && Avoids(env, call, tree)
    ensures Stocked(env, codec, Publication.Stored4(codec, s, 0, Publication.IndexTarget(TrueIndex(env, call, tree))),
                    call, tree, record)
  {
    Publication.StoreComesThrough(codec, s, 0, Publication.IndexTarget(TrueIndex(env, call, tree)));
  }

  lemma OpenMove(env: Env, codec: Codec, w: World, f: Flight)
    ensures f.stage.Started? && Publication.IndexName() in w.stores.directory.names ==>
              Move(env, codec, w, f) ==
              (f.(stage := ReadingIndex(|w.stores.directory.readers|)),
               Opened(codec, w.stores, Publication.IndexName()))
    ensures f.stage.IndexStored? && KeyName(env, f.call, f.stage.files) in w.stores.directory.names ==>
              Move(env, codec, w, f) ==
              (f.(stage := Loading(f.stage.files, |w.stores.directory.readers|)),
               Opened(codec, w.stores, KeyName(env, f.call, f.stage.files)))
  {
  }

  lemma DoneMove(env: Env, codec: Codec, w: World, f: Flight)
    ensures f.stage.ReadingIndex? && ReadDone(w.stores, f.stage.reader) ==>
              Move(env, codec, w, f) ==
              (ParseIndexStep(codec, f, w.stores.directory.readers[f.stage.reader].got), w.stores)
    ensures f.stage.Loading? && ReadDone(w.stores, f.stage.reader) ==>
              Move(env, codec, w, f) ==
              (LoadStep(env, codec, w.lock, f, f.stage.files, w.stores.directory.readers[f.stage.reader].got), w.stores)
  {
  }

  lemma ParseOwnIndex(codec: Codec, f: Flight, r: nat, index: Index)
    requires Publication.ReadsBack(codec)
    ensures ParseIndexStep(codec, f.(stage := ReadingIndex(r)), codec.printIndex(index)) ==
            f.(stage := IndexRead(index))
  {
  }

  /** What the opened read of a name leads to. */
  lemma ReadToEnd(
    env: Env, codec: Codec, o: World, w: World, i: nat, f: Flight, s: Publication.Stores, name: string, bytes: string)
    requires i < |w.flights| && Tidy(codec, s) && Publication.IsDestination(name)
    requires AtomicRename.Shows(s.directory, name, bytes)
    requires Leads(env, codec, o, With(w, i, f, Opened(codec, s, name)))
    ensures var t := Read3(codec, s, name, |bytes|);
            && Leads(env, codec, o, With(w, i, f, t)) && ReadDone(t, |s.directory.readers|)
            && t.directory.readers[|s.directory.readers|].got == bytes
  {
    ReadLeads(env, codec, o, w, i, f, s, name, |bytes|);
    ReadComesThrough(codec, s, name, bytes);
  }

  lemma IndexIsRead(env: Env, codec: Codec, o: World, w: World, i: nat, f: Flight, s: Publication.Stores, index: Index)
    requires i < |w.flights| && f.stage == Started && Publication.ReadsBack(codec) && Tidy(codec, s)
    requires AtomicRename.Shows(s.directory, Publication.IndexName(), codec.printIndex(index))
    requires Leads(env, codec, o, With(w, i, f, s))
    ensures Leads(env, codec, o,
              With(w, i, f.(stage := IndexRead(index)),
                   Read3(codec, s, Publication.IndexName(), |codec.printIndex(index)|)))
  {
    var name, bytes, r := Publication.IndexName(), codec.printIndex(index), |s.directory.readers|;
    var t := Read3(codec, s, name, |bytes|);
    var reading := f.(stage := ReadingIndex(r));
    NamesAreDestinations("");
    AdvanceLeads(env, codec, o, w, i, f, s);
    OpenMove(env, codec, With(w, i, f, s), f);
    ReadToEnd(env, codec, o, w, i, reading, s, name, bytes);
    AdvanceLeads(env, codec, o, w, i, reading, t);
    DoneMove(env, codec, With(w, i, reading, t), reading);
    ParseOwnIndex(codec, f, r, index);
  }

  /** A call finds in its own record the outcome it would compute. */
  lemma OwnHit(env: Env, codec: Codec, call: Call, tree: Node, lock: Lock)
    requires Publication.ReadsBack(codec) && Uncached(env, call, tree, lock).Returned?
    ensures var record := RecordOn(env, call, tree);
            && record.Some? && HitOutcome(env, call, lock, record.value.payload) == Uncached(env, call, tree, lock)
            && Publication.LoadBytes(env, codec, codec.printRecord(record.value),
                                     KeyFor(env, call, TrueFiles(env, call, tree))) == record
  {
    var key := KeyFor(env, call, TrueFiles(env, call, tree));
    Publication.LoadOfStored(env, codec, RecordOn(env, call, tree).value, key);
  }

  lemma LoadOwn(env: Env, codec: Codec, tree: Node, lock: Lock, f: Flight)
    requires Publication.ReadsBack(codec) && Uncached(env, f.call, tree, lock).Returned?
    requires f.stage.Loading? && f.stage.files == TrueFiles(env, f.call, tree) && RecordOn(env, f.call, tree).Some?
    ensures var record := RecordOn(env, f.call, tree).value;
            LoadStep(env, codec, lock, f, f.stage.files, codec.printRecord(record)) ==
            f.(stage := Finished(Uncached(env, f.call, tree, lock)), lock := lock, loaded := Some(record))
  {
    OwnHit(env, codec, f.call, tree, lock);
  }

  lemma RecordIsLoaded(env: Env, codec: Codec, o: World, w: World, i: nat, f: Flight, s: Publication.Stores)
    requires i < |w.flights| && Publication.ReadsBack(codec) && Uncached(env, f.call, w.tree, w.lock).Returned?
    requires f.stage == IndexStored(TrueFiles(env, f.call, w.tree)) && RecordOn(env, f.call, w.tree).Some?
    requires Stocked(env, codec, s, f.call, w.tree, RecordOn(env, f.call, w.tree).value)
    requires Leads(env, codec, o, With(w, i, f, s))
    ensures var record := RecordOn(env, f.call, w.tree).value;
            Leads(env, codec, o,
              With(w, i, f.(stage := Finished(Uncached(env, f.call, w.tree, w.lock)), lock := w.lock,
                            loaded := Some(record)),
                   Read3(codec, s, KeyName(env, f.call, f.stage.files), |codec.printRecord(record)|)))
  {
    var record := RecordOn(env, f.call, w.tree).value;
    var name, bytes, r := KeyName(env, f.call, f.stage.files), codec.printRecord(record), |s.directory.readers|;
    var t := Read3(codec, s, name, |bytes|);
    var loading := f.(stage := Loading(f.stage.files, r));
    NamesAreDestinations(KeyFor(env, f.call, f.stage.files));
    AdvanceLeads(env, codec, o, w, i, f, s);
    OpenMove(env, codec, With(w, i, f, s), f);
    ReadToEnd(env, codec, o, w, i, loading, s, name, bytes);
    AdvanceLeads(env, codec, o, w, i, loading, t);
    DoneMove(env, codec, With(w, i, loading, t), loading);
    LoadOwn(env, codec, w.tree, w.lock, loading);
  }

  /** The second call, from its launch to its hit. */
  lemma SecondCallLeads(
    env: Env, codec: Codec, o: World, w: World, i: nat, f: Flight, s: Publication.Stores)
    returns (g: Flight, t: Publication.Stores)
    requires i < |w.flights| && Publication.ReadsBack(codec) && Avoids(env, f.call, w.tree)
    requires Uncached(env, f.call, w.tree, w.lock).Returned? && RecordOn(env, f.call, w.tree).Some?
    requires f.stage == Started && f.process == 0
    requires Stocked(env, codec, s, f.call, w.tree, RecordOn(env, f.call, w.tree).value)
    requires Leads(env, codec, o, With(w, i, f, s))
    ensures Leads(env, codec, o, With(w, i, g, t)) && g.call == f.call
    ensures g.stage == Finished(Uncached(env, f.call, w.tree, w.lock)) && g.loaded == RecordOn(env, f.call, w.tree)
  {
    var record, index := RecordOn(env, f.call, w.tree).value, TrueIndex(env, f.call, w.tree);
    var files := TrueFiles(env, f.call, w.tree);
    NamesAreDestinations("");
    IndexIsRead(env, codec, o, w, i, f, s, index);
    StockedRead(env, codec, s, f.call, w.tree, record, Publication.IndexName(), codec.printIndex(index));
    var a := Read3(codec, s, Publication.IndexName(), |codec.printIndex(index)|);
    TrueIndexFiles(env, f.call, w.tree);
    WalkComesThrough(env, codec, o, w, i, f, a, index);
    var walked := ReadAll(env, f, w.tree, Walked(files, index));
    IndexComesThrough(env, codec, o, w, i, walked, a, files, index);
    var b := Publication.Stored4(codec, a, 0, Publication.IndexTarget(index));
    StockedStore(env, codec, a, f.call, w.tree, record);
    var stored := walked.(stage := IndexStored(files));
    RecordIsLoaded(env, codec, o, w, i, stored, b);
    g := stored.(stage := Finished(Uncached(env, f.call, w.tree, w.lock)), lock := w.lock, loaded := Some(record));
    t := Read3(codec, b, KeyName(env, f.call, files), |codec.printRecord(record)|);
  }

  /** Two calls, both ended with the outcome, the second by loading what the first made. */
  ghost predicate MadeAndLoaded(w: World, call: Call, outcome: Outcome)
  {
    && |w.flights| == 2 && w.flights[0].call == call && w.flights[1].call == call
    && w.flights[0].stage == Finished(outcome) && w.flights[1].stage == Finished(outcome)
    && w.flights[0].made.Some? && w.flights[1].loaded == w.flights[0].made
  }

  /** A second call launched beside the first. */
  lemma LaunchAgain(env: Env, codec: Codec, o: World, x: World, call: Call) returns (w: World)
    requires Leads(env, codec, o, x) && |x.flights| == 1 && |x.stores.processes| == 1
    ensures w == x.(flights := x.flights + [Launched(0, call, x)])
    ensures Leads(env, codec, o, With(w, 1, w.flights[1], w.stores))
  {
    LeadsOn(env, codec, o, x, Start(0, call));
    w := Act(env, codec, x, Start(0, call));
    assert With(w, 1, w.flights[1], w.stores) == w;
  }

  /** The same call again in a world where the first has just returned. */
  lemma AgainHits(env: Env, codec: Codec, x: World, call: Call)
    requires Publication.ReadsBack(codec) && Avoids(env, call, x.tree)
    requires Uncached(env, call, x.tree, x.lock).Returned? && RecordOn(env, call, x.tree).Some?
    requires Stocked(env, codec, x.stores, call, x.tree, RecordOn(env, call, x.tree).value)
    requires Leads(env, codec, Empty(x.tree, x.lock), x)
    requires |x.flights| == 1 && x.flights[0].call == call && x.flights[0].made == RecordOn(env, call, x.tree)
    requires x.flights[0].stage == Finished(Uncached(env, call, x.tree, x.lock))
    ensures exists actions ::
              MadeAndLoaded(Run(env, codec, x.tree, x.lock, actions), call, Uncached(env, call, x.tree, x.lock))
  {
    var o := Empty(x.tree, x.lock);
    var w := LaunchAgain(env, codec, o, x, call);
    var g, t := SecondCallLeads(env, codec, o, w, 1, w.flights[1], w.stores);
    var actions :| From(env, codec, o, actions) == With(w, 1, g, t);
    RunIsFrom(env, codec, x.tree, x.lock, actions);
    assert MadeAndLoaded(With(w, 1, g, t), call, Uncached(env, call, x.tree, x.lock));
  }

  lemma FirstFlight(env: Env, codec: Codec, tree: Node, lock: Lock, call: Call)
    requires Uncached(env, call, tree, lock).Returned?
    ensures var f := Flight1(env, codec, tree, lock, call);
            && f.call == call && f.made == RecordOn(env, call, tree)
            && f.stage == Finished(Uncached(env, call, tree, lock))
  {
  }

  lemma FirstWorld(env: Env, codec: Codec, tree: Node, lock: Lock, call: Call) returns (x: World)
    requires KeysAvoidIndex(env) && WalkSucceeds(env, call.policy.config, tree)
    ensures Leads(env, codec, Empty(tree, lock), x) && x.tree == tree && x.lock == lock
    ensures x.flights == [Flight1(env, codec, tree, lock, call)]
    ensures x.stores == Directory1(env, codec, tree, lock, call)
  {
    FirstCallLeads(env, codec, tree, lock, call);
    x := With(Launch(codec, tree, lock, call), 0, Flight1(env, codec, tree, lock, call),
              Directory1(env, codec, tree, lock, call));
  }

  /**
   Some run makes a call and then the same call again: both return the uncached report, the second
   by loading the first's record.
   */
  lemma SecondCallHits(env: Env, codec: Codec, tree: Node, lock: Lock, call: Call)
    requires KeysAvoidIndex(env) && Publication.ReadsBack(codec) && Uncached(env, call, tree, lock).Returned?
    ensures exists actions ::
              MadeAndLoaded(Run(env, codec, tree, lock, actions), call, Uncached(env, call, tree, lock))
  {
    var x := FirstWorld(env, codec, tree, lock, call);
    FirstCallStocks(env, codec, tree, lock, call);
    FirstFlight(env, codec, tree, lock, call);
    KeyAvoids(env, call, tree);
    AgainHits(env, codec, x, call);
  }
}
