/**
 Writers and readers stepping through one directory: a writer creates its temporary name
 exclusively, writes piece by piece through the handle and renames the file over its destination;
 a reader opens a destination and reads it piece by piece (src/dev_gate/cache.rs:336-363, 502-530).
 Nothing is asked of temporary names but that they are no destinations: two writers may even share one.
 */
module AtomicRename {

  type Name = string
  type Bytes = string
  type Inode = nat

  datatype Job = Job(temporary: Name, destination: Name, content: Bytes, keepsOther: bool)

  datatype Phase =
    | Drawn
    | Writing(inode: Inode, written: nat)
    | Written(inode: Inode)
    | RenameFailed(inode: Inode)
    | Renamed(inode: Inode)
    | Kept
    | Gone

  datatype Writer = Writer(job: Job, phase: Phase)

  datatype File = File(creator: nat, bytes: Bytes)

  /** One read of a destination: the file it opened, what it got, whether it met the end. */
  datatype Reader = Reader(name: Name, inode: Inode, got: Bytes, done: bool)

  datatype State = State(names: map<Name, Inode>, files: seq<File>, writers: seq<Writer>, readers: seq<Reader>)

  const EMPTY: State := State(map[], [], [], [])

  datatype Event =
    | Begin(job: Job)
    | CreateNew(writer: nat)
    | Write(writer: nat, count: nat)
    | Rename(writer: nat)
    | FailRename(writer: nat)
    | Remove(writer: nat, removed: bool)
    | Abandon(writer: nat)
    | Open(name: Name)
    | Read(reader: nat, count: nat)

  // ----- the steps

  function SetPhase(s: State, i: nat, phase: Phase): State
    requires i < |s.writers|
  {
    s.(writers := s.writers[i := s.writers[i].(phase := phase)])
  }

  function Min(a: nat, b: nat): nat
  {
    if a <= b then a else b
  }

  /** `create_new`: an error when the name is taken, else a new empty file. */
  function CreateStep(s: State, i: nat): State
    requires i < |s.writers|
  {
    var temporary := s.writers[i].job.temporary;
    if temporary in s.names then SetPhase(s, i, Gone)
    else
      SetPhase(s, i, Writing(|s.files|, 0))
      .(names := s.names[temporary := |s.files|], files := s.files + [File(i, "")])
  }

  /** One write through the open handle; at the end the file is synced and closed. */
  function WriteStep(s: State, i: nat, count: nat): State
    requires CanWrite(s, i)
  {
    var Writing(inode, written) := s.writers[i].phase;
    var content := s.writers[i].job.content;
    var end := Min(written + count, |content|);
    SetPhase(s, i, if end == |content| then Written(inode) else Writing(inode, end))
    .(files := s.files[inode := s.files[inode].(bytes := s.files[inode].bytes + content[written..end])])
  }

  /** The rename takes whatever file the temporary name has to the destination, in one step. */
  function RenameStep(s: State, i: nat): State
    requires CanRename(s, i)
  {
    var job := s.writers[i].job;
    SetPhase(s, i, Renamed(s.names[job.temporary]))
    .(names := s.names[job.destination := s.names[job.temporary]] - {job.temporary})
  }

  /** After a failed rename: try to remove the temporary; a record's store still succeeds if its destination exists. */
  function RemoveStep(s: State, i: nat, removed: bool): State
    requires i < |s.writers|
  {
    var job := s.writers[i].job;
    SetPhase(s, i, if job.keepsOther && job.destination in s.names then Kept else Gone)
    .(names := if removed then s.names - {job.temporary} else s.names)
  }

  function ReadStep(s: State, r: nat, count: nat): State
    requires CanRead(s, r)
  {
    var reader := s.readers[r];
    var bytes := s.files[reader.inode].bytes;
    var next :=
      if |bytes| <= |reader.got| then reader.(done := true)
      else reader.(got := reader.got + bytes[|reader.got|..Min(|reader.got| + count, |bytes|)]);
    s.(readers := s.readers[r := next])
  }

  predicate CanWrite(s: State, i: nat)
  {
    && i < |s.writers| && s.writers[i].phase.Writing? && s.writers[i].phase.inode < |s.files|
    && s.writers[i].phase.written <= |s.writers[i].job.content|
  }

  predicate CanRename(s: State, i: nat)
  {
    i < |s.writers| && s.writers[i].phase.Written? && s.writers[i].job.temporary in s.names
  }

  predicate CanRead(s: State, r: nat)
  {
    r < |s.readers| && s.readers[r].inode < |s.files|
  }

  /** The writer has a file under its temporary name. */
  predicate Holds(s: State, i: nat)
  {
    i < |s.writers| && (s.writers[i].phase.Writing? || s.writers[i].phase.Written? || s.writers[i].phase.RenameFailed?)
  }

  /** One step; an event that does not apply changes nothing. Readers open only destinations. */
  function Step(destination: Name -> bool, s: State, event: Event): State
  {
    match event
    case Begin(job) =>
      if destination(job.destination) && !destination(job.temporary)
      then s.(writers := s.writers + [Writer(job, Drawn)]) else s
    case CreateNew(i) => if i < |s.writers| && s.writers[i].phase.Drawn? then CreateStep(s, i) else s
    case Write(i, count) => if CanWrite(s, i) then WriteStep(s, i, count) else s
    case Rename(i) => if CanRename(s, i) then RenameStep(s, i) else s
    case FailRename(i) =>
      if i < |s.writers| && s.writers[i].phase.Written?
      then SetPhase(s, i, RenameFailed(s.writers[i].phase.inode)) else s
    case Remove(i, removed) =>
      if i < |s.writers| && s.writers[i].phase.RenameFailed? then RemoveStep(s, i, removed) else s
    case Abandon(i) => if Holds(s, i) || (i < |s.writers| && s.writers[i].phase.Drawn?) then SetPhase(s, i, Gone) else s
    case Open(name) =>
      if destination(name) && name in s.names
      then s.(readers := s.readers + [Reader(name, s.names[name], "", false)]) else s
    case Read(r, count) => if CanRead(s, r) then ReadStep(s, r, count) else s
  }

  // ----- what every step keeps

  predicate OwnsFile(s: State, i: nat)
  {
    Holds(s, i) || (i < |s.writers| && s.writers[i].phase.Renamed?)
  }

  /** A writer's file holds exactly what it has written so far, all of it once it is closed. */
  predicate FileMatches(s: State, w: Writer, i: nat)
    requires w.phase.Writing? || w.phase.Written? || w.phase.RenameFailed? || w.phase.Renamed?
  {
    && w.phase.inode < |s.files|
    && s.files[w.phase.inode].creator == i
    && (if w.phase.Writing?
        then w.phase.written <= |w.job.content| && s.files[w.phase.inode].bytes == w.job.content[..w.phase.written]
        else s.files[w.phase.inode].bytes == w.job.content)
  }

  ghost predicate FilesMatch(s: State)
  {
    forall i: nat :: OwnsFile(s, i) ==> FileMatches(s, s.writers[i], i)
  }

  predicate TemporaryHeld(s: State, i: nat)
    requires Holds(s, i)
  {
    s.writers[i].job.temporary in s.names && s.names[s.writers[i].job.temporary] == s.writers[i].phase.inode
  }

  /** A file under way stands under its writer's temporary name. */
  ghost predicate TemporariesHeld(s: State)
  {
    forall i: nat :: Holds(s, i) ==> TemporaryHeld(s, i)
  }

  /** The file was published under this name by the writer that created it. */
  predicate Published(s: State, name: Name, inode: Inode)
  {
    && inode < |s.files| && s.files[inode].creator < |s.writers|
    && s.writers[s.files[inode].creator].phase == Renamed(inode)
    && s.writers[s.files[inode].creator].job.destination == name
  }

  ghost predicate DestinationsPublished(destination: Name -> bool, s: State)
  {
    forall name :: name in s.names && destination(name) ==> Published(s, name, s.names[name])
  }

  predicate ReaderAgrees(s: State, reader: Reader)
  {
    && Published(s, reader.name, reader.inode)
    && reader.got <= s.files[reader.inode].bytes
    && (reader.done ==> reader.got == s.files[reader.inode].bytes)
  }

  ghost predicate ReadersAgree(s: State)
  {
    forall r: nat :: r < |s.readers| ==> ReaderAgrees(s, s.readers[r])
  }

  ghost predicate SuccessesPresent(s: State)
  {
    forall i: nat :: i < |s.writers| && (s.writers[i].phase.Renamed? || s.writers[i].phase.Kept?) ==>
      s.writers[i].job.destination in s.names
  }

  ghost predicate NamesApart(destination: Name -> bool, s: State)
  {
    forall i: nat :: i < |s.writers| ==>
      destination(s.writers[i].job.destination) && !destination(s.writers[i].job.temporary)
  }

  ghost predicate Inv(destination: Name -> bool, s: State)
  {
    && FilesMatch(s)
    && TemporariesHeld(s)
    && DestinationsPublished(destination, s)
    && ReadersAgree(s)
    && SuccessesPresent(s)
    && NamesApart(destination, s)
  }

  /** Only the phase of one unpublished writer, the names and the files move: what readers saw stays. */
  lemma OthersUnmoved(s: State, t: State, i: nat)
    requires ReadersAgree(s) && i < |s.writers| && !s.writers[i].phase.Renamed?
    requires |t.writers| == |s.writers| && t.readers == s.readers && |s.files| <= |t.files|
    requires forall j: nat :: j < |s.writers| && j != i ==> t.writers[j] == s.writers[j]
    requires forall f: nat :: f < |s.files| && s.files[f].creator != i ==> t.files[f] == s.files[f]
    ensures ReadersAgree(t)
    ensures forall name, inode :: Published(s, name, inode) ==> Published(t, name, inode)
  {
    forall r: nat | r < |t.readers| ensures ReaderAgrees(t, t.readers[r]) {
      assert ReaderAgrees(s, s.readers[r]);
    }
  }

  lemma CreateKeeps(destination: Name -> bool, s: State, i: nat)
    requires Inv(destination, s) && i < |s.writers| && s.writers[i].phase.Drawn?
    ensures Inv(destination, CreateStep(s, i))
  {
    var t := CreateStep(s, i);
    OthersUnmoved(s, t, i);
    forall j: nat | OwnsFile(t, j) ensures FileMatches(t, t.writers[j], j) {
      assert j != i ==> OwnsFile(s, j);
    }
    forall j: nat | Holds(t, j) ensures TemporaryHeld(t, j) {
      assert j != i ==> Holds(s, j);
    }
  }

  lemma WriteKeeps(destination: Name -> bool, s: State, i: nat, count: nat)
    requires Inv(destination, s) && CanWrite(s, i)
    ensures Inv(destination, WriteStep(s, i, count))
  {
    var t := WriteStep(s, i, count);
    var Writing(inode, written) := s.writers[i].phase;
    var content := s.writers[i].job.content;
    var end := Min(written + count, |content|);
    assert OwnsFile(s, i);
    OthersUnmoved(s, t, i);
    assert content[..written] + content[written..end] == content[..end];
    assert content[..|content|] == content;
    forall j: nat | OwnsFile(t, j) ensures FileMatches(t, t.writers[j], j) {
      assert j != i ==> OwnsFile(s, j);
    }
    forall j: nat | Holds(t, j) ensures TemporaryHeld(t, j) {
      assert Holds(s, j);
    }
  }

  /** Two writers under way with one temporary name would share its file, and a file has one creator. */
  lemma HeldNamesDiffer(s: State, i: nat, j: nat)
    requires FilesMatch(s) && TemporariesHeld(s) && Holds(s, i) && Holds(s, j) && i != j
    ensures s.writers[i].job.temporary != s.writers[j].job.temporary
  {
    assert OwnsFile(s, i) && OwnsFile(s, j);
  }

  lemma RenameKeeps(destination: Name -> bool, s: State, i: nat)
    requires Inv(destination, s) && CanRename(s, i)
    ensures Inv(destination, RenameStep(s, i))
  {
    var t := RenameStep(s, i);
    assert Holds(s, i) && OwnsFile(s, i);
    OthersUnmoved(s, t, i);
    forall j: nat | OwnsFile(t, j) ensures FileMatches(t, t.writers[j], j) {
      assert OwnsFile(s, j);
    }
    forall j: nat | Holds(t, j) ensures TemporaryHeld(t, j) {
      assert Holds(s, j);
      HeldNamesDiffer(s, i, j);
    }
  }

  lemma RemoveKeeps(destination: Name -> bool, s: State, i: nat, removed: bool)
    requires Inv(destination, s) && i < |s.writers| && s.writers[i].phase.RenameFailed?
    ensures Inv(destination, RemoveStep(s, i, removed))
  {
    var t := RemoveStep(s, i, removed);
    assert Holds(s, i) && OwnsFile(s, i);
    OthersUnmoved(s, t, i);
    forall j: nat | OwnsFile(t, j) ensures FileMatches(t, t.writers[j], j) {
      assert OwnsFile(s, j);
    }
    forall j: nat | Holds(t, j) ensures TemporaryHeld(t, j) {
      assert Holds(s, j);
      HeldNamesDiffer(s, i, j);
    }
  }

  /** A failed rename, a crash, a failed write: only the writer's phase moves. */
  lemma PhaseKeeps(destination: Name -> bool, s: State, i: nat, phase: Phase)
    requires Inv(destination, s) && i < |s.writers| && !s.writers[i].phase.Renamed?
    requires phase == Gone || (s.writers[i].phase.Written? && phase == RenameFailed(s.writers[i].phase.inode))
    ensures Inv(destination, SetPhase(s, i, phase))
  {
    var t := SetPhase(s, i, phase);
    OthersUnmoved(s, t, i);
    forall j: nat | OwnsFile(t, j) ensures FileMatches(t, t.writers[j], j) {
      assert OwnsFile(s, j);
    }
    forall j: nat | Holds(t, j) ensures TemporaryHeld(t, j) {
      assert Holds(s, j);
    }
  }

  lemma BeginKeeps(destination: Name -> bool, s: State, job: Job)
    requires Inv(destination, s) && destination(job.destination) && !destination(job.temporary)
    ensures Inv(destination, s.(writers := s.writers + [Writer(job, Drawn)]))
  {
    var t := s.(writers := s.writers + [Writer(job, Drawn)]);
    forall j: nat | OwnsFile(t, j) ensures FileMatches(t, t.writers[j], j) {
      assert OwnsFile(s, j);
    }
    forall j: nat | Holds(t, j) ensures TemporaryHeld(t, j) {
      assert Holds(s, j);
    }
  }

  lemma OnlyReadersMove(destination: Name -> bool, s: State, t: State)
    requires Inv(destination, s) && t == s.(readers := t.readers) && ReadersAgree(t)
    ensures Inv(destination, t)
  {
    forall j: nat | OwnsFile(t, j) ensures FileMatches(t, t.writers[j], j) {
      assert OwnsFile(s, j);
    }
    forall j: nat | Holds(t, j) ensures TemporaryHeld(t, j) {
      assert Holds(s, j);
    }
  }

  lemma OpenKeeps(destination: Name -> bool, s: State, name: Name)
    requires Inv(destination, s) && destination(name) && name in s.names
    ensures Inv(destination, s.(readers := s.readers + [Reader(name, s.names[name], "", false)]))
  {
    var t := s.(readers := s.readers + [Reader(name, s.names[name], "", false)]);
    forall r: nat | r < |t.readers| ensures ReaderAgrees(t, t.readers[r]) {
      assert r < |s.readers| ==> ReaderAgrees(s, s.readers[r]);
    }
    OnlyReadersMove(destination, s, t);
  }

  lemma ReadKeeps(destination: Name -> bool, s: State, r: nat, count: nat)
    requires Inv(destination, s) && CanRead(s, r)
    ensures Inv(destination, ReadStep(s, r, count))
  {
    var t := ReadStep(s, r, count);
    var reader := s.readers[r];
    var bytes := s.files[reader.inode].bytes;
    var end := Min(|reader.got| + count, |bytes|);
    assert ReaderAgrees(s, reader);
    if |reader.got| < |bytes| {
      assert reader.got + bytes[|reader.got|..end] == bytes[..end];
    }
    forall k: nat | k < |t.readers| ensures ReaderAgrees(t, t.readers[k]) {
      assert ReaderAgrees(s, s.readers[k]);
    }
    OnlyReadersMove(destination, s, t);
  }

  lemma StepKeeps(destination: Name -> bool, s: State, event: Event)
    requires Inv(destination, s)
    ensures Inv(destination, Step(destination, s, event))
  {
    if Step(destination, s, event) != s {
      match event
      case Begin(job) => BeginKeeps(destination, s, job);
      case CreateNew(i) => CreateKeeps(destination, s, i);
      case Write(i, count) => WriteKeeps(destination, s, i, count);
      case Rename(i) => RenameKeeps(destination, s, i);
      case FailRename(i) => PhaseKeeps(destination, s, i, RenameFailed(s.writers[i].phase.inode));
      case Remove(i, removed) => RemoveKeeps(destination, s, i, removed);
      case Abandon(i) => PhaseKeeps(destination, s, i, Gone);
      case Open(name) => OpenKeeps(destination, s, name);
      case Read(r, count) => ReadKeeps(destination, s, r, count);
    }
  }

  /** Every name stands for a file some writer created, and away from destinations it is that writer's temporary. */
  predicate NameCreated(destination: Name -> bool, s: State, name: Name)
    requires name in s.names
  {
    && s.names[name] < |s.files| && s.files[s.names[name]].creator < |s.writers|
    && var creator := s.writers[s.files[s.names[name]].creator];
       !creator.phase.Drawn? && (destination(name) || creator.job.temporary == name)
  }

  ghost predicate NamesCreated(destination: Name -> bool, s: State)
  {
    forall name :: name in s.names ==> NameCreated(destination, s, name)
  }

  lemma RenameKeepsCreators(destination: Name -> bool, s: State, i: nat)
    requires NamesCreated(destination, s) && NamesApart(destination, s) && CanRename(s, i)
    ensures NamesCreated(destination, RenameStep(s, i))
  {
    var t := RenameStep(s, i);
    assert NameCreated(destination, s, s.writers[i].job.temporary);
    forall name | name in t.names ensures NameCreated(destination, t, name) {
      assert name in s.names ==> NameCreated(destination, s, name);
    }
  }

  lemma CreateKeepsCreators(destination: Name -> bool, s: State, i: nat)
    requires NamesCreated(destination, s) && i < |s.writers|
    ensures NamesCreated(destination, CreateStep(s, i))
  {
    var t := CreateStep(s, i);
    forall name | name in t.names ensures NameCreated(destination, t, name) {
      assert name in s.names ==> NameCreated(destination, s, name);
    }
  }

  lemma StepKeepsCreators(destination: Name -> bool, s: State, event: Event)
    requires NamesCreated(destination, s) && NamesApart(destination, s)
    ensures NamesCreated(destination, Step(destination, s, event))
  {
    var t := Step(destination, s, event);
    if event.Rename? && CanRename(s, event.writer) {
      RenameKeepsCreators(destination, s, event.writer);
    } else if event.CreateNew? && t != s {
      CreateKeepsCreators(destination, s, event.writer);
    } else {
      forall name | name in t.names ensures NameCreated(destination, t, name) {
        assert NameCreated(destination, s, name);
      }
    }
  }

  /** A destination once published is never without a file again. */
  lemma DestinationsStay(destination: Name -> bool, s: State, event: Event, name: Name)
    requires NamesApart(destination, s) && destination(name) && name in s.names
    ensures name in Step(destination, s, event).names
  {
  }

  lemma DestinationIsPublished(destination: Name -> bool, s: State, name: Name)
    requires Inv(destination, s) && destination(name) && name in s.names
    ensures Published(s, name, s.names[name])
  {
  }

  // ----- what the steps achieve

  /** This name reads as these bytes. */
  predicate Shows(s: State, name: Name, bytes: Bytes)
  {
    name in s.names && s.names[name] < |s.files| && s.files[s.names[name]].bytes == bytes
  }

  /** Exclusive creation gives a free name an empty file, and fails on a taken one, changing no name. */
  lemma CreationGives(destination: Name -> bool, s: State, i: nat)
    requires i < |s.writers| && s.writers[i].phase.Drawn?
    ensures var t := Step(destination, s, CreateNew(i));
            var temporary := s.writers[i].job.temporary;
            if temporary in s.names then t.names == s.names && t.files == s.files && t.writers[i].phase == Gone
            else t.writers[i].phase == Writing(|s.files|, 0) && Shows(t, temporary, "") &&
                 (forall name :: name in s.names ==> name in t.names && t.names[name] == s.names[name])
  {
  }

  /** A finished file stands at its destination after the rename, whole, and its temporary name is gone. */
  lemma RenamePublishes(destination: Name -> bool, s: State, i: nat)
    requires Inv(destination, s) && i < |s.writers| && s.writers[i].phase.Written?
    ensures var t := Step(destination, s, Rename(i));
            var job := s.writers[i].job;
            && t.writers[i].phase == Renamed(s.writers[i].phase.inode)
            && Shows(t, job.destination, job.content) && job.temporary !in t.names
            && (forall name :: name != job.destination && name != job.temporary ==>
                  (name in t.names <==> name in s.names) && (name in s.names ==> t.names[name] == s.names[name]))
  {
    assert Holds(s, i) && OwnsFile(s, i);
  }

  /** After a failed rename a record's store is forgiven exactly when its destination exists. */
  lemma RemovalSettles(destination: Name -> bool, s: State, i: nat, removed: bool)
    requires Inv(destination, s) && i < |s.writers| && s.writers[i].phase.RenameFailed?
    ensures var t := Step(destination, s, Remove(i, removed));
            var job := s.writers[i].job;
            && (t.writers[i].phase == Kept <==> job.keepsOther && job.destination in s.names)
            && (t.writers[i].phase == Gone <==> !(job.keepsOther && job.destination in s.names))
            && (job.temporary in t.names <==> !removed)
            && (forall name :: name != job.temporary ==>
                  (name in t.names <==> name in s.names) && (name in s.names ==> t.names[name] == s.names[name]))
  {
    assert Holds(s, i);
  }

  /** One write of everything that is left closes the file. */
  lemma WriteFinishes(destination: Name -> bool, s: State, i: nat, count: nat)
    requires Inv(destination, s) && i < |s.writers| && s.writers[i].phase.Writing?
    requires s.writers[i].phase.written + count >= |s.writers[i].job.content|
    ensures var t := Step(destination, s, Write(i, count));
            t.writers[i].phase == Written(s.writers[i].phase.inode) && t.names == s.names
  {
    assert Holds(s, i) && OwnsFile(s, i);
  }

  /** A write that leaves something over keeps the file open, that much further. */
  lemma WriteProgresses(destination: Name -> bool, s: State, i: nat, count: nat)
    requires Inv(destination, s) && i < |s.writers| && s.writers[i].phase.Writing?
    requires s.writers[i].phase.written + count < |s.writers[i].job.content|
    ensures Step(destination, s, Write(i, count)).writers[i].phase ==
            Writing(s.writers[i].phase.inode, s.writers[i].phase.written + count)
  {
    assert Holds(s, i) && OwnsFile(s, i);
  }

  /** Two reads of the whole length open to end get exactly what the name showed. */
  lemma ReadFinishes(destination: Name -> bool, s: State, name: Name, bytes: Bytes)
    requires destination(name) && Shows(s, name, bytes)
    ensures var r := |s.readers|;
            var t := Step(destination, Step(destination, Step(destination, s, Open(name)), Read(r, |bytes|)),
                          Read(r, |bytes|));
            && |t.readers| == r + 1 && t.readers[r].name == name && t.readers[r].done && t.readers[r].got == bytes
            && t.names == s.names && t.files == s.files && t.writers == s.writers && t.readers[..r] == s.readers
  {
    var r := |s.readers|;
    var a := Step(destination, s, Open(name));
    var b := Step(destination, a, Read(r, |bytes|));
    assert "" + bytes[0..|bytes|] == bytes;
    assert b.readers[r].got == bytes;
  }
}
