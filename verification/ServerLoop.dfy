/**
 The provider server's accept/join/shutdown loop as a state machine: one step per `select!`
 branch, per drained task and per change of the shutdown watch (src/provider_server/http_json.rs:14-91).
 */
module ServerLoop {
  import opened Wrappers

  const MIN_PARALLELISM: nat := 4
  const MAX_PARALLELISM: nat := 16

  function Distance(a: nat, b: nat): nat
  {
    if a <= b then b - a else a - b
  }

  /** `connection_parallelism`: the value in range nearest to the machine's parallelism, or the minimum. */
  function ConnectionParallelism(available: Option<nat>): (n: nat)
    ensures 4 <= n <= 16
    ensures available.None? ==> n == 4
    ensures available.Some? ==> forall m: nat :: 4 <= m <= 16 ==>
              Distance(n, available.value) <= Distance(m, available.value)
  {
    var wanted := match available case Some(n) => n case None => MIN_PARALLELISM;
    if wanted < MIN_PARALLELISM then MIN_PARALLELISM
    else if wanted > MAX_PARALLELISM then MAX_PARALLELISM
    else wanted
  }

  /** Where the loop stands: at its head, waiting in `select!`, draining, or returned. */
  datatype Control = AtHead | Selecting | Draining | Returned(ok: bool)

  datatype Server = Server(
    control: Control,
    shutdown: bool,                // the current value of the watch
    accepted: nat,                 // connections 0, 1, ... in order of acceptance
    unjoined: set<nat>,            // spawned, not yet joined
    ended: map<nat, bool>,         // of those, the ones that ended, and whether without an error
    clean: set<nat>,               // joined without an error
    failed: set<nat>,              // joined with one
    acceptedSinceShutdown: nat)    // accepts since the watch last became true

  datatype Step =
    | SetShutdown(value: bool)
    | Head
    | ShutdownChanged
    | ShutdownClosed
    | Accept
    | AcceptFails
    | Complete(task: nat, ok: bool)
    | JoinClean(task: nat)
    | JoinFails(task: nat)
    | DrainEnds

  ghost predicate Init(s: Server)
  {
    s == Server(AtHead, false, 0, {}, map[], {}, {}, 0) || s == Server(AtHead, true, 0, {}, map[], {}, {}, 0)
  }

  function Spawn(s: Server): Server
  {
    s.(control := AtHead, accepted := s.accepted + 1, unjoined := s.unjoined + {s.accepted},
       acceptedSinceShutdown := if s.shutdown then s.acceptedSinceShutdown + 1 else 0)
  }

  /** One step; the guards are those of the `select!` branches. */
  ghost predicate Next(parallelism: nat, s: Server, step: Step, t: Server)
  {
    match step
    case SetShutdown(value) =>
      t == s.(shutdown := value, acceptedSinceShutdown := if value && s.shutdown then s.acceptedSinceShutdown else 0)
    case Head => s.control == AtHead && t == s.(control := if s.shutdown then Draining else Selecting)
    case ShutdownChanged => s.control == Selecting && t == s.(control := AtHead)
    case ShutdownClosed => s.control == Selecting && t == s.(control := Returned(false))
    case Accept => s.control == Selecting && |s.unjoined| < parallelism && t == Spawn(s)
    case AcceptFails => s.control == Selecting && |s.unjoined| < parallelism && t == s.(control := Returned(false))
    case Complete(task, ok) =>
      task in s.unjoined && task !in s.ended && t == s.(ended := s.ended[task := ok])
    case JoinClean(task) =>
      && s.control in {Selecting, Draining} && task in s.ended && s.ended[task]
      && t == s.(control := if s.control == Selecting then AtHead else Draining, unjoined := s.unjoined - {task},
                 ended := s.ended - {task}, clean := s.clean + {task})
    case JoinFails(task) =>
      && s.control in {Selecting, Draining} && task in s.ended && !s.ended[task]
      && t == s.(control := Returned(false), unjoined := s.unjoined - {task},
                 ended := s.ended - {task}, failed := s.failed + {task})
    case DrainEnds => s.control == Draining && s.unjoined == {} && t == s.(control := Returned(true))
  }

  ghost predicate IsRun(parallelism: nat, states: seq<Server>, steps: seq<Step>)
  {
    && |states| == |steps| + 1 && Init(states[0])
    && forall i :: 0 <= i < |steps| ==> Next(parallelism, states[i], steps[i], states[i + 1])
  }

  /** Every accepted connection is in exactly one place. */
  ghost predicate Partitioned(s: Server)
  {
    && (forall task :: task in s.unjoined + s.clean + s.failed <==> 0 <= task < s.accepted)
    && s.unjoined !! s.clean && s.unjoined !! s.failed && s.clean !! s.failed
  }

  ghost predicate Invariant(parallelism: nat, s: Server)
  {
    && Partitioned(s)
    && s.ended.Keys <= s.unjoined
    && |s.unjoined| <= parallelism
    && s.accepted == |s.unjoined| + |s.clean| + |s.failed|
    && (s.failed != {} ==> s.control == Returned(false))
    && (s.control == Returned(true) ==> s.unjoined == {})
    && (s.shutdown ==> s.acceptedSinceShutdown <= 1)
    && (s.shutdown && s.control == Selecting ==> s.acceptedSinceShutdown == 0)
  }

  lemma AcceptKeepsInvariant(parallelism: nat, s: Server)
    requires Invariant(parallelism, s) && s.control == Selecting && |s.unjoined| < parallelism
    ensures Invariant(parallelism, Spawn(s))
  {
    var t := Spawn(s);
    assert s.accepted !in s.unjoined + s.clean + s.failed;
    forall task ensures task in t.unjoined + t.clean + t.failed <==> 0 <= task < t.accepted {
      assert task in s.unjoined + s.clean + s.failed <==> 0 <= task < s.accepted;
    }
  }

  /** Moving a joined task out of the join set loses and duplicates nothing. */
  lemma JoinMoves(s: Server, task: nat, t: Server)
    requires Partitioned(s) && task in s.unjoined && t.accepted == s.accepted && t.unjoined == s.unjoined - {task}
    requires || (t.clean == s.clean + {task} && t.failed == s.failed)
             || (t.clean == s.clean && t.failed == s.failed + {task})
    ensures Partitioned(t)
    ensures |t.unjoined| + |t.clean| + |t.failed| == |s.unjoined| + |s.clean| + |s.failed|
    ensures |t.unjoined| < |s.unjoined|
  {
    assert t.unjoined + t.clean + t.failed == s.unjoined + s.clean + s.failed;
  }

  lemma StepKeepsInvariant(parallelism: nat, s: Server, step: Step, t: Server)
    requires Invariant(parallelism, s) && Next(parallelism, s, step, t)
    ensures Invariant(parallelism, t)
  {
    if step.Accept? {
      AcceptKeepsInvariant(parallelism, s);
    } else if step.JoinClean? || step.JoinFails? {
      JoinMoves(s, step.task, t);
    }
  }

  /** In every state of every run: bounded, conserved, and at most one late accept. */
  lemma {:induction false} RunKeepsInvariant(parallelism: nat, states: seq<Server>, steps: seq<Step>, i: nat)
    requires IsRun(parallelism, states, steps) && i < |states|
    ensures Invariant(parallelism, states[i])
  {
    if i > 0 {
      RunKeepsInvariant(parallelism, states, steps, i - 1);
      StepKeepsInvariant(parallelism, states[i - 1], steps[i - 1], states[i]);
    }
  }

  /** Once the loop head has seen the shutdown, nothing more is accepted. */
  lemma {:induction false} NothingAcceptedAfterBreak(
    parallelism: nat, states: seq<Server>, steps: seq<Step>, i: nat, j: nat)
    requires IsRun(parallelism, states, steps) && i <= j < |states|
    requires states[i].control == Draining
    ensures states[j].accepted == states[i].accepted
    ensures states[j].control.Draining? || states[j].control.Returned?
    ensures states[j].unjoined <= states[i].unjoined
  {
    if i < j {
      NothingAcceptedAfterBreak(parallelism, states, steps, i, j - 1);
      assert Next(parallelism, states[j - 1], steps[j - 1], states[j]);
    }
  }

  /** A run that returns Ok drained everything: each accepted connection completed without error. */
  lemma OkMeansAllClean(parallelism: nat, states: seq<Server>, steps: seq<Step>, i: nat)
    requires IsRun(parallelism, states, steps) && i < |states| && states[i].control == Returned(true)
    ensures forall task :: 0 <= task < states[i].accepted ==> task in states[i].clean
    ensures |states[i].clean| == states[i].accepted
  {
    RunKeepsInvariant(parallelism, states, steps, i);
    forall task | 0 <= task < states[i].accepted ensures task in states[i].clean {
      assert task in states[i].unjoined + states[i].clean + states[i].failed;
    }
  }

  // ----- how a run returns

  /** A step that ends the loop with an error: the watch closes, an accept fails, or a connection did. */
  ghost predicate Fatal(step: Step)
  {
    step.ShutdownClosed? || step.AcceptFails? || step.JoinFails?
  }

  lemma {:induction false} ErrExactlyWhen(parallelism: nat, states: seq<Server>, steps: seq<Step>, i: nat)
    requires IsRun(parallelism, states, steps) && i < |states|
    ensures states[i].control == Returned(false) <==> exists j :: 0 <= j < i && Fatal(steps[j])
  {
    if i > 0 {
      ErrExactlyWhen(parallelism, states, steps, i - 1);
      assert Next(parallelism, states[i - 1], steps[i - 1], states[i]);
      if j :| 0 <= j < i && Fatal(steps[j]) {
        assert j < i - 1 || j == i - 1;
      }
      if Fatal(steps[i - 1]) { assert 0 <= i - 1 < i && Fatal(steps[i - 1]); }
    }
  }

  ghost predicate SawShutdown(states: seq<Server>, steps: seq<Step>, j: int)
  {
    0 <= j < |steps| && j < |states| && steps[j].Head? && states[j].shutdown
  }

  lemma {:induction false} DrainingSawShutdown(
    parallelism: nat, states: seq<Server>, steps: seq<Step>, i: nat) returns (j: nat)
    requires IsRun(parallelism, states, steps) && i < |states|
    requires states[i].control in {Draining, Returned(true)}
    ensures j < i && SawShutdown(states, steps, j)
  {
    assert i > 0 && Next(parallelism, states[i - 1], steps[i - 1], states[i]);
    if steps[i - 1].Head? && states[i - 1].shutdown {
      j := i - 1;
    } else {
      j := DrainingSawShutdown(parallelism, states, steps, i - 1);
    }
  }

  /** Ok is returned only after the head saw the shutdown, by a drain that ran out of connections. */
  lemma OkNeedsShutdown(parallelism: nat, states: seq<Server>, steps: seq<Step>, i: nat)
    requires IsRun(parallelism, states, steps) && i < |states| && states[i].control == Returned(true)
    ensures exists j :: 0 <= j < i && SawShutdown(states, steps, j)
    ensures forall j :: 0 <= j < i ==> !Fatal(steps[j])
  {
    var j := DrainingSawShutdown(parallelism, states, steps, i);
    ErrExactlyWhen(parallelism, states, steps, i);
  }

  ghost predicate Enabled(parallelism: nat, s: Server, step: Step)
  {
    exists t :: Next(parallelism, s, step, t)
  }

  /** While it waits, the loop accepts exactly below its limit, and joins exactly what has ended. */
  lemma WaitingServes(parallelism: nat, s: Server)
    requires s.control == Selecting
    ensures Enabled(parallelism, s, Accept) <==> |s.unjoined| < parallelism
    ensures forall task :: (Enabled(parallelism, s, JoinClean(task)) <==> task in s.ended && s.ended[task]) &&
                           (Enabled(parallelism, s, JoinFails(task)) <==> task in s.ended && !s.ended[task])
  {
    if |s.unjoined| < parallelism { assert Next(parallelism, s, Accept, Spawn(s)); }
    forall task ensures Enabled(parallelism, s, JoinClean(task)) <==> task in s.ended && s.ended[task]
                ensures Enabled(parallelism, s, JoinFails(task)) <==> task in s.ended && !s.ended[task]
    {
      JoinEnabled(parallelism, s, task);
    }
  }

  lemma JoinEnabled(parallelism: nat, s: Server, task: nat)
    requires s.control == Selecting
    ensures Enabled(parallelism, s, JoinClean(task)) <==> task in s.ended && s.ended[task]
    ensures Enabled(parallelism, s, JoinFails(task)) <==> task in s.ended && !s.ended[task]
  {
    var joined := s.(unjoined := s.unjoined - {task}, ended := s.ended - {task});
    if task in s.ended {
      if s.ended[task] {
        assert Next(parallelism, s, JoinClean(task), joined.(control := AtHead, clean := s.clean + {task}));
      } else {
        assert Next(parallelism, s, JoinFails(task),
                    joined.(control := Returned(false), failed := s.failed + {task}));
      }
    }
  }

  // ----- the drain

  /** A step of the loop itself, not of its connections or of the shutdown's owner. */
  ghost predicate ServerStep(step: Step)
  {
    !step.SetShutdown? && !step.Complete?
  }

  ghost predicate Blocked(parallelism: nat, s: Server)
  {
    forall step, t :: ServerStep(step) ==> !Next(parallelism, s, step, t)
  }

  /** The drain waits exactly while connections remain and every one of them is still running. */
  lemma DrainBlockedExactlyWhen(parallelism: nat, s: Server)
    requires Invariant(parallelism, s) && s.control == Draining
    ensures Blocked(parallelism, s) <==> s.unjoined != {} && s.ended == map[]
  {
    if s.unjoined == {} {
      assert Next(parallelism, s, DrainEnds, s.(control := Returned(true)));
    } else if s.ended != map[] {
      var task :| task in s.ended;
      var joined := s.(unjoined := s.unjoined - {task}, ended := s.ended - {task});
      if s.ended[task] {
        assert Next(parallelism, s, JoinClean(task), joined.(clean := s.clean + {task}));
      } else {
        assert Next(parallelism, s, JoinFails(task),
                    joined.(control := Returned(false), failed := s.failed + {task}));
      }
    }
  }

  /** Each server step of the drain returns or joins one connection; other steps leave the wait as it is. */
  lemma DrainAdvances(parallelism: nat, s: Server, step: Step, t: Server)
    requires Invariant(parallelism, s) && Next(parallelism, s, step, t) && s.control == Draining
    ensures ServerStep(step) ==> t.control.Returned? || (t.control == Draining && |t.unjoined| < |s.unjoined|)
    ensures !ServerStep(step) ==> t.control == Draining && t.unjoined == s.unjoined
  {
    if step.JoinClean? {
      assert t.unjoined < s.unjoined && |s.unjoined - {step.task}| == |s.unjoined| - 1;
    }
  }

  ghost predicate AllEnded(s: Server)
  {
    s.ended.Keys == s.unjoined
  }

  ghost predicate NoneFailed(s: Server)
  {
    forall task :: task in s.ended ==> s.ended[task]
  }

  /** The loop's own steps from a drain. */
  ghost predicate IsDrain(parallelism: nat, states: seq<Server>, steps: seq<Step>)
  {
    && |states| == |steps| + 1 && Invariant(parallelism, states[0]) && states[0].control == Draining
    && forall i :: 0 <= i < |steps| ==>
         ServerStep(steps[i]) && Next(parallelism, states[i], steps[i], states[i + 1])
  }

  lemma {:induction false} DrainKeeps(parallelism: nat, states: seq<Server>, steps: seq<Step>, i: nat)
    requires IsDrain(parallelism, states, steps) && i < |states| && AllEnded(states[0])
    ensures Invariant(parallelism, states[i]) && AllEnded(states[i])
    ensures states[i].control == Draining ==>
              |states[i].unjoined| + i <= |states[0].unjoined| && (NoneFailed(states[i]) <==> NoneFailed(states[0]))
    ensures states[i].control.Draining? || states[i].control == Returned(NoneFailed(states[0]))
  {
    if i > 0 {
      DrainKeeps(parallelism, states, steps, i - 1);
      var s, t := states[i - 1], states[i];
      assert ServerStep(steps[i - 1]) && Next(parallelism, s, steps[i - 1], t);
      StepKeepsInvariant(parallelism, s, steps[i - 1], t);
      DrainAdvances(parallelism, s, steps[i - 1], t);
      if t.control == Draining {
        CleanJoinKeepsFailures(s, t, steps[i - 1].task);
      }
    }
  }

  lemma CleanJoinKeepsFailures(s: Server, t: Server, task: nat)
    requires task in s.ended && s.ended[task] && t.ended == s.ended - {task}
    ensures NoneFailed(t) <==> NoneFailed(s)
  {
    assert forall other :: other in s.ended ==> other == task || (other in t.ended && t.ended[other] == s.ended[other]);
  }

  /**
   Once every remaining connection has ended, the drain is never blocked, takes at most one step
   per connection and one more, and returns Ok exactly if none of them ended in an error.
   */
  lemma DrainEndsOnceAllEnded(parallelism: nat, states: seq<Server>, steps: seq<Step>)
    requires IsDrain(parallelism, states, steps) && AllEnded(states[0])
    ensures |steps| <= |states[0].unjoined| + 1
    ensures var last := states[|steps|];
            if last.control == Draining then !Blocked(parallelism, last)
            else last.control == Returned(NoneFailed(states[0]))
  {
    var last := |steps|;
    DrainKeeps(parallelism, states, steps, last);
    if states[last].control == Draining {
      DrainBlockedExactlyWhen(parallelism, states[last]);
    }
    if last > 0 {
      DrainKeeps(parallelism, states, steps, last - 1);
      assert Next(parallelism, states[last - 1], steps[last - 1], states[last]);
    }
  }
}
