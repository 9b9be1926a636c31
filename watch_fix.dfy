/**
 * The debounce and coalescing rules of the watch loop. The two shared
 * variables (`accepting` and `run_wait`) are fields of a scheduler object;
 * the watcher thread, the delayed reset and the run threads become calls of
 * one step method each. A pure transition function over a snapshot of the
 * state specifies the steps and carries the lemmas about traces.
 */
module WatchFix {
  import opened Wrappers
  import opened Paths
  import FixEngine

  /** A path names a manifest file when its last component is exactly the manifest's file name. */
  predicate IsManifestPath(p: Path) {
    |p| > 0 && p[|p| - 1] == Normal(FixEngine.MANIFEST_FILE_NAME)
  }

  /** The event filter: some changed path names a manifest file. */
  function Qualifies(paths: seq<Path>): (r: bool)
    ensures r <==> exists i :: 0 <= i < |paths| && IsManifestPath(paths[i])
  {
    if |paths| == 0 then false
    else if IsManifestPath(paths[0]) then true
    else
      var rest := Qualifies(paths[1..]);
      assert forall i :: 1 <= i < |paths| ==> paths[i] == paths[1..][i - 1];
      rest
  }

  /**
   * The scheduler's state. `running` counts run threads in flight,
   * `pendingResets` the delayed resets of `accepting` not yet fired,
   * `runsStarted` the runs of the engine started so far.
   */
  datatype State = State(accepting: bool, runWait: nat, running: nat, pendingResets: nat, runsStarted: nat)

  /**
   * What every step keeps: at most one follow-up is queued, a run is in
   * flight exactly while `run_wait` is positive (so at most one at a time),
   * and a reset is pending exactly while events are suppressed.
   */
  predicate Inv(s: State) {
    && s.runWait <= 2
    && s.running == (if s.runWait > 0 then 1 else 0)
    && s.pendingResets == (if s.accepting then 1 else 0)
  }

  const INITIAL: State := State(false, 0, 0, 0, 0)

  /** What the watcher's channel delivers. */
  datatype Message = Event(paths: seq<Path>) | WatchError

  /**
   * The kinds of step. A message arrives (`poisoned` says the lock on
   * `accepting` was poisoned when it was read), a delayed reset fires, or a
   * run of the engine completes with the given outcome.
   */
  datatype Step = Receive(msg: Message, poisoned: bool) | ResetFires | RunCompletes(outcome: Outcome<seq<string>>)

  /** The counter bump for an accepted event. */
  function Bump(s: State): State {
    if s.runWait == 0 then s.(runWait := 1, running := s.running + 1, runsStarted := s.runsStarted + 1)
    else if s.runWait == 1 then s.(runWait := 2)
    else s
  }

  /**
   * One step. A reset or a completion with no such thread in flight cannot
   * happen and leaves the state as it is (whenever a run is in flight the
   * counter is positive). A run ends by decrementing the counter whatever its
   * outcome, which is only logged.
   */
  function Next(s: State, step: Step): (t: State)
    ensures Inv(s) ==> Inv(t)
    ensures t.runsStarted <= s.runsStarted + 1
  {
    match step
    case Receive(WatchError, _) => s
    case Receive(Event(paths), poisoned) =>
      if s.accepting || poisoned || !Qualifies(paths) then s
      else Bump(s.(accepting := true, pendingResets := s.pendingResets + 1))
    case ResetFires =>
      if s.pendingResets == 0 then s
      else s.(accepting := false, pendingResets := s.pendingResets - 1)
    case RunCompletes(_) =>
      if s.running == 0 || s.runWait == 0 then s
      else
        var v := s.runWait - 1;
        if v > 0 then s.(runWait := v, runsStarted := s.runsStarted + 1)
        else s.(runWait := v, running := 0)
  }

  /** The state after a sequence of steps. */
  function Run(s: State, steps: seq<Step>): (t: State)
    ensures Inv(s) ==> Inv(t)
    ensures t.runsStarted <= s.runsStarted + |steps|
    decreases |steps|
  {
    if |steps| == 0 then s else Run(Next(s, steps[0]), steps[1..])
  }

  // ---------------------------------------------------------------------------
  // Single steps

  /** While suppressed, or when the lock is poisoned, an event changes nothing. */
  lemma SuppressedEventIgnored(s: State, paths: seq<Path>, poisoned: bool)
    requires Inv(s) && (s.accepting || poisoned)
    ensures Next(s, Receive(Event(paths), poisoned)) == s
  {
  }

  /** An event that names no manifest file changes nothing. */
  lemma NonQualifyingEventIgnored(s: State, paths: seq<Path>, poisoned: bool)
    requires Inv(s) && forall i :: 0 <= i < |paths| ==> !IsManifestPath(paths[i])
    ensures Next(s, Receive(Event(paths), poisoned)) == s
  {
  }

  /** A channel error is only logged. */
  lemma WatchErrorIgnored(s: State, poisoned: bool)
    requires Inv(s)
    ensures Next(s, Receive(WatchError, poisoned)) == s
  {
  }

  /**
   * An accepted event opens the suppression window, schedules exactly one
   * reset, and bumps the counter: 0 to 1 starting a run, 1 to 2, 2 stays.
   */
  lemma AcceptedEvent(s: State, paths: seq<Path>)
    requires Inv(s) && !s.accepting && Qualifies(paths)
    ensures var t := Next(s, Receive(Event(paths), false));
      && t.accepting && t.pendingResets == s.pendingResets + 1
      && t.runWait == (if s.runWait < 2 then s.runWait + 1 else 2)
      && t.runsStarted == s.runsStarted + (if s.runWait == 0 then 1 else 0)
  {
  }

  /**
   * A completing run decrements the counter, with no underflow, and starts
   * the next run exactly when the counter is still positive, whatever the
   * run's outcome.
   */
  lemma CompletionStep(s: State, outcome: Outcome<seq<string>>)
    requires Inv(s) && s.running > 0
    ensures s.runWait > 0
    ensures var t := Next(s, RunCompletes(outcome));
      && t.runWait == s.runWait - 1
      && t.runsStarted == s.runsStarted + (if t.runWait > 0 then 1 else 0)
      && t == Next(s, RunCompletes(Ok))
  {
  }

  // ---------------------------------------------------------------------------
  // Traces

  predicate OnlyMessages(steps: seq<Step>) {
    forall i :: 0 <= i < |steps| ==> steps[i].Receive?
  }

  predicate NoCompletion(steps: seq<Step>) {
    forall i :: 0 <= i < |steps| ==> !steps[i].RunCompletes?
  }

  /** While suppressed, no message changes anything. */
  lemma {:induction false} MessagesIgnoredWhileSuppressed(s: State, steps: seq<Step>)
    requires Inv(s) && s.accepting && OnlyMessages(steps)
    ensures Run(s, steps) == s
    decreases |steps|
  {
    if |steps| > 0 {
      assert Next(s, steps[0]) == s;
      MessagesIgnoredWhileSuppressed(s, steps[1..]);
    }
  }

  /**
   * A burst of events inside one suppression window, starting while idle,
   * starts exactly one run: the first qualifying event is accepted and the
   * others are ignored.
   */
  lemma BurstStartsOneRun(s: State, paths: seq<Path>, rest: seq<Step>)
    requires Inv(s) && s.runWait == 0 && !s.accepting
    requires Qualifies(paths) && OnlyMessages(rest)
    ensures var t := Run(s, [Receive(Event(paths), false)] + rest);
      t.runsStarted == s.runsStarted + 1 && t.runWait == 1 && t.running == 1 && t.accepting
  {
    var steps := [Receive(Event(paths), false)] + rest;
    assert steps[1..] == rest;
    var t := Next(s, steps[0]);
    MessagesIgnoredWhileSuppressed(t, rest);
  }

  /**
   * While a run is in flight and none completes, no run starts and the
   * counter only grows, to at most 2.
   */
  lemma {:induction false} BusyStartsNothing(s: State, steps: seq<Step>)
    requires Inv(s) && s.running == 1 && NoCompletion(steps)
    ensures var t := Run(s, steps);
      t.runsStarted == s.runsStarted && t.running == 1 && s.runWait <= t.runWait <= 2
    decreases |steps|
  {
    if |steps| > 0 {
      BusyStartsNothing(Next(s, steps[0]), steps[1..]);
    }
  }

  /**
   * Coalescing: however many events arrive while a run is in flight, its
   * completion starts at most one follow-up run, after which nothing is
   * queued.
   */
  lemma AtMostOneFollowUp(s: State, steps: seq<Step>, outcome: Outcome<seq<string>>)
    requires Inv(s) && s.running == 1 && NoCompletion(steps)
    ensures var u := Next(Run(s, steps), RunCompletes(outcome));
      u.runsStarted <= s.runsStarted + 1 && u.runWait <= 1
  {
    BusyStartsNothing(s, steps);
  }

  /**
   * No request is lost: once an event has been accepted while a run was in
   * flight, the completion of that run starts a follow-up run.
   */
  lemma AcceptedDuringRunIsFollowedUp(s: State, paths: seq<Path>, steps: seq<Step>,
                                      outcome: Outcome<seq<string>>)
    requires Inv(s) && s.running == 1 && !s.accepting && Qualifies(paths) && NoCompletion(steps)
    ensures var t := Next(s, Receive(Event(paths), false));
      var u := Next(Run(t, steps), RunCompletes(outcome));
      u.runsStarted == s.runsStarted + 1 && u.running == 1
  {
    var t := Next(s, Receive(Event(paths), false));
    assert t.runWait == 2;
    BusyStartsNothing(t, steps);
  }

  /** With no new events the queue drains: two completions at most bring the scheduler to rest. */
  lemma DrainsInTwoCompletions(s: State, o1: Outcome<seq<string>>, o2: Outcome<seq<string>>)
    requires Inv(s)
    ensures var t := Next(Next(s, RunCompletes(o1)), RunCompletes(o2));
      t.runWait == 0 && t.running == 0 && t.runsStarted <= s.runsStarted + 1
  {
  }

  // ---------------------------------------------------------------------------
  // A run that panics

  /**
   * As written, a panic inside `fix` unwinds the run thread before it reaches
   * the decrement: the run is gone and `run_wait` keeps its value.
   */
  function AfterPanic(s: State): State {
    s.(running := 0)
  }

  /** The counter is positive but no run is in flight, so nothing will ever decrement it. */
  predicate Stalled(s: State) {
    0 < s.runWait <= 2 && s.running == 0
  }

  /** From a stalled state no step starts a run: events only bump the counter from 1 to 2. */
  lemma {:induction false} StalledForever(s: State, steps: seq<Step>)
    requires Stalled(s)
    ensures Stalled(Run(s, steps)) && Run(s, steps).runsStarted == s.runsStarted
    decreases |steps|
  {
    if |steps| > 0 {
      var t := Next(s, steps[0]);
      assert Stalled(t) && t.runsStarted == s.runsStarted;
      StalledForever(t, steps[1..]);
    }
  }

  /**
   * As written: once a run panics, no later sequence of events, resets or
   * completions starts `fix` again in that session.
   */
  lemma PanicStallsWatcher(s: State, steps: seq<Step>)
    requires Inv(s) && s.running == 1
    ensures Run(AfterPanic(s), steps).runsStarted == s.runsStarted
    ensures Run(AfterPanic(s), steps).running == 0
  {
    StalledForever(AfterPanic(s), steps);
  }

  /**
   * As intended, and as the model's completion step does: a run that fails
   * still decrements the counter, so the next accepted event starts a run.
   */
  lemma FailedRunDoesNotStall(s: State, errors: seq<string>, paths: seq<Path>)
    requires Inv(s) && s.runWait == 1 && !s.accepting && Qualifies(paths)
    ensures var t := Next(s, RunCompletes(Err(errors)));
      var u := Next(t, Receive(Event(paths), false));
      t.runWait == 0 && u.runsStarted == s.runsStarted + 1 && u.running == 1
  {
  }

  // ---------------------------------------------------------------------------
  // The shared variables and the step methods

  class Scheduler {
    /** `accepting`: true while events are suppressed. */
    var accepting: bool
    /** `run_wait`: the in-flight run plus the queued follow-up. */
    var runWait: nat
    ghost var running: nat
    ghost var pendingResets: nat
    ghost var runsStarted: nat

    ghost function Snapshot(): State
      reads this
    {
      State(accepting, runWait, running, pendingResets, runsStarted)
    }

    ghost predicate Valid()
      reads this
    {
      Inv(Snapshot())
    }

    /** The fresh state of a watch session. */
    constructor ()
      ensures Valid() && Snapshot() == INITIAL
    {
      accepting := false;
      runWait := 0;
      running := 0;
      pendingResets := 0;
      runsStarted := 0;
    }

    /** The watcher thread handling one message of the channel. */
    method Receive(msg: Message, poisoned: bool) returns (spawned: bool)
      requires Valid()
      modifies this
      ensures Valid() && Snapshot() == Next(old(Snapshot()), Step.Receive(msg, poisoned))
      ensures spawned <==> runsStarted == old(runsStarted) + 1
    {
      spawned := false;
      match msg
      case WatchError =>
      case Event(paths) =>
        var suppressed := if poisoned then true else accepting;
        if !suppressed && Qualifies(paths) {
          accepting := true;
          if runWait == 0 {
            runWait := runWait + 1;
            running := running + 1;
            runsStarted := runsStarted + 1;
            spawned := true;
          } else if runWait == 1 {
            runWait := runWait + 1;
          }
          pendingResets := pendingResets + 1;
        }
    }

    /** The delayed reset of `accepting` firing. */
    method ResetFires()
      requires Valid() && pendingResets > 0
      modifies this
      ensures Valid() && Snapshot() == Next(old(Snapshot()), Step.ResetFires)
    {
      accepting := false;
      pendingResets := pendingResets - 1;
    }

    /** A run finishing: decrement `run_wait` and start the next run while it stays positive. */
    method RunCompletes(outcome: Outcome<seq<string>>) returns (respawned: bool)
      requires Valid() && running > 0
      modifies this
      ensures Valid() && Snapshot() == Next(old(Snapshot()), Step.RunCompletes(outcome))
      ensures respawned <==> runWait > 0
    {
      runWait := runWait - 1;
      if runWait > 0 {
        runsStarted := runsStarted + 1;
        respawned := true;
      } else {
        running := 0;
        respawned := false;
      }
    }
  }
}
