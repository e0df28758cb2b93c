/** The per-process async runtime as a state machine: one step for every stretch of code that runs
    under the state lock, so that accessors and forks may fall between any two steps. Steps of one
    process are serialised by its run lock, which `task` stands for. */
module RuntimeLifecycle {
  import opened Results

  type Pid = nat

  /** A runner, identified by the process that created it and a serial number there. */
  datatype Runner = Runner(creator: Pid, serial: nat)

  datatype State = New | Initializing | Ready | Closing | Closed

  type Handle = nat

  /** The services an initialization builds; `None` is Python's `None`. */
  datatype Services = Services(
    transport: Option<Handle>, debugRun: Option<Handle>, deviceCommand: Option<Handle>, execution: Option<Handle>)

  const NO_SERVICES := Services(None, None, None, None)

  /** The progress an initialization records: whether the database came up, and what was built. */
  datatype Progress = Progress(database: bool, services: Services)

  const NO_PROGRESS := Progress(false, NO_SERVICES)

  /** The fields of the runtime object. */
  datatype Fields = Fields(
    state: State, runner: Option<Runner>, generation: Option<string>, ownerPid: Option<Pid>, services: Services,
    abandoned: seq<Runner>)

  /** What the holder of the run lock is doing. `Orphaned`: the process was forked while another
      process's copy of the lock was held, so no lifecycle call can ever get the lock. */
  datatype Task =
    | Idle
    | Starting(candidate: Option<Runner>, progress: Progress)
    | Messaging(active: Runner)
    | Stopping(closing: Runner)
    | Orphaned

  datatype Stage = CancelPending | Redis | Transport | DeviceCommand | Database | FinalPending

  /** What is done with a runner. */
  datatype Use = Initialization | Rollback | Message | Shutdown(stage: Stage) | Close | CloseLoop

  datatype Event = Created(runner: Runner) | Used(runner: Runner, how: Use)

  /** One process: its runtime object, what happened in it, and the fields it was born with. */
  datatype Process = Process(pid: Pid, fields: Fields, task: Task, spawned: nat, log: seq<Event>, born: Fields)

  const FRESH := Fields(New, None, None, None, NO_SERVICES, [])

  /** Whether a failed initialization's runner may be closed. */
  datatype Inspection = Unknown | Pending | Clear

  datatype Action =
    | BeginInitialize
    | CreateRunner(succeeds: bool)
    | Build(progress: Progress)
    | Publish(newGeneration: string)
    | Abort(inspection: Inspection)
    | BeginMessage
    | EndMessage
    | BeginShutdown
    | ShutdownStage(stage: Stage)
    | FinishShutdown(stubborn: bool)

  // ----- the steps

  /** The fields with runner, generation, owner and services cleared. */
  function Cleared(f: Fields, state: State): Fields {
    Fields(state, None, None, None, NO_SERVICES, f.abandoned)
  }

  /** A runtime inherited from another owner is dropped; its runner is kept only as abandoned. */
  function Reset(pid: Pid, f: Fields): Fields {
    if f.ownerPid.None? || f.ownerPid.value == pid then f
    else Cleared(f, New).(abandoned := f.abandoned + if f.runner.Some? then [f.runner.value] else [])
  }

  predicate IsForeign(pid: Pid, f: Fields) {
    f.ownerPid.Some? && f.ownerPid.value != pid
  }

  /** A runner that may still be running is kept, but only when nothing is kept already. */
  function Retained(abandoned: seq<Runner>, runner: Runner): seq<Runner> {
    if abandoned == [] then [runner] else abandoned
  }

  function Aborted(p: Process, inspection: Inspection): Process
    requires p.task.Starting? && p.task.candidate.Some?
  {
    var runner := p.task.candidate.value;
    var rollback := if p.task.progress.database then [Used(runner, Rollback)] else [];
    if inspection == Clear then
      p.(fields := Cleared(p.fields, New), task := Idle, log := p.log + rollback + [Used(runner, Close)])
    else
      p.(fields := Cleared(p.fields, Closed).(abandoned := Retained(p.fields.abandoned, runner)), task := Idle,
         log := p.log + rollback)
  }

  function ShutdownBegun(p: Process): Process {
    if !IsForeign(p.pid, p.fields) && p.fields.state == Ready && p.fields.runner.Some? then
      p.(fields := p.fields.(state := Closing), task := Stopping(p.fields.runner.value))
    else p.(fields := Cleared(p.fields, Closed))
  }

  /** One step; an action that is not enabled changes nothing. */
  function Act(p: Process, a: Action): Process {
    match (p.task, a)
    case (Idle, BeginInitialize) =>
      var f := Reset(p.pid, p.fields);
      if f.state == New then p.(fields := f.(state := Initializing), task := Starting(None, NO_PROGRESS))
      else p.(fields := f)
    case (Starting(None, _), CreateRunner(succeeds)) =>
      if succeeds then
        var runner := Runner(p.pid, p.spawned);
        p.(task := Starting(Some(runner), NO_PROGRESS), spawned := p.spawned + 1,
           log := p.log + [Created(runner), Used(runner, Initialization)])
      else p.(fields := Cleared(p.fields, New), task := Idle)
    case (Starting(Some(runner), _), Build(progress)) => p.(task := Starting(Some(runner), progress))
    case (Starting(Some(runner), progress), Publish(generation)) =>
      p.(fields := Fields(Ready, Some(runner), Some(generation), Some(p.pid), progress.services, p.fields.abandoned),
         task := Idle)
    case (Starting(Some(_), _), Abort(inspection)) => Aborted(p, inspection)
    case (Idle, BeginMessage) =>
      var f := Reset(p.pid, p.fields);
      if f.state == Ready && f.runner.Some? then
        p.(fields := f, task := Messaging(f.runner.value), log := p.log + [Used(f.runner.value, Message)])
      else p.(fields := f)
    case (Messaging(_), EndMessage) => p.(task := Idle)
    case (Idle, BeginShutdown) => ShutdownBegun(p)
    case (Stopping(runner), ShutdownStage(stage)) => p.(log := p.log + [Used(runner, Shutdown(stage))])
    case (Stopping(runner), FinishShutdown(stubborn)) =>
      p.(fields := Cleared(p.fields, Closed), task := Idle,
         log := p.log + [Used(runner, if stubborn then CloseLoop else Close)])
    case _ => p
  }

  /** The child of a fork: a copy of the object in a process that has done nothing yet. */
  function Forked(p: Process, child: Pid): Process {
    Process(child, p.fields, if p.task.Idle? then Idle else Orphaned, 0, [], p.fields)
  }

  // ----- what accessors show

  datatype Access = Refused | Granted(services: Services)

  /** A service accessor: refused to anyone but the owner, empty unless the runtime is ready. */
  function Observe(p: Process): Access {
    if IsForeign(p.pid, p.fields) then Refused
    else Granted(if p.fields.state == Ready then p.fields.services else NO_SERVICES)
  }

  // ----- the invariant of one process

  /** Runner, generation and owner are there together, exactly in Ready and Closing, and services
      nowhere else; the runner belongs to the owner. */
  ghost predicate FieldsAgree(f: Fields) {
    && (f.runner.Some? <==> f.state == Ready || f.state == Closing)
    && (f.generation.Some? <==> f.runner.Some?)
    && (f.ownerPid.Some? <==> f.runner.Some?)
    && (f.services != NO_SERVICES ==> f.runner.Some?)
    && (f.runner.Some? ==> f.runner.value.creator == f.ownerPid.value)
  }

  /** The run-lock holder and the state tell the same story. */
  ghost predicate TaskAgrees(p: Process) {
    match p.task
    case Idle => p.fields.state != Initializing && p.fields.state != Closing
    case Starting(candidate, _) =>
      p.fields.state == Initializing && (candidate.Some? ==> candidate.value.creator == p.pid)
    case Messaging(active) =>
      p.fields.state == Ready && p.fields.runner == Some(active) && p.fields.ownerPid == Some(p.pid)
    case Stopping(closing) =>
      p.fields.state == Closing && p.fields.runner == Some(closing) && p.fields.ownerPid == Some(p.pid)
    case Orphaned => true
  }

  /** No runner is run or closed by a process other than its creator. */
  ghost predicate UsesOwnRunners(p: Process) {
    forall e :: e in p.log ==> e.runner.creator == p.pid
  }

  ghost predicate ProcessInvariant(p: Process) {
    FieldsAgree(p.fields) && TaskAgrees(p) && UsesOwnRunners(p)
  }

  lemma ActKeepsInvariant(p: Process, a: Action)
    requires ProcessInvariant(p)
    ensures ProcessInvariant(Act(p, a))
  {
    ActKeepsFields(p, a);
    ActKeepsTask(p, a);
    ActKeepsOwnership(p, a);
  }

  lemma ActKeepsFields(p: Process, a: Action)
    requires ProcessInvariant(p)
    ensures FieldsAgree(Act(p, a).fields)
  {
  }

  lemma ActKeepsTask(p: Process, a: Action)
    requires ProcessInvariant(p)
    ensures TaskAgrees(Act(p, a))
  {
  }

  lemma ActKeepsOwnership(p: Process, a: Action)
    requires ProcessInvariant(p)
    ensures UsesOwnRunners(Act(p, a))
  {
  }

  lemma ForkKeepsInvariant(p: Process, child: Pid)
    requires ProcessInvariant(p)
    ensures ProcessInvariant(Forked(p, child))
  {
  }

  /** Accessors hand out services only in Ready and only to the owner. */
  lemma AccessIsGuarded(p: Process)
    requires ProcessInvariant(p)
    ensures Observe(p).Granted? && Observe(p).services != NO_SERVICES ==>
              p.fields.state == Ready && p.fields.ownerPid == Some(p.pid)
  {
  }

  // ----- conservation of runners

  ghost predicate IsClosedIn(log: seq<Event>, runner: Runner) {
    Used(runner, Close) in log || Used(runner, CloseLoop) in log
  }

  /** Where a created runner can be: current, a candidate, closed (at least attempted), or kept. */
  ghost predicate IsAccountedFor(p: Process, runner: Runner) {
    || p.fields.runner == Some(runner)
    || (p.task.Starting? && p.task.candidate == Some(runner))
    || IsClosedIn(p.log, runner)
    || runner in p.fields.abandoned
  }

  ghost predicate InheritedNoRunner(p: Process) {
    p.born.runner.None? && p.born.abandoned == []
  }

  /** In a process that inherited no runner, none is lost, the runtime is never foreign, and a kept
      runner means the runtime is closed for good. */
  ghost predicate ConservesRunners(p: Process) {
    InheritedNoRunner(p) ==>
      && (forall r :: Created(r) in p.log ==> IsAccountedFor(p, r))
      && !IsForeign(p.pid, p.fields)
      && (p.fields.abandoned != [] ==> p.fields.state == Closed)
  }

  lemma LogGrowthKeepsClosed(log: seq<Event>, more: seq<Event>, runner: Runner)
    requires IsClosedIn(log, runner)
    ensures IsClosedIn(log + more, runner)
  {
  }

  lemma ActConservesRunners(p: Process, a: Action)
    requires ProcessInvariant(p) && ConservesRunners(p)
    ensures ConservesRunners(Act(p, a))
  {
    var q := Act(p, a);
    if InheritedNoRunner(p) {
      forall r | Created(r) in q.log ensures IsAccountedFor(q, r) {
        if Created(r) in p.log {
          assert IsAccountedFor(p, r);
          AccountStays(p, a, r);
        }
      }
    }
  }

  lemma AccountStays(p: Process, a: Action, r: Runner)
    requires ProcessInvariant(p) && !IsForeign(p.pid, p.fields) && IsAccountedFor(p, r)
    requires p.fields.abandoned != [] ==> p.fields.state == Closed
    ensures IsAccountedFor(Act(p, a), r)
  {
    var q := Act(p, a);
    assert p.log <= q.log;
    if IsClosedIn(p.log, r) {
      LogGrowthKeepsClosed(p.log, q.log[|p.log|..], r);
      assert q.log == p.log + q.log[|p.log|..];
    }
  }

  lemma ForkConservesRunners(p: Process, child: Pid)
    requires ProcessInvariant(p)
    ensures ConservesRunners(Forked(p, child))
  {
  }

  // ----- the two ways to lose a runner

  /** A candidate is lost when it cannot be closed while something else is kept already. */
  ghost predicate LosesCandidate(p: Process, a: Action, runner: Runner) {
    && p.task.Starting? && p.task.candidate == Some(runner)
    && a.Abort? && a.inspection != Clear && p.fields.abandoned != []
  }

  /** The runner of another owner is lost when the first call in a forked process is a shutdown. */
  ghost predicate DropsInherited(p: Process, a: Action, runner: Runner) {
    p.task == Idle && a == BeginShutdown && IsForeign(p.pid, p.fields) && p.fields.runner == Some(runner)
  }

  ghost predicate Loses(p: Process, a: Action, runner: Runner) {
    LosesCandidate(p, a, runner) || DropsInherited(p, a, runner)
  }

  /** The process created the runner, or was born with it. */
  ghost predicate Belongs(p: Process, runner: Runner) {
    Created(runner) in p.log ||
      (runner.creator != p.pid && (p.born.runner == Some(runner) || runner in p.born.abandoned))
  }

  ghost predicate IsOwnAndNew(p: Process, runner: Runner) {
    runner.creator == p.pid && runner.serial >= p.spawned
  }

  /** Serial numbers tell the runners of a process apart: whatever it knows of its own was created before;
      a current runner is not kept as well, and comes from birth when it is not the process's own; a
      candidate is neither closed nor kept yet. */
  ghost predicate TracksRunners(p: Process) {
    && (forall e :: e in p.log ==> e.runner.serial < p.spawned)
    && (p.fields.runner.Some? ==> IsTrackedCurrent(p, p.fields.runner.value))
    && (forall r :: r in p.fields.abandoned ==> !IsOwnAndNew(p, r))
    && (p.task.Starting? && p.task.candidate.Some? ==> IsOpenCandidate(p, p.task.candidate.value))
  }

  ghost predicate IsTrackedCurrent(p: Process, r: Runner) {
    !IsOwnAndNew(p, r) && r !in p.fields.abandoned && (r.creator != p.pid ==> p.born.runner == Some(r))
  }

  ghost predicate IsOpenCandidate(p: Process, c: Runner) {
    c.serial < p.spawned && Created(c) in p.log && !IsClosedIn(p.log, c) && c !in p.fields.abandoned
  }

  lemma ActTracksRunners(p: Process, a: Action)
    requires ProcessInvariant(p) && TracksRunners(p)
    ensures TracksRunners(Act(p, a))
  {
    if a.Abort? {
      AbortTracksRunners(p, a);
    } else if a.CreateRunner? {
      CreationTracksRunners(p, a);
    } else {
      OtherStepsTrackRunners(p, a);
    }
  }

  lemma AbortTracksRunners(p: Process, a: Action)
    requires ProcessInvariant(p) && TracksRunners(p) && a.Abort?
    ensures TracksRunners(Act(p, a))
  {
  }

  lemma CreationTracksRunners(p: Process, a: Action)
    requires ProcessInvariant(p) && TracksRunners(p) && a.CreateRunner?
    ensures TracksRunners(Act(p, a))
  {
    assert !IsClosedIn(p.log, Runner(p.pid, p.spawned));
  }

  lemma OtherStepsTrackRunners(p: Process, a: Action)
    requires ProcessInvariant(p) && TracksRunners(p) && !a.Abort? && !a.CreateRunner?
    ensures TracksRunners(Act(p, a))
  {
  }

  /** A process whose id is new knows no runner of its own. */
  lemma ForkTracksRunners(p: Process, child: Pid)
    requires ProcessInvariant(p) && TracksRunners(p) && p.fields.ownerPid != Some(child)
    requires forall r :: r in p.fields.abandoned ==> r.creator != child
    ensures TracksRunners(Forked(p, child))
    ensures forall r :: Belongs(Forked(p, child), r) ==> IsAccountedFor(Forked(p, child), r)
  {
  }

  /** A runner that belongs to the process stays accounted for in every step but the one that loses it, and
      a lost one stays lost. */
  lemma AccountChanges(p: Process, a: Action, r: Runner)
    requires ProcessInvariant(p) && TracksRunners(p) && Belongs(p, r)
    ensures Belongs(Act(p, a), r)
    ensures IsAccountedFor(Act(p, a), r) <==> IsAccountedFor(p, r) && !Loses(p, a, r)
  {
    BelongingStays(p, a, r);
    if a.Abort? {
      AbortChangesAccount(p, a, r);
    } else if a == BeginShutdown {
      ShutdownChangesAccount(p, a, r);
    } else {
      OtherStepsKeepAccount(p, a, r);
    }
  }

  lemma BelongingStays(p: Process, a: Action, r: Runner)
    requires Belongs(p, r)
    ensures Belongs(Act(p, a), r)
  {
    assert p.log <= Act(p, a).log && Act(p, a).born == p.born && Act(p, a).pid == p.pid;
    assert forall e :: e in p.log ==> e in Act(p, a).log;
  }

  lemma AbortChangesAccount(p: Process, a: Action, r: Runner)
    requires ProcessInvariant(p) && TracksRunners(p) && Belongs(p, r) && a.Abort?
    ensures IsAccountedFor(Act(p, a), r) <==> IsAccountedFor(p, r) && !Loses(p, a, r)
  {
    if p.task.Starting? && p.task.candidate.Some? {
      var runner := p.task.candidate.value;
      var rollback := if p.task.progress.database then [Used(runner, Rollback)] else [];
      assert forall e :: e in Act(p, a).log <==>
        e in p.log || e in rollback || (a.inspection == Clear && e == Used(runner, Close));
    }
  }

  lemma ShutdownChangesAccount(p: Process, a: Action, r: Runner)
    requires ProcessInvariant(p) && TracksRunners(p) && Belongs(p, r) && a == BeginShutdown
    ensures IsAccountedFor(Act(p, a), r) <==> IsAccountedFor(p, r) && !Loses(p, a, r)
  {
    if p.task == Idle {
      assert p.fields.runner.Some? && !IsForeign(p.pid, p.fields) ==> p.fields.state == Ready;
    }
  }

  lemma OtherStepsKeepAccount(p: Process, a: Action, r: Runner)
    requires ProcessInvariant(p) && TracksRunners(p) && Belongs(p, r) && !a.Abort? && a != BeginShutdown
    ensures IsAccountedFor(Act(p, a), r) <==> IsAccountedFor(p, r)
  {
    assert p.log <= Act(p, a).log;
    assert forall e :: e in p.log ==> e in Act(p, a).log;
  }

  /** A runner that a step newly brings is its candidate. */
  lemma NewcomerIsAccountedFor(p: Process, a: Action, r: Runner)
    requires ProcessInvariant(p) && TracksRunners(p) && !Belongs(p, r)
    ensures !Loses(p, a, r)
    ensures Belongs(Act(p, a), r) ==> IsAccountedFor(Act(p, a), r)
  {
    assert Act(p, a).born == p.born && Act(p, a).pid == p.pid;
  }

  // ----- failed initializations

  /** A failed initialization leaves the runtime reusable exactly when its runner was never created or
      has no pending task; otherwise the runtime is closed. */
  lemma AbortIsReusableIffSafe(p: Process, a: Action)
    requires p.task.Starting? && (a == CreateRunner(false) || a.Abort?)
    requires a.CreateRunner? <==> p.task.candidate.None?
    ensures Act(p, a).task == Idle
    ensures Act(p, a).fields.state == (if a == CreateRunner(false) || a == Abort(Clear) then New else Closed)
  {
  }

  /** A runner that cannot be closed safely is kept only when nothing was kept before it; otherwise it
      is neither current nor closed nor kept. */
  lemma UnsafeAbortKeepsIffNothingKept(p: Process, runner: Runner, inspection: Inspection)
    requires p.task.Starting? && p.task.candidate == Some(runner) && inspection != Clear
    requires runner !in p.fields.abandoned && !IsClosedIn(p.log, runner)
    ensures IsAccountedFor(Act(p, Abort(inspection)), runner) <==> p.fields.abandoned == []
  {
    var q := Act(p, Abort(inspection));
    var rollback := if p.task.progress.database then [Used(runner, Rollback)] else [];
    assert forall e :: e in q.log ==> e in p.log || e in rollback;
  }

  /** So conservation needs a process that inherited no runner: the child of a ready parent keeps the
      parent's runner and then loses its own. */
  lemma ForkedChildCanLoseARunner(parent: Process, child: Pid)
    requires parent.task == Idle && parent.fields.state == Ready && ProcessInvariant(parent)
    requires parent.fields.ownerPid == Some(parent.pid) && child != parent.pid
    requires forall r :: r in parent.fields.abandoned ==> r.creator != child
    ensures var q := Act(Act(Act(Forked(parent, child), BeginInitialize), CreateRunner(true)), Abort(Pending));
      Created(Runner(child, 0)) in q.log && !IsAccountedFor(q, Runner(child, 0))
  {
    var started := Act(Act(Forked(parent, child), BeginInitialize), CreateRunner(true));
    assert started.log == [Created(Runner(child, 0)), Used(Runner(child, 0), Initialization)];
    assert Runner(child, 0) !in started.fields.abandoned;
  }
}
