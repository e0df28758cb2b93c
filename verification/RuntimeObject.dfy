/** The runtime object itself: its methods update the fields step by step and follow the machine. */
module RuntimeObject {
  import opened Results
  import opened RuntimeLifecycle
  import RuntimeSystem

  // ----- what the outside world decides

  datatype RedisOutcome = Connected | Degraded | Unterminated

  /** How the stages of one initialization turn out; `None` and `false` stand for a raised exception
      or a timeout. The worker's queues decide whether it wants a device runtime. */
  datatype Stages = Stages(
    settings: bool, database: bool, sessions: bool, transport: Option<Handle>, debugRun: Option<Handle>,
    wantsDevice: bool, deviceCommand: Option<Handle>, execution: Option<Handle>, redis: RedisOutcome)

  datatype Cleanup = CloseRedis | CloseDeviceCommand | CloseTransport | CloseDatabase

  /** One attempt: whether the runner can be created, the stages, the generation (or its failure), and,
      should the attempt fail, how each cleanup ends and what the inspection of the runner's tasks finds. */
  datatype Attempt = Attempt(
    runnerCreated: bool, stages: Stages, generation: Option<string>, cleanups: Cleanup -> bool, inspection: Inspection)

  datatype Outcome = Returned | Raised

  /** How one stage of a shutdown ends: with a value, or with an exception, which is isolated. */
  datatype StageResult = Completed(value: bool) | Failed

  /** `_run_runner_stage`: an exception becomes the stage's failure result. */
  function ResultOr(r: StageResult, failureResult: bool): bool {
    if r.Completed? then r.value else failureResult
  }

  /** Tasks that refuse cancellation, or whose cancellation failed, make the shutdown close the loop. */
  function IsStubborn(results: Stage -> StageResult): bool {
    ResultOr(results(FinalPending), true)
  }

  // ----- the machine's view of a call

  function ActAll(p: Process, actions: seq<Action>): Process
    decreases |actions|
  {
    if actions == [] then p else ActAll(Act(p, actions[0]), actions[1..])
  }

  lemma {:induction false} ActAllConcat(p: Process, a: seq<Action>, b: seq<Action>)
    ensures ActAll(p, a + b) == ActAll(ActAll(p, a), b)
    decreases |a|
  {
    if a == [] {
      assert a + b == b;
    } else {
      assert (a + b)[1..] == a[1..] + b;
      ActAllConcat(Act(p, a[0]), a[1..], b);
    }
  }

  function BuiltServices(s: Stages): Services {
    var ready := s.settings && s.database && s.sessions;
    var transport := if ready then s.transport else None;
    var debugRun := if transport.Some? then s.debugRun else None;
    var deviceCommand := if debugRun.Some? && s.wantsDevice then s.deviceCommand else None;
    var execution := if debugRun.Some? && (s.wantsDevice ==> deviceCommand.Some?) then s.execution else None;
    Services(transport, debugRun, deviceCommand, execution)
  }

  function ProgressOf(s: Stages): Progress {
    Progress(s.settings && s.database, BuiltServices(s))
  }

  predicate Completes(s: Stages) {
    BuiltServices(s).execution.Some? && s.redis != Unterminated
  }

  predicate Succeeds(attempt: Attempt) {
    attempt.runnerCreated && Completes(attempt.stages) && attempt.generation.Some?
  }

  /** The steps after the state became INITIALIZING. */
  function CandidateActions(attempt: Attempt): seq<Action> {
    if !attempt.runnerCreated then [CreateRunner(false)]
    else [CreateRunner(true), Build(ProgressOf(attempt.stages)), LastAction(attempt)]
  }

  function LastAction(attempt: Attempt): Action {
    if Succeeds(attempt) then Publish(attempt.generation.value) else Abort(attempt.inspection)
  }

  /** The steps of one initialization. */
  function InitializeActions(attempt: Attempt): seq<Action> {
    [BeginInitialize] + CandidateActions(attempt)
  }

  lemma ActOne(p: Process, a: Action, rest: seq<Action>)
    ensures ActAll(p, [a] + rest) == ActAll(Act(p, a), rest)
    ensures ActAll(p, [a]) == Act(p, a)
  {
    assert ([a] + rest)[1..] == rest;
    assert [a][1..] == [];
  }

  lemma CandidateSteps(p: Process, attempt: Attempt)
    ensures ActAll(p, CandidateActions(attempt)) ==
      if !attempt.runnerCreated then Act(p, CreateRunner(false))
      else Act(Act(Act(p, CreateRunner(true)), Build(ProgressOf(attempt.stages))), LastAction(attempt))
  {
    if !attempt.runnerCreated {
      ActOne(p, CreateRunner(false), []);
    } else {
      var build, last := Build(ProgressOf(attempt.stages)), LastAction(attempt);
      ActOne(p, CreateRunner(true), [build, last]);
      ActOne(Act(p, CreateRunner(true)), build, [last]);
      ActOne(Act(Act(p, CreateRunner(true)), build), last, []);
      assert CandidateActions(attempt) == [CreateRunner(true)] + [build, last];
      assert [build, last] == [build] + [last];
    }
  }

  /** What a call to `run_async` does: initialize a new runtime first, then run the message. */
  function RunActions(p: Process, attempt: Attempt): seq<Action> {
    (if Reset(p.pid, p.fields).state == New then InitializeActions(attempt) else []) + [BeginMessage, EndMessage]
  }

  /** The shutdown order: pending tasks, Redis, Transport, DeviceCommand, database, pending tasks again. */
  function ShutdownStages(s: Services): seq<Stage> {
    [CancelPending, Redis] + RuntimeStages(s) + [Database, FinalPending]
  }

  function RuntimeStages(s: Services): seq<Stage> {
    (if s.transport.Some? then [Transport] else []) + (if s.deviceCommand.Some? then [DeviceCommand] else [])
  }

  function StageActions(stages: seq<Stage>): seq<Action> {
    if stages == [] then [] else [ShutdownStage(stages[0])] + StageActions(stages[1..])
  }

  function ShutdownActions(s: Services, stubborn: bool): seq<Action> {
    [BeginShutdown] + StageActions(ShutdownStages(s)) + [FinishShutdown(stubborn)]
  }

  ghost function StageEvents(runner: Runner, stages: seq<Stage>): seq<Event> {
    seq(|stages|, k requires 0 <= k < |stages| => Used(runner, Shutdown(stages[k])))
  }

  lemma {:induction false} OneMoreStage(p: Process, done: seq<Stage>, stage: Stage)
    ensures ActAll(p, StageActions(done + [stage])) == Act(ActAll(p, StageActions(done)), ShutdownStage(stage))
    decreases |done|
  {
    if done == [] {
      assert done + [stage] == [stage] && [stage][1..] == [];
      ActOne(p, ShutdownStage(stage), []);
    } else {
      assert (done + [stage])[1..] == done[1..] + [stage];
      ActOne(p, ShutdownStage(done[0]), StageActions(done[1..] + [stage]));
      ActOne(p, ShutdownStage(done[0]), StageActions(done[1..]));
      OneMoreStage(Act(p, ShutdownStage(done[0])), done[1..], stage);
    }
  }

  /** The log of a shutdown: every stage in order, whatever happens in any of them. */
  lemma {:induction false} StagesAreLogged(p: Process, stages: seq<Stage>)
    requires p.task.Stopping?
    ensures ActAll(p, StageActions(stages)) == p.(log := p.log + StageEvents(p.task.closing, stages))
    decreases |stages|
  {
    var runner := p.task.closing;
    if stages == [] {
      assert p.log + StageEvents(runner, stages) == p.log;
    } else {
      ActOne(p, ShutdownStage(stages[0]), StageActions(stages[1..]));
      StagesAreLogged(Act(p, ShutdownStage(stages[0])), stages[1..]);
      assert p.log + [Used(runner, Shutdown(stages[0]))] + StageEvents(runner, stages[1..])
          == p.log + StageEvents(runner, stages);
    }
  }

  lemma {:induction false} StagesNeedARunner(p: Process, stages: seq<Stage>)
    requires p.task == Idle
    ensures ActAll(p, StageActions(stages)) == p
    decreases |stages|
  {
    if stages != [] {
      ActOne(p, ShutdownStage(stages[0]), StageActions(stages[1..]));
      StagesNeedARunner(p, stages[1..]);
    }
  }

  lemma ShutdownSteps(p: Process, s: Services, stubborn: bool)
    ensures ActAll(p, ShutdownActions(s, stubborn)) ==
            Act(ActAll(Act(p, BeginShutdown), StageActions(ShutdownStages(s))), FinishShutdown(stubborn))
  {
    var stages := StageActions(ShutdownStages(s));
    ActOne(p, BeginShutdown, stages + [FinishShutdown(stubborn)]);
    assert ShutdownActions(s, stubborn) == [BeginShutdown] + (stages + [FinishShutdown(stubborn)]);
    ActAllConcat(Act(p, BeginShutdown), stages, [FinishShutdown(stubborn)]);
    ActOne(ActAll(Act(p, BeginShutdown), stages), FinishShutdown(stubborn), []);
  }

  /** A shutdown of a ready runtime by its owner attempts every stage of the documented order exactly
      once and then closes the runner, or its loop when tasks refused cancellation. */
  lemma ShutdownAttemptsEverything(p: Process, runner: Runner, stubborn: bool)
    requires p.task == Idle && p.fields.state == Ready && p.fields.runner == Some(runner) && !IsForeign(p.pid, p.fields)
    ensures var q := ActAll(p, ShutdownActions(p.fields.services, stubborn));
      && q.log == p.log + StageEvents(runner, ShutdownStages(p.fields.services))
                        + [Used(runner, if stubborn then CloseLoop else Close)]
      && q.fields == Cleared(p.fields, Closed) && q.task == Idle
  {
    ShutdownSteps(p, p.fields.services, stubborn);
    StagesAreLogged(Act(p, BeginShutdown), ShutdownStages(p.fields.services));
  }

  // ----- initialization, stage by stage

  datatype InitStage =
    | SettingsStage | DatabaseStage | SessionsStage | TransportStage | DebugRunStage | DeviceStage | ExecutionStage
    | RedisStage

  function Place(stage: InitStage): nat {
    match stage
    case SettingsStage => 0
    case DatabaseStage => 1
    case SessionsStage => 2
    case TransportStage => 3
    case DebugRunStage => 4
    case DeviceStage => 5
    case ExecutionStage => 6
    case RedisStage => 7
  }

  /** The stage by itself raises nothing; the device stage is skipped by workers that want no device. */
  predicate Passes(s: Stages, stage: InitStage) {
    match stage
    case SettingsStage => s.settings
    case DatabaseStage => s.database
    case SessionsStage => s.sessions
    case TransportStage => s.transport.Some?
    case DebugRunStage => s.debugRun.Some?
    case DeviceStage => s.wantsDevice ==> s.deviceCommand.Some?
    case ExecutionStage => s.execution.Some?
    case RedisStage => s.redis != Unterminated
  }

  /** The stage and all before it pass. */
  ghost predicate IsPassed(s: Stages, stage: InitStage) {
    forall earlier :: Place(earlier) <= Place(stage) ==> Passes(s, earlier)
  }

  /** What is built is what the stages up to the first failure build. */
  ghost predicate StopsAtFirstFailure(s: Stages, progress: Progress) {
    && (progress.database <==> IsPassed(s, DatabaseStage))
    && progress.services.transport == (if IsPassed(s, TransportStage) then s.transport else None)
    && progress.services.debugRun == (if IsPassed(s, DebugRunStage) then s.debugRun else None)
    && progress.services.deviceCommand == (if IsPassed(s, DeviceStage) && s.wantsDevice then s.deviceCommand else None)
    && progress.services.execution == (if IsPassed(s, ExecutionStage) then s.execution else None)
  }

  lemma StagesInOrder(s: Stages, stage: InitStage)
    ensures IsPassed(s, stage) <==>
      && Passes(s, SettingsStage)
      && (Place(stage) >= 1 ==> Passes(s, DatabaseStage)) && (Place(stage) >= 2 ==> Passes(s, SessionsStage))
      && (Place(stage) >= 3 ==> Passes(s, TransportStage)) && (Place(stage) >= 4 ==> Passes(s, DebugRunStage))
      && (Place(stage) >= 5 ==> Passes(s, DeviceStage)) && (Place(stage) >= 6 ==> Passes(s, ExecutionStage))
      && (Place(stage) >= 7 ==> Passes(s, RedisStage))
  {
    assert Place(SettingsStage) == 0;
  }

  lemma ProgressStopsAtFirstFailure(s: Stages)
    ensures StopsAtFirstFailure(s, ProgressOf(s))
    ensures Completes(s) <==> IsPassed(s, RedisStage)
  {
    StagesInOrder(s, DatabaseStage);
    StagesInOrder(s, TransportStage);
    StagesInOrder(s, DebugRunStage);
    StagesInOrder(s, DeviceStage);
    StagesInOrder(s, ExecutionStage);
    StagesInOrder(s, RedisStage);
  }

  // ----- rollback

  /** Redis and the database are closed in any case, the two runtimes when they were built. */
  predicate IsNeeded(progress: Progress, cleanup: Cleanup) {
    match cleanup
    case CloseRedis => true
    case CloseDeviceCommand => progress.services.deviceCommand.Some?
    case CloseTransport => progress.services.transport.Some?
    case CloseDatabase => true
  }

  /** The documented order: Redis, then the runtimes, the database last. */
  function Turn(cleanup: Cleanup): nat {
    match cleanup
    case CloseRedis => 0
    case CloseDeviceCommand => 1
    case CloseTransport => 2
    case CloseDatabase => 3
  }

  /** Every needed cleanup and no other, each once, in order. */
  ghost predicate IsFullRollback(progress: Progress, attempted: seq<Cleanup>) {
    && (forall c :: c in attempted <==> IsNeeded(progress, c))
    && (forall i, j :: 0 <= i < j < |attempted| ==> Turn(attempted[i]) < Turn(attempted[j]))
  }

  datatype Service = TransportService | DebugRunService | DeviceCommandService | ExecutionService

  predicate IsBuilt(progress: Progress, service: Service) {
    match service
    case TransportService => progress.services.transport.Some?
    case DebugRunService => progress.services.debugRun.Some?
    case DeviceCommandService => progress.services.deviceCommand.Some?
    case ExecutionService => progress.services.execution.Some?
  }

  /** The rollback knows how to close two of the four services. */
  function CleanupOf(service: Service): Option<Cleanup> {
    match service
    case TransportService => Some(CloseTransport)
    case DeviceCommandService => Some(CloseDeviceCommand)
    case _ => None
  }

  ghost predicate IsRolledBack(progress: Progress, attempted: seq<Cleanup>, service: Service) {
    IsBuilt(progress, service) && CleanupOf(service).Some? && CleanupOf(service).value in attempted
  }

  /** A full rollback closes the transport and the device command runtime whenever they were built; the
      debug-run service and the execution runtime it never closes. So everything built is closed exactly
      when the initialization failed before the debug-run service was there. */
  lemma RollbackIsCompleteIffFailedEarly(s: Stages, attempted: seq<Cleanup>)
    requires IsFullRollback(ProgressOf(s), attempted)
    ensures forall service :: IsBuilt(ProgressOf(s), service) && CleanupOf(service).Some? ==>
      IsRolledBack(ProgressOf(s), attempted, service)
    ensures (forall service :: IsBuilt(ProgressOf(s), service) ==> IsRolledBack(ProgressOf(s), attempted, service)) <==>
            !IsPassed(s, DebugRunStage)
  {
    StagesInOrder(s, DebugRunStage);
    if IsPassed(s, DebugRunStage) {
      assert IsBuilt(ProgressOf(s), DebugRunService) && CleanupOf(DebugRunService).None?;
    }
  }

  /** Nothing is built before the database is up, so there is nothing to roll back without it. */
  lemma BuildingNeedsDatabase(s: Stages)
    ensures ProgressOf(s).services != NO_SERVICES ==> ProgressOf(s).database
  {
  }

  // ----- what the calls do, event by event

  /** How often a message was run. */
  function Messages(log: seq<Event>): nat {
    if log == [] then 0
    else Messages(log[..|log| - 1]) + match log[|log| - 1] { case Used(_, Message) => 1 case _ => 0 }
  }

  lemma OneEvent(log: seq<Event>, e: Event)
    ensures Messages(log + [e]) == Messages(log) + match e { case Used(_, Message) => 1 case _ => 0 }
  {
    assert (log + [e])[..|log|] == log;
  }

  lemma {:induction false} OtherEvents(log: seq<Event>, more: seq<Event>)
    requires forall e :: e in more ==> !(e.Used? && e.how == Message)
    ensures Messages(log + more) == Messages(log)
    decreases |more|
  {
    if more == [] {
      assert log + more == log;
    } else {
      var fewer, e := more[..|more| - 1], more[|more| - 1];
      assert log + more == log + fewer + [e] && e in more;
      assert forall x :: x in fewer ==> x in more;
      OneEvent(log + fewer, e);
      OtherEvents(log, fewer);
    }
  }

  /** The events of a failed initialization whose runner was created. */
  ghost function FailureEvents(r: Runner, rollback: bool, safe: bool): seq<Event> {
    [Created(r), Used(r, Initialization)] + (if rollback then [Used(r, Rollback)] else [])
    + (if safe then [Used(r, Close)] else [])
  }

  /** An initialization from NEW, or from what another owner left. */
  lemma InitializationFromNew(p: Process, attempt: Attempt)
    requires p.task == Idle && Reset(p.pid, p.fields).state == New
    ensures var (q, r) := (ActAll(p, InitializeActions(attempt)), Runner(p.pid, p.spawned));
      if !attempt.runnerCreated then q.log == p.log && q.fields.state == New
      else if Succeeds(attempt) then
        && q.log == p.log + [Created(r), Used(r, Initialization)]
        && q.fields == Fields(Ready, Some(r), attempt.generation, Some(p.pid), BuiltServices(attempt.stages),
                              Reset(p.pid, p.fields).abandoned)
      else
        && q.log == p.log + FailureEvents(r, ProgressOf(attempt.stages).database, attempt.inspection == Clear)
        && q.fields.state == (if attempt.inspection == Clear then New else Closed)
  {
    ActOne(p, BeginInitialize, CandidateActions(attempt));
    var begun := Act(p, BeginInitialize);
    CandidateSteps(begun, attempt);
    if attempt.runnerCreated {
      CandidateFromNew(begun, attempt);
    }
  }

  lemma CandidateFromNew(begun: Process, attempt: Attempt)
    requires begun.task == Starting(None, NO_PROGRESS) && attempt.runnerCreated
    ensures var r := Runner(begun.pid, begun.spawned);
      var q := Act(Act(Act(begun, CreateRunner(true)), Build(ProgressOf(attempt.stages))), LastAction(attempt));
      if Succeeds(attempt) then
        && q.log == begun.log + [Created(r), Used(r, Initialization)]
        && q.fields == Fields(Ready, Some(r), attempt.generation, Some(begun.pid), BuiltServices(attempt.stages),
                              begun.fields.abandoned)
      else
        && q.log == begun.log + FailureEvents(r, ProgressOf(attempt.stages).database, attempt.inspection == Clear)
        && q.fields.state == (if attempt.inspection == Clear then New else Closed)
  {
  }

  /** An initialization that finds neither changes nothing. */
  lemma InitializationElsewhere(p: Process, attempt: Attempt)
    requires p.task == Idle && Reset(p.pid, p.fields).state != New
    ensures ActAll(p, InitializeActions(attempt)) == p
  {
    ActOne(p, BeginInitialize, CandidateActions(attempt));
    CandidateSteps(p, attempt);
  }

  lemma SuccessIsAllStages(attempt: Attempt)
    ensures Succeeds(attempt) <==>
      attempt.runnerCreated && IsPassed(attempt.stages, RedisStage) && attempt.generation.Some?
    ensures Succeeds(attempt) ==>
      var s := attempt.stages;
      var device := if s.wantsDevice then s.deviceCommand else None;
      BuiltServices(s) == Services(s.transport, s.debugRun, device, s.execution)
    ensures ProgressOf(attempt.stages).database <==> IsPassed(attempt.stages, DatabaseStage)
  {
    ProgressStopsAtFirstFailure(attempt.stages);
  }

  /** Every message that is run leaves one event, the last one, on the runner that is then current. */
  lemma MessageIsLogged(p: Process)
    requires p.task == Idle
    ensures var q := ActAll(p, [BeginMessage, EndMessage]);
      if q.fields.state == Ready && q.fields.runner.Some? then q.log == p.log + [Used(q.fields.runner.value, Message)]
      else q.log == p.log
  {
    MessageSteps(p);
  }

  lemma InitializationRunsNoMessage(p: Process, attempt: Attempt)
    requires p.task == Idle
    ensures var q := ActAll(p, InitializeActions(attempt)); q.task == Idle && Messages(q.log) == Messages(p.log)
  {
    if Reset(p.pid, p.fields).state == New {
      InitializationFromNew(p, attempt);
      var r := Runner(p.pid, p.spawned);
      OtherEvents(p.log, [Created(r), Used(r, Initialization)]);
      OtherEvents(p.log, FailureEvents(r, ProgressOf(attempt.stages).database, attempt.inspection == Clear));
      InitializationEndsIdle(p, attempt);
    } else {
      InitializationElsewhere(p, attempt);
    }
  }

  lemma InitializationEndsIdle(p: Process, attempt: Attempt)
    requires p.task == Idle && Reset(p.pid, p.fields).state == New
    ensures ActAll(p, InitializeActions(attempt)).task == Idle
  {
    ActOne(p, BeginInitialize, CandidateActions(attempt));
    CandidateSteps(Act(p, BeginInitialize), attempt);
  }

  /** Exactly one message more than `before`, the last event and on the runner then current, when the
      runtime is ready; otherwise none. */
  ghost predicate RanOneMessage(before: seq<Event>, q: Process) {
    if q.fields.state == Ready && q.fields.runner.Some? then
      && Messages(q.log) == Messages(before) + 1
      && q.log != [] && q.log[|q.log| - 1] == Used(q.fields.runner.value, Message)
    else Messages(q.log) == Messages(before)
  }

  lemma MessageIsCounted(p: Process)
    requires p.task == Idle
    ensures RanOneMessage(p.log, ActAll(p, [BeginMessage, EndMessage]))
  {
    MessageIsLogged(p);
    if p.fields.runner.Some? {
      OneEvent(p.log, Used(p.fields.runner.value, Message));
    }
    MessageKeepsRunner(p);
  }

  lemma MessageKeepsRunner(p: Process)
    requires p.task == Idle
    ensures var q := ActAll(p, [BeginMessage, EndMessage]);
      q.fields.state == Ready ==> q.fields.runner == p.fields.runner
  {
    MessageSteps(p);
  }

  lemma RunAsyncIsLogged(p: Process, attempt: Attempt)
    requires p.task == Idle
    ensures RanOneMessage(p.log, ActAll(p, RunActions(p, attempt)))
  {
    if Reset(p.pid, p.fields).state == New {
      var q := ActAll(p, InitializeActions(attempt));
      ActAllConcat(p, InitializeActions(attempt), [BeginMessage, EndMessage]);
      InitializationRunsNoMessage(p, attempt);
      MessageIsCounted(q);
    } else {
      assert [] + [BeginMessage, EndMessage] == [BeginMessage, EndMessage];
      MessageIsCounted(p);
    }
  }

  /** A ready runtime runs the message and does nothing else. */
  lemma ReadyRunsMessage(p: Process, attempt: Attempt)
    requires p.task == Idle && p.fields.state == Ready && p.fields.runner.Some? && !IsForeign(p.pid, p.fields)
    ensures ActAll(p, RunActions(p, attempt)).log == p.log + [Used(p.fields.runner.value, Message)]
  {
    assert [] + [BeginMessage, EndMessage] == [BeginMessage, EndMessage];
    MessageSteps(p);
  }

  lemma InitializationIsThat(p: Process, attempt: Attempt)
    requires p.task == Idle
    ensures Reset(p.pid, p.fields).state != New ==> ActAll(p, InitializeActions(attempt)) == p
    ensures Reset(p.pid, p.fields).state == New ==>
      InitializedTo(p, attempt, ActAll(p, InitializeActions(attempt)))
  {
    if Reset(p.pid, p.fields).state == New {
      InitializationFromNew(p, attempt);
      SuccessIsAllStages(attempt);
    } else {
      InitializationElsewhere(p, attempt);
    }
  }

  /** The runtime after an initialization from NEW, by the outcomes of its stages. */
  ghost predicate InitializedTo(p: Process, attempt: Attempt, q: Process) {
    var r, s := Runner(p.pid, p.spawned), attempt.stages;
    if !attempt.runnerCreated then q.log == p.log && q.fields.state == New
    else if IsPassed(s, RedisStage) && attempt.generation.Some? then
      && q.fields.state == Ready && q.fields.runner == Some(r) && q.fields.generation == attempt.generation
      && q.fields.ownerPid == Some(p.pid)
      && q.fields.services ==
         Services(s.transport, s.debugRun, if s.wantsDevice then s.deviceCommand else None, s.execution)
      && q.log == p.log + [Created(r), Used(r, Initialization)]
    else
      && q.fields.state == (if attempt.inspection == Clear then New else Closed)
      && q.log == p.log + FailureEvents(r, IsPassed(s, DatabaseStage), attempt.inspection == Clear)
  }

  lemma RunAsyncIsThat(p: Process, attempt: Attempt)
    requires p.task == Idle
    ensures RanOneMessage(p.log, ActAll(p, RunActions(p, attempt)))
    ensures p.fields.state == Ready && p.fields.runner.Some? && !IsForeign(p.pid, p.fields) ==>
      ActAll(p, RunActions(p, attempt)).log == p.log + [Used(p.fields.runner.value, Message)]
  {
    RunAsyncIsLogged(p, attempt);
    if p.fields.state == Ready && p.fields.runner.Some? && !IsForeign(p.pid, p.fields) {
      ReadyRunsMessage(p, attempt);
    }
  }

  // ----- the shutdown, stage by stage

  /** Which stages a shutdown has: the two runtimes when there are any, the others always. */
  predicate IsShutdownStage(s: Services, stage: Stage) {
    match stage
    case Transport => s.transport.Some?
    case DeviceCommand => s.deviceCommand.Some?
    case _ => true
  }

  /** The documented order. */
  function ShutdownTurn(stage: Stage): nat {
    match stage
    case CancelPending => 0
    case Redis => 1
    case Transport => 2
    case DeviceCommand => 3
    case Database => 4
    case FinalPending => 5
  }

  /** Every stage there is, each once, in order. */
  ghost predicate IsFullShutdown(s: Services, stages: seq<Stage>) {
    && (forall stage :: stage in stages <==> IsShutdownStage(s, stage))
    && (forall i, j :: 0 <= i < j < |stages| ==> ShutdownTurn(stages[i]) < ShutdownTurn(stages[j]))
  }

  lemma ShutdownIsFull(s: Services)
    ensures IsFullShutdown(s, ShutdownStages(s))
  {
  }

  /** The log after the shutdown of a ready runtime: the stages, then the close. */
  ghost predicate ClosedAfter(
    before: seq<Event>, runner: Option<Runner>, s: Services, stopped: bool, after: seq<Event>)
  {
    && runner.Some?
    && exists stages :: IsFullShutdown(s, stages) &&
         var last := Used(runner.value, if stopped then Close else CloseLoop);
         after == before + StageEvents(runner.value, stages) + [last]
  }

  lemma ShutdownIsThat(p: Process, results: Stage -> StageResult)
    requires p.task == Idle
    ensures var q := ActAll(p, ShutdownActions(p.fields.services, IsStubborn(results)));
      && q.fields == Cleared(p.fields, Closed)
      && if p.fields.state == Ready && p.fields.runner.Some? && !IsForeign(p.pid, p.fields) then
           ClosedAfter(p.log, p.fields.runner, p.fields.services, results(FinalPending) == Completed(false), q.log)
         else q.log == p.log
  {
    var s, stubborn := p.fields.services, IsStubborn(results);
    if p.fields.state == Ready && p.fields.runner.Some? && !IsForeign(p.pid, p.fields) {
      ShutdownAttemptsEverything(p, p.fields.runner.value, stubborn);
      ShutdownIsFull(s);
    } else {
      ShutdownSteps(p, s, stubborn);
      StagesNeedARunner(Act(p, BeginShutdown), ShutdownStages(s));
    }
  }

  // ----- the object

  class CeleryAsyncRuntime {
    /** `os.getpid()` in the process that holds this copy of the object. */
    const pid: Pid

    var state: State
    var runner: Option<Runner>
    var runnerGeneration: Option<string>
    var ownerPid: Option<Pid>
    var transportRuntime: Option<Handle>
    var transportDebugRunService: Option<Handle>
    var deviceCommandRuntime: Option<Handle>
    var executionRuntime: Option<Handle>
    var abandonedRunners: seq<Runner>

    /** Numbers the runners this process creates, in place of object identity. */
    var spawned: nat

    ghost var task: Task
    ghost var log: seq<Event>
    ghost var born: Fields

    function PublishedServices(): Services
      reads this
    {
      Services(transportRuntime, transportDebugRunService, deviceCommandRuntime, executionRuntime)
    }

    /** The runtime is new, or another owner's, which the next lifecycle call drops. */
    predicate StartsNew()
      reads this
    {
      state == New || (ownerPid.Some? && ownerPid.value != pid)
    }

    predicate IsReadyOwner()
      reads this
    {
      state == Ready && runner.Some? && (ownerPid.None? || ownerPid.value == pid)
    }

    ghost function View(): Process
      reads this
    {
      Process(pid, Fields(state, runner, runnerGeneration, ownerPid, PublishedServices(), abandonedRunners),
              task, spawned, log, born)
    }

    constructor (pid: Pid)
      ensures View() == Process(pid, FRESH, Idle, 0, [], FRESH)
    {
      this.pid := pid;
      state, runner, runnerGeneration, ownerPid := New, None, None, None;
      transportRuntime, transportDebugRunService, deviceCommandRuntime, executionRuntime := None, None, None, None;
      abandonedRunners, spawned := [], 0;
      task, log, born := Idle, [], FRESH;
    }

    /** The copy a forked child finds. */
    constructor ForkedFrom(parent: CeleryAsyncRuntime, child: Pid)
      ensures View() == Forked(parent.View(), child)
      ensures pid == child && View().fields == parent.View().fields && spawned == 0 && log == []
    {
      pid := child;
      state, runner := parent.state, parent.runner;
      runnerGeneration, ownerPid := parent.runnerGeneration, parent.ownerPid;
      transportRuntime, transportDebugRunService := parent.transportRuntime, parent.transportDebugRunService;
      deviceCommandRuntime, executionRuntime := parent.deviceCommandRuntime, parent.executionRuntime;
      abandonedRunners, spawned := parent.abandonedRunners, 0;
      task, log, born := if parent.task.Idle? then Idle else Orphaned, [], parent.View().fields;
    }

    method SetServices(services: Services)
      modifies this`transportRuntime, this`transportDebugRunService, this`deviceCommandRuntime, this`executionRuntime
      ensures PublishedServices() == services
    {
      transportRuntime, transportDebugRunService := services.transport, services.debugRun;
      deviceCommandRuntime, executionRuntime := services.deviceCommand, services.execution;
    }

    method ClearFields(newState: State)
      modifies this`state, this`runner, this`runnerGeneration, this`ownerPid, this`transportRuntime,
               this`transportDebugRunService, this`deviceCommandRuntime, this`executionRuntime
      ensures View() == old(View()).(fields := Cleared(old(View()).fields, newState))
    {
      runner, runnerGeneration, ownerPid := None, None, None;
      SetServices(NO_SERVICES);
      state := newState;
    }

    method ResetForkInheritedState()
      modifies this
      ensures View() == old(View()).(fields := Reset(pid, old(View()).fields))
      ensures old(ownerPid.None? || ownerPid.value == pid) ==> View() == old(View())
      ensures old(ownerPid.Some? && ownerPid.value != pid) ==>
        && state == New && runner.None? && runnerGeneration.None? && ownerPid.None?
        && PublishedServices() == NO_SERVICES && log == old(log)
        && abandonedRunners == old(abandonedRunners) + (if old(runner).Some? then [old(runner).value] else [])
    {
      if ownerPid.None? || ownerPid.value == pid { return; }
      if runner.Some? {
        abandonedRunners := abandonedRunners + [runner.value];
      }
      ClearFields(New);
    }

    /** The progress record, filled in stage by stage until one fails. */
    method InitializeInfrastructure(stages: Stages) returns (progress: Progress, completed: bool)
      ensures progress == ProgressOf(stages) && completed == Completes(stages)
      ensures StopsAtFirstFailure(stages, progress) && (completed <==> IsPassed(stages, RedisStage))
      ensures !progress.database ==> progress.services == NO_SERVICES
    {
      ProgressStopsAtFirstFailure(stages);
      BuildingNeedsDatabase(stages);
      progress := NO_PROGRESS;
      if !stages.settings { return progress, false; }
      if !stages.database { return progress, false; }
      progress := progress.(database := true);
      if !stages.sessions { return progress, false; }
      if stages.transport.None? { return progress, false; }
      progress := progress.(services := progress.services.(transport := stages.transport));
      if stages.debugRun.None? { return progress, false; }
      progress := progress.(services := progress.services.(debugRun := stages.debugRun));
      if stages.wantsDevice {
        if stages.deviceCommand.None? { return progress, false; }
        progress := progress.(services := progress.services.(deviceCommand := stages.deviceCommand));
      }
      if stages.execution.None? { return progress, false; }
      progress := progress.(services := progress.services.(execution := stages.execution));
      // A degraded Redis is no failure; one that ignored its cancellation is.
      return progress, stages.redis != Unterminated;
    }

    method RollbackStages(progress: Progress) returns (stages: seq<Cleanup>)
      ensures IsFullRollback(progress, stages)
    {
      stages := [CloseRedis];
      if progress.services.deviceCommand.Some? { stages := stages + [CloseDeviceCommand]; }
      if progress.services.transport.Some? { stages := stages + [CloseTransport]; }
      stages := stages + [CloseDatabase];
    }

    /** Every needed cleanup is attempted, whatever the results of those before it; a failed one is
        only reported. */
    method RollbackFailedInitialization(progress: Progress, results: Cleanup -> bool)
      returns (attempted: seq<Cleanup>, reported: seq<Cleanup>)
      ensures IsFullRollback(progress, attempted)
      ensures forall c :: c in reported <==> c in attempted && !results(c)
    {
      var stages := RollbackStages(progress);
      attempted, reported := [], [];
      for k := 0 to |stages|
        invariant attempted == stages[..k]
        invariant forall c :: c in reported <==> c in stages[..k] && !results(c)
      {
        attempted := attempted + [stages[k]];
        if !results(stages[k]) {
          reported := reported + [stages[k]];
        }
      }
      assert attempted == stages;
    }

    /** Closes a candidate only when its tasks are known to be done. */
    method CloseRunnerIfSafe(candidate: Runner, inspection: Inspection) returns (closed: bool)
      modifies this`abandonedRunners, this`log
      ensures closed == (inspection == Clear)
      ensures abandonedRunners == if closed then old(abandonedRunners) else Retained(old(abandonedRunners), candidate)
      ensures log == if closed then old(log) + [Used(candidate, Close)] else old(log)
    {
      if inspection != Clear {
        if abandonedRunners == [] {
          abandonedRunners := [candidate];
        }
        return false;
      }
      log := log + [Used(candidate, Close)];
      return true;
    }

    /** `except BaseException` of an initialization whose runner exists. */
    method AbortInitialization(candidate: Runner, progress: Progress, inspection: Inspection, results: Cleanup -> bool)
      returns (attempted: seq<Cleanup>)
      requires task == Starting(Some(candidate), progress)
      modifies this
      ensures View() == Act(old(View()), Abort(inspection))
      ensures if progress.database then IsFullRollback(progress, attempted) else attempted == []
    {
      attempted := [];
      if progress.database {
        log := log + [Used(candidate, Rollback)];
        var reported;
        attempted, reported := RollbackFailedInitialization(progress, results);
      }
      var reusable := CloseRunnerIfSafe(candidate, inspection);
      ClearFields(if reusable then New else Closed);
      task := Idle;
    }

    method SetReady(candidate: Runner, services: Services, generation: string)
      modifies this`state, this`runner, this`runnerGeneration, this`ownerPid, this`transportRuntime,
               this`transportDebugRunService, this`deviceCommandRuntime, this`executionRuntime
      ensures View() == old(View()).(fields :=
        Fields(Ready, Some(candidate), Some(generation), Some(pid), services, old(abandonedRunners)))
    {
      runner, runnerGeneration, ownerPid := Some(candidate), Some(generation), Some(pid);
      SetServices(services);
      state := Ready;
    }

    method PublishCandidate(candidate: Runner, progress: Progress, generation: string)
      requires task == Starting(Some(candidate), progress)
      modifies this
      ensures View() == Act(old(View()), Publish(generation))
    {
      SetReady(candidate, progress.services, generation);
      task := Idle;
    }

    method CreateCandidate() returns (candidate: Runner)
      requires task == Starting(None, NO_PROGRESS)
      modifies this
      ensures View() == Act(old(View()), CreateRunner(true))
      ensures task == Starting(Some(candidate), NO_PROGRESS)
    {
      candidate := Runner(pid, spawned);
      spawned := spawned + 1;
      log := log + [Created(candidate), Used(candidate, Initialization)];
      task := Starting(Some(candidate), NO_PROGRESS);
    }

    /** The part of an initialization after the runner was created. */
    method RunCandidate(candidate: Runner, attempt: Attempt) returns (outcome: Outcome)
      requires task == Starting(Some(candidate), NO_PROGRESS) && attempt.runnerCreated
      modifies this
      ensures View() == Act(Act(old(View()), Build(ProgressOf(attempt.stages))), LastAction(attempt))
      ensures outcome == if Succeeds(attempt) then Returned else Raised
      ensures outcome == Returned <==> state == Ready
      ensures task == Idle && !IsForeign(pid, View().fields)
    {
      var progress, completed := InitializeInfrastructure(attempt.stages);
      task := Starting(Some(candidate), progress);
      if completed && attempt.generation.Some? {
        PublishCandidate(candidate, progress, attempt.generation.value);
        return Returned;
      }
      var attempted := AbortInitialization(candidate, progress, attempt.inspection, attempt.cleanups);
      return Raised;
    }

    /** The part of an initialization after the state became INITIALIZING. */
    method RunInitialization(attempt: Attempt) returns (outcome: Outcome)
      requires task == Starting(None, NO_PROGRESS)
      modifies this
      ensures View() == ActAll(old(View()), CandidateActions(attempt))
      ensures outcome == if Succeeds(attempt) then Returned else Raised
      ensures outcome == Returned <==> state == Ready
      ensures task == Idle && !IsForeign(pid, View().fields)
    {
      CandidateSteps(View(), attempt);
      if !attempt.runnerCreated {
        ClearFields(New);
        task := Idle;
        return Raised;
      }
      var candidate := CreateCandidate();
      outcome := RunCandidate(candidate, attempt);
    }

    /** `_initialize_locked`, with the run lock held. */
    method InitializeLocked(attempt: Attempt) returns (outcome: Outcome)
      requires task == Idle
      modifies this
      ensures View() == ActAll(old(View()), InitializeActions(attempt))
      ensures outcome == Returned <==> state == Ready
      ensures task == Idle && !IsForeign(pid, View().fields)
      ensures !old(StartsNew()) ==> View() == old(View())
      ensures old(StartsNew()) ==>
        (outcome == Returned <==>
           attempt.runnerCreated && IsPassed(attempt.stages, RedisStage) && attempt.generation.Some?)
      ensures old(StartsNew()) && outcome == Returned ==>
        && runner == Some(Runner(pid, old(spawned))) && runnerGeneration == attempt.generation && ownerPid == Some(pid)
        && transportRuntime == attempt.stages.transport && transportDebugRunService == attempt.stages.debugRun
        && deviceCommandRuntime == (if attempt.stages.wantsDevice then attempt.stages.deviceCommand else None)
        && executionRuntime == attempt.stages.execution
        && log == old(log) + [Created(runner.value), Used(runner.value, Initialization)]
      ensures old(StartsNew()) && outcome == Raised && !attempt.runnerCreated ==> state == New && log == old(log)
      ensures old(StartsNew()) && outcome == Raised && attempt.runnerCreated ==>
        && state == (if attempt.inspection == Clear then New else Closed)
        && log == old(log) + FailureEvents(Runner(pid, old(spawned)), IsPassed(attempt.stages, DatabaseStage),
                                           attempt.inspection == Clear)
    {
      InitializationIsThat(View(), attempt);
      ActOne(View(), BeginInitialize, CandidateActions(attempt));
      ResetForkInheritedState();
      if state != New {
        CandidateSteps(View(), attempt);
        return if state == Ready then Returned else Raised;
      }
      state := Initializing;
      task := Starting(None, NO_PROGRESS);
      outcome := RunInitialization(attempt);
    }

    /** `run_async`: a message runs on the one runner, after a first initialization if need be. */
    method RunAsync(attempt: Attempt, messageSucceeds: bool) returns (outcome: Outcome)
      requires task == Idle
      modifies this
      ensures View() == ActAll(old(View()), RunActions(old(View()), attempt))
      ensures outcome == Returned <==> state == Ready && runner.Some? && messageSucceeds
      ensures state == Ready && runner.Some? ==>
        Messages(log) == Messages(old(log)) + 1 && log != [] && log[|log| - 1] == Used(runner.value, Message)
      ensures !(state == Ready && runner.Some?) ==> Messages(log) == Messages(old(log))
      ensures old(state == Ready && runner.Some?) && !old(StartsNew()) ==>
        log == old(log) + [Used(old(runner.value), Message)]
    {
      RunAsyncIsThat(View(), attempt);
      outcome := RunLocked(attempt, messageSucceeds);
    }

    /** The part of `run_async` under the run lock. */
    method RunLocked(attempt: Attempt, messageSucceeds: bool) returns (outcome: Outcome)
      requires task == Idle
      modifies this
      ensures View() == ActAll(old(View()), RunActions(old(View()), attempt))
      ensures outcome == Returned <==> state == Ready && runner.Some? && messageSucceeds
    {
      ghost var first := if Reset(pid, View().fields).state == New then InitializeActions(attempt) else [];
      ActAllConcat(View(), first, [BeginMessage, EndMessage]);
      ResetIsStable(View());
      ghost var before := View();
      ResetForkInheritedState();
      if state == New {
        ActOne(before, BeginInitialize, CandidateActions(attempt));
        ActOne(View(), BeginInitialize, CandidateActions(attempt));
        var initialized := InitializeLocked(attempt);
        MessageSteps(View());
        if initialized == Raised { return Raised; }
      } else {
        MessageSteps(before);
        if state != Ready { return Raised; }
      }
      if runner.None? { return Raised; }
      log := log + [Used(runner.value, Message)];
      return if messageSucceeds then Returned else Raised;
    }

    /** One stage more of those done since the start; an exception becomes the failure result. */
    method RunRunnerStage(
      closing: Runner, stage: Stage, result: StageResult, failureResult: bool,
      ghost start: Process, ghost done: seq<Stage>)
      returns (value: bool)
      requires task == Stopping(closing) && View() == ActAll(start, StageActions(done))
      modifies this`log
      ensures View() == ActAll(start, StageActions(done + [stage]))
      ensures value == ResultOr(result, failureResult)
    {
      OneMoreStage(start, done, stage);
      log := log + [Used(closing, Shutdown(stage))];
      return ResultOr(result, failureResult);
    }

    /** The stages of a shutdown, in order; a failure in one never keeps the next from being attempted. */
    method RunShutdownStages(closing: Runner, results: Stage -> StageResult) returns (stubborn: bool)
      requires task == Stopping(closing)
      modifies this`log
      ensures View() == ActAll(old(View()), StageActions(ShutdownStages(PublishedServices())))
      ensures stubborn == IsStubborn(results)
    {
      ghost var start, done := View(), [CancelPending, Redis] + RuntimeStages(PublishedServices());
      var _ := RunRunnerStage(closing, CancelPending, results(CancelPending), true, start, []);
      var _ := RunRunnerStage(closing, Redis, results(Redis), false, start, [CancelPending]);
      RunRuntimeStages(closing, results, start, [CancelPending] + [Redis]);
      var _ := RunRunnerStage(closing, Database, results(Database), false, start, done);
      stubborn := RunRunnerStage(closing, FinalPending, results(FinalPending), true, start, done + [Database]);
      assert done + [Database] + [FinalPending] == ShutdownStages(PublishedServices());
    }

    method RunRuntimeStages(
      closing: Runner, results: Stage -> StageResult, ghost start: Process, ghost done: seq<Stage>)
      requires task == Stopping(closing) && View() == ActAll(start, StageActions(done))
      modifies this`log
      ensures View() == ActAll(start, StageActions(done + RuntimeStages(PublishedServices())))
    {
      ghost var soFar := done;
      if transportRuntime.Some? {
        var _ := RunRunnerStage(closing, Transport, results(Transport), false, start, soFar);
        soFar := soFar + [Transport];
      }
      if deviceCommandRuntime.Some? {
        var _ := RunRunnerStage(closing, DeviceCommand, results(DeviceCommand), false, start, soFar);
        soFar := soFar + [DeviceCommand];
      }
      assert soFar == done + RuntimeStages(PublishedServices());
    }

    /** The shutdown of a ready runtime by its owner. */
    method CloseReady(closing: Runner, results: Stage -> StageResult)
      requires task == Stopping(closing)
      modifies this
      ensures View() == Act(ActAll(old(View()), StageActions(ShutdownStages(old(PublishedServices())))),
                            FinishShutdown(IsStubborn(results)))
      ensures state == Closed && ownerPid.None? && runner.None?
    {
      StagesAreLogged(View(), ShutdownStages(PublishedServices()));
      var stubborn := RunShutdownStages(closing, results);
      log := log + [Used(closing, if stubborn then CloseLoop else Close)];
      ClearFields(Closed);
      task := Idle;
    }

    /** `shutdown`: a ready runtime goes through every stage of the documented order, whatever fails on the
        way, and then closes its runner, or only the loop when tasks may still refuse to stop. */
    method ShutDown(results: Stage -> StageResult)
      requires task == Idle
      modifies this
      ensures View() == ActAll(old(View()), ShutdownActions(old(PublishedServices()), IsStubborn(results)))
      ensures state == Closed && runner.None? && runnerGeneration.None? && ownerPid.None?
      ensures PublishedServices() == NO_SERVICES
      ensures old(IsReadyOwner()) ==>
        ClosedAfter(old(log), old(runner), old(PublishedServices()), results(FinalPending) == Completed(false), log)
      ensures !old(IsReadyOwner()) ==> log == old(log)
    {
      ShutdownIsThat(View(), results);
      ShutdownLocked(results);
    }

    /** `_shutdown_locked`: whatever the state, the owner and the stages, the runtime ends up closed. */
    method ShutdownLocked(results: Stage -> StageResult)
      requires task == Idle
      modifies this
      ensures View() == ActAll(old(View()), ShutdownActions(old(PublishedServices()), IsStubborn(results)))
      ensures state == Closed && ownerPid.None? && runner.None?
    {
      ShutdownSteps(View(), PublishedServices(), IsStubborn(results));
      if (ownerPid.Some? && ownerPid.value != pid) || state != Ready || runner.None? {
        ghost var stages := ShutdownStages(PublishedServices());
        ClearFields(Closed);
        StagesNeedARunner(View(), stages);
        return;
      }
      var closing := runner.value;
      state := Closing;
      task := Stopping(closing);
      CloseReady(closing, results);
    }

    /** The four service accessors, each of which shows one of these services. */
    method ReadServices() returns (access: Access)
      ensures access == Observe(View())
      ensures access == Refused <==> ownerPid.Some? && ownerPid.value != pid
      ensures access.Granted? && state != Ready ==> access.services == NO_SERVICES
      ensures access.Granted? && state == Ready ==> access.services == PublishedServices()
    {
      if ownerPid.Some? && ownerPid.value != pid { return Refused; }
      if state != Ready { return Granted(NO_SERVICES); }
      return Granted(PublishedServices());
    }
  }

  lemma ResetIsStable(p: Process)
    ensures Reset(p.pid, Reset(p.pid, p.fields)) == Reset(p.pid, p.fields)
  {
  }

  lemma MessageSteps(p: Process)
    ensures ActAll(p, [BeginMessage, EndMessage]) == Act(Act(p, BeginMessage), EndMessage)
  {
    ActOne(p, BeginMessage, [EndMessage]);
    ActOne(Act(p, BeginMessage), EndMessage, []);
    assert [BeginMessage, EndMessage] == [BeginMessage] + [EndMessage];
  }

  // ----- calls are runs of the machine

  ghost function LocalSteps(pid: Pid, actions: seq<Action>): seq<RuntimeSystem.Step> {
    if actions == [] then [] else [RuntimeSystem.Local(pid, actions[0])] + LocalSteps(pid, actions[1..])
  }

  /** A shutdown call returns somewhere in the actions. */
  predicate ReturnsWithin(p: Process, actions: seq<Action>)
    decreases |actions|
  {
    actions != [] &&
      (RuntimeSystem.ReturnsFromShutdown(p, actions[0]) || ReturnsWithin(Act(p, actions[0]), actions[1..]))
  }

  /** What a call does is a stretch of a system run, down to the record of returned shutdown calls, so
      everything proved about runs holds after it. */
  lemma {:induction false} CallsAreRuns(s: RuntimeSystem.System, pid: Pid, actions: seq<Action>)
    requires pid in s.processes
    ensures var p := s.processes[pid];
      RuntimeSystem.Run(s, LocalSteps(pid, actions)) ==
      RuntimeSystem.System(s.processes[pid := ActAll(p, actions)],
                           s.shutDown + if ReturnsWithin(p, actions) then {pid} else {})
    decreases |actions|
  {
    if actions == [] {
      assert s.processes == s.processes[pid := s.processes[pid]];
      assert s.shutDown + {} == s.shutDown;
    } else {
      var step := RuntimeSystem.Local(pid, actions[0]);
      assert LocalSteps(pid, actions)[1..] == LocalSteps(pid, actions[1..]);
      CallsAreRuns(RuntimeSystem.Next(s, step), pid, actions[1..]);
    }
  }

  lemma {:induction false} ReturnsWithinConcat(p: Process, a: seq<Action>, b: seq<Action>)
    ensures ReturnsWithin(p, a + b) <==> ReturnsWithin(p, a) || ReturnsWithin(ActAll(p, a), b)
    decreases |a|
  {
    if a == [] {
      assert a + b == b;
    } else {
      assert (a + b)[1..] == a[1..] + b;
      ReturnsWithinConcat(Act(p, a[0]), a[1..], b);
    }
  }

  /** Whatever the state and the owner, the actions of a shutdown call end with its return. */
  lemma ShutdownReturns(p: Process, services: Services, stubborn: bool)
    requires p.task == Idle
    ensures ReturnsWithin(p, ShutdownActions(services, stubborn))
  {
    var begun, stages := Act(p, BeginShutdown), StageActions(ShutdownStages(services));
    assert ShutdownActions(services, stubborn) == [BeginShutdown] + (stages + [FinishShutdown(stubborn)]);
    assert ([BeginShutdown] + (stages + [FinishShutdown(stubborn)]))[1..] == stages + [FinishShutdown(stubborn)];
    if begun.task.Stopping? {
      StagesAreLogged(begun, ShutdownStages(services));
      ReturnsWithinConcat(begun, stages, [FinishShutdown(stubborn)]);
    }
  }

  /** After a shutdown call, made at any point of any run between other calls, and after whatever follows:
      no runner is created or used in that process again, and `initialize` and `run_async` find the runtime
      closed and leave it as it is, so both raise. */
  lemma NothingFollowsShutdown(
    root: Pid, before: seq<RuntimeSystem.Step>, pid: Pid, services: Services, stubborn: bool,
    after: seq<RuntimeSystem.Step>, attempt: Attempt)
    requires var s := RuntimeSystem.Run(RuntimeSystem.Started(root), before);
      pid in s.processes && s.processes[pid].task == Idle
    ensures var s := RuntimeSystem.Run(RuntimeSystem.Started(root), before);
      var t := RuntimeSystem.Run(s, LocalSteps(pid, ShutdownActions(services, stubborn)));
      var u := RuntimeSystem.Run(t, after);
      && pid in t.shutDown && pid in t.processes && pid in u.processes
      && u.processes[pid].log == t.processes[pid].log && u.processes[pid].fields.state == Closed
      && ActAll(u.processes[pid], InitializeActions(attempt)) == u.processes[pid]
      && ActAll(u.processes[pid], RunActions(u.processes[pid], attempt)) == u.processes[pid]
  {
    var s := RuntimeSystem.Run(RuntimeSystem.Started(root), before);
    var steps := LocalSteps(pid, ShutdownActions(services, stubborn));
    CallsAreRuns(s, pid, ShutdownActions(services, stubborn));
    ShutdownReturns(s.processes[pid], services, stubborn);
    RuntimeSystem.RunKeepsInvariant(RuntimeSystem.Started(root), before);
    RuntimeSystem.RunKeepsInvariant(s, steps);
    var t := RuntimeSystem.Run(s, steps);
    RuntimeSystem.ClosedStays(t, after, pid);
    ClosedRaises(RuntimeSystem.Run(t, after).processes[pid], attempt);
  }

  lemma ClosedRaises(p: Process, attempt: Attempt)
    requires RuntimeSystem.IsShutDown(p)
    ensures ActAll(p, InitializeActions(attempt)) == p
    ensures ActAll(p, RunActions(p, attempt)) == p
  {
    ActOne(p, BeginInitialize, CandidateActions(attempt));
    CandidateSteps(p, attempt);
    MessageSteps(p);
    assert [] + [BeginMessage, EndMessage] == [BeginMessage, EndMessage];
  }
}
