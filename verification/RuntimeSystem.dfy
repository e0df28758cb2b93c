/** All processes of a worker over a whole run: any interleaving of their steps and of forks. */
module RuntimeSystem {
  import opened Results
  import opened RuntimeLifecycle

  /** Every process so far, and those in which a shutdown call has returned or that descend from one. */
  datatype System = System(processes: map<Pid, Process>, shutDown: set<Pid>)

  datatype Step = Local(pid: Pid, action: Action) | Fork(parent: Pid, child: Pid)

  function Started(root: Pid): System {
    System(map[root := Process(root, FRESH, Idle, 0, [], FRESH)], {})
  }

  /** A shutdown call returns with its last step. */
  predicate ReturnsFromShutdown(p: Process, a: Action) {
    (a == BeginShutdown && p.task == Idle && Act(p, a).task == Idle) || (a.FinishShutdown? && p.task.Stopping?)
  }

  /** One step. A fork gives the child a process id that was never used. */
  function Next(s: System, step: Step): System {
    match step
    case Local(pid, action) =>
      if pid !in s.processes then s
      else
        System(s.processes[pid := Act(s.processes[pid], action)],
               s.shutDown + if ReturnsFromShutdown(s.processes[pid], action) then {pid} else {})
    case Fork(parent, child) =>
      if parent !in s.processes || child in s.processes then s
      else
        System(s.processes[child := Forked(s.processes[parent], child)],
               s.shutDown + if parent in s.shutDown then {child} else {})
  }

  function Run(s: System, steps: seq<Step>): System
    decreases |steps|
  {
    if steps == [] then s else Run(Next(s, steps[0]), steps[1..])
  }

  /** A process in which shutdown is over. */
  ghost predicate IsShutDown(p: Process) {
    p.task == Idle && p.fields.state == Closed && p.fields.ownerPid.None?
  }

  ghost predicate SystemInvariant(s: System) {
    && (forall pid :: pid in s.processes ==>
          s.processes[pid].pid == pid && ProcessInvariant(s.processes[pid]) && ConservesRunners(s.processes[pid]))
    && (forall pid :: pid in s.shutDown ==> pid in s.processes && IsShutDown(s.processes[pid]))
  }

  lemma ShutdownReturnsClosed(p: Process, a: Action)
    requires ProcessInvariant(p) && ReturnsFromShutdown(p, a)
    ensures IsShutDown(Act(p, a))
  {
  }

  lemma ShutDownStays(p: Process, a: Action)
    requires IsShutDown(p)
    ensures Act(p, a).fields == Cleared(p.fields, Closed) || Act(p, a) == p
    ensures IsShutDown(Act(p, a)) && Act(p, a).log == p.log
  {
  }

  lemma NextKeepsInvariant(s: System, step: Step)
    requires SystemInvariant(s)
    ensures SystemInvariant(Next(s, step))
  {
    match step
    case Local(pid, action) =>
      if pid in s.processes {
        var p := s.processes[pid];
        ActKeepsInvariant(p, action);
        ActConservesRunners(p, action);
        ActKeepsPid(p, action);
        if pid in s.shutDown {
          ShutDownStays(p, action);
        } else if ReturnsFromShutdown(p, action) {
          ShutdownReturnsClosed(p, action);
        }
      }
    case Fork(parent, child) =>
      if parent in s.processes && child !in s.processes {
        ForkKeepsInvariant(s.processes[parent], child);
        ForkConservesRunners(s.processes[parent], child);
      }
  }

  lemma ActKeepsPid(p: Process, a: Action)
    ensures Act(p, a).pid == p.pid
  {
  }

  lemma {:induction false} RunKeepsInvariant(s: System, steps: seq<Step>)
    requires SystemInvariant(s)
    ensures SystemInvariant(Run(s, steps))
    decreases |steps|
  {
    if steps != [] {
      NextKeepsInvariant(s, steps[0]);
      RunKeepsInvariant(Next(s, steps[0]), steps[1..]);
    }
  }

  /** Over every run from a fresh process: runner, generation and owner are present exactly in Ready
      and Closing; services are shown only in Ready and only to the owner; and no runner is ever run
      or closed by a process other than its creator. */
  lemma LifecycleInvariant(root: Pid, steps: seq<Step>, pid: Pid)
    requires pid in Run(Started(root), steps).processes
    ensures var p := Run(Started(root), steps).processes[pid];
      && FieldsAgree(p.fields)
      && (Observe(p).Granted? && Observe(p).services != NO_SERVICES ==>
            p.fields.state == Ready && p.fields.ownerPid == Some(pid))
      && (forall e :: e in p.log ==> e.runner.creator == pid)
  {
    RunKeepsInvariant(Started(root), steps);
    AccessIsGuarded(Run(Started(root), steps).processes[pid]);
  }

  /** Over every run, a process that inherited no runner loses none: each one it created is current,
      a candidate, closed or at least attempted to be, or kept. */
  lemma RunnersAreConserved(root: Pid, steps: seq<Step>, pid: Pid, runner: Runner)
    requires pid in Run(Started(root), steps).processes
    requires InheritedNoRunner(Run(Started(root), steps).processes[pid])
    requires Created(runner) in Run(Started(root), steps).processes[pid].log
    ensures IsAccountedFor(Run(Started(root), steps).processes[pid], runner)
  {
    RunKeepsInvariant(Started(root), steps);
  }

  /** Closed with nothing going on is a state no step leaves. */
  lemma {:induction false} ClosedStays(s: System, steps: seq<Step>, pid: Pid)
    requires SystemInvariant(s) && pid in s.processes && IsShutDown(s.processes[pid])
    ensures pid in Run(s, steps).processes && IsShutDown(Run(s, steps).processes[pid])
    ensures Run(s, steps).processes[pid].log == s.processes[pid].log
    decreases |steps|
  {
    if steps != [] {
      NextKeepsInvariant(s, steps[0]);
      if steps[0].Local? && steps[0].pid == pid {
        ShutDownStays(s.processes[pid], steps[0].action);
      }
      ClosedStays(Next(s, steps[0]), steps[1..], pid);
    }
  }

  /** CLOSED is final: once a shutdown call has returned in a process, then after any further steps, in
      that process no runner is created or used again, `initialize` leaves the runtime closed and
      `run_async` runs nothing. */
  lemma ClosedIsFinal(root: Pid, before: seq<Step>, after: seq<Step>, pid: Pid)
    requires pid in Run(Started(root), before).shutDown
    ensures var s := Run(Started(root), before);
      var p := Run(s, after).processes;
      && pid in p && pid in s.processes
      && p[pid].log == s.processes[pid].log
      && Act(p[pid], BeginInitialize) == p[pid] && p[pid].fields.state == Closed
      && Act(p[pid], BeginMessage) == p[pid]
  {
    var s := Run(Started(root), before);
    RunKeepsInvariant(Started(root), before);
    ClosedStays(s, after, pid);
  }

  /** The same holds in every process forked from it, directly or through others: a descendant is shut
      down from birth. */
  lemma DescendantsAreShutDown(s: System, parent: Pid, child: Pid)
    requires SystemInvariant(s) && parent in s.shutDown && child !in s.processes
    ensures child in Next(s, Fork(parent, child)).shutDown
    ensures IsShutDown(Next(s, Fork(parent, child)).processes[child])
  {
    NextKeepsInvariant(s, Fork(parent, child));
  }

  // ----- failed initializations

  /** A runtime that is NEW with nothing going on holds nothing open: in a process that inherited no runner,
      each runner it created was closed, so no failed initialization left one behind. */
  lemma NewHoldsNothingOpen(root: Pid, steps: seq<Step>, pid: Pid, runner: Runner)
    requires pid in Run(Started(root), steps).processes
    requires var p := Run(Started(root), steps).processes[pid];
      InheritedNoRunner(p) && p.task == Idle && p.fields.state == New && Created(runner) in p.log
    ensures IsClosedIn(Run(Started(root), steps).processes[pid].log, runner)
  {
    RunKeepsInvariant(Started(root), steps);
  }

  /** An initialization fails while the runner cannot be created or after it was. */
  predicate IsFailure(p: Process, a: Action) {
    p.task.Starting? && if p.task.candidate.None? then a == CreateRunner(false) else a.Abort?
  }

  /** The runner was never created, or none of its tasks is pending. */
  predicate IsSafe(a: Action) {
    a == CreateRunner(false) || a == Abort(Clear)
  }

  /** After a failed initialization the next `initialize` starts over if the runner was never created or
      had no pending task; otherwise no runner is created or used in that process ever again. */
  lemma FailureIsFinalIffUnsafe(root: Pid, before: seq<Step>, pid: Pid, a: Action, after: seq<Step>)
    requires var s := Run(Started(root), before); pid in s.processes && IsFailure(s.processes[pid], a)
    ensures var t := Next(Run(Started(root), before), Local(pid, a));
      var u := Run(t, after).processes;
      && pid in u
      && (IsSafe(a) ==> Act(t.processes[pid], BeginInitialize).task == Starting(None, NO_PROGRESS))
      && (!IsSafe(a) ==> u[pid].log == t.processes[pid].log && Act(u[pid], BeginInitialize) == u[pid])
  {
    var s := Run(Started(root), before);
    RunKeepsInvariant(Started(root), before);
    NextKeepsInvariant(s, Local(pid, a));
    AbortIsReusableIffSafe(s.processes[pid], a);
    if IsSafe(a) {
      ProcessesStay(Next(s, Local(pid, a)), after, pid);
    } else {
      ClosedStays(Next(s, Local(pid, a)), after, pid);
    }
  }

  lemma {:induction false} ProcessesStay(s: System, steps: seq<Step>, pid: Pid)
    requires pid in s.processes
    ensures pid in Run(s, steps).processes
    decreases |steps|
  {
    if steps != [] {
      ProcessesStay(Next(s, steps[0]), steps[1..], pid);
    }
  }

  // ----- which runners are lost

  /** Runtimes belong to processes that exist, and so do the runners they keep. */
  ghost predicate IsKnown(s: System, p: Process) {
    && (p.fields.ownerPid.Some? ==> p.fields.ownerPid.value in s.processes)
    && (forall r :: r in p.fields.abandoned ==> r.creator in s.processes)
  }

  ghost predicate RunnersInvariant(s: System) {
    && SystemInvariant(s)
    && (forall pid :: pid in s.processes ==> IsKnown(s, s.processes[pid]) && TracksRunners(s.processes[pid]))
  }

  lemma ActKeepsKnown(s: System, pid: Pid, a: Action)
    requires SystemInvariant(s) && pid in s.processes && IsKnown(s, s.processes[pid])
    ensures IsKnown(s, Act(s.processes[pid], a))
  {
    ActAbandonsOwnOrForeign(s.processes[pid], a);
  }

  /** An owner is kept, dropped or the process itself, and only its runner or an own one is newly kept. */
  lemma ActAbandonsOwnOrForeign(p: Process, a: Action)
    requires ProcessInvariant(p)
    ensures Act(p, a).fields.ownerPid in {p.fields.ownerPid, None, Some(p.pid)}
    ensures forall r :: r in Act(p, a).fields.abandoned ==>
      r in p.fields.abandoned || r.creator == p.pid || Some(r.creator) == p.fields.ownerPid
  {
  }

  lemma NextKeepsRunners(s: System, step: Step)
    requires RunnersInvariant(s)
    ensures RunnersInvariant(Next(s, step))
  {
    NextKeepsInvariant(s, step);
    match step
    case Local(pid, action) =>
      if pid in s.processes {
        ActKeepsKnown(s, pid, action);
        ActTracksRunners(s.processes[pid], action);
      }
    case Fork(parent, child) =>
      if parent in s.processes && child !in s.processes {
        ForkTracksRunners(s.processes[parent], child);
      }
  }

  lemma {:induction false} RunKeepsRunners(s: System, steps: seq<Step>)
    requires RunnersInvariant(s)
    ensures RunnersInvariant(Run(s, steps))
    decreases |steps|
  {
    if steps != [] {
      NextKeepsRunners(s, steps[0]);
      RunKeepsRunners(Next(s, steps[0]), steps[1..]);
    }
  }

  lemma {:induction false} RunSnoc(s: System, steps: seq<Step>, last: Step)
    ensures Run(s, steps + [last]) == Next(Run(s, steps), last)
    decreases |steps|
  {
    if steps == [] {
      assert [] + [last] == [last] && [last][1..] == [];
    } else {
      assert (steps + [last])[1..] == steps[1..] + [last];
      RunSnoc(Next(s, steps[0]), steps[1..], last);
    }
  }

  /** The step of one process that loses the runner. */
  ghost predicate LosesIn(s: System, step: Step, pid: Pid, runner: Runner) {
    step.Local? && step.pid == pid && pid in s.processes && Loses(s.processes[pid], step.action, runner)
  }

  ghost predicate IsLostAt(root: Pid, steps: seq<Step>, pid: Pid, runner: Runner, n: nat) {
    n < |steps| && LosesIn(Run(Started(root), steps[..n]), steps[n], pid, runner)
  }

  ghost predicate IsLost(root: Pid, steps: seq<Step>, pid: Pid, runner: Runner) {
    exists n: nat :: IsLostAt(root, steps, pid, runner, n)
  }

  lemma LossSnoc(root: Pid, steps: seq<Step>, last: Step, pid: Pid, runner: Runner)
    ensures IsLost(root, steps + [last], pid, runner) <==>
      IsLost(root, steps, pid, runner) || LosesIn(Run(Started(root), steps), last, pid, runner)
  {
    var longer := steps + [last];
    assert longer[..|steps|] == steps;
    forall n: nat | n < |steps|
      ensures IsLostAt(root, longer, pid, runner, n) <==> IsLostAt(root, steps, pid, runner, n)
    {
      assert longer[..n] == steps[..n];
    }
    if LosesIn(Run(Started(root), steps), last, pid, runner) {
      assert IsLostAt(root, longer, pid, runner, |steps|);
    }
    if IsLost(root, steps, pid, runner) {
      var n: nat :| IsLostAt(root, steps, pid, runner, n);
      assert IsLostAt(root, longer, pid, runner, n);
    }
  }

  /** The runner belongs to the process, and the process can still account for it. */
  ghost predicate BelongsTo(s: System, pid: Pid, runner: Runner) {
    pid in s.processes && Belongs(s.processes[pid], runner)
  }

  ghost predicate IsKeptTrackOf(s: System, pid: Pid, runner: Runner) {
    pid in s.processes && IsAccountedFor(s.processes[pid], runner)
  }

  lemma StepDecidesLoss(s: System, step: Step, pid: Pid, runner: Runner)
    requires RunnersInvariant(s)
    ensures BelongsTo(s, pid, runner) || LosesIn(s, step, pid, runner) ==> BelongsTo(Next(s, step), pid, runner)
    ensures BelongsTo(s, pid, runner) ==>
      (IsKeptTrackOf(Next(s, step), pid, runner) <==> IsKeptTrackOf(s, pid, runner) && !LosesIn(s, step, pid, runner))
    ensures !BelongsTo(s, pid, runner) && BelongsTo(Next(s, step), pid, runner) ==>
      IsKeptTrackOf(Next(s, step), pid, runner) && !LosesIn(s, step, pid, runner)
  {
    match step
    case Local(p, action) =>
      if p == pid && pid in s.processes {
        if Belongs(s.processes[pid], runner) {
          AccountChanges(s.processes[pid], action, runner);
        } else {
          NewcomerIsAccountedFor(s.processes[pid], action, runner);
        }
      }
    case Fork(parent, child) =>
      if parent in s.processes && child !in s.processes {
        ForkTracksRunners(s.processes[parent], child);
      }
  }

  /** Over every run and for every process, a runner it created or inherited is lost in exactly two cases: a
      failed initialization could not close it while the process already kept another one, or it was
      inherited and the first lifecycle call of the process was a shutdown. Otherwise it is current, a
      candidate, closed or at least attempted to be, or kept. */
  lemma {:induction false} LossIsExact(root: Pid, steps: seq<Step>, pid: Pid, runner: Runner)
    ensures IsLost(root, steps, pid, runner) ==> BelongsTo(Run(Started(root), steps), pid, runner)
    ensures BelongsTo(Run(Started(root), steps), pid, runner) ==>
      (IsKeptTrackOf(Run(Started(root), steps), pid, runner) <==> !IsLost(root, steps, pid, runner))
    decreases |steps|
  {
    if steps != [] {
      var before, last := steps[..|steps| - 1], steps[|steps| - 1];
      assert steps == before + [last];
      RunSnoc(Started(root), before, last);
      LossSnoc(root, before, last, pid, runner);
      RunKeepsRunners(Started(root), before);
      LossIsExact(root, before, pid, runner);
      StepDecidesLoss(Run(Started(root), before), last, pid, runner);
    }
  }
}
