/**
 The task sequencer: pending tasks by priority level, a round robin within each level, interrupts at
 any point, and runs nested in tasks that wait for an event.

 What the surroundings do is a finite script. A step of it either says which calls an interrupt
 makes, at the next point where one may strike, or what a task or an idle hook does next. When a
 task or a hook should act and the script is at its end, the observation stops. The invariants hold
 at every moment; some of what an operation leaves behind is claimed for operations that came to
 their end. As the script is arbitrary, so are the runs.
 */
module Sequencers {
  import opened Basics
  import opened RoundRobin
  import opened TaskRuns

  const NO_TASK_RUNNING: nat := 0xFFFF_FFFF

  datatype Priority = Priority(priority: Tasks, roundRobin: Tasks)

  ghost predicate PendingAt(levels: seq<Priority>, t: nat, l: nat) {
    l < |levels| && t in levels[l].priority
  }

  /** The pending tasks are exactly those pending at some level. */
  ghost predicate Bookkept(levels: seq<Priority>, taskSet: Tasks) {
    && taskSet <= All()
    && (forall l, t :: PendingAt(levels, t, l) ==> t in taskSet)
    && (forall t :: t in taskSet ==> exists l :: PendingAt(levels, t, l))
  }

  /** Every choice made at a level was the one its round robin makes. */
  ghost predicate Logged(levels: seq<Priority>, log: seq<seq<Pick>>) {
    && |log| == |levels|
    && (forall l :: 0 <= l < |log| ==> Fair({}, log[l]) && MaskAfter({}, log[l]) == levels[l].roundRobin)
  }

  /** The tasks chosen at one level, and at all. */
  ghost function ChosenOf(picks: seq<Pick>): multiset<nat> {
    if picks == [] then multiset{}
    else ChosenOf(picks[..|picks| - 1]) + multiset{picks[|picks| - 1].task}
  }

  ghost function ChosenIn(log: seq<seq<Pick>>): multiset<nat> {
    if log == [] then multiset{} else ChosenIn(log[..|log| - 1]) + ChosenOf(log[|log| - 1])
  }

  lemma ChosenOfMore(picks: seq<Pick>, pick: Pick)
    ensures ChosenOf(picks + [pick]) == ChosenOf(picks) + multiset{pick.task}
  {
    assert (picks + [pick])[..|picks|] == picks;
  }

  lemma {:induction false} ChoiceRecorded(log: seq<seq<Pick>>, level: nat, pick: Pick)
    requires level < |log|
    ensures ChosenIn(log[level := log[level] + [pick]]) == ChosenIn(log) + multiset{pick.task}
  {
    hide ChosenOf;
    var log', last := log[level := log[level] + [pick]], |log| - 1;
    if level == last {
      assert log'[..last] == log[..last];
      ChosenOfMore(log[last], pick);
    } else {
      assert log'[..last] == log[..last][level := log[..last][level] + [pick]];
      ChoiceRecorded(log[..last], level, pick);
    }
  }

  lemma ChosenMore(log: seq<seq<Pick>>, begun: seq<nat>, level: nat, pick: Pick)
    requires level < |log| && multiset(begun) == ChosenIn(log)
    ensures multiset(begun) + multiset{pick.task} == ChosenIn(log[level := log[level] + [pick]])
  {
    ChoiceRecorded(log, level, pick);
  }

  lemma {:induction false} NothingChosen(log: seq<seq<Pick>>)
    requires forall l :: 0 <= l < |log| ==> log[l] == []
    ensures ChosenIn(log) == multiset{}
  {
    if log != [] { NothingChosen(log[..|log| - 1]); }
  }

  /** None of the active tasks may be selected under the mask. */
  ghost predicate Excluded(active: seq<nat>, mask: Tasks) {
    forall i :: 0 <= i < |active| ==> active[i] !in mask
  }

  /** The tasks that a wait masks out: the one that waits, if any runs. */
  function Waiting(currentTaskIdx: nat): Tasks {
    if currentTaskIdx == NO_TASK_RUNNING then {} else {currentTaskIdx}
  }

  /** The innermost task is masked out while it waits, the others are already. */
  lemma WaitingIsExcluded(active: seq<nat>, mask: Tasks)
    requires active != [] && Excluded(active[..|active| - 1], mask)
    ensures Excluded(active, mask * (All() - Waiting(active[|active| - 1])))
  {
    forall i | 0 <= i < |active|
      ensures active[i] !in mask * (All() - Waiting(active[|active| - 1]))
    {
      assert i < |active| - 1 ==> active[i] == active[..|active| - 1][i];
    }
  }

  /** No task is masked out by a wait while none runs, and none has to be. */
  lemma NoneWaiting(active: seq<nat>, mask: Tasks)
    requires Excluded(active, mask)
    ensures Excluded(active, mask * (All() - Waiting(NO_TASK_RUNNING)))
  {
  }

  /** A task selected under a mask is none of the active ones and joins them. */
  lemma SelectedIsNew(active: seq<nat>, mask: Tasks, t: nat)
    requires Distinct(active) && Excluded(active, mask) && t in mask
    ensures t !in active && Distinct(active + [t]) && (active + [t])[..|active|] == active
  {
  }

  lemma DistinctAppend(active: seq<nat>, t: nat)
    requires Distinct(active) && t !in active
    ensures Distinct(active + [t]) && (active + [t])[..|active|] == active
  {
  }

  lemma DistinctFront(active: seq<nat>)
    requires Distinct(active) && active != []
    ensures Distinct(active[..|active| - 1])
  {
  }

  /** At every level only more tasks may be pending. */
  ghost predicate Grown(levels: seq<Priority>, levels': seq<Priority>) {
    && |levels'| == |levels|
    && (forall l :: 0 <= l < |levels| ==>
          levels[l].priority <= levels'[l].priority && levels'[l].roundRobin == levels[l].roundRobin)
  }

  function WithSet(levels: seq<Priority>, tasks: Tasks, level: nat): seq<Priority>
    requires level < |levels|
  {
    levels[level := levels[level].(priority := levels[level].priority + tasks)]
  }

  lemma SetTaskKeeps(levels: seq<Priority>, taskSet: Tasks, log: seq<seq<Pick>>, tasks: Tasks, level: nat)
    requires Bookkept(levels, taskSet) && Logged(levels, log) && tasks <= All() && level < |levels|
    ensures Bookkept(WithSet(levels, tasks, level), taskSet + tasks)
    ensures Logged(WithSet(levels, tasks, level), log)
    ensures Grown(levels, WithSet(levels, tasks, level))
  {
    var levels' := WithSet(levels, tasks, level);
    forall t | t in taskSet + tasks ensures exists l :: PendingAt(levels', t, l) {
      if t in tasks {
        assert PendingAt(levels', t, level);
      } else {
        var l :| PendingAt(levels, t, l);
        assert PendingAt(levels', t, l);
      }
    }
    forall l, t | PendingAt(levels', t, l) ensures t in taskSet + tasks {
      assert l != level || t !in tasks ==> PendingAt(levels, t, l);
    }
  }

  lemma StartsEmpty(levels: seq<Priority>, log: seq<seq<Pick>>)
    requires |log| == |levels|
    requires forall l :: 0 <= l < |levels| ==> levels[l] == Priority({}, {}) && log[l] == []
    ensures Bookkept(levels, {}) && Logged(levels, log)
  {
  }

  /** A task removed from all levels. */
  function Without(levels: seq<Priority>, t: nat): (levels': seq<Priority>)
    ensures |levels'| == |levels|
    ensures forall l :: 0 <= l < |levels| ==> levels'[l] == levels[l].(priority := levels[l].priority - {t})
  {
    seq(|levels|, l requires 0 <= l < |levels| => levels[l].(priority := levels[l].priority - {t}))
  }

  /** A task removed from level `n` on. */
  ghost predicate TakenFrom(levels: seq<Priority>, levels': seq<Priority>, t: nat, n: nat) {
    && |levels'| == |levels|
    && (forall l :: 0 <= l < n && l < |levels| ==> levels'[l] == levels[l])
    && (forall l :: n <= l < |levels| ==> levels'[l] == levels[l].(priority := levels[l].priority - {t}))
  }

  lemma NoneTaken(levels: seq<Priority>, t: nat)
    ensures TakenFrom(levels, levels, t, |levels|)
  {
  }

  lemma TakeNext(levels: seq<Priority>, levels': seq<Priority>, t: nat, n: nat)
    requires TakenFrom(levels, levels', t, n + 1) && n < |levels|
    ensures TakenFrom(levels, levels'[n := levels'[n].(priority := levels'[n].priority - {t})], t, n)
  {
  }

  lemma IsWithout(levels: seq<Priority>, levels': seq<Priority>, t: nat)
    requires TakenFrom(levels, levels', t, 0)
    ensures levels' == Without(levels, t)
  {
  }

  lemma RemovingKeeps(levels: seq<Priority>, taskSet: Tasks, log: seq<seq<Pick>>, t: nat)
    requires Bookkept(levels, taskSet) && Logged(levels, log)
    ensures Bookkept(Without(levels, t), taskSet - {t}) && Logged(Without(levels, t), log)
  {
    var levels' := Without(levels, t);
    forall x | x in taskSet - {t} ensures exists l :: PendingAt(levels', x, l) {
      var l :| PendingAt(levels, x, l);
      assert PendingAt(levels', x, l);
    }
    forall l, x | PendingAt(levels', x, l) ensures x in taskSet - {t} {
      assert PendingAt(levels, x, l);
    }
  }

  lemma SomeLevel(levels: seq<Priority>, taskSet: Tasks, t: nat) returns (l: nat)
    requires Bookkept(levels, taskSet) && t in taskSet
    ensures PendingAt(levels, t, l)
  {
    l :| PendingAt(levels, t, l);
  }

  lemma LevelInRange(levels: seq<Priority>, taskSet: Tasks, log: seq<seq<Pick>>, l: nat)
    requires Bookkept(levels, taskSet) && Logged(levels, log) && l < |levels|
    ensures levels[l].priority <= taskSet <= All() && |log| == |levels|
  {
    assert forall t :: t in levels[l].priority ==> PendingAt(levels, t, l);
  }

  /** Taking one task by the round robin of its level. */
  lemma PickKeeps(levels: seq<Priority>, levels': seq<Priority>, taskSet: Tasks, log: seq<seq<Pick>>, level: nat,
                  candidates: Tasks)
    requires Bookkept(levels, taskSet) && Logged(levels, log) && level < |levels|
    requires candidates != {} && candidates <= All()
    requires levels' == levels[level := levels[level].(roundRobin := After(levels[level].roundRobin, candidates))]
    ensures |log| == |levels|
    ensures Bookkept(levels', taskSet)
    ensures Logged(levels', log[level := log[level] + [Pick(candidates, Chosen(levels[level].roundRobin, candidates))]])
  {
    hide Fair, MaskAfter, Lowest, After, Chosen;
    FairAppend({}, log[level], Pick(candidates, Chosen(levels[level].roundRobin, candidates)));
    forall t | t in taskSet ensures exists l :: PendingAt(levels', t, l) {
      var l :| PendingAt(levels, t, l);
      assert PendingAt(levels', t, l);
    }
    forall l, t | PendingAt(levels', t, l) ensures t in taskSet {
      assert PendingAt(levels, t, l);
    }
  }

  /** What calls do to the levels. */
  ghost predicate Applied(levels: seq<Priority>, levels': seq<Priority>, ops: seq<Op>) {
    |levels'| == |levels| && forall l :: 0 <= l < |levels| ==>
      levels'[l] == levels[l].(priority := levels[l].priority + TasksSetAt(ops, l))
  }

  lemma NoneApplied(levels: seq<Priority>)
    ensures Applied(levels, levels, [])
  {
  }

  lemma AppliedTwice(levels: seq<Priority>, levels': seq<Priority>, levels'': seq<Priority>, ops: seq<Op>,
                     ops': seq<Op>)
    requires Applied(levels, levels', ops) && Applied(levels', levels'', ops')
    ensures Applied(levels, levels'', ops + ops')
  {
    hide TasksSetAt;
    CallsJoined(ops, ops');
  }

  /** The tasks of a mask that a search finds at a level after some points where interrupts may strike. */
  ghost function CandidatesAt(levels: seq<Priority>, script: seq<Step>, level: nat, points: nat, mask: Tasks): Tasks
    requires level < |levels|
  {
    (levels[level].priority + TasksSetAt(OpsBy(script, points), level)) * mask
  }

  lemma CandidatesStay(levels: seq<Priority>, script: seq<Step>, level: nat, mask: Tasks)
    requires level < |levels|
    ensures CandidatesAt(levels, script, level, level, mask) <= CandidatesAt(levels, script, level, level + 1, mask)
  {
    hide TasksSetAt, OpsBy;
    MoreLater(script, level, level);
  }

  lemma CandidatesAre(levels: seq<Priority>, levels': seq<Priority>, script: seq<Step>, level: nat, mask: Tasks)
    requires level < |levels| && Applied(levels, levels', OpsBy(script, level + 1))
    ensures |levels'| == |levels|
    ensures CandidatesAt(levels, script, level, level + 1, mask) == levels'[level].priority * mask
  {
    hide TasksSetAt, OpsBy;
  }

  lemma CandidatesInMask(levels: seq<Priority>, script: seq<Step>, level: nat, mask: Tasks)
    requires level < |levels|
    ensures CandidatesAt(levels, script, level, level + 1, mask) <= mask
  {
    hide TasksSetAt, OpsBy;
  }

  /** A task was chosen at a level. */
  ghost function Picked(levels: seq<Priority>, level: nat, candidates: Tasks): seq<Priority>
    requires level < |levels| && candidates != {} && candidates <= All()
  {
    levels[level := levels[level].(roundRobin := After(levels[level].roundRobin, candidates))]
  }

  /** What becomes of the levels while a task is chosen at one of them and taken off all. */
  ghost function AfterSelect(levels: seq<Priority>, ops: seq<Op>, level: nat, candidates: Tasks): (r: seq<Priority>)
    requires level < |levels| && candidates != {} && candidates <= All()
    ensures |r| == |levels|
  {
    var t := Chosen(levels[level].roundRobin, candidates);
    seq(|levels|, l requires 0 <= l < |levels| =>
      Priority(levels[l].priority + TasksSetAt(ops, l) - {t},
               if l == level then After(levels[level].roundRobin, candidates) else levels[l].roundRobin))
  }

  lemma AppliedAt(levels: seq<Priority>, levels': seq<Priority>, ops: seq<Op>, l: nat)
    requires Applied(levels, levels', ops) && l < |levels|
    ensures |levels'| == |levels| && levels'[l].priority == levels[l].priority + TasksSetAt(ops, l)
    ensures levels'[l].roundRobin == levels[l].roundRobin
  {
  }

  lemma SelectedLevels(levels: seq<Priority>, picking: seq<Priority>, picked: seq<Priority>, last: seq<Priority>,
                       script: seq<Step>, rest: seq<Step>, level: nat, candidates: Tasks)
    requires level < |levels| && candidates != {} && candidates <= All()
    requires Applied(levels, picking, OpsBy(script, level + 2)) && picked == Picked(picking, level, candidates)
    requires rest == script[Lead(script, level + 2)..] && Applied(picked, last, OpsBy(rest, 1))
    ensures Without(last, Chosen(levels[level].roundRobin, candidates))
         == AfterSelect(levels, OpsBy(script, level + 3), level, candidates)
  {
    hide OpsOf, OpsBy, TasksSetAt, Lead, Chosen, After, All, Lowest;
    LeadNext(script, level + 2);
    var ops, t := OpsBy(script, level + 3), Chosen(levels[level].roundRobin, candidates);
    CallsSetAt(OpsBy(script, level + 2), OpsBy(rest, 1), ops);
    var x, y := Without(last, t), AfterSelect(levels, ops, level, candidates);
    forall l | 0 <= l < |levels| ensures x[l] == y[l] {
      assert x[l].priority == y[l].priority;
    }
  }

  lemma SelectedWasSet(levels: seq<Priority>, taskSet: Tasks, script: seq<Step>, level: nat, mask: Tasks, t: nat)
    requires Bookkept(levels, taskSet) && level < |levels| && t in CandidatesAt(levels, script, level, level + 1, mask)
    ensures t in taskSet + TasksSet(OpsBy(script, level + 3))
  {
    hide OpsOf, Lead, TasksSet, TasksSetAt, OpsBy;
    if t in levels[level].priority { assert PendingAt(levels, t, level); }
    SetAtIsSet(OpsBy(script, level + 1), level);
    LeadNext(script, level + 1);
    LeadNext(script, level + 2);
    CallsJoined(OpsBy(script, level + 1), OpsBy(script[Lead(script, level + 1)..], 1));
    CallsJoined(OpsBy(script, level + 2), OpsBy(script[Lead(script, level + 2)..], 1));
  }

  lemma WaitEnds(m: Seen, w: Seen, b: Seen, events: Events, all: Tasks, t: nat)
    requires m.script != [] && m.script[0] == Act(WaitFor(events)) && w == m.(script := m.script[1..])
    requires Moves(w, b, events) && Allowed(w, b, all * (All() - Waiting(t)))
    ensures Goes(m, b, all) && Later(w, b)
    ensures Waited(w, b) && (w.evtSet + Signalled(Calls(w, b))) * events != {} && b.evtSet * events == {} ==>
              Done(m, b, all)
  {
    hide Moves, Allowed, Waited, Signalled, Calls, Lowest, All;
    AllowedByMore(w, b, all * (All() - Waiting(t)), all);
    WaitDone(m, b, events, all);
  }

  class Sequencer {
    var taskSet: Tasks
    var taskMask: Tasks
    var superMask: Tasks
    var evtSet: Events
    var evtWaited: Events
    var currentTaskIdx: nat
    const taskPrio: array<Priority>

    var script: seq<Step>
    var stopped: bool
    /** The tasks whose functions were called, and the idle hooks. */
    var begun: seq<nat>
    var hooks: seq<Hook>

    /** The tasks begun and not yet returned, the innermost last. */
    ghost var active: seq<nat>
    /** The choices made, by level. */
    ghost var log: seq<seq<Pick>>

    ghost predicate Valid()
      reads this`taskSet, this`script, this`stopped, this`active, this`log, taskPrio
    {
      && Bookkept(taskPrio[..], taskSet)
      && Logged(taskPrio[..], log)
      && Distinct(active)
      && (forall i :: 0 <= i < |script| ==> script[i].Fits(taskPrio.Length))
      && (stopped ==> script == [])
    }

    /** The tasks begun are those chosen, each as often. */
    ghost predicate Recorded()
      reads this`begun, this`log
    {
      multiset(begun) == ChosenIn(log)
    }

    ghost function Now(): Seen
      reads this`taskSet, this`taskMask, this`evtSet, this`begun, this`hooks, this`script
    {
      Seen(taskSet, taskMask, evtSet, begun, hooks, script)
    }

    constructor (levels: nat, script: seq<Step>)
      requires forall i :: 0 <= i < |script| ==> script[i].Fits(levels)
      ensures Valid() && fresh(taskPrio) && taskPrio.Length == levels
      ensures taskSet == {} && superMask == All() && active == [] && this.script == script && !stopped
      ensures taskMask == All() && evtSet == {} && evtWaited == {} && begun == [] && hooks == [] && Recorded()
    {
      hide Bookkept, Logged, Lowest;
      taskSet, taskMask, superMask, evtSet, evtWaited, currentTaskIdx := {}, All(), All(), {}, {}, 0;
      taskPrio := new Priority[levels](_ => Priority({}, {}));
      this.script, stopped, active := script, false, [];
      begun, hooks := [], [];
      log := seq(levels, _ => []);
      new;
      StartsEmpty(taskPrio[..], log);
      NothingChosen(log);
    }

    // ---- calls ----

    method SetTask(tasks: Tasks, level: nat)
      requires Valid() && tasks <= All() && level < taskPrio.Length
      modifies this`taskSet, taskPrio
      ensures Valid() && taskSet == old(taskSet) + tasks
      ensures taskPrio[..] == WithSet(old(taskPrio[..]), tasks, level)
      ensures Grown(old(taskPrio[..]), taskPrio[..])
    {
      hide Bookkept, Logged, Grown, Distinct, Lowest;
      SetTaskKeeps(taskPrio[..], taskSet, log, tasks, level);
      taskSet := taskSet + tasks;
      taskPrio[level] := taskPrio[level].(priority := taskPrio[level].priority + tasks);
      assert taskPrio[..] == WithSet(old(taskPrio[..]), tasks, level);
    }

    method PauseTask(tasks: Tasks)
      modifies this`taskMask
      ensures taskMask == old(taskMask) - tasks
    {
      taskMask := taskMask - tasks;
    }

    method ResumeTask(tasks: Tasks)
      modifies this`taskMask
      ensures taskMask == old(taskMask) + tasks
    {
      taskMask := taskMask + tasks;
    }

    method SetEvt(events: Events)
      modifies this`evtSet
      ensures evtSet == old(evtSet) + events
    {
      evtSet := evtSet + events;
    }

    method ClrEvt(events: Events)
      modifies this`evtSet
      ensures evtSet == old(evtSet) - events
    {
      evtSet := evtSet - events;
    }

    method Perform(op: Op)
      requires Valid() && op.Fits(taskPrio.Length)
      modifies this`taskSet, this`taskMask, this`evtSet, taskPrio
      ensures Valid() && Now() == AfterCalls(old(Now()), [op], 0)
      ensures Applied(old(taskPrio[..]), taskPrio[..], [op])
    {
      hide Bookkept, Logged, Distinct, Lowest, TasksSet, TasksSetAt, TaskMaskAfter, EventsAfter, Grown;
      OneCall(op);
      assert script[0..] == script;
      match op
      case Set(tasks, level) => SetTask(tasks, level);
      case Pause(tasks) => PauseTask(tasks);
      case Resume(tasks) => ResumeTask(tasks);
      case Signal(events) => SetEvt(events);
      case Clear(events) => ClrEvt(events);
    }

    /** The calls of one interrupt. */
    method PerformAll(ops: seq<Op>)
      requires Valid() && forall i :: 0 <= i < |ops| ==> ops[i].Fits(taskPrio.Length)
      modifies this`taskSet, this`taskMask, this`evtSet, taskPrio
      ensures Valid() && Now() == AfterCalls(old(Now()), ops, 0)
      ensures Applied(old(taskPrio[..]), taskPrio[..], ops)
    {
      hide Valid, Applied, TasksSet, TaskMaskAfter, EventsAfter, AfterCalls, Op.Fits;
      NoneApplied(taskPrio[..]);
      NoCallsAfter(Now());
      ghost var a, levels := Now(), taskPrio[..];
      for i := 0 to |ops|
        invariant Valid() && Now() == AfterCalls(a, ops[..i], 0) && script == a.script
        invariant Applied(levels, taskPrio[..], ops[..i])
      {
        ghost var before := taskPrio[..];
        AfterCallsKeep(a, ops[..i]);
        Perform(ops[i]);
        AfterCallsTwice(a, ops[..i], 0, [ops[i]], 0);
        AppliedTwice(levels, before, taskPrio[..], ops[..i], [ops[i]]);
        assert ops[..i + 1] == ops[..i] + [ops[i]];
      }
      assert ops[..|ops|] == ops;
    }

    /** A point at which an interrupt may strike. */
    method Interrupts()
      requires Valid()
      modifies this`taskSet, this`taskMask, this`evtSet, this`script, taskPrio
      ensures Valid() && Now() == AfterCalls(old(Now()), OpsBy(old(script), 1), Lead(old(script), 1))
      ensures Applied(old(taskPrio[..]), taskPrio[..], OpsBy(old(script), 1))
    {
      hide Valid, Applied, AfterCalls, OpsBy, Lead, Op.Fits;
      NoneApplied(taskPrio[..]);
      NoCallsAfter(Now());
      OnePoint(script);
      if script != [] && script[0].Strike? {
        ghost var a := Now();
        var ops := NextStrike();
        PerformAll(ops);
        CalledTail(a, ops);
      }
    }

    method NextStrike() returns (ops: seq<Op>)
      requires Valid() && script != [] && script[0].Strike?
      modifies this`script
      ensures Valid() && script == old(script)[1..] && ops == old(script)[0].interrupts
      ensures forall i :: 0 <= i < |ops| ==> ops[i].Fits(taskPrio.Length)
    {
      hide Bookkept, Logged, Distinct, Op.Fits;
      var step := script[0];
      assert step.Fits(taskPrio.Length);
      ops := step.interrupts;
      script := script[1..];
    }

    // ---- choosing a task ----

    /** Takes the task whose turn it is among the candidates of a level. */
    method PickTask(level: nat, candidates: Tasks)
      requires Valid() && level < taskPrio.Length && candidates != {} && candidates <= All()
      modifies this`currentTaskIdx, this`log, taskPrio
      ensures Valid() && currentTaskIdx == Chosen(old(taskPrio[level].roundRobin), candidates)
      ensures currentTaskIdx in candidates
      ensures |old(log)| == taskPrio.Length
      ensures log == old(log)[level := old(log)[level] + [Pick(candidates, currentTaskIdx)]]
      ensures taskPrio[..] == Picked(old(taskPrio[..]), level, candidates)
    {
      hide Bookkept, Logged, Distinct, Lowest, Fair, MaskAfter;
      ghost var levels := taskPrio[..];
      if taskPrio[level].roundRobin * candidates == {} {
        taskPrio[level] := taskPrio[level].(roundRobin := All());
      }
      assert candidates * taskPrio[level].roundRobin == candidates * Round(levels[level].roundRobin, candidates);
      assert candidates * All() == candidates;
      currentTaskIdx := BitPosition(candidates * taskPrio[level].roundRobin);
      taskPrio[level] := taskPrio[level].(roundRobin := taskPrio[level].roundRobin - {currentTaskIdx});
      ghost var levels' := taskPrio[..];
      PickKeeps(levels, levels', taskSet, log, level, candidates);
      log := log[level := log[level] + [Pick(candidates, currentTaskIdx)]];
      assert taskPrio[..] == levels';
    }

    /** Removes a task from the pending ones, at every level. */
    method TakeOff(t: nat)
      requires Valid()
      modifies this`taskSet, taskPrio
      ensures Valid() && taskSet == old(taskSet) - {t}
      ensures taskPrio[..] == Without(old(taskPrio[..]), t)
    {
      hide Bookkept, Logged, Distinct, Without, Step.Fits;
      RemovingKeeps(taskPrio[..], taskSet, log, t);
      taskSet := taskSet - {t};
      TakeOffLevels(t);
    }

    method TakeOffLevels(t: nat)
      modifies taskPrio
      ensures taskPrio[..] == Without(old(taskPrio[..]), t)
    {
      hide Without, TakenFrom;
      ghost var levels := taskPrio[..];
      var counter: nat := taskPrio.Length;
      NoneTaken(levels, t);
      while counter != 0
        invariant counter <= taskPrio.Length && TakenFrom(levels, taskPrio[..], t, counter)
      {
        TakeNext(levels, taskPrio[..], t, counter - 1);
        taskPrio[counter - 1] := taskPrio[counter - 1].(priority := taskPrio[counter - 1].priority - {t});
        counter := counter - 1;
      }
      IsWithout(levels, taskPrio[..], t);
    }

    /** Some points at which interrupts may strike were passed since `a`. */
    ghost predicate AtPoint(a: Seen, levels: seq<Priority>, points: nat)
      reads this`taskSet, this`taskMask, this`evtSet, this`begun, this`hooks, this`script, taskPrio
    {
      && Now() == AfterCalls(a, OpsBy(a.script, points), Lead(a.script, points))
      && Applied(levels, taskPrio[..], OpsBy(a.script, points))
    }

    lemma AtFirst()
      ensures AtPoint(Now(), taskPrio[..], 0)
    {
      hide Applied, TasksSet, TaskMaskAfter, EventsAfter;
      NoCallsAfter(Now());
      NoneApplied(taskPrio[..]);
      assert script[..0] == [];
    }

    method NextPoint(ghost a: Seen, ghost levels: seq<Priority>, ghost points: nat)
      requires Valid() && AtPoint(a, levels, points)
      modifies this`taskSet, this`taskMask, this`evtSet, this`script, taskPrio
      ensures Valid() && AtPoint(a, levels, points + 1)
    {
      hide Valid, Applied, TasksSet, TaskMaskAfter, EventsAfter, OpsBy, Lead;
      ghost var before, rest := taskPrio[..], script;
      Interrupts();
      LeadNext(a.script, points);
      AfterCallsTwice(a, OpsBy(a.script, points), Lead(a.script, points), OpsBy(rest, 1), Lead(rest, 1));
      AppliedTwice(levels, before, taskPrio[..], OpsBy(a.script, points), OpsBy(rest, 1));
    }

    /**
     Chooses a task among those pending and unmasked. The search ends at the most urgent level that
     has one when it comes to it, whatever interrupts strike on the way; there the round robin
     chooses among the tasks pending at that level and unmasked.
     */
    method SelectTask(localTaskSet: Tasks, localTaskMask: Tasks) returns (level: nat)
      requires Valid() && localTaskSet <= taskSet && localTaskSet * localTaskMask * superMask != {}
      modifies this`taskSet, this`taskMask, this`evtSet, this`script, this`currentTaskIdx, this`log, taskPrio
      ensures Valid() && level < taskPrio.Length == |old(log)| == |old(taskPrio[..])|
      ensures forall l :: 0 <= l < level ==>
                CandidatesAt(old(taskPrio[..]), old(script), l, l, localTaskMask * superMask) == {}
      ensures var candidates := CandidatesAt(old(taskPrio[..]), old(script), level, level + 1,
                                             localTaskMask * superMask);
              && CandidatesAt(old(taskPrio[..]), old(script), level, level, localTaskMask * superMask) != {}
              && candidates != {} && candidates <= All()
              && currentTaskIdx == Chosen(old(taskPrio[..])[level].roundRobin, candidates)
              && currentTaskIdx in candidates
              && log == old(log)[level := old(log)[level] + [Pick(candidates, currentTaskIdx)]]
              && taskPrio[..] == AfterSelect(old(taskPrio[..]), OpsBy(old(script), level + 3), level, candidates)
      ensures currentTaskIdx in old(taskSet) + TasksSet(OpsBy(old(script), level + 3))
      ensures var after := AfterCalls(old(Now()), OpsBy(old(script), level + 3), Lead(old(script), level + 3));
              Now() == after.(taskSet := after.taskSet - {currentTaskIdx})
    {
      hide Bookkept, Logged, Distinct, TasksSet, TasksSetAt, TaskMaskAfter, EventsAfter, OpsBy, Lead, Chosen, After,
           Picked, AfterSelect, Applied, Lowest;
      ghost var a, levels := Now(), taskPrio[..];
      level := SearchLevel(localTaskSet, localTaskMask);
      TakeTask(level, localTaskMask, a, levels);
    }

    /** The most urgent level with a candidate. */
    method SearchLevel(localTaskSet: Tasks, localTaskMask: Tasks) returns (level: nat)
      requires Valid() && localTaskSet <= taskSet && localTaskSet * localTaskMask * superMask != {}
      modifies this`taskSet, this`taskMask, this`evtSet, this`script, taskPrio
      ensures Valid() && level < taskPrio.Length == |old(taskPrio[..])| && AtPoint(old(Now()), old(taskPrio[..]), level)
      ensures forall l :: 0 <= l < level ==>
                CandidatesAt(old(taskPrio[..]), old(script), l, l, localTaskMask * superMask) == {}
      ensures CandidatesAt(old(taskPrio[..]), old(script), level, level, localTaskMask * superMask) != {}
    {
      hide Valid, Lowest, TasksSet, TasksSetAt, TaskMaskAfter, EventsAfter, OpsBy, Lead, Applied, AfterCalls;
      ghost var a, levels := Now(), taskPrio[..];
      ghost var c :| c in localTaskSet * localTaskMask * superMask;
      ghost var l0 := PendingLevel(c);
      AtFirst();
      level := 0;
      AppliedAt(levels, taskPrio[..], OpsBy(a.script, 0), l0);
      while taskPrio[level].priority * (localTaskMask * superMask) == {}
        invariant level <= l0 < |levels| && Valid() && AtPoint(a, levels, level)
        invariant forall l :: 0 <= l < level ==>
                    CandidatesAt(levels, a.script, l, l, localTaskMask * superMask) == {}
        decreases l0 - level
        modifies this`taskSet, this`taskMask, this`evtSet, this`script, taskPrio
      {
        AppliedAt(levels, taskPrio[..], OpsBy(a.script, level), l0);
        assert c in taskPrio[..][l0].priority * (localTaskMask * superMask);
        AppliedAt(levels, taskPrio[..], OpsBy(a.script, level), level);
        NextPoint(a, levels, level);
        level := level + 1;
      }
      AppliedAt(levels, taskPrio[..], OpsBy(a.script, level), level);
      assert taskPrio[..][level] == taskPrio[level];
    }

    lemma PendingLevel(t: nat) returns (l: nat)
      requires Valid() && t in taskSet
      ensures PendingAt(taskPrio[..], t, l)
    {
      hide Logged, Distinct;
      l := SomeLevel(taskPrio[..], taskSet, t);
    }

    lemma LevelTasks(level: nat)
      requires Valid() && level < taskPrio.Length
      ensures taskPrio[..][level].priority <= All() && |log| == taskPrio.Length
    {
      hide Distinct, All;
      LevelInRange(taskPrio[..], taskSet, log, level);
    }

    /** Takes the task whose turn it is among those of a level, `a` and `levels` being what the search began with. */
    method TakeTask(level: nat, localTaskMask: Tasks, ghost a: Seen, ghost levels: seq<Priority>)
      requires Valid() && level < taskPrio.Length == |levels| && AtPoint(a, levels, level)
      requires Bookkept(levels, a.taskSet)
      requires CandidatesAt(levels, a.script, level, level, localTaskMask * superMask) != {}
      modifies this`taskSet, this`taskMask, this`evtSet, this`script, this`currentTaskIdx, this`log, taskPrio
      ensures Valid() && taskPrio.Length == |old(log)|
      ensures var candidates := CandidatesAt(levels, a.script, level, level + 1, localTaskMask * superMask);
              && candidates != {} && candidates <= All()
              && currentTaskIdx == Chosen(levels[level].roundRobin, candidates) && currentTaskIdx in candidates
              && log == old(log)[level := old(log)[level] + [Pick(candidates, currentTaskIdx)]]
              && taskPrio[..] == AfterSelect(levels, OpsBy(a.script, level + 3), level, candidates)
      ensures currentTaskIdx in a.taskSet + TasksSet(OpsBy(a.script, level + 3))
      ensures var after := AfterCalls(a, OpsBy(a.script, level + 3), Lead(a.script, level + 3));
              Now() == after.(taskSet := after.taskSet - {currentTaskIdx})
    {
      hide Valid, Bookkept, Lowest, TasksSet, TasksSetAt, TaskMaskAfter, EventsAfter, OpsBy, Lead, Chosen, After,
           Without, Picked, AfterSelect, All, Applied, CandidatesAt, AtPoint;
      CandidatesStay(levels, a.script, level, localTaskMask * superMask);
      NextPoint(a, levels, level);
      var currentTaskSet := taskPrio[level].priority * (localTaskMask * superMask);
      assert taskPrio[..][level] == taskPrio[level];
      CandidatesHere(a, levels, level, localTaskMask * superMask);
      LevelTasks(level);
      NextPoint(a, levels, level + 1);
      PickAndTakeOff(level, currentTaskSet, a, levels);
      SelectedWasSet(levels, a.taskSet, a.script, level, localTaskMask * superMask, currentTaskIdx);
    }

    lemma CandidatesHere(a: Seen, levels: seq<Priority>, level: nat, mask: Tasks)
      requires AtPoint(a, levels, level + 1) && level < |levels|
      ensures |levels| == taskPrio.Length
      ensures CandidatesAt(levels, a.script, level, level + 1, mask) == taskPrio[..][level].priority * mask
    {
      hide Applied, AfterCalls, OpsBy, Lead;
      CandidatesAre(levels, taskPrio[..], a.script, level, mask);
    }

    /** The choice among the candidates, and what follows up to the begin of the task. */
    method PickAndTakeOff(level: nat, candidates: Tasks, ghost a: Seen, ghost levels: seq<Priority>)
      requires Valid() && level < taskPrio.Length == |levels| && AtPoint(a, levels, level + 2)
      requires candidates != {} && candidates <= All()
      modifies this`taskSet, this`taskMask, this`evtSet, this`script, this`currentTaskIdx, this`log, taskPrio
      ensures Valid() && taskPrio.Length == |old(log)|
      ensures currentTaskIdx == Chosen(levels[level].roundRobin, candidates) && currentTaskIdx in candidates
      ensures log == old(log)[level := old(log)[level] + [Pick(candidates, currentTaskIdx)]]
      ensures taskPrio[..] == AfterSelect(levels, OpsBy(a.script, level + 3), level, candidates)
      ensures var after := AfterCalls(a, OpsBy(a.script, level + 3), Lead(a.script, level + 3));
              Now() == after.(taskSet := after.taskSet - {currentTaskIdx})
    {
      hide Valid, Lowest, TasksSet, TasksSetAt, TaskMaskAfter, EventsAfter, OpsBy, Lead, Chosen, After, Without, Picked,
           AfterSelect, All, Applied, AfterCalls;
      ghost var picking := taskPrio[..];
      AfterCallsScript(a, OpsBy(a.script, level + 2), Lead(a.script, level + 2));
      AppliedAt(levels, picking, OpsBy(a.script, level + 2), level);
      PickTask(level, candidates);
      ghost var rest, picked := script, taskPrio[..];
      Interrupts();
      SelectedLevels(levels, picking, picked, taskPrio[..], a.script, rest, level, candidates);
      LeadNext(a.script, level + 2);
      AfterCallsTwice(a, OpsBy(a.script, level + 2), Lead(a.script, level + 2), OpsBy(rest, 1), Lead(rest, 1));
      TakeOff(currentTaskIdx);
    }

    lemma ActiveDistinct()
      requires Valid()
      ensures Distinct(active)
    {
    }

    /** At each level, whatever happened: a task that has been a candidate at every choice since the `i`-th without
        being chosen has seen no other task chosen more than twice since. */
    lemma NoTaskIsPassedOver(level: nat, i: nat, u: nat, v: nat)
      requires Valid() && level < |log| && i <= |log[level]| && Waits(log[level][i..], u) && u != v
      ensures Count(log[level][i..], v) <= 2
      ensures i < |log[level]| ==> |log[level]| - i < 2 * TASK_NBR
    {
      hide Bookkept, Distinct, Fair, Waits, Count, MaskAfter;
      BoundedOvertaking(log[level], i, u, v);
    }

    // ---- running ----

    /** What every nested activity leaves as it was. */
    twostate predicate Restored()
      reads this
    {
      superMask == old(superMask) && evtWaited == old(evtWaited) && active == old(active)
    }

    /** The pending tasks, the events and the task mask, one after the other; interrupts may strike in between. */
    method Look() returns (tasks: Tasks, events: Events, mask: Tasks, waited: Events)
      requires Valid()
      modifies this`taskSet, this`taskMask, this`evtSet, this`script, taskPrio
      ensures Valid() && Now() == AfterCalls(old(Now()), OpsBy(old(script), 3), Lead(old(script), 3))
      ensures tasks == old(taskSet) && events == EventsAfter(OpsBy(old(script), 1), old(evtSet))
      ensures mask == TaskMaskAfter(OpsBy(old(script), 2), old(taskMask)) && waited == evtWaited
    {
      hide Valid, Applied, TasksSet, TaskMaskAfter, EventsAfter, OpsBy, Lead, AfterCalls;
      ghost var a, levels := Now(), taskPrio[..];
      AtFirst();
      tasks := taskSet;
      NextPoint(a, levels, 0);
      AfterCallsFields(a, OpsBy(a.script, 1), Lead(a.script, 1));
      events := evtSet;
      NextPoint(a, levels, 1);
      AfterCallsFields(a, OpsBy(a.script, 2), Lead(a.script, 2));
      mask := taskMask;
      NextPoint(a, levels, 2);
      waited := evtWaited;
    }

    /**
     Runs pending tasks until none is left or the awaited event is there. Only tasks of the mask
     are begun, and no active one. All that were pending and unmasked are, unless they were paused
     meanwhile or an awaited event has come.
     */
    method Run(mask: Tasks)
      requires Valid() && Recorded() && Excluded(active, superMask * mask)
      modifies this, taskPrio
      ensures Valid() && Recorded() && (old(stopped) ==> stopped)
      ensures Goes(old(Now()), Now(), old(superMask) * mask) && |script| <= |old(script)|
      ensures !stopped ==> Restored() && currentTaskIdx == NO_TASK_RUNNING && |script| < |old(script)|
      ensures !stopped ==>
                && Waited(old(Now()), Now())
                && AllBegun(old(Now()), Now(), old(superMask) * mask, evtWaited)
                && QuietRun(old(Now()), Now(), old(superMask) * mask, evtWaited)
      decreases |script|, 4
    {
      hide Valid, Excluded, Goes, Done, Waited, AllBegun, QuietRun, QuietIdle, Looked, Quiet, Lowest, All, OpsBy, Lead,
           EventsAfter, TaskMaskAfter, TasksSet, Later, Taken, Moves, Allowed, AfterCalls, Distinct, Recorded;
      ghost var a, all := Now(), superMask * mask;
      var superMaskBackup := superMask;
      superMask := superMask * mask;
      NothingDone(a, all);
      var localTaskSet, localEvtSet, localTaskMask, localEvtWaited := Look();
      ghost var m := Now();
      FirstLook(a, m, localTaskSet, localEvtSet, localTaskMask, all);
      ghost var rounds := false;
      while localTaskSet * localTaskMask * superMask != {} && localEvtSet * localEvtWaited == {} && !stopped
        invariant Valid() && Recorded() && (old(stopped) ==> stopped) && Goes(a, Now(), all) && Later(a, Now())
        invariant !stopped ==> Waited(a, Now()) && Looked(a, Now(), localTaskSet, localEvtSet, localTaskMask)
        invariant !stopped ==>
                    active == old(active) && evtWaited == old(evtWaited) == localEvtWaited && superMask == all
        invariant Quiet(Taken(a, Now())) && !stopped ==>
                    hooks == a.hooks && if rounds then a.evtSet * localEvtWaited == {}
                                        else begun == a.begun && localEvtSet == a.evtSet
        invariant |script| <= |a.script|
        decreases |script|, !stopped
      {
        m := Now();
        localTaskSet, localEvtSet, localTaskMask, localEvtWaited :=
          RunOne(localTaskSet, localEvtSet, localTaskMask, a, all);
        QuietTwice(a, m, Now());
        rounds := true;
      }
      m := Now();
      if !stopped { LoopEnds(a, m, localTaskSet, localEvtSet, localTaskMask, all, localEvtWaited); }
      currentTaskIdx := NO_TASK_RUNNING;
      if !stopped {
        GoIdle();
        GoesTwice(a, m, Now(), all);
        if !stopped { RunEnds(a, m, Now(), all, localEvtWaited); }
      }
      superMask := superMaskBackup;
    }

    /** One round of a run: a task is selected and runs. */
    method RunOne(localTaskSet: Tasks, localEvtSet: Events, localTaskMask: Tasks, ghost a: Seen, ghost all: Tasks)
      returns (tasks: Tasks, events: Events, mask: Tasks, waited: Events)
      requires Valid() && Recorded() && !stopped && superMask == all && Excluded(active, all)
      requires Goes(a, Now(), all) && Waited(a, Now()) && Looked(a, Now(), localTaskSet, localEvtSet, localTaskMask)
      requires localTaskSet * localTaskMask * superMask != {}
      modifies this, taskPrio
      ensures Valid() && Recorded() && Goes(a, Now(), all)
      ensures Later(old(Now()), Now()) && Later(a, old(Now())) && Later(a, Now())
      ensures !stopped ==>
                && Restored() && |script| < |old(script)| && waited == evtWaited && Waited(a, Now())
                && Looked(a, Now(), tasks, events, mask) && (Quiet(Taken(old(Now()), Now())) ==> hooks == old(hooks))
      ensures |script| <= |old(script)|
      decreases |script|, 3
    {
      hide Valid, Excluded, Goes, Done, Waited, Looked, Quiet, Lowest, All, OpsBy, Lead, EventsAfter, TaskMaskAfter,
           TasksSet, Later, Taken, Moves, Allowed, Begun, AfterSelect, CandidatesAt, AfterCalls, Chosen,
           Distinct, ChosenIn;
      ghost var m, l, levels := Now(), log, taskPrio[..];
      assert localTaskSet <= taskSet by { LookedTasks(a, m, localTaskSet, localEvtSet, localTaskMask); }
      var level := SelectTask(localTaskSet, localTaskMask);
      ghost var t := currentTaskIdx;
      ghost var candidates := CandidatesAt(levels, m.script, level, level + 1, localTaskMask * superMask);
      CandidatesInMask(levels, m.script, level, localTaskMask * superMask);
      ghost var s := Now().(begun := m.begun + [t]);
      SelectedMoves(a, m, s, level, t, localTaskSet, localEvtSet, localTaskMask, all);
      ActiveDistinct();
      SelectedIsNew(active, superMask, t);
      ChosenMore(l, begun, level, Pick(candidates, t));
      RunTask(currentTaskIdx);
      ghost var r := Now();
      RoundMoves(a, m, s, r, all);
      tasks, events, mask, waited := Look();
      LaterLook(a, m, r, Now(), tasks, events, mask, all);
    }

    /** The idle part of a run: the hook in between is for a device with nothing to do. */
    method GoIdle()
      requires Valid() && Recorded() && !stopped && currentTaskIdx == NO_TASK_RUNNING && Excluded(active, superMask)
      modifies this, taskPrio
      ensures Valid() && Recorded() && Goes(old(Now()), Now(), old(superMask)) && |script| <= |old(script)|
      ensures !stopped ==> Restored() && currentTaskIdx == NO_TASK_RUNNING && |script| < |old(script)|
      ensures !stopped ==> Waited(old(Now()), Now()) && QuietIdle(old(Now()), Now(), old(superMask), evtWaited)
      decreases |script|, 3
    {
      hide Valid, Excluded, Goes, Done, Waited, Quiet, QuietIdle, Lowest, All, OpsBy, Lead, Moves, Later, Taken,
           Applied, Recorded, AfterCalls;
      ghost var a, all := Now(), superMask;
      IdleHook(PreIdle);
      ghost var p := Now();
      Interrupts();
      ghost var q := Now();
      PointsDone(p, 1, all);
      DoneGoes(p, q, all);
      GoesTwice(a, p, q, all);
      if !stopped {
        WaitedOn(a, p, q, all);
        if taskSet * taskMask * superMask == {} && evtSet * evtWaited == {} {
          IdleHook(Idle);
          GoesTwice(a, q, Now(), all);
          if !stopped { WaitedOn(a, q, Now(), all); }
        }
        ghost var r := Now();
        if !stopped {
          LaterSame(r);
          IdleHook(PostIdle);
          GoesTwice(a, r, Now(), all);
          if !stopped {
            WaitedOn(a, r, Now(), all);
            IdleQuiet(a, p, q, r, Now(), all, evtWaited);
          }
        }
      }
    }

    /** An idle hook: it may make calls and wait for events until it returns; by default it returns at once. */
    method IdleHook(hook: Hook)
      requires Valid() && Recorded() && !stopped && currentTaskIdx == NO_TASK_RUNNING && Excluded(active, superMask)
      modifies this, taskPrio
      ensures Valid() && Recorded() && Goes(old(Now()), Now(), old(superMask)) && |script| <= |old(script)|
      ensures old(hooks) + [hook] <= hooks
      ensures !stopped ==> Restored() && currentTaskIdx == NO_TASK_RUNNING && |script| < |old(script)|
      ensures !stopped ==> Waited(old(Now()), Now()) && Later(old(Now()), Now())
      ensures !stopped && Quiet(Taken(old(Now()), Now())) ==>
                Now() == old(Now()).(hooks := old(hooks) + [hook], script := script)
      decreases |script|, 2
    {
      hide Valid, Excluded, Goes, Done, Waited, Quiet, Lowest, All, Moves, Taken, Recorded;
      ghost var a := Now();
      hooks := hooks + [hook];
      ghost var h := Now();
      assert Excluded(active, superMask * (All() - Waiting(currentTaskIdx))) by { NoneWaiting(active, superMask); }
      Behave();
      HookQuiet(a, Now(), hook, old(superMask));
      GoesLater(h, Now(), old(superMask));
      HooksGrow(h, Now());
    }

    /** A task runs, from its beginning until it returns. It is not active already. */
    method RunTask(t: nat)
      requires multiset(begun) + multiset{t} == ChosenIn(log)
      requires Valid() && !stopped && t == currentTaskIdx && t !in active && Excluded(active, superMask)
      modifies this, taskPrio
      ensures Valid() && Recorded() && Goes(old(Now()).(begun := old(begun) + [t]), Now(), old(superMask))
      ensures !stopped ==>
                && Restored() && |script| < |old(script)|
                && Done(old(Now()).(begun := old(begun) + [t]), Now(), old(superMask))
                && EndsWithReturn(old(Now()).(begun := old(begun) + [t]), Now())
      ensures |script| <= |old(script)|
      decreases |script|, 2
    {
      hide Valid, Excluded, Goes, Done, Lowest, All, EndsWithReturn, Distinct, ChosenIn;
      begun := begun + [t];
      Begin(t);
      WaitingIsExcluded(active, superMask);
      Behave();
      if !stopped { End(); }
    }

    /** What the running task, or an idle hook, does until it returns. */
    method Behave()
      requires Valid() && Recorded() && !stopped && Excluded(active, superMask * (All() - Waiting(currentTaskIdx)))
      modifies this, taskPrio
      ensures Valid() && Recorded() && Goes(old(Now()), Now(), old(superMask)) && |script| <= |old(script)|
      ensures !stopped ==>
                && Restored() && currentTaskIdx == old(currentTaskIdx) && |script| < |old(script)|
                && Done(old(Now()), Now(), old(superMask)) && EndsWithReturn(old(Now()), Now())
      decreases |script|, 1
    {
      hide Valid, Excluded, Goes, Done, Lowest, All, EndsWithReturn, Later, Recorded;
      ghost var a, all := Now(), superMask;
      NothingDone(a, all);
      DoneGoes(a, a, all);
      var returned := false;
      while !returned
        invariant Valid() && Recorded() && Goes(a, Now(), all) && |script| <= |a.script|
        invariant !stopped ==> Restored() && currentTaskIdx == old(currentTaskIdx) && Done(a, Now(), all)
        invariant stopped ==> returned
        invariant returned && !stopped ==> EndsWithReturn(a, Now()) && |script| < |a.script|
        decreases |script|, !returned
      {
        ghost var m := Now();
        returned := TakeAction();
        GoesTwice(a, m, Now(), all);
        if !stopped {
          DoneTwice(a, m, Now(), all);
          if returned {
            GoesLater(a, m, all);
            EndsLater(a, m, Now());
          }
        }
      }
    }

    /** One action. */
    method TakeAction() returns (returned: bool)
      requires Valid() && Recorded() && !stopped && Excluded(active, superMask * (All() - Waiting(currentTaskIdx)))
      modifies this, taskPrio
      ensures Valid() && Recorded() && Goes(old(Now()), Now(), old(superMask)) && |script| <= |old(script)|
      ensures stopped ==> returned
      ensures !stopped ==>
                && Restored() && currentTaskIdx == old(currentTaskIdx) && |script| < |old(script)|
                && Done(old(Now()), Now(), old(superMask)) && (returned ==> EndsWithReturn(old(Now()), Now()))
      decreases |script|, 0
    {
      hide Valid, Bookkept, Logged, Distinct, Step.Fits, Op.Fits, Excluded, Goes, Done, Lowest, All, EndsWithReturn,
           Later, Moves, Waited, Allowed, Taken, AfterCalls, Calls, Signalled, Recorded;
      ghost var a, all := Now(), superMask;
      AwaitAction();
      DoneGoes(a, Now(), all);
      if stopped { return true; }
      ghost var m := Now();
      var action := NextAction();
      match action {
        case Call(op) =>
          Perform(op);
          CalledTail(m, [op]);
          CallDone(m, op, all);
          returned := false;
        case WaitFor(events) =>
          ghost var w := Now();
          WaitEvt(events);
          WaitEnds(m, w, Now(), events, all, old(currentTaskIdx));
          returned := false;
          if stopped {
            GoesTwice(a, m, Now(), all);
            return true;
          }
        case Return =>
          ReturnDone(m, all);
          returned := true;
      }
      DoneTwice(a, m, Now(), all);
      DoneGoes(a, Now(), all);
      if returned {
        GoesLater(a, m, all);
        ReturnIsLast(m, Now());
        EndsLater(a, m, Now());
      }
    }

    method NextAction() returns (action: Action)
      requires Valid() && script != [] && script[0].Act?
      modifies this`script
      ensures Valid() && script == old(script)[1..] && action == old(script)[0].action
      ensures action.Call? ==> action.op.Fits(taskPrio.Length)
    {
      hide Bookkept, Logged, Distinct, Op.Fits;
      var step := script[0];
      assert step.Fits(taskPrio.Length);
      action := step.action;
      script := script[1..];
    }

    /** Interrupts strike until the running task, or an idle hook, acts; the observation may end before. */
    method AwaitAction()
      requires Valid() && !stopped
      modifies this`taskSet, this`taskMask, this`evtSet, this`script, this`stopped, taskPrio
      ensures Valid() && Done(old(Now()), Now(), superMask) && |script| <= |old(script)|
      ensures !stopped ==> script != [] && script[0].Act?
    {
      hide Valid, Done, AfterCalls, OpsBy, Applied;
      ghost var a := Now();
      NothingDone(a, superMask);
      while script != [] && script[0].Strike?
        invariant Valid() && !stopped && Done(a, Now(), superMask) && |script| <= |a.script|
        decreases |script|
      {
        ghost var m := Now();
        Interrupts();
        PointsDone(m, 1, superMask);
        PointTaken(m);
        DoneTwice(a, m, Now(), superMask);
      }
      if script == [] { StopObserving(); }
    }

    method StopObserving()
      requires Valid() && script == []
      modifies this`stopped
      ensures Valid() && stopped
    {
      hide Bookkept, Logged, Distinct;
      stopped := true;
    }

    /** The running task, or an idle hook, waits for an event: it does not go on, nor is a waiting task begun again,
        before the event is there, and then it goes on. The event is used up. */
    method WaitEvt(events: Events)
      requires Valid() && Recorded() && !stopped && Excluded(active, superMask * (All() - Waiting(currentTaskIdx)))
      modifies this, taskPrio
      ensures Valid() && Recorded() && |script| <= |old(script)|
      ensures Moves(old(Now()), Now(), events)
      ensures Allowed(old(Now()), Now(), old(superMask) * (All() - Waiting(old(currentTaskIdx))))
      ensures !stopped ==> Restored() && currentTaskIdx == old(currentTaskIdx)
      ensures !stopped ==>
                && Waited(old(Now()), Now()) && evtSet * events == {} && Later(old(Now()), Now())
                && (old(evtSet) + Signalled(Calls(old(Now()), Now()))) * events != {}
      ensures !stopped && old(evtSet) * events == {} ==> |script| < |old(script)|
      ensures old(evtSet) * events != {} ==>
                Now() == old(Now()).(evtSet := old(evtSet) - events) && unchanged(taskPrio) && !stopped
      decreases |script|, 6
    {
      hide Valid, Excluded, Goes, Done, Waited, Lowest, All, Later, Moves, Allowed, Taken, Calls, Signalled, AfterCalls,
           OpsBy, Applied, Recorded;
      ghost var a, all := Now(), superMask * (All() - Waiting(currentTaskIdx));
      NothingDone(a, all);
      DoneGoes(a, a, all);
      var currentTask := currentTaskIdx;
      var waitTasks := Waiting(currentTaskIdx);
      var eventWaitedBackup := evtWaited;
      evtWaited := events;
      while evtSet * events == {} && !stopped
        invariant Valid() && Recorded() && Goes(a, Now(), all) && |script| <= |a.script|
        invariant !stopped ==> active == old(active) && superMask == old(superMask) && evtWaited == events
        invariant !stopped ==> Waited(a, Now()) && (Now() == a || |script| < |a.script|)
        invariant old(evtSet) * events != {} ==> Now() == a && unchanged(taskPrio) && !stopped
        decreases |script|, !stopped
      {
        ghost var m := Now();
        EvtIdle(waitTasks, events);
        GoesTwice(a, m, Now(), all);
        if !stopped {
          WaitedOn(a, m, Now(), all);
          ghost var n := Now();
          Interrupts();
          PointsDone(n, 1, all);
          DoneGoes(n, Now(), all);
          GoesTwice(a, n, Now(), all);
          WaitedOn(a, n, Now(), all);
          PointTaken(n);
        }
      }
      ghost var m := Now();
      if !stopped { WaitMet(a, m, events) by { GoesMoves(a, m, all); } }
      GoesMoves(a, m, all);
      UseUpMoves(a, m, events, all);
      currentTaskIdx := currentTask;
      evtSet := evtSet - events;
      evtWaited := eventWaitedBackup;
      MovesAreLater(a, Now(), events);
    }

    /** Meanwhile, the other tasks run. */
    method EvtIdle(tasks: Tasks, events: Events)
      requires Valid() && Recorded() && !stopped && Excluded(active, superMask * (All() - tasks))
      modifies this, taskPrio
      ensures Valid() && Recorded() && |script| <= |old(script)|
      ensures Goes(old(Now()), Now(), old(superMask) * (All() - tasks))
      ensures !stopped ==>
                && Restored() && |script| < |old(script)| && Waited(old(Now()), Now())
                && AllBegun(old(Now()), Now(), old(superMask) * (All() - tasks), evtWaited)
                && QuietRun(old(Now()), Now(), old(superMask) * (All() - tasks), evtWaited)
      decreases |script|, 5
    {
      hide *;
      Run(All() - tasks);
    }

    ghost method Begin(t: nat)
      requires Valid() && t !in active
      modifies this`active
      ensures Valid() && active == old(active) + [t] && active[..|active| - 1] == old(active)
    {
      hide Bookkept, Logged, Distinct, Step.Fits;
      DistinctAppend(active, t);
      active := active + [t];
    }

    ghost method End()
      requires Valid() && active != []
      modifies this`active
      ensures Valid() && active == old(active)[..|old(active)| - 1]
    {
      hide Bookkept, Logged, Distinct, Step.Fits;
      DistinctFront(active);
      active := active[..|active| - 1];
    }

  }
}
