/**
 What runs of the task sequencer do: the calls and actions of a script, and how pending tasks, events
 and the tasks begun at one moment relate to those at a later one.
 */
module TaskRuns {
  import opened Basics
  import opened RoundRobin

  type Events = set<nat>

  /** Calls that interrupts and tasks make. */
  datatype Op =
    | Set(tasks: Tasks, level: nat)
    | Pause(tasks: Tasks)
    | Resume(tasks: Tasks)
    | Signal(events: Events)
    | Clear(events: Events)
  {
    predicate Fits(levels: nat) {
      match this
      case Set(tasks, level) => tasks <= All() && level < levels
      case Pause(tasks) => tasks <= All()
      case Resume(tasks) => tasks <= All()
      case _ => true
    }
  }

  /** What a running task does next. */
  datatype Action = Call(op: Op) | WaitFor(events: Events) | Return

  datatype Step = Strike(interrupts: seq<Op>) | Act(action: Action) {
    predicate Fits(levels: nat) {
      match this
      case Strike(ops) => forall i :: 0 <= i < |ops| ==> ops[i].Fits(levels)
      case Act(action) => action.Call? ==> action.op.Fits(levels)
    }
  }

  datatype Hook = PreIdle | Idle | PostIdle

  // ---- what calls do ----

  function TasksSet(ops: seq<Op>): Tasks {
    if ops == [] then {}
    else
      var last := ops[|ops| - 1];
      TasksSet(ops[..|ops| - 1]) + if last.Set? then last.tasks else {}
  }

  function TasksSetAt(ops: seq<Op>, level: nat): Tasks {
    if ops == [] then {}
    else
      var last := ops[|ops| - 1];
      TasksSetAt(ops[..|ops| - 1], level) + if last.Set? && last.level == level then last.tasks else {}
  }

  function TaskMaskAfter(ops: seq<Op>, mask: Tasks): Tasks {
    if ops == [] then mask
    else
      var last, before := ops[|ops| - 1], TaskMaskAfter(ops[..|ops| - 1], mask);
      match last
      case Pause(tasks) => before - tasks
      case Resume(tasks) => before + tasks
      case _ => before
  }

  function EventsAfter(ops: seq<Op>, events: Events): Events {
    if ops == [] then events
    else
      var last, before := ops[|ops| - 1], EventsAfter(ops[..|ops| - 1], events);
      match last
      case Signal(e) => before + e
      case Clear(e) => before - e
      case _ => before
  }

  function TasksPaused(ops: seq<Op>): Tasks {
    if ops == [] then {}
    else
      var last := ops[|ops| - 1];
      TasksPaused(ops[..|ops| - 1]) + if last.Pause? then last.tasks else {}
  }

  function TasksResumed(ops: seq<Op>): Tasks {
    if ops == [] then {}
    else
      var last := ops[|ops| - 1];
      TasksResumed(ops[..|ops| - 1]) + if last.Resume? then last.tasks else {}
  }

  function Signalled(ops: seq<Op>): Events {
    if ops == [] then {}
    else
      var last := ops[|ops| - 1];
      Signalled(ops[..|ops| - 1]) + if last.Signal? then last.events else {}
  }

  function Cleared(ops: seq<Op>): Events {
    if ops == [] then {}
    else
      var last := ops[|ops| - 1];
      Cleared(ops[..|ops| - 1]) + if last.Clear? then last.events else {}
  }

  /** Calls made one after the other. */
  lemma CallsJoined(a: seq<Op>, b: seq<Op>)
    ensures TasksSet(a + b) == TasksSet(a) + TasksSet(b)
    ensures forall level: nat :: TasksSetAt(a + b, level) == TasksSetAt(a, level) + TasksSetAt(b, level)
    ensures forall mask :: TaskMaskAfter(a + b, mask) == TaskMaskAfter(b, TaskMaskAfter(a, mask))
    ensures forall events :: EventsAfter(a + b, events) == EventsAfter(b, EventsAfter(a, events))
    ensures TasksPaused(a + b) == TasksPaused(a) + TasksPaused(b)
    ensures TasksResumed(a + b) == TasksResumed(a) + TasksResumed(b)
    ensures Signalled(a + b) == Signalled(a) + Signalled(b) && Cleared(a + b) == Cleared(a) + Cleared(b)
  {
    SetsJoined(a, b);
    MasksJoined(a, b);
    EventsJoined(a, b);
  }

  lemma {:induction false} SetsJoined(a: seq<Op>, b: seq<Op>)
    ensures TasksSet(a + b) == TasksSet(a) + TasksSet(b)
    ensures forall level: nat :: TasksSetAt(a + b, level) == TasksSetAt(a, level) + TasksSetAt(b, level)
    decreases |b|
  {
    if b == [] {
      assert a + b == a;
    } else {
      assert (a + b)[..|a + b| - 1] == a + b[..|b| - 1];
      SetsJoined(a, b[..|b| - 1]);
    }
  }

  lemma {:induction false} MasksJoined(a: seq<Op>, b: seq<Op>)
    ensures forall mask :: TaskMaskAfter(a + b, mask) == TaskMaskAfter(b, TaskMaskAfter(a, mask))
    ensures TasksPaused(a + b) == TasksPaused(a) + TasksPaused(b)
    ensures TasksResumed(a + b) == TasksResumed(a) + TasksResumed(b)
    decreases |b|
  {
    if b == [] {
      assert a + b == a;
    } else {
      assert (a + b)[..|a + b| - 1] == a + b[..|b| - 1];
      MasksJoined(a, b[..|b| - 1]);
    }
  }

  lemma {:induction false} EventsJoined(a: seq<Op>, b: seq<Op>)
    ensures forall events :: EventsAfter(a + b, events) == EventsAfter(b, EventsAfter(a, events))
    ensures Signalled(a + b) == Signalled(a) + Signalled(b) && Cleared(a + b) == Cleared(a) + Cleared(b)
    decreases |b|
  {
    if b == [] {
      assert a + b == a;
    } else {
      assert (a + b)[..|a + b| - 1] == a + b[..|b| - 1];
      EventsJoined(a, b[..|b| - 1]);
    }
  }

  /** How far calls can change the task mask and the events. */
  lemma {:induction false} CallsBounded(ops: seq<Op>, mask: Tasks, events: Events)
    ensures mask - TasksPaused(ops) <= TaskMaskAfter(ops, mask) <= mask + TasksResumed(ops)
    ensures EventsAfter(ops, events) <= events + Signalled(ops) <= EventsAfter(ops, events) + Cleared(ops)
  {
    if ops != [] {
      CallsBounded(ops[..|ops| - 1], mask, events);
    }
  }

  function OpsIn(step: Step): seq<Op> {
    match step
    case Strike(ops) => ops
    case Act(Call(op)) => [op]
    case _ => []
  }

  /** The calls of some steps, in order. */
  function OpsOf(steps: seq<Step>): seq<Op> {
    if steps == [] then [] else OpsOf(steps[..|steps| - 1]) + OpsIn(steps[|steps| - 1])
  }

  function UsedIn(step: Step): Events {
    match step
    case Strike(ops) => Cleared(ops)
    case Act(Call(op)) => Cleared([op])
    case Act(WaitFor(events)) => events
    case Act(Return) => {}
  }

  /** The events that are cleared, or waited for and used up. */
  function UsedUp(steps: seq<Step>): Events {
    if steps == [] then {} else UsedUp(steps[..|steps| - 1]) + UsedIn(steps[|steps| - 1])
  }

  lemma {:induction false} StepsJoined(a: seq<Step>, b: seq<Step>)
    ensures OpsOf(a + b) == OpsOf(a) + OpsOf(b) && UsedUp(a + b) == UsedUp(a) + UsedUp(b)
    decreases |b|
  {
    hide OpsIn, UsedIn;
    if b == [] {
      assert a + b == a;
    } else {
      assert (a + b)[..|a + b| - 1] == a + b[..|b| - 1];
      StepsJoined(a, b[..|b| - 1]);
    }
  }

  lemma OneStep(step: Step)
    ensures OpsOf([step]) == OpsIn(step) && UsedUp([step]) == UsedIn(step)
  {
    hide OpsIn, UsedIn;
    assert [step][..0] == [];
  }

  /** No calls and no waits: every action is a return. */
  predicate Quiet(steps: seq<Step>) {
    OpsOf(steps) == [] && forall i :: 0 <= i < |steps| && steps[i].Act? ==> steps[i].action == Return
  }

  lemma QuietParts(a: seq<Step>, b: seq<Step>)
    ensures Quiet(a + b) <==> Quiet(a) && Quiet(b)
  {
    StepsJoined(a, b);
    if Quiet(a + b) {
      forall i | 0 <= i < |a| && a[i].Act? ensures a[i].action == Return {
        assert (a + b)[i] == a[i];
      }
      forall i | 0 <= i < |b| && b[i].Act? ensures b[i].action == Return {
        assert (a + b)[|a| + i] == b[i];
      }
    }
  }

  // ---- what becomes of tasks and events ----

  /** What everything else can see of the sequencer: `begun` are the tasks whose functions were called. */
  datatype Seen = Seen(taskSet: Tasks, taskMask: Tasks, evtSet: Events, begun: seq<nat>, hooks: seq<Hook>,
                       script: seq<Step>)

  ghost predicate Later(a: Seen, b: Seen) {
    && |b.script| <= |a.script| && b.script == a.script[|a.script| - |b.script|..]
    && a.begun <= b.begun && a.hooks <= b.hooks
  }

  /** The steps taken. */
  ghost function Taken(a: Seen, b: Seen): (steps: seq<Step>)
    requires Later(a, b)
    ensures a.script == steps + b.script
  {
    a.script[..|a.script| - |b.script|]
  }

  ghost function Calls(a: Seen, b: Seen): seq<Op>
    requires Later(a, b)
  {
    OpsOf(Taken(a, b))
  }

  /** The tasks begun. */
  ghost function Begun(a: Seen, b: Seen): seq<nat>
    requires Later(a, b)
  {
    b.begun[|a.begun|..]
  }

  /** No task is pending or begun that was not pending or set, and none gets lost: it stays pending until it is begun.
      It is pending again, or begun again, only if it was set again. */
  ghost predicate TasksKept(a: Seen, b: Seen)
    requires Later(a, b)
  {
    var set', begun := a.taskSet + TasksSet(Calls(a, b)), Begun(a, b);
    && b.taskSet <= set' && (forall t :: t in begun ==> t in set')
    && (forall t :: t in set' ==> t in b.taskSet || t in begun)
    && (forall t :: t in begun && t in b.taskSet ==> t in TasksSet(Calls(a, b)))
    && (forall i, j :: 0 <= i < j < |begun| && begun[i] == begun[j] ==> begun[j] in TasksSet(Calls(a, b)))
  }

  /** Events are there only if they were or were signalled, and disappear only if they are cleared, waited for, or among
      those `used`. */
  ghost predicate EventsKept(a: Seen, b: Seen, used: Events)
    requires Later(a, b)
  {
    && b.evtSet <= a.evtSet + Signalled(Calls(a, b))
    && a.evtSet + Signalled(Calls(a, b)) <= b.evtSet + UsedUp(Taken(a, b)) + used
  }

  /** What happens between two moments; every call was carried out. */
  ghost predicate Moves(a: Seen, b: Seen, used: Events) {
    && Later(a, b) && TasksKept(a, b) && EventsKept(a, b, used)
    && b.taskMask == TaskMaskAfter(Calls(a, b), a.taskMask)
  }

  /** Every wait saw one of its events, and used them up. */
  ghost predicate Waited(a: Seen, b: Seen) {
    && Later(a, b)
    && forall i :: 0 <= i < |Taken(a, b)| && Taken(a, b)[i].Act? && Taken(a, b)[i].action.WaitFor? ==>
         var events := Taken(a, b)[i].action.events;
         && (a.evtSet + Signalled(Calls(a, b))) * events != {}
         && b.evtSet * events <= Signalled(OpsOf(Taken(a, b)[i + 1..]))
  }

  /** Only tasks of a mask were begun, and only such as were unmasked or resumed. */
  ghost predicate Allowed(a: Seen, b: Seen, mask: Tasks) {
    Later(a, b) && forall t :: t in Begun(a, b) ==> t in mask && t in a.taskMask + TasksResumed(Calls(a, b))
  }

  /** All tasks of a mask that were pending and unmasked were begun, but for those paused meanwhile, if none of the
      events waited for has come. */
  ghost predicate AllBegun(a: Seen, b: Seen, mask: Tasks, waited: Events) {
    && Later(a, b)
    && ((a.evtSet + Signalled(Calls(a, b))) * waited == {} ==>
        forall t :: t in a.taskSet * a.taskMask * mask && t !in TasksPaused(Calls(a, b)) ==> t in Begun(a, b))
  }

  /** What a run does if nothing else happens: all tasks of its mask, pending and unmasked, are begun, and the device
      idles; but not if an event waited for is there already. */
  ghost predicate QuietRun(a: Seen, b: Seen, mask: Tasks, waited: Events) {
    && Later(a, b)
    && (Quiet(Taken(a, b)) ==>
        && b.taskMask == a.taskMask && b.evtSet == a.evtSet
        && if a.evtSet * waited != {} then
             b.taskSet == a.taskSet && b.begun == a.begun && b.hooks == a.hooks + [PreIdle, PostIdle]
           else
             && b.taskSet == a.taskSet - a.taskMask * mask && b.hooks == a.hooks + [PreIdle, Idle, PostIdle]
             && (forall t :: t in Begun(a, b) <==> t in a.taskSet * a.taskMask * mask)
             && Distinct(Begun(a, b)))
  }

  lemma {:induction false} LaterTwice(a: Seen, m: Seen, b: Seen)
    requires Later(a, m) && Later(m, b)
    ensures Later(a, b)
    ensures Taken(a, b) == Taken(a, m) + Taken(m, b) && Begun(a, b) == Begun(a, m) + Begun(m, b)
    ensures Calls(a, b) == Calls(a, m) + Calls(m, b) && UsedUp(Taken(a, b)) == UsedUp(Taken(a, m)) + UsedUp(Taken(m, b))
    ensures TasksSet(Calls(a, b)) == TasksSet(Calls(a, m)) + TasksSet(Calls(m, b))
    ensures TasksPaused(Calls(a, b)) == TasksPaused(Calls(a, m)) + TasksPaused(Calls(m, b))
    ensures TasksResumed(Calls(a, b)) == TasksResumed(Calls(a, m)) + TasksResumed(Calls(m, b))
    ensures Signalled(Calls(a, b)) == Signalled(Calls(a, m)) + Signalled(Calls(m, b))
    ensures forall mask :: TaskMaskAfter(Calls(a, b), mask)
                        == TaskMaskAfter(Calls(m, b), TaskMaskAfter(Calls(a, m), mask))
    ensures Quiet(Taken(a, b)) <==> Quiet(Taken(a, m)) && Quiet(Taken(m, b))
  {
    hide OpsOf, UsedUp, TasksSet, TasksPaused, TasksResumed, Signalled, Cleared, TaskMaskAfter, EventsAfter, Quiet;
    assert Taken(a, b) == Taken(a, m) + Taken(m, b);
    assert Begun(a, b) == Begun(a, m) + Begun(m, b);
    StepsJoined(Taken(a, m), Taken(m, b));
    CallsJoined(Calls(a, m), Calls(m, b));
    QuietParts(Taken(a, m), Taken(m, b));
  }

  lemma NothingMoves(a: Seen, mask: Tasks)
    ensures Moves(a, a, {}) && Waited(a, a) && Allowed(a, a, mask) && Taken(a, a) == [] && Calls(a, a) == []
    ensures Begun(a, a) == [] && Quiet(Taken(a, a))
  {
  }

  lemma MovesTwice(a: Seen, m: Seen, b: Seen, used: Events, used': Events)
    requires Moves(a, m, used) && Moves(m, b, used')
    ensures Moves(a, b, used + used')
  {
    hide Taken, Begun, Calls, TasksSet, Signalled, TaskMaskAfter, UsedUp, TasksKept, EventsKept, Later;
    LaterTwice(a, m, b);
    TasksKeptTwice(a, m, b);
    EventsKeptTwice(a, m, b, used, used');
  }

  lemma MovesOn(a: Seen, m: Seen, b: Seen, used: Events)
    requires Moves(a, m, {}) && Moves(m, b, used)
    ensures Moves(a, b, used)
  {
    hide Moves;
    MovesTwice(a, m, b, {}, used);
    assert {} + used == used;
  }

  lemma TasksKeptTwice(a: Seen, m: Seen, b: Seen)
    requires Later(a, m) && Later(m, b) && Later(a, b) && TasksKept(a, m) && TasksKept(m, b)
    ensures TasksKept(a, b)
  {
    hide Taken, Begun, Calls, TasksSet, Later;
    LaterTwice(a, m, b);
    var begun, first, second := Begun(a, b), Begun(a, m), Begun(m, b);
    forall i, j | 0 <= i < j < |begun| && begun[i] == begun[j] ensures begun[j] in TasksSet(Calls(a, b)) {
      if j < |first| {
        assert first[i] == first[j];
      } else if i >= |first| {
        assert second[i - |first|] == second[j - |first|];
      } else {
        assert begun[i] == first[i] && begun[j] == second[j - |first|];
      }
    }
  }

  lemma EventsKeptTwice(a: Seen, m: Seen, b: Seen, used: Events, used': Events)
    requires Later(a, m) && Later(m, b) && Later(a, b) && EventsKept(a, m, used) && EventsKept(m, b, used')
    ensures EventsKept(a, b, used + used')
  {
    hide Taken, Begun, Calls, Signalled, Later, UsedUp;
    LaterTwice(a, m, b);
  }

  lemma WaitedTwice(a: Seen, m: Seen, b: Seen, used: Events, used': Events)
    requires Moves(a, m, used) && Moves(m, b, used') && Waited(a, m) && Waited(m, b)
    ensures Waited(a, b)
  {
    hide Begun, Signalled, UsedUp, TasksKept, TaskMaskAfter, OpsOf, TasksSet;
    LaterTwice(a, m, b);
    var all, first, second := Taken(a, b), Taken(a, m), Taken(m, b);
    forall i | 0 <= i < |all| && all[i].Act? && all[i].action.WaitFor?
      ensures (a.evtSet + Signalled(Calls(a, b))) * all[i].action.events != {}
      ensures b.evtSet * all[i].action.events <= Signalled(OpsOf(all[i + 1..]))
    {
      if i < |first| {
        assert all[i] == first[i] && all[i + 1..] == first[i + 1..] + second;
        StepsJoined(first[i + 1..], second);
        CallsJoined(OpsOf(first[i + 1..]), OpsOf(second));
      } else {
        assert all[i] == second[i - |first|] && all[i + 1..] == second[i - |first| + 1..];
      }
    }
  }

  lemma AllowedTwice(a: Seen, m: Seen, b: Seen, used: Events, mask: Tasks)
    requires Moves(a, m, used) && Allowed(a, m, mask) && Allowed(m, b, mask)
    ensures Allowed(a, b, mask)
  {
    hide Taken, Begun, Calls, TasksSet, Signalled, UsedUp, TasksKept, EventsKept, TaskMaskAfter, TasksResumed, Later;
    LaterTwice(a, m, b);
    CallsBounded(Calls(a, m), a.taskMask, a.evtSet);
  }

  lemma AllowedByMore(a: Seen, b: Seen, mask: Tasks, mask': Tasks)
    requires Allowed(a, b, mask) && mask <= mask'
    ensures Allowed(a, b, mask')
  {
    hide Taken, Begun, Calls, TasksResumed, Later;
  }

  /** Where `k` steps lead that make the calls `ops`. */
  ghost function AfterCalls(a: Seen, ops: seq<Op>, k: nat): Seen
    requires k <= |a.script|
  {
    a.(taskSet := a.taskSet + TasksSet(ops), taskMask := TaskMaskAfter(ops, a.taskMask),
       evtSet := EventsAfter(ops, a.evtSet), script := a.script[k..])
  }

  lemma {:induction false} ClearedIsUsed(steps: seq<Step>)
    ensures Cleared(OpsOf(steps)) <= UsedUp(steps)
  {
    if steps != [] {
      var last := steps[|steps| - 1];
      ClearedIsUsed(steps[..|steps| - 1]);
      OneStep(last);
      CallsJoined(OpsOf(steps[..|steps| - 1]), OpsOf([last]));
    }
  }

  lemma CallsMove(a: Seen, k: nat, mask: Tasks)
    requires k <= |a.script|
    requires forall i :: 0 <= i < k ==> a.script[i].Strike? || a.script[i].action.Call?
    ensures var b := AfterCalls(a, OpsOf(a.script[..k]), k);
            && Moves(a, b, {}) && Waited(a, b) && Allowed(a, b, mask)
            && Taken(a, b) == a.script[..k] && Calls(a, b) == OpsOf(a.script[..k]) && Begun(a, b) == []
  {
    hide OpsOf, TasksSet, TaskMaskAfter, EventsAfter, UsedUp, Cleared, Signalled;
    var ops := OpsOf(a.script[..k]);
    var b := AfterCalls(a, ops, k);
    assert |a.script| - |b.script| == k;
    CallsBounded(ops, a.taskMask, a.evtSet);
    ClearedIsUsed(a.script[..k]);
  }

  /** A return is an action without calls. */
  lemma ReturnMoves(a: Seen, mask: Tasks)
    requires a.script != [] && a.script[0] == Act(Return)
    ensures var b := a.(script := a.script[1..]);
            && Moves(a, b, {}) && Waited(a, b) && Allowed(a, b, mask)
            && Taken(a, b) == [Act(Return)] && Begun(a, b) == [] && Quiet(Taken(a, b))
  {
    var b := a.(script := a.script[1..]);
    assert Taken(a, b) == [Act(Return)];
    OneStep(Act(Return));
  }

  lemma WaitTaken(a: Seen, b: Seen, events: Events)
    requires a.script != [] && a.script[0] == Act(WaitFor(events)) && Later(a.(script := a.script[1..]), b)
    ensures var m := a.(script := a.script[1..]);
            && Later(a, b) && Taken(a, b) == [a.script[0]] + Taken(m, b) && !Quiet(Taken(a, b))
            && Calls(a, b) == Calls(m, b) && Begun(a, b) == Begun(m, b)
            && UsedUp(Taken(a, b)) == events + UsedUp(Taken(m, b))
  {
    hide OpsOf, UsedUp;
    var step, m := a.script[0], a.(script := a.script[1..]);
    assert Taken(a, b) == [step] + Taken(m, b);
    OneStep(step);
    StepsJoined([step], Taken(m, b));
    assert Taken(a, b)[0] == step;
  }

  /** A wait that saw its events and used them up, whatever else happened meanwhile. */
  lemma WaitMoves(a: Seen, b: Seen, events: Events, mask: Tasks)
    requires a.script != [] && a.script[0] == Act(WaitFor(events))
    requires var m := a.(script := a.script[1..]); Moves(m, b, events) && Allowed(m, b, mask)
    ensures Moves(a, b, {}) && Allowed(a, b, mask) && !Quiet(Taken(a, b))
    ensures var m := a.(script := a.script[1..]);
            Waited(m, b) && (m.evtSet + Signalled(Calls(m, b))) * events != {} && b.evtSet * events == {} ==>
              Waited(a, b)
  {
    hide TasksSet, TaskMaskAfter, EventsAfter, TasksResumed, Signalled, OpsOf, UsedUp, Quiet, Taken, Calls, Begun,
         Later;
    WaitTaken(a, b, events);
    if Waited(a.(script := a.script[1..]), b) { WaitedToo(a, b, events); }
  }

  lemma WaitedToo(a: Seen, b: Seen, events: Events)
    requires a.script != [] && a.script[0] == Act(WaitFor(events))
    requires Waited(a.(script := a.script[1..]), b)
    ensures var m := a.(script := a.script[1..]);
            (m.evtSet + Signalled(Calls(m, b))) * events != {} && b.evtSet * events == {} ==> Waited(a, b)
  {
    hide Signalled, OpsOf, UsedUp, Quiet, Taken, Calls, Begun, Later;
    WaitTaken(a, b, events);
    var m := a.(script := a.script[1..]);
    var all, rest := Taken(a, b), Taken(m, b);
    if (m.evtSet + Signalled(Calls(m, b))) * events != {} && b.evtSet * events == {} {
      forall i | 0 <= i < |all| && all[i].Act? && all[i].action.WaitFor?
        ensures (a.evtSet + Signalled(Calls(a, b))) * all[i].action.events != {}
        ensures b.evtSet * all[i].action.events <= Signalled(OpsOf(all[i + 1..]))
      {
        if i > 0 { assert all[i] == rest[i - 1] && all[i + 1..] == rest[i..]; }
      }
    }
  }

  /** A task is taken from the pending ones and begun. */
  lemma SelectMoves(a: Seen, k: nat, t: nat)
    requires k <= |a.script| && forall i :: 0 <= i < k ==> a.script[i].Strike?
    requires t in a.taskSet + TasksSet(OpsOf(a.script[..k]))
    ensures var m := AfterCalls(a, OpsOf(a.script[..k]), k);
            var b := m.(taskSet := m.taskSet - {t}, begun := a.begun + [t]);
            && Moves(a, b, {}) && Waited(a, b)
            && Taken(a, b) == a.script[..k] && Calls(a, b) == OpsOf(a.script[..k]) && Begun(a, b) == [t]
  {
    hide OpsOf, TasksSet, TaskMaskAfter, EventsAfter, UsedUp, Cleared, Signalled;
    CallsMove(a, k, {});
    var m := AfterCalls(a, OpsOf(a.script[..k]), k);
    var b := m.(taskSet := m.taskSet - {t}, begun := a.begun + [t]);
    assert Taken(a, b) == Taken(a, m) && Begun(a, b) == [t];
  }

  // ---- interrupts ----

  /** How many steps the next `k` points take at which an interrupt may strike. */
  ghost function Lead(script: seq<Step>, k: nat): (n: nat)
    ensures n <= |script| && n <= k && forall i :: 0 <= i < n ==> script[i].Strike?
  {
    if k == 0 || script == [] || !script[0].Strike? then 0 else 1 + Lead(script[1..], k - 1)
  }

  /** The calls made there. */
  ghost function OpsBy(script: seq<Step>, k: nat): seq<Op> {
    OpsOf(script[..Lead(script, k)])
  }

  lemma {:induction false} LeadNext(script: seq<Step>, k: nat)
    ensures var n, rest := Lead(script, k), script[Lead(script, k)..];
            && Lead(script, k + 1) == n + Lead(rest, 1)
            && OpsBy(script, k + 1) == OpsBy(script, k) + OpsBy(rest, 1)
            && script[Lead(script, k + 1)..] == rest[Lead(rest, 1)..]
  {
    hide OpsOf;
    var n, rest := Lead(script, k), script[Lead(script, k)..];
    LeadOfNext(script, k);
    assert script[..n + Lead(rest, 1)] == script[..n] + rest[..Lead(rest, 1)];
    StepsJoined(script[..n], rest[..Lead(rest, 1)]);
  }

  lemma {:induction false} LeadOfNext(script: seq<Step>, k: nat)
    ensures Lead(script, k + 1) == Lead(script, k) + Lead(script[Lead(script, k)..], 1)
  {
    if k > 0 && script != [] && script[0].Strike? {
      LeadOfNext(script[1..], k - 1);
      assert script[Lead(script, k)..] == script[1..][Lead(script[1..], k - 1)..];
    } else {
      assert script[0..] == script;
    }
  }

  lemma AfterCallsTwice(a: Seen, ops: seq<Op>, k: nat, ops': seq<Op>, k': nat)
    requires k <= |a.script| && k' <= |a.script[k..]|
    ensures AfterCalls(AfterCalls(a, ops, k), ops', k') == AfterCalls(a, ops + ops', k + k')
  {
    hide TasksSet, TaskMaskAfter, EventsAfter;
    CallsJoined(ops, ops');
    assert a.script[k..][k'..] == a.script[k + k'..];
  }

  /** One call. */
  lemma OneCall(op: Op)
    ensures TasksSet([op]) == (if op.Set? then op.tasks else {})
    ensures forall l :: TasksSetAt([op], l) == if op.Set? && op.level == l then op.tasks else {}
    ensures forall mask :: TaskMaskAfter([op], mask) == if op.Pause? then mask - op.tasks
                                                        else if op.Resume? then mask + op.tasks else mask
    ensures forall events :: EventsAfter([op], events) == if op.Signal? then events + op.events
                                                          else if op.Clear? then events - op.events else events
  {
    assert [op][..0] == [];
  }

  lemma {:induction false} SetAtIsSet(ops: seq<Op>, level: nat)
    ensures TasksSetAt(ops, level) <= TasksSet(ops)
  {
    if ops != [] {
      SetAtIsSet(ops[..|ops| - 1], level);
    }
  }

  /** What a run knows of the tasks and events from when it looked last. */
  ghost predicate Looked(a: Seen, b: Seen, tasks: Tasks, events: Events, mask: Tasks) {
    && Later(a, b) && tasks <= b.taskSet
    && (forall t :: t in a.taskSet ==> t in tasks || t in Begun(a, b))
    && events <= a.evtSet + Signalled(Calls(a, b))
    && a.taskMask - TasksPaused(Calls(a, b)) <= mask <= a.taskMask + TasksResumed(Calls(a, b))
  }

  lemma LookedNow(a: Seen, m: Seen, tasks: Tasks, events: Events, mask: Tasks, all: Tasks)
    requires Moves(a, m, {}) && tasks == m.taskSet && events == EventsAfter(OpsBy(m.script, 1), m.evtSet)
    requires mask == TaskMaskAfter(OpsBy(m.script, 2), m.taskMask)
    ensures var b := AfterCalls(m, OpsBy(m.script, 3), Lead(m.script, 3));
            && Moves(m, b, {}) && Waited(m, b) && Allowed(m, b, all) && Begun(m, b) == []
            && Moves(a, b, {}) && Looked(a, b, tasks, events, mask)
            && Taken(m, b) == m.script[..Lead(m.script, 3)]
  {
    hide TasksSet, TaskMaskAfter, EventsAfter, UsedUp, Cleared, Signalled, TasksPaused, TasksResumed, Lead, OpsOf,
         TasksKept, EventsKept;
    var b := AfterCalls(m, OpsBy(m.script, 3), Lead(m.script, 3));
    CallsMove(m, Lead(m.script, 3), all);
    MovesOn(a, m, b, {});
    LaterTwice(a, m, b);
    var first, second, third := OpsBy(m.script, 1), OpsBy(m.script, 2), OpsBy(m.script, 3);
    LeadNext(m.script, 1);
    LeadNext(m.script, 2);
    var then' := OpsBy(m.script[Lead(m.script, 1)..], 1);
    var last := OpsBy(m.script[Lead(m.script, 2)..], 1);
    CallsJoined(first, then');
    CallsJoined(second, last);
    CallsBounded(first, m.taskMask, m.evtSet);
    CallsBounded(second, m.taskMask, m.evtSet);
    CallsBounded(Calls(a, m), a.taskMask, a.evtSet);
    LookedFrom(a, m, tasks);
  }

  lemma LookedFrom(a: Seen, m: Seen, tasks: Tasks)
    requires Moves(a, m, {}) && tasks == m.taskSet
    ensures forall t :: t in a.taskSet ==> t in tasks || t in Begun(a, m)
    ensures m.evtSet <= a.evtSet + Signalled(Calls(a, m))
  {
    hide TasksSet, TaskMaskAfter, UsedUp, Signalled;
  }

  /** When the loop of a run ends, all its tasks were begun. */
  lemma LoopEnds(a: Seen, b: Seen, tasks: Tasks, events: Events, mask: Tasks, all: Tasks, waited: Events)
    requires Looked(a, b, tasks, events, mask) && (tasks * mask * all == {} || events * waited != {})
    ensures AllBegun(a, b, all, waited)
  {
    hide Calls, TasksPaused, TasksResumed, Signalled, Begun, Later;
    if (a.evtSet + Signalled(Calls(a, b))) * waited == {} {
      assert events * waited <= (a.evtSet + Signalled(Calls(a, b))) * waited;
      assert tasks * mask * all == {};
      forall t | t in a.taskSet * a.taskMask * all && t !in TasksPaused(Calls(a, b)) ensures t in Begun(a, b) {
        assert t in mask && t !in tasks * mask * all;
      }
    }
  }

  lemma AllBegunLater(a: Seen, m: Seen, b: Seen, mask: Tasks, waited: Events)
    requires AllBegun(a, m, mask, waited) && Later(m, b)
    ensures AllBegun(a, b, mask, waited)
  {
    hide Calls, Taken, TasksPaused, Signalled, Begun, TasksSet, TasksResumed, UsedUp, Later, Quiet, TaskMaskAfter;
    LaterTwice(a, m, b);
  }

  /** What idling does if nothing else happens: the hook in between is for a device with nothing to do. */
  ghost predicate QuietIdle(a: Seen, b: Seen, mask: Tasks, waited: Events) {
    && Later(a, b)
    && (Quiet(Taken(a, b)) ==>
          var idle := if a.taskSet * a.taskMask * mask == {} && a.evtSet * waited == {} then [Idle] else [];
          b == a.(hooks := a.hooks + [PreIdle] + idle + [PostIdle], script := b.script))
  }

  lemma QuietMoves(a: Seen, b: Seen)
    requires Moves(a, b, {}) && Quiet(Taken(a, b))
    ensures b.taskMask == a.taskMask && b.evtSet == a.evtSet
    ensures forall t :: t in b.taskSet <==> t in a.taskSet && t !in Begun(a, b)
    ensures Distinct(Begun(a, b)) && (forall t :: t in Begun(a, b) ==> t in a.taskSet)
  {
    hide Begun, Later;
    QuietUses(Taken(a, b));
  }

  lemma {:induction false} QuietUses(steps: seq<Step>)
    requires Quiet(steps)
    ensures UsedUp(steps) == {}
  {
    if steps != [] {
      var front, last := steps[..|steps| - 1], steps[|steps| - 1];
      assert steps == front + [last];
      QuietParts(front, [last]);
      QuietUses(front);
      assert OpsOf([last]) == [] && (last.Act? ==> last.action == Return) by {
        assert [last][0] == last;
      }
      OneStep(last);
      StepsJoined(front, [last]);
    }
  }

  /** Its loop first and then its idling make a run; `m` is in between. */
  lemma RunIsQuiet(a: Seen, m: Seen, b: Seen, mask: Tasks, waited: Events)
    requires Moves(a, m, {}) && Moves(m, b, {}) && Allowed(a, m, mask) && AllBegun(a, m, mask, waited)
    requires QuietIdle(m, b, mask, waited)
    requires Quiet(Taken(a, m)) ==> m.hooks == a.hooks && (a.evtSet * waited != {} ==> m.begun == a.begun)
    ensures QuietRun(a, b, mask, waited)
  {
    hide TasksSet, TasksResumed, TaskMaskAfter, UsedUp, Signalled, TasksPaused, Later, Taken, TasksKept, EventsKept,
         Quiet, Distinct, Begun;
    LaterTwice(a, m, b);
    MovesOn(a, m, b, {});
    if Quiet(Taken(a, b)) {
      QuietMoves(a, m);
      QuietMoves(a, b);
      NoCallsMade(a, m);
      SameBegun(a, m, b);
      assert forall t :: t in Begun(a, m) ==> t in a.taskSet * a.taskMask * mask;
    }
  }

  lemma NoCallsMade(a: Seen, b: Seen)
    requires Later(a, b) && Quiet(Taken(a, b))
    ensures TasksSet(Calls(a, b)) == {} && TasksResumed(Calls(a, b)) == {} && TasksPaused(Calls(a, b)) == {}
    ensures Signalled(Calls(a, b)) == {}
  {
  }

  lemma SameBegun(a: Seen, m: Seen, b: Seen)
    requires Later(a, m) && Later(a, b) && b.begun == m.begun
    ensures Begun(a, b) == Begun(a, m) && (m.begun == a.begun ==> Begun(a, m) == [])
    ensures Begun(a, m) == [] ==> m.begun == a.begun
  {
  }

  /** Events are used up. */
  lemma UseUpMoves(a: Seen, m: Seen, events: Events, mask: Tasks)
    requires Moves(a, m, {}) && Allowed(a, m, mask)
    ensures var b := m.(evtSet := m.evtSet - events);
            && Moves(a, b, events) && Allowed(a, b, mask) && Calls(a, b) == Calls(a, m)
            && (Waited(a, m) ==> Waited(a, b))
  {
    hide TasksSet, TasksResumed, TaskMaskAfter, UsedUp, Signalled, OpsOf;
    var b := m.(evtSet := m.evtSet - events);
    assert Taken(a, b) == Taken(a, m) && Begun(a, b) == Begun(a, m);
  }

  lemma NoCallsAfter(a: Seen)
    ensures AfterCalls(a, [], 0) == a
  {
    assert a.script[0..] == a.script;
  }

  lemma AfterCallsScript(a: Seen, ops: seq<Op>, k: nat)
    requires k <= |a.script|
    ensures AfterCalls(a, ops, k).script == a.script[k..]
  {
  }

  lemma AfterCallsFields(a: Seen, ops: seq<Op>, k: nat)
    requires k <= |a.script|
    ensures AfterCalls(a, ops, k).evtSet == EventsAfter(ops, a.evtSet)
    ensures AfterCalls(a, ops, k).taskMask == TaskMaskAfter(ops, a.taskMask)
  {
  }

  lemma AfterCallsKeep(a: Seen, ops: seq<Op>)
    ensures AfterCalls(a, ops, 0).script == a.script
  {
    assert a.script[0..] == a.script;
  }

  lemma MoreLater(script: seq<Step>, points: nat, level: nat)
    ensures TasksSetAt(OpsBy(script, points), level) <= TasksSetAt(OpsBy(script, points + 1), level)
  {
    hide OpsOf, TasksSetAt;
    LeadNext(script, points);
    CallsJoined(OpsBy(script, points), OpsBy(script[Lead(script, points)..], 1));
  }

  lemma CallsSetAt(a: seq<Op>, b: seq<Op>, c: seq<Op>)
    requires c == a + b
    ensures forall level: nat :: TasksSetAt(c, level) == TasksSetAt(a, level) + TasksSetAt(b, level)
  {
    hide TasksSetAt;
    CallsJoined(a, b);
  }

  ghost predicate Goes(a: Seen, b: Seen, mask: Tasks) {
    Moves(a, b, {}) && Allowed(a, b, mask)
  }

  /** Actions that came to their end; nothing but returns changes nothing. */
  ghost predicate Done(a: Seen, b: Seen, mask: Tasks) {
    Goes(a, b, mask) && Waited(a, b) && (Quiet(Taken(a, b)) ==> b == a.(script := b.script))
  }

  lemma NothingDone(a: Seen, mask: Tasks)
    ensures Done(a, a, mask)
  {
    hide Moves, Waited, Allowed, Quiet, Taken;
    NothingMoves(a, mask);
  }

  lemma GoesTwice(a: Seen, m: Seen, b: Seen, mask: Tasks)
    requires Goes(a, m, mask) && Goes(m, b, mask)
    ensures Goes(a, b, mask)
  {
    hide Moves, Allowed;
    MovesOn(a, m, b, {});
    AllowedTwice(a, m, b, {}, mask);
  }

  lemma DoneTwice(a: Seen, m: Seen, b: Seen, mask: Tasks)
    requires Done(a, m, mask) && Done(m, b, mask)
    ensures Done(a, b, mask)
  {
    hide Moves, Allowed, Waited, Quiet, Taken;
    GoesTwice(a, m, b, mask);
    WaitedTwice(a, m, b, {}, {});
    MovesAreLater(a, m, {});
    MovesAreLater(m, b, {});
    QuietTwice(a, m, b);
  }

  lemma MovesAreLater(a: Seen, b: Seen, used: Events)
    requires Moves(a, b, used)
    ensures Later(a, b) && |b.script| <= |a.script|
  {
    hide TasksKept, EventsKept;
  }

  lemma QuietTwice(a: Seen, m: Seen, b: Seen)
    requires Later(a, m) && Later(m, b)
    ensures Later(a, b) && (Quiet(Taken(a, b)) <==> Quiet(Taken(a, m)) && Quiet(Taken(m, b)))
  {
    hide Quiet, Taken, Begun, Calls, TasksSet, TasksPaused, TasksResumed, Signalled, UsedUp, TaskMaskAfter, Later;
    LaterTwice(a, m, b);
  }

  /** What interrupts do at some points. */
  lemma PointsDone(a: Seen, k: nat, mask: Tasks)
    ensures Done(a, AfterCalls(a, OpsBy(a.script, k), Lead(a.script, k)), mask)
  {
    hide OpsOf, Moves, Waited, Allowed, Lead;
    CallsMove(a, Lead(a.script, k), mask);
    NoOps(a);
  }

  lemma NoOps(a: Seen)
    ensures forall k: nat :: k <= |a.script| ==> AfterCalls(a, [], k) == a.(script := a.script[k..])
  {
  }

  /** A call that a task or a hook makes. */
  lemma CallDone(a: Seen, op: Op, mask: Tasks)
    requires a.script != [] && a.script[0] == Act(Call(op))
    ensures Done(a, AfterCalls(a, [op], 1), mask)
  {
    hide TasksSet, TaskMaskAfter, EventsAfter, Moves, Waited, Allowed, UsedUp;
    assert a.script[..1] == [a.script[0]];
    OneStep(a.script[0]);
    CallsMove(a, 1, mask);
  }

  lemma ReturnDone(a: Seen, mask: Tasks)
    requires a.script != [] && a.script[0] == Act(Return)
    ensures var b := a.(script := a.script[1..]); Done(a, b, mask) && Taken(a, b) == [Act(Return)]
  {
    hide Moves, Waited, Allowed;
    ReturnMoves(a, mask);
  }

  lemma WaitDone(a: Seen, b: Seen, events: Events, mask: Tasks)
    requires a.script != [] && a.script[0] == Act(WaitFor(events))
    requires var m := a.(script := a.script[1..]);
             Moves(m, b, events) && Allowed(m, b, mask)
    ensures Goes(a, b, mask)
    ensures var m := a.(script := a.script[1..]);
            Later(m, b)
            && (Waited(m, b) && (m.evtSet + Signalled(Calls(m, b))) * events != {} && b.evtSet * events == {} ==>
                  Done(a, b, mask))
  {
    hide Allowed, Waited, Signalled, Calls, Quiet, TasksKept, EventsKept;
    WaitMoves(a, b, events, mask);
  }

  /** The last step taken is a return. */
  ghost predicate EndsWithReturn(a: Seen, b: Seen) {
    Later(a, b) && Taken(a, b) != [] && Taken(a, b)[|Taken(a, b)| - 1] == Act(Return)
  }

  lemma EndsLater(a: Seen, m: Seen, b: Seen)
    requires Later(a, m) && EndsWithReturn(m, b)
    ensures EndsWithReturn(a, b)
  {
    hide OpsOf, UsedUp, TasksSet, TasksPaused, TasksResumed, Signalled, TaskMaskAfter, Quiet;
    LaterTwice(a, m, b);
  }

  lemma HookDone(a: Seen, hook: Hook, mask: Tasks)
    ensures var b := a.(hooks := a.hooks + [hook]); Goes(a, b, mask) && Waited(a, b) && Taken(a, b) == []
  {
    var b := a.(hooks := a.hooks + [hook]);
    assert Taken(a, b) == [] && Begun(a, b) == [];
  }

  /** A round of a run: a task was selected, with `s` as it is begun. */
  lemma RoundAllowed(a: Seen, m: Seen, s: Seen, t: nat, tasks: Tasks, events: Events, mask: Tasks, all: Tasks)
    requires Allowed(a, m, all) && Looked(a, m, tasks, events, mask) && t in mask * all
    requires Later(m, s) && Begun(m, s) == [t]
    ensures Allowed(a, s, all)
  {
    hide Taken, Begun, Calls, TasksSet, Signalled, UsedUp, TaskMaskAfter, TasksPaused, TasksResumed, Later, Quiet;
    LaterTwice(a, m, s);
  }

  /** What a look tells of the events if nothing else happened. */
  lemma QuietLook(a: Seen, events: Events)
    requires events == EventsAfter(OpsBy(a.script, 1), a.evtSet)
    ensures Quiet(a.script[..Lead(a.script, 3)]) ==> events == a.evtSet
  {
    LeadNext(a.script, 1);
    LeadNext(a.script, 2);
  }

  /** What was seen when a wait is over. */
  lemma WaitMet(a: Seen, m: Seen, events: Events)
    requires Moves(a, m, {}) && m.evtSet * events != {}
    ensures Later(a, m) && (a.evtSet + Signalled(Calls(a, m))) * events != {}
  {
    hide Signalled, Calls, TasksKept;
    assert m.evtSet * events <= (a.evtSet + Signalled(Calls(a, m))) * events;
  }

  /** The first look of a run. */
  lemma FirstLook(a: Seen, m: Seen, tasks: Tasks, events: Events, mask: Tasks, all: Tasks)
    requires m == AfterCalls(a, OpsBy(a.script, 3), Lead(a.script, 3)) && tasks == a.taskSet
    requires events == EventsAfter(OpsBy(a.script, 1), a.evtSet)
    requires mask == TaskMaskAfter(OpsBy(a.script, 2), a.taskMask)
    ensures Goes(a, m, all) && Waited(a, m) && Looked(a, m, tasks, events, mask) && Later(a, m)
    ensures Quiet(Taken(a, m)) ==> events == a.evtSet
    ensures m.begun == a.begun && m.hooks == a.hooks && |m.script| <= |a.script|
  {
    hide OpsBy, Lead, EventsAfter, TaskMaskAfter, TasksSet, Looked, Allowed, Waited, Quiet, TasksKept, EventsKept,
         Taken;
    NothingMoves(a, all);
    LookedNow(a, a, tasks, events, mask, all);
    QuietLook(a, events);
  }

  lemma LookedTasks(a: Seen, b: Seen, tasks: Tasks, events: Events, mask: Tasks)
    requires Looked(a, b, tasks, events, mask)
    ensures tasks <= b.taskSet
  {
  }

  /** The selection of a round, up to the begin of the task. */
  lemma SelectedMoves(a: Seen, m: Seen, s: Seen, level: nat, t: nat, tasks: Tasks, events: Events, mask: Tasks,
                      all: Tasks)
    requires Goes(a, m, all) && Waited(a, m) && Looked(a, m, tasks, events, mask) && t in mask * all
    requires t in m.taskSet + TasksSet(OpsBy(m.script, level + 3))
    requires var after := AfterCalls(m, OpsBy(m.script, level + 3), Lead(m.script, level + 3));
             s == after.(taskSet := after.taskSet - {t}, begun := m.begun + [t])
    ensures Goes(a, s, all) && Waited(a, s) && Later(a, m) && Later(m, s) && s.hooks == m.hooks
    ensures |s.script| <= |m.script|
  {
    hide OpsOf, TasksSet, TaskMaskAfter, EventsAfter, Looked, Allowed, Waited, TasksKept, EventsKept, Lead, Taken,
         Begun, Calls;
    SelectMoves(m, Lead(m.script, level + 3), t);
    MovesOn(a, m, s, {});
    WaitedTwice(a, m, s, {}, {});
    RoundAllowed(a, m, s, t, tasks, events, mask, all);
  }

  /** Then the task runs. */
  lemma RoundMoves(a: Seen, m: Seen, s: Seen, r: Seen, all: Tasks)
    requires Goes(a, s, all) && Goes(s, r, all) && Later(a, m) && Later(m, s) && s.hooks == m.hooks
    ensures Goes(a, r, all) && Later(m, r) && Later(a, r) && |r.script| <= |s.script|
    ensures Waited(a, s) && Done(s, r, all) ==>
              Waited(a, r) && (Quiet(Taken(m, r)) ==> r.hooks == m.hooks)
  {
    hide Moves, Allowed, Waited, Quiet, Taken, Later;
    GoesTwice(a, s, r, all);
    MovesAreLater(s, r, {});
    MovesAreLater(a, r, {});
    QuietTwice(m, s, r);
    if Waited(a, s) && Done(s, r, all) {
      WaitedTwice(a, s, r, {}, {});
    }
  }

  /** And the run looks again. */
  lemma LaterLook(a: Seen, m: Seen, r: Seen, n: Seen, tasks: Tasks, events: Events, mask: Tasks, all: Tasks)
    requires Goes(a, r, all) && Later(m, r) && n == AfterCalls(r, OpsBy(r.script, 3), Lead(r.script, 3))
    requires tasks == r.taskSet && events == EventsAfter(OpsBy(r.script, 1), r.evtSet)
    requires mask == TaskMaskAfter(OpsBy(r.script, 2), r.taskMask)
    ensures Goes(a, n, all) && Later(m, n) && Later(a, n) && Looked(a, n, tasks, events, mask)
    ensures |n.script| <= |r.script|
    ensures Waited(a, r) ==> Waited(a, n)
    ensures (Quiet(Taken(m, r)) ==> r.hooks == m.hooks) ==> (Quiet(Taken(m, n)) ==> n.hooks == m.hooks)
  {
    hide OpsBy, Lead, EventsAfter, TaskMaskAfter, TasksSet, Looked, Allowed, Waited, Quiet, TasksKept, EventsKept,
         Taken, Later;
    LookedNow(a, r, tasks, events, mask, all);
    AllowedTwice(a, r, n, {}, all);
    MovesAreLater(r, n, {});
    MovesAreLater(a, n, {});
    QuietTwice(m, r, n);
    if Waited(a, r) { WaitedTwice(a, r, n, {}, {}); }
  }

  /** The loop of a run, up to `m`, and its idling. */
  lemma RunEnds(a: Seen, m: Seen, b: Seen, all: Tasks, waited: Events)
    requires Goes(a, m, all) && Goes(m, b, all) && Waited(a, m) && Waited(m, b) && AllBegun(a, m, all, waited)
    requires QuietIdle(m, b, all, waited) && Later(a, m)
    requires Quiet(Taken(a, m)) ==> m.hooks == a.hooks && (a.evtSet * waited != {} ==> m.begun == a.begun)
    ensures Waited(a, b) && AllBegun(a, b, all, waited) && QuietRun(a, b, all, waited)
  {
    hide Moves, Allowed, Waited, Quiet, Taken, QuietRun, QuietIdle, AllBegun, Later;
    WaitedTwice(a, m, b, {}, {});
    MovesAreLater(m, b, {});
    AllBegunLater(a, m, b, all, waited);
    RunIsQuiet(a, m, b, all, waited);
  }

  /** A hook that was called and has done what it does. */
  lemma HookQuiet(a: Seen, b: Seen, hook: Hook, mask: Tasks)
    requires var h := a.(hooks := a.hooks + [hook]); Goes(h, b, mask)
    ensures Goes(a, b, mask) && Later(a, b) && |b.script| <= |a.script|
    ensures var h := a.(hooks := a.hooks + [hook]);
            Done(h, b, mask) ==>
              && Waited(a, b)
              && (Quiet(Taken(a, b)) ==> b == a.(hooks := a.hooks + [hook], script := b.script))
  {
    hide Moves, Allowed, Waited, Quiet, Later;
    var h := a.(hooks := a.hooks + [hook]);
    HookDone(a, hook, mask);
    GoesTwice(a, h, b, mask);
    MovesAreLater(a, b, {});
    MovesAreLater(a, h, {});
    MovesAreLater(h, b, {});
    QuietTwice(a, h, b);
    if Done(h, b, mask) { WaitedTwice(a, h, b, {}, {}); }
  }

  /** The three steps of idling: `p` after the first hook, `q` after interrupts, `r` after the hook in between. */
  lemma IdleQuiet(a: Seen, p: Seen, q: Seen, r: Seen, b: Seen, mask: Tasks, waited: Events)
    requires Later(a, p) && Later(p, q) && Later(q, r) && Later(r, b)
    requires Quiet(Taken(a, p)) ==> p == a.(hooks := a.hooks + [PreIdle], script := p.script)
    requires Quiet(Taken(p, q)) ==> q == p.(script := q.script)
    requires if q.taskSet * q.taskMask * mask == {} && q.evtSet * waited == {} then
               Quiet(Taken(q, r)) ==> r == q.(hooks := q.hooks + [Idle], script := r.script)
             else r == q
    requires Quiet(Taken(r, b)) ==> b == r.(hooks := r.hooks + [PostIdle], script := b.script)
    ensures QuietIdle(a, b, mask, waited)
  {
    hide Quiet, Taken, Later;
    QuietTwice(a, p, q);
    QuietTwice(a, q, r);
    QuietTwice(a, r, b);
  }

  lemma DoneGoes(a: Seen, b: Seen, mask: Tasks)
    requires Done(a, b, mask)
    ensures Goes(a, b, mask) && Waited(a, b) && Later(a, b) && |b.script| <= |a.script|
    ensures Quiet(Taken(a, b)) ==> b == a.(script := b.script)
  {
    hide TasksKept, EventsKept, Allowed;
  }

  lemma GoesLater(a: Seen, b: Seen, mask: Tasks)
    requires Goes(a, b, mask)
    ensures Later(a, b) && |b.script| <= |a.script|
  {
    hide TasksKept, EventsKept, Allowed;
  }

  lemma GoesMoves(a: Seen, b: Seen, mask: Tasks)
    requires Goes(a, b, mask)
    ensures Moves(a, b, {}) && Allowed(a, b, mask)
  {
  }

  lemma WaitedOn(a: Seen, m: Seen, b: Seen, mask: Tasks)
    requires Goes(a, m, mask) && Goes(m, b, mask) && Waited(a, m) && Waited(m, b)
    ensures Waited(a, b) && Later(m, b) && Later(a, m)
  {
    hide Moves, Allowed, Waited;
    WaitedTwice(a, m, b, {}, {});
    MovesAreLater(m, b, {});
    MovesAreLater(a, m, {});
  }

  lemma LaterSame(a: Seen)
    ensures Later(a, a)
  {
  }

  lemma HooksGrow(a: Seen, b: Seen)
    requires Later(a, b)
    ensures a.hooks <= b.hooks
  {
  }

  lemma CalledTail(m: Seen, ops: seq<Op>)
    requires m.script != []
    ensures AfterCalls(m.(script := m.script[1..]), ops, 0) == AfterCalls(m, ops, 1)
  {
    hide TasksSet, TaskMaskAfter, EventsAfter;
    assert m.script[1..][0..] == m.script[1..];
  }

  lemma OnePoint(script: seq<Step>)
    ensures if script != [] && script[0].Strike? then Lead(script, 1) == 1 && OpsBy(script, 1) == script[0].interrupts
            else Lead(script, 1) == 0 && OpsBy(script, 1) == []
  {
    hide OpsOf;
    if script != [] && script[0].Strike? {
      assert script[..1] == [script[0]] && Lead(script[1..], 0) == 0;
      OneStep(script[0]);
    } else {
      assert script[..0] == [] && OpsOf([]) == [] by { NoSteps(); }
    }
  }

  lemma NoSteps()
    ensures OpsOf([]) == []
  {
  }

  lemma ReturnIsLast(a: Seen, b: Seen)
    requires Later(a, b) && Taken(a, b) == [Act(Return)]
    ensures EndsWithReturn(a, b)
  {
  }

  lemma PointTaken(a: Seen)
    ensures var b := AfterCalls(a, OpsBy(a.script, 1), Lead(a.script, 1));
            |b.script| <= |a.script| && (a.script != [] && a.script[0].Strike? ==> |b.script| < |a.script|)
  {
  }
}
