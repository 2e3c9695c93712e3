/** Scheduler of src/scheduler/scheduler.cpp: one thread that calls AddTask, Start and Stop, and every interleaving
    of its steps with those of the worker threads it creates. */
module Scheduler {
  import opened Wrappers
  import StateMachine

  /** What IsEnabled and CheckIntervalSec return; both are fixed by the task's configuration. */
  datatype Task = Task(enabled: bool, interval: int)

  const LONGEST := 60
  const SHORTEST := 10

  // ----- The wake interval -----

  function Min(a: int, b: int): int {
    if a < b then a else b
  }

  function Lowest(tasks: seq<Task>): (low: int)
    ensures low <= LONGEST
  {
    if tasks == [] then LONGEST
    else
      var last, low := tasks[|tasks| - 1], Lowest(tasks[..|tasks| - 1]);
      if last.enabled then Min(low, last.interval) else low
  }

  function WakeSeconds(tasks: seq<Task>): int {
    if Lowest(tasks) < SHORTEST then SHORTEST else Lowest(tasks)
  }

  method ComputeWake(tasks: seq<Task>) returns (wake: int)
    ensures wake == WakeSeconds(tasks)
  {
    wake := LONGEST;
    for i := 0 to |tasks|
      invariant wake == Lowest(tasks[..i])
    {
      assert tasks[..i + 1][..i] == tasks[..i];
      if tasks[i].enabled { wake := Min(wake, tasks[i].interval); }
    }
    assert tasks[..|tasks|] == tasks;
    wake := if wake < SHORTEST then SHORTEST else wake;
  }

  /** The worker wakes every 10 to 60 seconds, and as often as the most demanding enabled task asks within that. */
  lemma {:induction false} WakeBounds(tasks: seq<Task>)
    ensures SHORTEST <= WakeSeconds(tasks) <= LONGEST
    ensures forall t :: t in tasks && t.enabled && t.interval >= SHORTEST ==> WakeSeconds(tasks) <= t.interval
    ensures forall t :: t in tasks && t.enabled ==> Lowest(tasks) <= t.interval
    ensures Lowest(tasks) == LONGEST || exists t :: t in tasks && t.enabled && t.interval == Lowest(tasks)
  {
    if tasks != [] {
      var rest, last := tasks[..|tasks| - 1], tasks[|tasks| - 1];
      WakeBounds(rest);
      assert tasks == rest + [last];
    }
  }

  ghost predicate SomeEnabled(tasks: seq<Task>, interval: int) {
    exists t :: t in tasks && t.enabled && t.interval == interval
  }

  /** The shortest interval of the enabled tasks, brought into 10..60; 60 when no task is enabled. */
  lemma WakeIs(tasks: seq<Task>)
    ensures WakeSeconds(tasks) == 60 <==> forall t :: t in tasks && t.enabled ==> t.interval >= 60
    ensures WakeSeconds(tasks) == 10 <==> exists t :: t in tasks && t.enabled && t.interval <= 10
    ensures 10 < WakeSeconds(tasks) < 60 ==>
      SomeEnabled(tasks, WakeSeconds(tasks)) && forall t :: t in tasks && t.enabled ==> t.interval >= WakeSeconds(tasks)
  {
    WakeBounds(tasks);
    hide Lowest;
    if Lowest(tasks) <= 10 {
      var t :| t in tasks && t.enabled && t.interval == Lowest(tasks);
      assert t.interval <= 10;
    }
  }

  // ----- The state -----

  /** Where a worker is in Loop. In wait_for it evaluates its predicate, and if that is false it parks until the
      time given; the predicate's value is already known while it is about to park. */
  datatype Pc =
    | Computing
    | Test
    | Predicate(until: int)
    | Parking(until: int)
    | Parked(until: int)
    | AfterWait
    | AtTask(i: nat)
    | InTask(i: nat)
    | AfterTask(i: nat)
    | Done

  datatype Thread = Thread(pc: Pc, wake: int)

  /** Where the caller of Start and Stop is. */
  datatype Caller = Idle | Cleared | Announced | StopSet | Joining | Joined

  datatype Outcome = Open | Complete | Cut

  /** A pass of the worker over its tasks: when it began, with which wake interval and over how many tasks, and which
      CheckAndRun it began. */
  datatype Pass = Pass(at: int, wake: int, total: nat, ran: seq<nat>, outcome: Outcome)

  /** All threads ever created are kept; handle is the joinable one, if any. passes and late are the history:
      late counts the calls of CheckAndRun begun since stop_requested_ was last set. */
  datatype State = State(
    tasks: seq<Task>,
    running: bool,
    stop: bool,
    handle: Option<nat>,
    threads: seq<Thread>,
    caller: Caller,
    now: int,
    passes: seq<Pass>,
    late: nat
  ) {
    predicate At(w: nat, pc: Pc) {
      w < |threads| && threads[w].pc == pc
    }

    function Go(w: nat, pc: Pc): State
      requires w < |threads|
    {
      this.(threads := threads[w := threads[w].(pc := pc)])
    }
  }

  const INITIAL := State([], false, false, None, [], Idle, 0, [], 0)

  // ----- Steps -----

  datatype Step =
    | AddTask(task: Task)
    | CallStart
    | SetRunning
    | Spawn
    | CallStop
    | Notify
    | Join
    | ClearRunning
    | Work(w: nat)
    | SpuriousWake(w: nat)
    | Tick

  predicate Enabled(s: State, step: Step) {
    match step
    case AddTask(_) => s.caller == Idle && !s.running
    case CallStart => s.caller == Idle
    case SetRunning => s.caller == Cleared
    case Spawn => s.caller == Announced
    case CallStop => s.caller == Idle
    case Notify => s.caller == StopSet
    case Join => s.caller == Joining && (s.handle.Some? ==> s.At(s.handle.value, Done))
    case ClearRunning => s.caller == Joined
    case Work(w) => w < |s.threads| && CanWork(s, s.threads[w].pc)
    case SpuriousWake(w) => w < |s.threads| && s.threads[w].pc.Parked?
    case Tick => true
  }

  /** A parked worker goes on by itself only when its time has come. */
  predicate CanWork(s: State, pc: Pc) {
    pc != Done && (pc.Parked? ==> s.now >= pc.until)
  }

  function Woken(threads: seq<Thread>): (woken: seq<Thread>)
    ensures |woken| == |threads|
    ensures forall i :: 0 <= i < |woken| ==> woken[i] == WokenThread(threads[i])
  {
    seq(|threads|, i requires 0 <= i < |threads| => WokenThread(threads[i]))
  }

  function WokenThread(t: Thread): Thread {
    if t.pc.Parked? then t.(pc := Predicate(t.pc.until)) else t
  }

  function Do(s: State, step: Step): State
    requires Enabled(s, step)
  {
    match step
    case AddTask(task) => s.(tasks := s.tasks + [task])
    case CallStart => if s.running then s else s.(stop := false, caller := Cleared)
    case SetRunning => s.(running := true, caller := Announced)
    case Spawn =>
      s.(threads := s.threads + [Thread(Computing, LONGEST)], handle := Some(|s.threads|), caller := Idle)
    case CallStop => if !s.running then s else s.(stop := true, late := 0, caller := StopSet)
    case Notify => s.(threads := Woken(s.threads), caller := Joining)
    case Join => s.(handle := None, caller := Joined)
    case ClearRunning => s.(running := false, caller := Idle)
    case Work(w) => Worked(s, w)
    case SpuriousWake(w) => s.Go(w, Predicate(s.threads[w].pc.until))
    case Tick => s.(now := s.now + 1)
  }

  /** The next step of Loop. */
  function Worked(s: State, w: nat): State
    requires w < |s.threads| && CanWork(s, s.threads[w].pc)
  {
    match s.threads[w].pc
    case Computing => s.(threads := s.threads[w := Thread(Test, WakeSeconds(s.tasks))])
    case Test => s.Go(w, if s.stop then Done else Predicate(s.now + s.threads[w].wake))
    case Predicate(until) => s.Go(w, if s.stop then AfterWait else Parking(until))
    case Parking(until) => s.Go(w, Parked(until))
    case Parked(until) => s.Go(w, AfterWait)
    case AfterWait =>
      if s.stop then s.Go(w, Done)
      else s.Go(w, AtTask(0)).(passes := s.passes + [Pass(s.now, s.threads[w].wake, |s.tasks|, [], Open)])
    case AtTask(i) =>
      if i >= |s.tasks| then s.Go(w, Test).(passes := Ended(s.passes, Complete))
      else if s.tasks[i].enabled then
        s.Go(w, InTask(i)).(passes := Began(s.passes, i), late := if s.stop then s.late + 1 else s.late)
      else s.Go(w, AfterTask(i))
    case InTask(i) => s.Go(w, AfterTask(i))
    case AfterTask(i) =>
      if s.stop then s.Go(w, Test).(passes := Ended(s.passes, Cut)) else s.Go(w, AtTask(i + 1))
  }

  function Began(passes: seq<Pass>, i: nat): (r: seq<Pass>)
    ensures |r| == |passes|
  {
    if passes == [] then []
    else var last := passes[|passes| - 1]; passes[|passes| - 1 := last.(ran := last.ran + [i])]
  }

  function Ended(passes: seq<Pass>, outcome: Outcome): (r: seq<Pass>)
    ensures |r| == |passes|
  {
    if passes == [] then []
    else passes[|passes| - 1 := passes[|passes| - 1].(outcome := outcome)]
  }

  function Next(s: State, step: Step): Option<State> {
    if Enabled(s, step) then Some(Do(s, step)) else None
  }

  predicate Runs(s: State, steps: seq<Step>) {
    StateMachine.Runs(Next, s, steps)
  }

  function After(s: State, steps: seq<Step>): State
    requires Runs(s, steps)
  {
    StateMachine.After(Next, s, steps)
  }

  lemma FirstStep(s: State, steps: seq<Step>)
    requires Runs(s, steps)
    ensures steps == [] ==> After(s, steps) == s
    ensures steps != [] ==>
      && Enabled(s, steps[0]) && Runs(Do(s, steps[0]), steps[1..])
      && After(s, steps) == After(Do(s, steps[0]), steps[1..])
  {
    hide Do, Enabled;
  }

  lemma OneMore(s: State, steps: seq<Step>, step: Step)
    requires Runs(s, steps) && Enabled(After(s, steps), step)
    ensures Runs(s, steps + [step]) && After(s, steps + [step]) == Do(After(s, steps), step)
  {
    hide Do, Enabled;
    StateMachine.OneMore(Next, s, steps, step);
  }

  // ----- The invariant -----

  /** Only the thread that can be joined may be alive, and the caller's position fits the two flags. */
  ghost predicate OneWorker(s: State) {
    && (forall i :: 0 <= i < |s.threads| && s.threads[i].pc != Done ==> s.handle == Some(i))
    && (s.handle.Some? ==> s.handle.value < |s.threads|)
    && match s.caller
       case Idle => s.running == s.handle.Some? && (s.running ==> !s.stop)
       case Cleared => !s.running && !s.stop && s.handle.None?
       case Announced => s.running && !s.stop && s.handle.None?
       case StopSet => s.running && s.stop && s.handle.Some?
       case Joining => s.running && s.stop && s.handle.Some?
       case Joined => s.running && s.stop && s.handle.None?
  }

  /** At most one task begins late, and then no other can. */
  ghost predicate OneLate(s: State) {
    s.stop && s.late > 0 ==> s.late == 1 && forall i :: 0 <= i < |s.threads| ==> !s.threads[i].pc.AtTask?
  }

  /** The indices of the enabled tasks among the first k, ascending. */
  function EnabledBelow(tasks: seq<Task>, k: nat): seq<nat>
    requires k <= |tasks|
  {
    if k == 0 then []
    else if tasks[k - 1].enabled then EnabledBelow(tasks, k - 1) + [k - 1]
    else EnabledBelow(tasks, k - 1)
  }

  ghost predicate PassFits(tasks: seq<Task>, pass: Pass) {
    && pass.total <= |tasks|
    && pass.wake == WakeSeconds(tasks[..pass.total])
    && exists k | 0 <= k <= pass.total ::
         pass.ran == EnabledBelow(tasks, k) && (pass.outcome == Complete ==> k == pass.total)
  }

  /** The pass under way has begun the enabled tasks among the first k. */
  ghost predicate Under(s: State, k: nat) {
    && k <= |s.tasks|
    && s.passes != []
    && var last := s.passes[|s.passes| - 1];
       last.outcome == Open && last.total == |s.tasks| && last.ran == EnabledBelow(s.tasks, k)
  }

  ghost predicate PassesFit(s: State) {
    && (forall j :: 0 <= j < |s.passes| ==> PassFits(s.tasks, s.passes[j]))
    && forall i :: 0 <= i < |s.threads| ==>
         match s.threads[i].pc
         case AtTask(k) => Under(s, k)
         case InTask(k) => Under(s, k + 1)
         case AfterTask(k) => Under(s, k + 1)
         case _ => true
  }

  predicate InPass(pc: Pc) {
    pc.AtTask? || pc.InTask? || pc.AfterTask?
  }

  /** Only the last pass can be under way, and only while the worker is in it. */
  ghost predicate PassesEnd(s: State) {
    forall j :: 0 <= j < |s.passes| && s.passes[j].outcome == Open ==>
      j == |s.passes| - 1 && s.handle.Some? && s.handle.value < |s.threads| && InPass(s.threads[s.handle.value].pc)
  }

  /** No pass has begun within the interval before the given time. */
  ghost predicate Spaced(s: State, at: int, wake: int) {
    forall j :: 0 <= j < |s.passes| ==> s.passes[j].at + wake <= at
  }

  ghost predicate Waits(s: State, until: int, wake: int) {
    until <= s.now + wake && Spaced(s, until, wake)
  }

  /** A worker wakes as often as the tasks ask. A wait ends within its interval and not before one interval after the
      last pass began. */
  ghost predicate Timed(s: State, t: Thread) {
    && (t.pc != Computing && t.pc != Done ==> t.wake == WakeSeconds(s.tasks))
    && match t.pc
       case Predicate(until) => Waits(s, until, t.wake)
       case Parking(until) => Waits(s, until, t.wake)
       case Parked(until) => Waits(s, until, t.wake)
       case AfterWait => s.stop || Spaced(s, s.now, t.wake)
       case _ => true
  }

  /** A pass begins at least its own interval after every earlier one. */
  ghost predicate PassTimes(s: State) {
    && (forall j :: 0 <= j < |s.passes| ==> s.passes[j].at <= s.now)
    && forall j, k :: 0 <= j < k < |s.passes| ==> s.passes[j].at + s.passes[k].wake <= s.passes[k].at
  }

  ghost predicate InTime(s: State) {
    PassTimes(s) && forall i :: 0 <= i < |s.threads| ==> Timed(s, s.threads[i])
  }

  ghost predicate Inv(s: State) {
    OneWorker(s) && OneLate(s) && PassesFit(s) && PassesEnd(s) && InTime(s)
  }

  lemma StepOneWorker(s: State, step: Step)
    requires OneWorker(s) && Enabled(s, step)
    ensures OneWorker(Do(s, step))
  {}

  lemma StepOneLate(s: State, step: Step)
    requires OneWorker(s) && OneLate(s) && Enabled(s, step)
    ensures OneLate(Do(s, step))
  {}

  lemma WorkTimes(s: State, w: nat)
    requires PassTimes(s) && Enabled(s, Work(w)) && Timed(s, s.threads[w])
    ensures PassTimes(Worked(s, w)) && Timed(Worked(s, w), Worked(s, w).threads[w])
  {
    hide WakeSeconds, Lowest;
    WakeBounds(s.tasks);
  }

  lemma StillDone(s: State, t: State, thread: Thread)
    requires Timed(s, thread) && thread.pc == Done
    ensures Timed(t, thread)
  {}

  /** Only one thread can be at work; the others are done. */
  lemma WorkInTime(s: State, w: nat)
    requires OneWorker(s) && InTime(s) && Enabled(s, Work(w))
    ensures InTime(Worked(s, w))
  {
    hide WakeSeconds, Lowest, OneWorker, PassTimes, Timed, Ended, Began;
    WorkTimes(s, w);
    OthersDone(s, w);
    var t := Worked(s, w);
    forall i | 0 <= i < |t.threads| ensures Timed(t, t.threads[i]) {
      if i != w { StillDone(s, t, s.threads[i]); }
    }
  }

  lemma OthersDone(s: State, w: nat)
    requires OneWorker(s) && w < |s.threads| && s.threads[w].pc != Done
    ensures forall i :: 0 <= i < |s.threads| && i != w ==> s.threads[i].pc == Done
  {}

  lemma StepInTime(s: State, step: Step)
    requires OneWorker(s) && InTime(s) && Enabled(s, step)
    ensures InTime(Do(s, step))
  {
    hide Worked, WakeSeconds, Lowest;
    if step.Work? { WorkInTime(s, step.w); }
  }

  lemma {:induction false} EnabledBelowMore(tasks: seq<Task>, task: Task, k: nat)
    requires k <= |tasks|
    ensures EnabledBelow(tasks + [task], k) == EnabledBelow(tasks, k)
  {
    if k > 0 { EnabledBelowMore(tasks, task, k - 1); }
  }

  lemma AddPasses(s: State, task: Task)
    requires OneWorker(s) && PassesFit(s) && Enabled(s, AddTask(task))
    ensures PassesFit(Do(s, AddTask(task)))
  {
    hide EnabledBelow, WakeSeconds;
    forall j | 0 <= j < |s.passes| ensures PassFits(s.tasks + [task], s.passes[j]) {
      var pass := s.passes[j];
      assert (s.tasks + [task])[..pass.total] == s.tasks[..pass.total];
      var k :|
        0 <= k <= pass.total && pass.ran == EnabledBelow(s.tasks, k) && (pass.outcome == Complete ==> k == pass.total);
      EnabledBelowMore(s.tasks, task, k);
    }
  }

  /** The pass under way after one more task, or at its end, still fits. */
  lemma LastPass(s: State, k: nat, outcome: Outcome)
    requires PassesFit(s) && Under(s, k) && (outcome == Complete ==> k == |s.tasks|)
    ensures forall j :: 0 <= j < |s.passes| ==> PassFits(s.tasks, Ended(s.passes, outcome)[j])
  {
    hide EnabledBelow, WakeSeconds;
  }

  lemma NextTask(s: State, i: nat)
    requires PassesFit(s) && Under(s, i) && i < |s.tasks|
    ensures var t := if s.tasks[i].enabled then s.(passes := Began(s.passes, i)) else s;
      Under(t, i + 1) && forall j :: 0 <= j < |t.passes| ==> PassFits(t.tasks, t.passes[j])
  {
    var below := EnabledBelow(s.tasks, i);
    assert EnabledBelow(s.tasks, i + 1) == if s.tasks[i].enabled then below + [i] else below;
    hide EnabledBelow, WakeSeconds;
    var n := |s.passes| - 1;
    var last := s.passes[n];
    assert PassFits(s.tasks, s.passes[n]);
  }

  lemma WorkPasses(s: State, w: nat)
    requires OneWorker(s) && PassesFit(s) && Enabled(s, Work(w)) && Timed(s, s.threads[w])
    ensures PassesFit(Worked(s, w))
  {
    hide EnabledBelow, WakeSeconds, Lowest, PassFits, OneWorker, Began, Ended;
    OthersDone(s, w);
    match s.threads[w].pc
    case AfterWait => NewPass(s, s.threads[w].wake);
    case AtTask(i) =>
      if i < |s.tasks| { NextTask(s, i); } else { LastPass(s, i, Complete); }
    case AfterTask(i) => LastPass(s, i + 1, Cut);
    case _ =>
  }

  lemma NewPass(s: State, wake: int)
    requires PassesFit(s) && wake == WakeSeconds(s.tasks)
    ensures var t := s.(passes := s.passes + [Pass(s.now, wake, |s.tasks|, [], Open)]);
      Under(t, 0) && forall j :: 0 <= j < |t.passes| ==> PassFits(t.tasks, t.passes[j])
  {
    assert EnabledBelow(s.tasks, 0) == [] && s.tasks[..|s.tasks|] == s.tasks;
    hide EnabledBelow, WakeSeconds;
  }

  lemma StepPasses(s: State, step: Step)
    requires OneWorker(s) && PassesFit(s) && InTime(s) && Enabled(s, step)
    ensures PassesFit(Do(s, step))
  {
    hide Worked, EnabledBelow, PassFits, PassTimes, Timed;
    match step
    case AddTask(task) => AddPasses(s, task);
    case Work(w) => WorkPasses(s, w);
    case _ =>
  }

  lemma StepPassesEnd(s: State, step: Step)
    requires OneWorker(s) && PassesEnd(s) && Enabled(s, step)
    ensures PassesEnd(Do(s, step))
  {
    hide WakeSeconds, Lowest;
  }

  lemma StepKeepsInv(s: State, step: Step)
    requires Inv(s) && Enabled(s, step)
    ensures Inv(Do(s, step))
  {
    hide OneWorker, OneLate, PassesFit, PassesEnd, InTime;
    StepPassesEnd(s, step);
    StepOneWorker(s, step);
    StepOneLate(s, step);
    StepPasses(s, step);
    StepInTime(s, step);
  }

  lemma InitialInv()
    ensures Inv(INITIAL)
  {}

  /** Every state of every run satisfies the invariant. */
  lemma {:induction false} RunKeepsInv(s: State, steps: seq<Step>)
    requires Inv(s) && Runs(s, steps)
    ensures Inv(After(s, steps))
    decreases |steps|
  {
    hide Inv, Runs, After;
    FirstStep(s, steps);
    if steps != [] {
      StepKeepsInv(s, steps[0]);
      RunKeepsInv(Do(s, steps[0]), steps[1..]);
    }
  }

  // ----- What every run promises -----

  predicate Alive(s: State, i: nat) {
    i < |s.threads| && s.threads[i].pc != Done
  }

  /** In every run at most one worker is alive, none between the return of Stop and the next Start, and Start never
      overwrites a thread that has not been joined. */
  lemma AtMostOneWorker(steps: seq<Step>)
    requires Runs(INITIAL, steps)
    ensures var s := After(INITIAL, steps);
      && (forall i: nat, j: nat :: Alive(s, i) && Alive(s, j) ==> i == j)
      && (s.caller == Idle && !s.running ==> forall i: nat :: !Alive(s, i))
      && (Enabled(s, Spawn) ==> s.handle.None? && forall i: nat :: !Alive(s, i))
  {
    RunKeepsInv(INITIAL, steps);
  }

  /** In every run each pass begins at least its wake interval, and so ten seconds, after the one before; that interval
      is the one its tasks ask for. A pass has run an initial part of the enabled tasks in the order of their
      registration: all of them, unless Stop cut it short or it is still under way. */
  lemma PassesRunEnabledTasks(steps: seq<Step>)
    requires Runs(INITIAL, steps)
    ensures var s := After(INITIAL, steps);
      && (forall j, k :: 0 <= j < k < |s.passes| ==> s.passes[j].at + s.passes[k].wake <= s.passes[k].at)
      && (forall j :: 0 <= j < |s.passes| ==> PassFits(s.tasks, s.passes[j]) && SHORTEST <= s.passes[j].wake <= LONGEST)
      && PassesEnd(s)
  {
    InitialInv();
    hide Runs, After, WakeSeconds, OneWorker, OneLate;
    RunKeepsInv(INITIAL, steps);
    var s := After(INITIAL, steps);
    forall j | 0 <= j < |s.passes| ensures SHORTEST <= s.passes[j].wake <= LONGEST {
      WakeBounds(s.tasks[..s.passes[j].total]);
    }
  }

  lemma {:induction false} EnabledBelowIs(tasks: seq<Task>, k: nat)
    requires k <= |tasks|
    ensures var e := EnabledBelow(tasks, k);
      && (forall i, j :: 0 <= i < j < |e| ==> e[i] < e[j])
      && (forall i: nat :: i in e <==> i < k && tasks[i].enabled)
  {
    if k > 0 {
      EnabledBelowIs(tasks, k - 1);
      var rest := EnabledBelow(tasks, k - 1);
      assert forall i :: 0 <= i < |rest| ==> rest[i] in rest;
    }
  }

  /** A step that begins a call of CheckAndRun. */
  predicate Begins(s: State, step: Step) {
    step.Work? && step.w < |s.threads| && s.threads[step.w].pc.AtTask? && Enabled(s, step) &&
    Do(s, step).threads[step.w].pc.InTask?
  }

  function CountBegins(s: State, steps: seq<Step>): nat
    requires Runs(s, steps)
    decreases |steps|
  {
    FirstStep(s, steps);
    if steps == [] then 0
    else (if Begins(s, steps[0]) then 1 else 0) + CountBegins(Do(s, steps[0]), steps[1..])
  }

  lemma LateCounts(s: State, step: Step)
    requires Inv(s) && s.stop && Enabled(s, step) && step != CallStart
    ensures Do(s, step).stop && Do(s, step).late == s.late + if Begins(s, step) then 1 else 0
  {
    hide PassesFit, PassesEnd, InTime;
  }

  lemma {:induction false} LateSums(s: State, steps: seq<Step>)
    requires Inv(s) && s.stop && Runs(s, steps) && CallStart !in steps
    ensures After(s, steps).stop && After(s, steps).late == s.late + CountBegins(s, steps)
    decreases |steps|
  {
    hide Inv, Begins, Do, Runs, After;
    FirstStep(s, steps);
    if steps != [] {
      LateCounts(s, steps[0]);
      StepKeepsInv(s, steps[0]);
      LateSums(Do(s, steps[0]), steps[1..]);
    }
  }

  /** From a call of Stop until the next call of Start at most one CheckAndRun begins. */
  lemma AtMostOneLateTask(early: seq<Step>, late: seq<Step>)
    requires Runs(INITIAL, early + [CallStop]) && Runs(After(INITIAL, early + [CallStop]), late)
    requires CallStart !in late && After(INITIAL, early + [CallStop]).caller == StopSet
    ensures CountBegins(After(INITIAL, early + [CallStop]), late) <= 1
  {
    hide OneWorker, PassesFit, PassesEnd, InTime;
    InitialInv();
    StateMachine.AfterBoth(Next, INITIAL, early, [CallStop]);
    RunKeepsInv(INITIAL, early);
    RunKeepsInv(INITIAL, early + [CallStop]);
    var p, s := After(INITIAL, early), After(INITIAL, early + [CallStop]);
    CallStopResets(p, s);
    LateSums(s, late);
    RunKeepsInv(s, late);
  }

  lemma CallStopResets(p: State, s: State)
    requires Inv(p) && Runs(p, [CallStop]) && s == After(p, [CallStop]) && s.caller == StopSet
    ensures s.stop && s.late == 0
  {
    FirstStep(p, [CallStop]);
    assert [CallStop][1..] == [];
    FirstStep(Do(p, CallStop), []);
  }

  /** Between the return of Stop and the next Start nothing begins and no worker comes to life. */
  lemma {:induction false} NothingRunsStopped(s: State, steps: seq<Step>)
    requires OneWorker(s) && s.caller == Idle && !s.running && Runs(s, steps) && CallStart !in steps
    ensures After(s, steps).passes == s.passes && forall i: nat :: !Alive(After(s, steps), i)
    decreases |steps|
  {
    hide Runs, After;
    FirstStep(s, steps);
    if steps != [] {
      StepOneWorker(s, steps[0]);
      assert !Enabled(s, steps[0]) || !steps[0].Work?;
      NothingRunsStopped(Do(s, steps[0]), steps[1..]);
    }
  }

  // ----- Stop returns -----

  predicate Stopping(s: State) {
    s.caller == StopSet || s.caller == Joining || s.caller == Joined
  }

  function PcSteps(pc: Pc): nat {
    match pc
    case Done => 0
    case Test => 1
    case AfterWait => 1
    case Predicate(_) => 2
    case Computing => 2
    case AfterTask(_) => 2
    case Parked(_) => 3
    case InTask(_) => 3
    case Parking(_) => 4
    case AtTask(_) => 4
  }

  /** How many steps are left for the worker and the call of Stop. */
  function StepsLeft(s: State): nat {
    match s.caller
    case StopSet => 3 + WorkerSteps(s)
    case Joining => 2 + WorkerSteps(s)
    case Joined => 1
    case _ => 0
  }

  function WorkerSteps(s: State): nat {
    if s.handle.Some? && s.handle.value < |s.threads| then PcSteps(s.threads[s.handle.value].pc) else 0
  }

  lemma StepTowardsStop(s: State, step: Step)
    requires OneWorker(s) && Stopping(s) && Enabled(s, step)
    ensures step.Tick? ==> StepsLeft(Do(s, step)) == StepsLeft(s) && Stopping(Do(s, step))
    ensures !step.Tick? ==> StepsLeft(Do(s, step)) < StepsLeft(s)
    ensures Stopping(Do(s, step)) || (Do(s, step).caller == Idle && !Do(s, step).running)
  {}

  function CountSteps(steps: seq<Step>): nat {
    if steps == [] then 0
    else (if steps[0].Tick? then 0 else 1) + CountSteps(steps[1..])
  }

  predicate StoppingAll(s: State, steps: seq<Step>)
    requires Runs(s, steps)
    decreases |steps|
  {
    FirstStep(s, steps);
    Stopping(s) && (steps == [] || StoppingAll(Do(s, steps[0]), steps[1..]))
  }

  /** Nothing but the clock, or a spurious wakeup, can move. */
  ghost predicate Resting(s: State) {
    forall step: Step :: step.Tick? || step.SpuriousWake? || !Enabled(s, step)
  }

  /** A worker that only the clock can move, for no longer than its wake interval. */
  ghost predicate ParkedInTime(s: State) {
    exists w: nat ::
      && w < |s.threads| && s.threads[w].pc.Parked? && s.threads[w].wake == WakeSeconds(s.tasks)
      && s.now < s.threads[w].pc.until <= s.now + s.threads[w].wake <= s.now + LONGEST
  }

  /** While Stop has not returned, the worker and the caller together make at most seven steps, and if neither
      can go on but by the clock, the worker is parked for at most what is left of its wake interval. */
  lemma {:induction false} StopReturns(s: State, steps: seq<Step>)
    requires Inv(s) && Runs(s, steps) && StoppingAll(s, steps)
    ensures CountSteps(steps) <= StepsLeft(s) <= 7
    ensures Resting(After(s, steps)) ==> ParkedInTime(After(s, steps))
    decreases |steps|
  {
    hide OneLate, PassesFit, PassesEnd, Runs, After, ParkedInTime, Resting;
    FirstStep(s, steps);
    if steps == [] {
      if Resting(s) { ParkedOrMoving(s); }
    } else {
      StepTowardsStop(s, steps[0]);
      StepKeepsInv(s, steps[0]);
      StopReturns(Do(s, steps[0]), steps[1..]);
    }
  }

  lemma ParkedOrMoving(s: State)
    requires Inv(s) && Stopping(s) && Resting(s)
    ensures ParkedInTime(s)
  {
    assert !Enabled(s, Notify) && !Enabled(s, Join) && !Enabled(s, ClearRunning);
    var w := s.handle.value;
    assert !Enabled(s, Work(w));
    WakeBounds(s.tasks);
  }

  // ----- When the notification is missed -----

  ghost predicate SomeParking(s: State) {
    exists w: nat :: w < |s.threads| && s.threads[w].pc.Parking?
  }

  ghost predicate SomeParked(s: State) {
    exists w: nat :: w < |s.threads| && s.threads[w].pc.Parked?
  }

  /** A run from the notification of Stop to a worker that is parked, before Start is called again. */
  ghost predicate ParksLater(s: State, steps: seq<Step>) {
    Runs(s, steps) && CallStart !in steps && SomeParked(After(s, steps))
  }

  lemma StepParksNobody(s: State, step: Step)
    requires s.stop && Enabled(s, step) && step != CallStart && !SomeParking(s) && !SomeParked(s)
    ensures var t := Do(s, step); t.stop && !SomeParking(t) && !SomeParked(t)
  {
    var t := Do(s, step);
    forall w: nat | w < |t.threads| ensures !t.threads[w].pc.Parking? && !t.threads[w].pc.Parked? {
      if w < |s.threads| { assert !s.threads[w].pc.Parking? && !s.threads[w].pc.Parked?; }
    }
  }

  lemma {:induction false} NobodyParks(s: State, steps: seq<Step>)
    requires s.stop && Runs(s, steps) && CallStart !in steps && !SomeParking(s) && !SomeParked(s)
    ensures !SomeParked(After(s, steps))
    decreases |steps|
  {
    hide Runs, After, Do, SomeParking, SomeParked;
    FirstStep(s, steps);
    if steps != [] {
      StepParksNobody(s, steps[0]);
      NobodyParks(Do(s, steps[0]), steps[1..]);
    }
  }

  /** The notification of Stop wakes every parked worker and leaves the others where they are. */
  lemma NotifyWakes(s: State)
    requires OneWorker(s) && s.caller == StopSet
    ensures var t := Do(s, Notify); t.stop && !SomeParked(t) && (SomeParking(t) <==> SomeParking(s))
  {
    var t := Do(s, Notify);
    assert forall w: nat :: w < |s.threads| ==> t.threads[w] == WokenThread(s.threads[w]);
  }

  lemma ParkingParks(s: State, w: nat)
    requires w < |s.threads| && s.threads[w].pc.Parking?
    ensures ParksLater(s, [Work(w)])
  {
    StateMachine.NoSteps(Next, s);
    OneMore(s, [], Work(w));
    assert [] + [Work(w)] == [Work(w)] && Do(s, Work(w)).threads[w].pc.Parked?;
  }

  /** Stop's notification is sent without the mutex. It is missed, that is, a worker can park after it, exactly when a
      worker was about to park at that moment. */
  lemma NotificationMissedIff(s: State)
    requires OneWorker(s) && s.caller == StopSet
    ensures (exists steps :: ParksLater(Do(s, Notify), steps)) <==> SomeParking(s)
  {
    hide Do, Runs, After, SomeParked;
    var t := Do(s, Notify);
    NotifyWakes(s);
    if SomeParking(t) {
      var w: nat :| w < |t.threads| && t.threads[w].pc.Parking?;
      ParkingParks(t, w);
    } else {
      forall steps | Runs(t, steps) && CallStart !in steps ensures !SomeParked(After(t, steps)) {
        NobodyParks(t, steps);
      }
    }
  }

  lemma AboutToPark() returns (steps: seq<Step>)
    ensures Runs(INITIAL, steps)
    ensures After(INITIAL, steps) == INITIAL.(running := true, handle := Some(0), threads := [Thread(Parking(60), 60)])
  {
    hide StateMachine.Runs, StateMachine.After;
    steps := [];
    StateMachine.NoSteps(Next, INITIAL);
    OneMore(INITIAL, steps, CallStart);
    steps := steps + [CallStart];
    OneMore(INITIAL, steps, SetRunning);
    steps := steps + [SetRunning];
    OneMore(INITIAL, steps, Spawn);
    steps := steps + [Spawn];
    OneMore(INITIAL, steps, Work(0));
    steps := steps + [Work(0)];
    OneMore(INITIAL, steps, Work(0));
    steps := steps + [Work(0)];
    OneMore(INITIAL, steps, Work(0));
    steps := steps + [Work(0)];
  }

  /** That moment is reached: a run in which the worker of a scheduler without tasks is parked while Stop joins it. */
  lemma NotificationCanBeMissed()
    ensures exists steps ::
      && Runs(INITIAL, steps)
      && var s := After(INITIAL, steps); s.caller == Joining && s.stop && s.At(0, Parked(60)) && s.now == 0
  {
    var steps := AboutToPark();
    hide StateMachine.Runs, StateMachine.After;
    OneMore(INITIAL, steps, CallStop);
    OneMore(INITIAL, steps + [CallStop], Notify);
    OneMore(INITIAL, steps + [CallStop] + [Notify], Work(0));
  }
}
