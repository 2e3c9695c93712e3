/** ThreadPool of deps/httplib.h: every interleaving of enqueue, the worker loop and shutdown. A step is what a
    thread does between taking and giving back the mutex, or one call on the condition variable. */
module ThreadPool {
  import opened Wrappers
  import StateMachine

  /** A job stands for its function object; equal jobs may be accepted more than once. */
  type Job = int

  /** Awake: about to take the mutex and test the wait condition. Asleep: blocked in the condition variable. */
  datatype Worker = Awake | Asleep | Running(job: Job) | Exited

  /** How far the call of shutdown is: not made, the flag is set, or joining the thread with the given index. */
  datatype Shutdown = NotCalled | FlagSet | Joining(next: nat)

  /** notifies counts the callers of enqueue that have pushed a job but not yet called notify_one. The last four
      fields are the history: the jobs accepted, started and finished, in that order of events, and how many
      were accepted before the shutdown flag was set. */
  datatype Pool = Pool(
    limit: nat,
    workers: seq<Worker>,
    queue: seq<Job>,
    notifies: nat,
    shutdown: Shutdown,
    accepted: seq<Job>,
    started: seq<Job>,
    finished: seq<Job>,
    before: nat
  ) {
    predicate Stopping() {
      !shutdown.NotCalled?
    }

    predicate Returned() {
      shutdown.Joining? && shutdown.next == |workers|
    }

    predicate Full() {
      limit > 0 && |queue| >= limit
    }

    predicate Is(w: nat, state: Worker) {
      w < |workers| && workers[w] == state
    }

    predicate Busy(w: nat) {
      w < |workers| && workers[w].Running?
    }

    function Set(w: nat, state: Worker): Pool
      requires w < |workers|
    {
      this.(workers := workers[w := state])
    }
  }

  function Initial(count: nat, limit: nat): Pool {
    Pool(limit, seq(count, _ => Awake), [], 0, NotCalled, [], [], [], 0)
  }

  // ----- Steps -----

  datatype Step =
    | Enqueue(job: Job)
    | NotifyOne(w: nat)
    | NotifyNobody
    | SpuriousWake(w: nat)
    | Check(w: nat)
    | Finish(w: nat)
    | CallShutdown
    | NotifyAll
    | Join

  predicate Enabled(p: Pool, s: Step) {
    match s
    case Enqueue(_) => true
    case NotifyOne(w) => p.notifies > 0 && p.Is(w, Asleep)
    case NotifyNobody => p.notifies > 0 && Asleep !in p.workers
    case SpuriousWake(w) => p.Is(w, Asleep)
    case Check(w) => p.Is(w, Awake)
    case Finish(w) => p.Busy(w)
    case CallShutdown => p.shutdown == NotCalled
    case NotifyAll => p.shutdown == FlagSet
    case Join => p.shutdown.Joining? && p.Is(p.shutdown.next, Exited)
  }

  function Wake(workers: seq<Worker>): (woken: seq<Worker>)
    ensures |woken| == |workers|
    ensures forall i :: 0 <= i < |woken| ==> woken[i] == if workers[i] == Asleep then Awake else workers[i]
  {
    seq(|workers|, i requires 0 <= i < |workers| => if workers[i] == Asleep then Awake else workers[i])
  }

  /** A worker with the mutex: sleeps, leaves its loop, or takes the first job. */
  function Checked(p: Pool, w: nat): Pool
    requires w < |p.workers|
  {
    if p.queue == [] then p.Set(w, if p.Stopping() then Exited else Asleep)
    else p.Set(w, Running(p.queue[0])).(queue := p.queue[1..], started := p.started + [p.queue[0]])
  }

  function Do(p: Pool, s: Step): Pool
    requires Enabled(p, s)
  {
    match s
    case Enqueue(job) =>
      if p.Full() then p
      else p.(queue := p.queue + [job], accepted := p.accepted + [job], notifies := p.notifies + 1)
    case NotifyOne(w) => p.Set(w, Awake).(notifies := p.notifies - 1)
    case NotifyNobody => p.(notifies := p.notifies - 1)
    case SpuriousWake(w) => p.Set(w, Awake)
    case Check(w) => Checked(p, w)
    case Finish(w) => p.Set(w, Awake).(finished := p.finished + [p.workers[w].job])
    case CallShutdown => p.(shutdown := FlagSet, before := |p.accepted|)
    case NotifyAll => p.(shutdown := Joining(0), workers := Wake(p.workers))
    case Join => p.(shutdown := Joining(p.shutdown.next + 1))
  }

  function Next(p: Pool, s: Step): Option<Pool> {
    if Enabled(p, s) then Some(Do(p, s)) else None
  }

  predicate Runs(p: Pool, steps: seq<Step>) {
    StateMachine.Runs(Next, p, steps)
  }

  function After(p: Pool, steps: seq<Step>): Pool
    requires Runs(p, steps)
  {
    StateMachine.After(Next, p, steps)
  }

  lemma FirstStep(p: Pool, steps: seq<Step>)
    requires Runs(p, steps)
    ensures steps == [] ==> After(p, steps) == p
    ensures steps != [] ==>
      && Enabled(p, steps[0]) && Runs(Do(p, steps[0]), steps[1..])
      && After(p, steps) == After(Do(p, steps[0]), steps[1..])
  {
    hide Do, Enabled;
  }

  // ----- Counting over the workers -----

  ghost function InHand(workers: seq<Worker>): multiset<Job> {
    if workers == [] then multiset{}
    else JobOf(workers[0]) + InHand(workers[1..])
  }

  ghost function JobOf(w: Worker): multiset<Job> {
    if w.Running? then multiset{w.job} else multiset{}
  }

  function Sum(workers: seq<Worker>, weight: Worker -> nat): nat {
    if workers == [] then 0 else weight(workers[0]) + Sum(workers[1..], weight)
  }

  lemma {:induction false} InHandUpdate(workers: seq<Worker>, i: nat, w: Worker)
    requires i < |workers|
    ensures InHand(workers[i := w]) + JobOf(workers[i]) == InHand(workers) + JobOf(w)
  {
    hide JobOf;
    if i > 0 {
      InHandUpdate(workers[1..], i - 1, w);
      assert workers[i := w][1..] == workers[1..][i - 1 := w];
      var first, was, now := JobOf(workers[0]), InHand(workers[1..]), InHand(workers[1..][i - 1 := w]);
      assert (first + now) + JobOf(workers[i]) == first + (now + JobOf(workers[i]));
      assert (first + was) + JobOf(w) == first + (was + JobOf(w));
    } else {
      assert workers[i := w][1..] == workers[1..];
    }
  }

  lemma InHandKept(workers: seq<Worker>, i: nat, w: Worker)
    requires i < |workers| && !workers[i].Running? && !w.Running?
    ensures InHand(workers[i := w]) == InHand(workers)
  {
    hide InHand;
    InHandUpdate(workers, i, w);
    assert InHand(workers[i := w]) + multiset{} == InHand(workers[i := w]);
    assert InHand(workers) + multiset{} == InHand(workers);
  }

  lemma {:induction false} InHandWake(workers: seq<Worker>)
    ensures InHand(Wake(workers)) == InHand(workers)
  {
    if workers != [] {
      var woken := Wake(workers);
      assert InHand(woken) == JobOf(woken[0]) + InHand(woken[1..]) && JobOf(woken[0]) == JobOf(workers[0]);
      hide InHand, JobOf;
      InHandWake(workers[1..]);
      assert woken[1..] == Wake(workers[1..]);
    }
  }

  lemma {:induction false} InHandNothing(workers: seq<Worker>)
    requires forall i :: 0 <= i < |workers| ==> !workers[i].Running?
    ensures InHand(workers) == multiset{}
  {
    if workers != [] { InHandNothing(workers[1..]); }
  }

  lemma {:induction false} SumUpdate(workers: seq<Worker>, i: nat, w: Worker, weight: Worker -> nat)
    requires i < |workers|
    ensures Sum(workers[i := w], weight) + weight(workers[i]) == Sum(workers, weight) + weight(w)
  {
    if i > 0 {
      SumUpdate(workers[1..], i - 1, w, weight);
      assert workers[i := w][1..] == workers[1..][i - 1 := w];
    } else {
      assert workers[i := w][1..] == workers[1..];
    }
  }

  lemma {:induction false} SumWake(workers: seq<Worker>, weight: Worker -> nat)
    requires weight(Awake) <= weight(Asleep)
    ensures Sum(Wake(workers), weight) <= Sum(workers, weight)
  {
    if workers != [] {
      SumWake(workers[1..], weight);
      assert Wake(workers)[1..] == Wake(workers[1..]);
    }
  }

  lemma {:induction false} SumZero(workers: seq<Worker>, weight: Worker -> nat)
    requires forall i :: 0 <= i < |workers| ==> weight(workers[i]) == 0
    ensures Sum(workers, weight) == 0
  {
    if workers != [] { SumZero(workers[1..], weight); }
  }

  // ----- The invariant -----

  /** First come, first started; nothing is lost or run twice; the queue keeps its bound. */
  ghost predicate Conserves(p: Pool) {
    && p.accepted == p.started + p.queue
    && multiset(p.started) == InHand(p.workers) + multiset(p.finished)
    && (p.limit > 0 ==> |p.queue| <= p.limit)
  }

  /** A worker leaves only after shutdown, and not before all that was accepted until then has been started. */
  ghost predicate ExitsInTime(p: Pool) {
    && (p.Stopping() ==> p.before <= |p.accepted|)
    && (Exited in p.workers ==> p.Stopping() && p.before <= |p.started|)
  }

  /** Once all have been notified nobody sleeps again; the joined threads are gone. */
  ghost predicate JoinsInOrder(p: Pool) {
    p.shutdown.Joining? ==>
      && Asleep !in p.workers
      && p.shutdown.next <= |p.workers|
      && forall i :: 0 <= i < p.shutdown.next ==> p.workers[i] == Exited
  }

  function CountAwake(w: Worker): nat {
    if w == Awake then 1 else 0
  }

  /** No wakeup is lost: while a worker sleeps, at least as many wakeups are under way as jobs wait. */
  ghost predicate WakesEnough(p: Pool) {
    !p.Stopping() && Asleep in p.workers ==> |p.queue| <= Sum(p.workers, CountAwake) + p.notifies
  }

  ghost predicate Inv(p: Pool) {
    Conserves(p) && ExitsInTime(p) && JoinsInOrder(p) && WakesEnough(p)
  }

  lemma InitialInv(count: nat, limit: nat)
    ensures Inv(Initial(count, limit))
  {
    InHandNothing(Initial(count, limit).workers);
  }

  lemma StepConserves(p: Pool, s: Step)
    requires Conserves(p) && Enabled(p, s)
    ensures Conserves(Do(p, s))
  {
    hide Sum, InHand;
    match s
    case Enqueue(job) => assert p.started + (p.queue + [job]) == (p.started + p.queue) + [job];
    case NotifyOne(w) => InHandKept(p.workers, w, Awake);
    case NotifyNobody =>
    case SpuriousWake(w) => InHandKept(p.workers, w, Awake);
    case Check(w) => CheckConserves(p, w);
    case Finish(w) => FinishConserves(p, w);
    case CallShutdown =>
    case NotifyAll => InHandWake(p.workers);
    case Join =>
  }

  lemma CheckConserves(p: Pool, w: nat)
    requires Conserves(p) && p.Is(w, Awake)
    ensures Conserves(Checked(p, w))
  {
    hide Sum, InHand;
    if p.queue == [] {
      InHandKept(p.workers, w, Exited);
      InHandKept(p.workers, w, Asleep);
    } else {
      var job := p.queue[0];
      InHandUpdate(p.workers, w, Running(job));
      assert InHand(p.workers[w := Running(job)]) == InHand(p.workers) + multiset{job};
      assert p.started + p.queue == (p.started + [job]) + p.queue[1..];
    }
  }

  lemma FinishConserves(p: Pool, w: nat)
    requires Conserves(p) && p.Busy(w)
    ensures Conserves(Do(p, Finish(w)))
  {
    hide Sum, InHand;
    var job := p.workers[w].job;
    InHandUpdate(p.workers, w, Awake);
    assert InHand(p.workers[w := Awake]) + multiset{job} == InHand(p.workers);
    assert multiset(p.started) == InHand(p.workers[w := Awake]) + (multiset{job} + multiset(p.finished));
  }

  lemma StepExits(p: Pool, s: Step)
    requires Conserves(p) && ExitsInTime(p) && Enabled(p, s)
    ensures ExitsInTime(Do(p, s))
  {
    hide Sum, InHand;
  }

  lemma StepJoins(p: Pool, s: Step)
    requires JoinsInOrder(p) && Enabled(p, s)
    ensures JoinsInOrder(Do(p, s))
  {
    hide Sum, InHand;
  }

  lemma StepWakes(p: Pool, s: Step)
    requires WakesEnough(p) && Enabled(p, s)
    ensures WakesEnough(Do(p, s))
  {
    hide Sum, InHand;
    match s
    case NotifyOne(w) => SumUpdate(p.workers, w, Awake, CountAwake);
    case SpuriousWake(w) => SumUpdate(p.workers, w, Awake, CountAwake);
    case Finish(w) => SumUpdate(p.workers, w, Awake, CountAwake);
    case Check(w) =>
      if p.queue != [] { SumUpdate(p.workers, w, Running(p.queue[0]), CountAwake); }
    case _ =>
  }

  /** Every state of every run satisfies the invariant. */
  lemma {:induction false} RunKeepsInv(p: Pool, steps: seq<Step>)
    requires Inv(p) && Runs(p, steps)
    ensures Inv(After(p, steps)) && |After(p, steps).workers| == |p.workers| && After(p, steps).limit == p.limit
    decreases |steps|
  {
    hide Runs, After, Inv;
    FirstStep(p, steps);
    if steps != [] {
      StepKeepsInv(p, steps[0]);
      RunKeepsInv(Do(p, steps[0]), steps[1..]);
    }
  }

  lemma StepKeepsInv(p: Pool, s: Step)
    requires Inv(p) && Enabled(p, s)
    ensures Inv(Do(p, s))
  {
    StepConserves(p, s);
    StepExits(p, s);
    StepJoins(p, s);
    StepWakes(p, s);
  }

  // ----- What every run promises -----

  /** Jobs start in the order of their acceptance; each accepted job waits, is in hand or has finished, and is
      only one of the three; a positive limit bounds the queue. */
  lemma Accounted(count: nat, limit: nat, steps: seq<Step>)
    requires Runs(Initial(count, limit), steps)
    ensures var q := After(Initial(count, limit), steps);
      && q.started <= q.accepted
      && multiset(q.accepted) == multiset(q.queue) + InHand(q.workers) + multiset(q.finished)
      && (limit > 0 ==> |q.queue| <= limit)
  {
    InitialInv(count, limit);
    RunKeepsInv(Initial(count, limit), steps);
  }

  lemma {:induction false} AfterTheFlag(p: Pool, steps: seq<Step>)
    requires p.Stopping() && Runs(p, steps)
    ensures var q := After(p, steps);
      && q.Stopping() && q.before == p.before && p.accepted <= q.accepted
      && ((forall s :: s in steps ==> !s.Enqueue?) ==> q.accepted == p.accepted)
    decreases |steps|
  {
    hide Runs, After;
    FirstStep(p, steps);
    if steps != [] { AfterTheFlag(Do(p, steps[0]), steps[1..]); }
  }

  lemma PrefixFinishes(p: Pool)
    requires Inv(p) && p.Returned() && |p.workers| > 0
    ensures p.before <= |p.accepted| && multiset(p.accepted[..p.before]) <= multiset(p.finished)
    ensures p.before == |p.accepted| ==> multiset(p.finished) == multiset(p.accepted)
  {
    hide Sum, InHand;
    InHandNothing(p.workers);
    assert p.workers[0] == Exited;
    var rest := p.started[p.before..];
    assert p.started == p.accepted[..p.before] + rest;
    assert multiset(p.started) == multiset(p.finished);
    assert p.before == |p.accepted| ==> p.started == p.accepted;
  }

  /** The steps of a run in which shutdown is called. */
  function Calling(early: seq<Step>, late: seq<Step>): seq<Step> {
    early + ([CallShutdown] + late)
  }

  lemma SplitAtCall(count: nat, limit: nat, early: seq<Step>, late: seq<Step>)
    requires Runs(Initial(count, limit), Calling(early, late))
    ensures Runs(Initial(count, limit), early)
    ensures var p, q := After(Initial(count, limit), early), After(Initial(count, limit), Calling(early, late));
      && Enabled(p, CallShutdown) && Runs(Do(p, CallShutdown), late) && q == After(Do(p, CallShutdown), late)
      && Inv(Do(p, CallShutdown)) && Inv(q) && |q.workers| == count
  {
    hide Inv;
    var start := Initial(count, limit);
    InitialInv(count, limit);
    RunKeepsInv(start, Calling(early, late));
    StateMachine.AfterBoth(Next, start, early, [CallShutdown] + late);
    RunKeepsInv(start, early);
    FirstStep(After(start, early), [CallShutdown] + late);
    assert ([CallShutdown] + late)[1..] == late;
    StepKeepsInv(After(start, early), CallShutdown);
  }

  /** When shutdown returns, all jobs accepted before it was called have finished, whatever was enqueued later;
      without later calls of enqueue these are all accepted jobs. */
  lemma JobsBeforeShutdownFinish(count: nat, limit: nat, early: seq<Step>, late: seq<Step>)
    requires count > 0 && Runs(Initial(count, limit), Calling(early, late))
    requires After(Initial(count, limit), Calling(early, late)).Returned()
    ensures Runs(Initial(count, limit), early)
    ensures var p, q := After(Initial(count, limit), early), After(Initial(count, limit), Calling(early, late));
      && multiset(p.accepted) <= multiset(q.finished)
      && ((forall s :: s in late ==> !s.Enqueue?) ==> multiset(q.finished) == multiset(q.accepted))
  {
    hide Inv, Runs, After, Initial, Calling;
    SplitAtCall(count, limit, early, late);
    var p, q := After(Initial(count, limit), early), After(Initial(count, limit), Calling(early, late));
    AfterTheFlag(Do(p, CallShutdown), late);
    PrefixFinishes(q);
    assert q.accepted[..q.before] == p.accepted;
  }

  lemma OneMore(p: Pool, steps: seq<Step>, s: Step)
    requires Runs(p, steps) && Enabled(After(p, steps), s)
    ensures Runs(p, steps + [s]) && After(p, steps + [s]) == Do(After(p, steps), s)
  {
    StateMachine.OneMore(Next, p, steps, s);
  }

  /** A job enqueued during shutdown may never run. */
  lemma LateJobIsLost()
    ensures exists steps ::
      && Runs(Initial(1, 0), steps)
      && var q := After(Initial(1, 0), steps); q.Returned() && q.accepted == [7] && q.finished == []
  {
    var start := Initial(1, 0);
    StateMachine.NoSteps(Next, start);
    OneMore(start, [], CallShutdown);
    OneMore(start, [] + [CallShutdown], NotifyAll);
    OneMore(start, [] + [CallShutdown] + [NotifyAll], Check(0));
    OneMore(start, [] + [CallShutdown] + [NotifyAll] + [Check(0)], Enqueue(7));
    OneMore(start, [] + [CallShutdown] + [NotifyAll] + [Check(0)] + [Enqueue(7)], Join);
  }

  /** A job is refused exactly when there is a limit and as many jobs wait as it allows; an accepted one waits behind
      the others. */
  lemma EnqueueIs(p: Pool, job: Job)
    ensures var q := Do(p, Enqueue(job));
      if p.limit == 0 || |p.queue| < p.limit then
        q.queue == p.queue + [job] && q.accepted == p.accepted + [job] && q.notifies == p.notifies + 1
      else q == p
  {}

  // ----- Which jobs are lost -----

  ghost predicate Gone(p: Pool) {
    forall i :: 0 <= i < |p.workers| ==> p.workers[i] == Exited
  }

  /** When all workers are gone nothing starts any more: what is queued then is lost. */
  lemma {:induction false} NothingStartsWithoutWorkers(p: Pool, steps: seq<Step>)
    requires Runs(p, steps) && Gone(p)
    ensures var q := After(p, steps); q.started == p.started && q.finished == p.finished && p.queue <= q.queue
    decreases |steps|
  {
    hide Runs, After;
    FirstStep(p, steps);
    if steps != [] {
      assert Wake(p.workers) == p.workers;
      NothingStartsWithoutWorkers(Do(p, steps[0]), steps[1..]);
    }
  }

  lemma StillThere(p: Pool, w: nat)
    requires w < |p.workers| && p.workers[w] != Exited
    ensures !Gone(p)
  {}

  /** Only a worker with the mutex leaves, and only on an empty queue. */
  lemma LeavesOnEmptyQueue(p: Pool, s: Step)
    requires Enabled(p, s)
    ensures var q := Do(p, s); Gone(q) ==> q.started == p.started && (Gone(p) || (q.queue == p.queue == [] && s.Check?))
  {
    hide Gone;
    match s
    case Check(w) =>
      if p.queue != [] || !p.Stopping() { StillThere(Do(p, s), w); }
    case NotifyOne(w) => StillThere(Do(p, s), w);
    case SpuriousWake(w) => StillThere(Do(p, s), w);
    case Finish(w) => StillThere(Do(p, s), w);
    case NotifyAll =>
      if Gone(Do(p, s)) { WakeGone(p, Do(p, s)); }
    case _ => SameGone(p, Do(p, s));
  }

  lemma SameGone(p: Pool, q: Pool)
    requires p.workers == q.workers
    ensures Gone(p) == Gone(q)
  {}

  lemma WakeGone(p: Pool, q: Pool)
    requires q.workers == Wake(p.workers) && Gone(q)
    ensures Gone(p)
  {
    assert forall i :: 0 <= i < |p.workers| ==> q.workers[i] == Exited;
  }

  /** A worker leaves only when all that has been accepted has been started. */
  lemma StepLeavesNone(p: Pool, s: Step, n: nat)
    requires Conserves(p) && Enabled(p, s) && n <= |p.accepted| && (Gone(p) ==> |p.started| >= n)
    ensures var q := Do(p, s); p.accepted <= q.accepted && (Gone(q) ==> |q.started| >= n)
  {
    hide Sum, InHand, Gone;
    LeavesOnEmptyQueue(p, s);
  }

  lemma {:induction false} AcceptedStart(p: Pool, steps: seq<Step>, n: nat)
    requires Inv(p) && Runs(p, steps) && n <= |p.accepted| && (Gone(p) ==> |p.started| >= n)
    ensures var q := After(p, steps); p.accepted <= q.accepted && (Gone(q) ==> |q.started| >= n)
    decreases |steps|
  {
    hide Runs, After, Gone, ExitsInTime, JoinsInOrder, WakesEnough;
    FirstStep(p, steps);
    if steps != [] {
      StepKeepsInv(p, steps[0]);
      StepLeavesNone(p, steps[0], n);
      AcceptedStart(Do(p, steps[0]), steps[1..], n);
    }
  }

  lemma ReturnedIsGone(p: Pool)
    requires Inv(p) && p.Returned()
    ensures Gone(p) && multiset(p.finished) == multiset(p.started) && p.started <= p.accepted
  {
    InHandNothing(p.workers);
    assert multiset(p.started) == multiset(p.finished);
  }

  /** By the return of shutdown a job has been started and has finished exactly when some worker had not left its
      loop at the moment the job was accepted. */
  lemma JobFinishesIff(p: Pool, job: Job, late: seq<Step>)
    requires Inv(p) && !p.Full() && Runs(Do(p, Enqueue(job)), late)
    requires After(Do(p, Enqueue(job)), late).Returned()
    ensures var q, i := After(Do(p, Enqueue(job)), late), |p.accepted|;
      && i < |q.accepted| && q.accepted[i] == job
      && q.started <= q.accepted && multiset(q.finished) == multiset(q.started)
      && (i < |q.started| <==> !Gone(p))
  {
    hide Runs, After;
    var r := Do(p, Enqueue(job));
    StepKeepsInv(p, Enqueue(job));
    RunKeepsInv(r, late);
    ReturnedIsGone(After(r, late));
    AcceptedStart(r, late, if Gone(p) then 0 else |p.accepted| + 1);
    if Gone(p) { NothingStartsWithoutWorkers(r, late); }
  }

  /** The same for a job accepted at any point of a run. */
  lemma AcceptedJobFinishesIff(count: nat, limit: nat, early: seq<Step>, job: Job, late: seq<Step>)
    requires Runs(Initial(count, limit), early + ([Enqueue(job)] + late))
    requires After(Initial(count, limit), early + ([Enqueue(job)] + late)).Returned()
    ensures Runs(Initial(count, limit), early)
    ensures var start := Initial(count, limit);
      var p, q := After(start, early), After(start, early + ([Enqueue(job)] + late));
      !p.Full() ==>
        && |p.accepted| < |q.accepted| && q.accepted[|p.accepted|] == job
        && q.started <= q.accepted && multiset(q.finished) == multiset(q.started)
        && (|p.accepted| < |q.started| <==> !Gone(p))
  {
    hide Inv, Gone;
    var start := Initial(count, limit);
    InitialInv(count, limit);
    StateMachine.AfterBoth(Next, start, early, [Enqueue(job)] + late);
    RunKeepsInv(start, early);
    var p := After(start, early);
    FirstStep(p, [Enqueue(job)] + late);
    assert ([Enqueue(job)] + late)[1..] == late;
    hide Runs, After, Do;
    if !p.Full() { JobFinishesIff(p, job, late); }
  }

  /** No step of the run accepts a job after the last worker has left. */
  ghost predicate AcceptsInTime(p: Pool, steps: seq<Step>)
    requires Runs(p, steps)
    decreases |steps|
  {
    FirstStep(p, steps);
    steps == [] || (!TooLate(p, steps[0]) && AcceptsInTime(Do(p, steps[0]), steps[1..]))
  }

  ghost predicate TooLate(p: Pool, s: Step) {
    s.Enqueue? && !p.Full() && Gone(p)
  }

  lemma StepInTime(p: Pool, s: Step)
    requires Enabled(p, s) && (Gone(p) ==> p.queue == [])
    ensures TooLate(p, s) ==> Gone(Do(p, s)) && Do(p, s).queue != []
    ensures !TooLate(p, s) && Gone(Do(p, s)) ==> Do(p, s).queue == []
  {
    hide Gone;
    if s.Enqueue? { SameGone(p, Do(p, s)); }
    LeavesOnEmptyQueue(p, s);
  }

  lemma {:induction false} QueueEmptyIff(p: Pool, steps: seq<Step>)
    requires Runs(p, steps) && (Gone(p) ==> p.queue == []) && Gone(After(p, steps))
    ensures After(p, steps).queue == [] <==> AcceptsInTime(p, steps)
    decreases |steps|
  {
    hide Runs, After, Gone, Do, TooLate;
    FirstStep(p, steps);
    if steps != [] {
      StepInTime(p, steps[0]);
      if TooLate(p, steps[0]) {
        NothingStartsWithoutWorkers(Do(p, steps[0]), steps[1..]);
      } else {
        QueueEmptyIff(Do(p, steps[0]), steps[1..]);
      }
    }
  }

  lemma EmptyQueueIff(p: Pool)
    requires Inv(p) && p.Returned()
    ensures multiset(p.finished) == multiset(p.accepted) <==> p.queue == []
  {
    hide InHand;
    InHandNothing(p.workers);
    assert |multiset(p.accepted)| == |multiset(p.queue)| + |multiset(p.finished)|;
  }

  /** When shutdown returns, every accepted job has finished exactly when none was accepted after the last worker
      had left. */
  lemma AllFinishedIff(count: nat, limit: nat, steps: seq<Step>)
    requires Runs(Initial(count, limit), steps) && After(Initial(count, limit), steps).Returned()
    ensures var q := After(Initial(count, limit), steps);
      multiset(q.finished) == multiset(q.accepted) <==> AcceptsInTime(Initial(count, limit), steps)
  {
    hide Runs, After, Inv, AcceptsInTime, Gone;
    var start := Initial(count, limit);
    InitialInv(count, limit);
    RunKeepsInv(start, steps);
    ReturnedIsGone(After(start, steps));
    QueueEmptyIff(start, steps);
    EmptyQueueIff(After(start, steps));
  }

  // ----- Progress -----

  function WorkingWeight(w: Worker): nat {
    match w
    case Awake => 1
    case Asleep => 0
    case Running(_) => 2
    case Exited => 0
  }

  function StoppingWeight(w: Worker): nat {
    if w == Asleep then 2 else WorkingWeight(w)
  }

  /** How many steps the pool can still make on its own. */
  function Measure(p: Pool): int {
    2 * |p.queue| + 2 * p.notifies +
    match p.shutdown
    case NotCalled => Sum(p.workers, WorkingWeight)
    case FlagSet => Sum(p.workers, StoppingWeight) + |p.workers| + 1
    case Joining(next) => Sum(p.workers, StoppingWeight) + |p.workers| - next
  }

  /** The steps of the pool itself. Before shutdown, spurious wakeups could go on for ever. */
  predicate Internal(stopping: bool, s: Step) {
    !s.Enqueue? && !s.CallShutdown? && (s.SpuriousWake? ==> stopping)
  }

  lemma StepDescends(p: Pool, s: Step)
    requires JoinsInOrder(p) && Enabled(p, s) && Internal(p.Stopping(), s)
    ensures Measure(Do(p, s)) < Measure(p)
  {
    hide Sum;
    match s
    case NotifyOne(w) =>
      SumUpdate(p.workers, w, Awake, WorkingWeight);
      SumUpdate(p.workers, w, Awake, StoppingWeight);
    case SpuriousWake(w) => SumUpdate(p.workers, w, Awake, StoppingWeight);
    case Check(w) =>
      if p.queue != [] {
        SumUpdate(p.workers, w, Running(p.queue[0]), WorkingWeight);
        SumUpdate(p.workers, w, Running(p.queue[0]), StoppingWeight);
      } else {
        SumUpdate(p.workers, w, Asleep, WorkingWeight);
        SumUpdate(p.workers, w, Exited, StoppingWeight);
      }
    case Finish(w) =>
      SumUpdate(p.workers, w, Awake, WorkingWeight);
      SumUpdate(p.workers, w, Awake, StoppingWeight);
    case NotifyAll => SumWake(p.workers, StoppingWeight);
    case _ =>
  }

  /** Left alone, the pool makes only so many steps. */
  lemma {:induction false} RunsDown(p: Pool, steps: seq<Step>)
    requires Inv(p) && Runs(p, steps) && (forall s :: s in steps ==> Internal(p.Stopping(), s))
    ensures |steps| + Measure(After(p, steps)) <= Measure(p)
    decreases |steps|
  {
    hide Inv, Measure, Runs, After;
    FirstStep(p, steps);
    if steps != [] {
      assert JoinsInOrder(p) by { InvJoins(p); }
      StepDescends(p, steps[0]);
      StepKeepsInv(p, steps[0]);
      RunsDown(Do(p, steps[0]), steps[1..]);
    }
  }

  lemma InvJoins(p: Pool)
    requires Inv(p)
    ensures JoinsInOrder(p) && Measure(p) >= 0
  {}

  /** No thread of the pool, no notification and no join can make a step. */
  ghost predicate Quiet(p: Pool) {
    forall s :: Internal(p.Stopping(), s) ==> !Enabled(p, s)
  }

  /** The pool never gets stuck: when it comes to rest, shutdown has returned if it was called, and otherwise all
      workers sleep and every accepted job has finished. */
  lemma QuietMeansDone(p: Pool)
    requires Inv(p) && Quiet(p)
    ensures p.Stopping() ==> p.Returned()
    ensures !p.Stopping() && |p.workers| > 0 ==> p.queue == [] && multiset(p.finished) == multiset(p.accepted)
  {
    hide InHand, Sum;
    forall i: nat | i < |p.workers| ensures p.workers[i] == Asleep || p.workers[i] == Exited {
      assert !Enabled(p, Check(i)) && !Enabled(p, Finish(i));
    }
    QuietNotifies(p);
    assert !Enabled(p, NotifyAll) && !Enabled(p, Join);
    InHandNothing(p.workers);
    SumZero(p.workers, CountAwake);
    if !p.Stopping() && |p.workers| > 0 { assert p.workers[0] == Asleep; }
  }

  lemma QuietNotifies(p: Pool)
    requires Quiet(p)
    ensures p.notifies == 0
  {
    assert !Enabled(p, NotifyNobody);
    if Asleep in p.workers {
      var i :| 0 <= i < |p.workers| && p.workers[i] == Asleep;
      assert !Enabled(p, NotifyOne(i));
    }
  }

  /** Once called, and provided the running jobs end, shutdown returns: without new jobs every run from there is
      bounded, and it can only end with shutdown returned. */
  lemma ShutdownReturns(count: nat, limit: nat, early: seq<Step>, late: seq<Step>)
    requires Runs(Initial(count, limit), Calling(early, late))
    requires forall s :: s in late ==> !s.Enqueue?
    ensures Runs(Initial(count, limit), early) && Enabled(After(Initial(count, limit), early), CallShutdown)
    ensures var p, q := After(Initial(count, limit), early), After(Initial(count, limit), Calling(early, late));
      && |late| <= Measure(Do(p, CallShutdown))
      && (Quiet(q) ==> q.Returned())
  {
    hide Inv, Measure, Quiet, Runs, After, Initial, Calling;
    SplitAtCall(count, limit, early, late);
    var p, q := After(Initial(count, limit), early), After(Initial(count, limit), Calling(early, late));
    var flagged := Do(p, CallShutdown);
    AfterTheFlag(flagged, late);
    NoSecondCall(flagged, late);
    RunsDown(flagged, late);
    InvJoins(q);
    if Quiet(q) { QuietMeansDone(q); }
  }

  lemma {:induction false} NoSecondCall(p: Pool, steps: seq<Step>)
    requires p.Stopping() && Runs(p, steps)
    ensures CallShutdown !in steps
    decreases |steps|
  {
    hide Runs, After;
    FirstStep(p, steps);
    if steps != [] {
      NoSecondCall(Do(p, steps[0]), steps[1..]);
      assert steps == [steps[0]] + steps[1..];
    }
  }
}
