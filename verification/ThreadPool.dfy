/**
 The worker pool as a step system: one step per critical section, with the condition
 variable's wait set, pending notifications and spurious wakeups explicit. A run is any
 interleaving of the steps.
 */
module ThreadPool {
  import opened Base

  type Task = nat

  datatype Worker =
    | Ready               // about to take the lock and look at the queue
    | Waiting             // asleep on the condition variable
    | Running(task: Task) // the lock is released
    | Exited

  datatype State = State(
    bound: nat,            // 0 means unbounded
    queue: seq<Task>,
    stopping: bool,
    workers: seq<Worker>,
    notifies: nat,         // submitters that have pushed and not yet called notify_one
    notifyAll: bool,       // shutdown has set the flag and not yet called notify_all
    returned: bool,        // shutdown has joined every worker
    accepted: seq<Task>,   // history: pushed, in order
    started: seq<Task>,    // history: popped, in order
    finished: seq<Task>)   // history: run to the end, normally or by an exception

  datatype Action =
    | Submit(task: Task)
    | Notify(wake: nat)    // notify_one, waking that worker if any is asleep
    | Look(worker: nat)    // one pass through the locked section of the worker loop
    | Spurious(worker: nat)
    | Finish(worker: nat)
    | Stop
    | NotifyAll
    | Join

  function Init(threads: nat, bound: nat): State {
    State(bound, [], false, seq(Max(threads, 1), _ => Ready), 0, false, false, [], [], [])
  }

  ghost predicate Is(s: State, w: nat, x: Worker) { w < |s.workers| && s.workers[w] == x }

  ghost predicate Asleep(s: State) { exists w :: Is(s, w, Waiting) }

  ghost predicate Enabled(s: State, a: Action) {
    match a
    case Submit(_) => true
    case Notify(w) => s.notifies > 0 && (Asleep(s) ==> Is(s, w, Waiting))
    case Look(w) => Is(s, w, Ready)
    case Spurious(w) => Is(s, w, Waiting)
    case Finish(w) => w < |s.workers| && s.workers[w].Running?
    case Stop => !s.stopping
    case NotifyAll => s.notifyAll
    case Join =>
      s.stopping && !s.notifyAll && !s.returned && forall w :: 0 <= w < |s.workers| ==> s.workers[w] == Exited
  }

  function Put(s: State, w: nat, x: Worker): State
    requires w < |s.workers|
  {
    s.(workers := s.workers[w := x])
  }

  function Wake(x: Worker): Worker { if x == Waiting then Ready else x }

  ghost function Apply(s: State, a: Action): State
    requires Enabled(s, a)
  {
    match a
    case Submit(t) =>
      if s.stopping || (s.bound != 0 && |s.queue| >= s.bound) then s
      else s.(queue := s.queue + [t], accepted := s.accepted + [t], notifies := s.notifies + 1)
    case Notify(w) =>
      var s' := s.(notifies := s.notifies - 1);
      if Asleep(s) then Put(s', w, Ready) else s'
    case Look(w) =>
      if s.queue != [] then
        Put(s, w, Running(s.queue[0])).(queue := s.queue[1..], started := s.started + [s.queue[0]])
      else Put(s, w, if s.stopping then Exited else Waiting)
    case Spurious(w) => Put(s, w, Ready)
    case Finish(w) => Put(s, w, Ready).(finished := s.finished + [s.workers[w].task])
    case Stop => s.(stopping := true, notifyAll := true)
    case NotifyAll =>
      s.(notifyAll := false, workers := seq(|s.workers|, i requires 0 <= i < |s.workers| => Wake(s.workers[i])))
    case Join => s.(returned := true)
  }

  // ---------------------------------------------------------------- counting

  function Count(ws: seq<Worker>, x: Worker): nat {
    if ws == [] then 0 else Count(ws[..|ws| - 1], x) + if ws[|ws| - 1] == x then 1 else 0
  }

  lemma {:induction false} CountUpdate(ws: seq<Worker>, w: nat, y: Worker, x: Worker)
    requires w < |ws|
    ensures Count(ws[w := y], x) == Count(ws, x) - (if ws[w] == x then 1 else 0) + (if y == x then 1 else 0)
    ensures ws[w] == x ==> Count(ws, x) > 0
  {
    var n := |ws| - 1;
    if w < n {
      CountUpdate(ws[..n], w, y, x);
      assert ws[w := y][..n] == ws[..n][w := y];
    } else {
      assert ws[w := y][..n] == ws[..n];
    }
  }

  lemma {:induction false} CountSame(ws: seq<Worker>, vs: seq<Worker>, x: Worker)
    requires |ws| == |vs| && forall i :: 0 <= i < |ws| ==> (ws[i] == x <==> vs[i] == x)
    ensures Count(ws, x) == Count(vs, x)
  {
    if ws != [] { CountSame(ws[..|ws| - 1], vs[..|vs| - 1], x); }
  }

  lemma {:induction false} CountNone(ws: seq<Worker>, x: Worker)
    requires forall i :: 0 <= i < |ws| ==> ws[i] != x
    ensures Count(ws, x) == 0
  {
    if ws != [] { CountNone(ws[..|ws| - 1], x); }
  }

  // ---------------------------------------------------------------- the invariant

  /** Every accepted task is popped once, in the order it was accepted. */
  ghost predicate Fifo(s: State) {
    s.accepted == s.started + s.queue
  }

  /** A popped task is being run or has been run, once. */
  ghost predicate Conserved(s: State) {
    forall t :: ConservedFor(s, t)
  }

  ghost predicate WithinBound(s: State) {
    s.bound != 0 ==> |s.queue| <= s.bound
  }

  /** Workers leave only once the pool is stopping and drained. */
  ghost predicate ExitsDrained(s: State) {
    && (forall w :: Is(s, w, Exited) ==> s.stopping && s.queue == [])
    && (s.returned ==> forall w :: 0 <= w < |s.workers| ==> s.workers[w] == Exited)
  }

  /** No wakeup is lost: while anyone sleeps, each queued task has an awake worker or a notify on its way. */
  ghost predicate NoLostWakeup(s: State) {
    && (Asleep(s) ==> |s.queue| <= s.notifies + Count(s.workers, Ready))
    && (Asleep(s) && s.stopping ==> s.notifyAll)
  }

  ghost predicate Inv(s: State) {
    && |s.workers| >= 1
    && Fifo(s) && Conserved(s) && WithinBound(s) && ExitsDrained(s) && NoLostWakeup(s)
  }

  lemma StepFifo(s: State, a: Action)
    requires Enabled(s, a) && Fifo(s)
    ensures Fifo(Apply(s, a))
  {
    match a
    case Look(w) => if s.queue != [] { assert s.queue == [s.queue[0]] + s.queue[1..]; }
    case _ =>
  }

  lemma PushCount(s: seq<Task>, x: Task, t: Task)
    ensures multiset(s + [x])[t] == multiset(s)[t] + if x == t then 1 else 0
  {
  }

  ghost predicate ConservedFor(s: State, t: Task) {
    multiset(s.started)[t] == multiset(s.finished)[t] + Count(s.workers, Running(t))
  }

  lemma StepConservedFor(s: State, a: Action, t: Task)
    requires Enabled(s, a) && ConservedFor(s, t)
    ensures ConservedFor(Apply(s, a), t)
  {
    hide Count, Asleep;
    var s' := Apply(s, a);
    match a
    case Notify(w) => if Asleep(s) { CountUpdate(s.workers, w, Ready, Running(t)); }
    case Look(w) => LookConserves(s, w, t);
    case Spurious(w) => CountUpdate(s.workers, w, Ready, Running(t));
    case Finish(w) => FinishConserves(s, w, t);
    case NotifyAll => CountSame(s.workers, s'.workers, Running(t));
    case _ =>
  }

  lemma LookConserves(s: State, w: nat, t: Task)
    requires Enabled(s, Look(w)) && ConservedFor(s, t)
    ensures ConservedFor(Apply(s, Look(w)), t)
  {
    hide Count;
    CountUpdate(s.workers, w, Apply(s, Look(w)).workers[w], Running(t));
    if s.queue != [] { PushCount(s.started, s.queue[0], t); }
  }

  lemma FinishConserves(s: State, w: nat, t: Task)
    requires Enabled(s, Finish(w)) && ConservedFor(s, t)
    ensures ConservedFor(Apply(s, Finish(w)), t)
  {
    hide Count;
    CountUpdate(s.workers, w, Ready, Running(t));
    PushCount(s.finished, s.workers[w].task, t);
  }

  lemma StepConserved(s: State, a: Action)
    requires Enabled(s, a) && Conserved(s)
    ensures Conserved(Apply(s, a))
  {
    hide Apply, Enabled, Count;
    forall t: Task
      ensures ConservedFor(Apply(s, a), t)
    {
      assert ConservedFor(s, t);
      StepConservedFor(s, a, t);
    }
  }

  lemma StepWakeup(s: State, a: Action)
    requires Enabled(s, a) && NoLostWakeup(s)
    ensures NoLostWakeup(Apply(s, a))
  {
    hide Count, Asleep;
    var s' := Apply(s, a);
    match a
    case Notify(w) =>
      if Asleep(s) {
        CountUpdate(s.workers, w, Ready, Ready);
        Slept(s, s', w);
      } else {
        SameSleepers(s, s');
      }
    case Look(w) =>
      CountUpdate(s.workers, w, s'.workers[w], Ready);
      if s.queue != [] || s.stopping { Slept(s, s', w); }
    case Spurious(w) => CountUpdate(s.workers, w, Ready, Ready); Slept(s, s', w);
    case Finish(w) => CountUpdate(s.workers, w, Ready, Ready); Slept(s, s', w);
    case NotifyAll => AllAwake(s, s');
    case _ => SameSleepers(s, s');
  }

  lemma AllAwake(s: State, s': State)
    requires |s'.workers| == |s.workers| && forall i :: 0 <= i < |s.workers| ==> s'.workers[i] == Wake(s.workers[i])
    ensures !Asleep(s')
  {
    assert forall w :: !Is(s', w, Waiting);
  }

  lemma SameSleepers(s: State, s': State)
    requires s'.workers == s.workers
    ensures Asleep(s') <==> Asleep(s)
  {
    assert forall w :: Is(s', w, Waiting) <==> Is(s, w, Waiting);
  }

  /** A change to one worker, not putting it to sleep, leaves the sleepers among the old ones. */
  lemma Slept(s: State, s': State, w: nat)
    requires w < |s.workers| == |s'.workers|
    requires s'.workers == s.workers[w := s'.workers[w]] && s'.workers[w] != Waiting
    ensures Asleep(s') ==> Asleep(s)
  {
    if Asleep(s') {
      var v :| Is(s', v, Waiting);
      assert Is(s, v, Waiting);
    }
  }

  lemma StepExits(s: State, a: Action)
    requires Enabled(s, a) && ExitsDrained(s)
    ensures ExitsDrained(Apply(s, a))
  {
    var s' := Apply(s, a);
    forall v | Is(s', v, Exited)
      ensures s'.stopping && s'.queue == []
    {
      assert Is(s, v, Exited) || a == Look(v);
    }
  }

  lemma StepInv(s: State, a: Action)
    requires Enabled(s, a) && Inv(s)
    ensures Inv(Apply(s, a))
  {
    StepFifo(s, a);
    StepConserved(s, a);
    StepWakeup(s, a);
    StepExits(s, a);
  }

  // ---------------------------------------------------------------- runs

  /** The state after an interleaving of steps from a new pool, if each step was possible. */
  ghost function Outcome(threads: nat, bound: nat, run: seq<Action>): Option<State> {
    if run == [] then Some(Init(threads, bound))
    else
      var p := Outcome(threads, bound, run[..|run| - 1]);
      if p.Some? && Enabled(p.value, run[|run| - 1]) then Some(Apply(p.value, run[|run| - 1])) else None
  }

  /** The invariant holds in every state of every interleaving. */
  lemma {:induction false} RunInv(threads: nat, bound: nat, run: seq<Action>)
    ensures var s := Outcome(threads, bound, run); s.Some? ==> Inv(s.value)
  {
    hide Inv, Enabled, Apply;
    if run == [] {
      InitInv(threads, bound);
    } else {
      RunInv(threads, bound, run[..|run| - 1]);
      var p := Outcome(threads, bound, run[..|run| - 1]);
      if p.Some? && Enabled(p.value, run[|run| - 1]) { StepInv(p.value, run[|run| - 1]); }
    }
  }

  ghost predicate Stopped(run: seq<Action>) { exists i :: 0 <= i < |run| && run[i].Stop? }

  lemma {:induction false} RunShape(threads: nat, bound: nat, run: seq<Action>, s: State)
    requires Outcome(threads, bound, run) == Some(s)
    ensures s.bound == bound && (s.stopping <==> Stopped(run)) && |s.workers| == if threads == 0 then 1 else threads
  {
    if run != [] {
      hide Stopped, Enabled, Apply;
      var past, a := run[..|run| - 1], run[|run| - 1];
      var p := Outcome(threads, bound, past).value;
      RunShape(threads, bound, past, p);
      StepShape(p, a);
      assert run == past + [a];
      StoppedNext(past, a);
    }
  }

  lemma StepShape(s: State, a: Action)
    requires Enabled(s, a)
    ensures var s' := Apply(s, a);
            s'.bound == s.bound && |s'.workers| == |s.workers| && s'.stopping == (s.stopping || a.Stop?)
  {
    hide Asleep;
  }

  lemma StoppedNext(past: seq<Action>, a: Action)
    ensures Stopped(past + [a]) <==> Stopped(past) || a.Stop?
  {
    var run := past + [a];
    assert run[|past|] == a;
    if i :| 0 <= i < |past| && past[i].Stop? { assert run[i].Stop?; }
  }

  /**
   In every run the pool has the workers it was given, or one if none. A task is accepted
   exactly when the pool has not been stopped and fewer tasks than the bound wait to start.
   */
  lemma SubmitExactly(threads: nat, bound: nat, run: seq<Action>, s: State, task: Task)
    requires Outcome(threads, bound, run) == Some(s)
    ensures |s.workers| == if threads == 0 then 1 else threads
    ensures var s' := Outcome(threads, bound, run + [Submit(task)]);
            var room := bound == 0 || |s.accepted| - |s.started| < bound;
            s'.Some? && s'.value.accepted == s.accepted + if room && !Stopped(run) then [task] else []
  {
    hide Stopped, Outcome, Inv;
    RunShape(threads, bound, run, s);
    RunInv(threads, bound, run);
    RunNext(threads, bound, run, s, Submit(task));
    QueueLength(s);
  }

  lemma RunNext(threads: nat, bound: nat, run: seq<Action>, s: State, a: Action)
    requires Outcome(threads, bound, run) == Some(s) && Enabled(s, a)
    ensures Outcome(threads, bound, run + [a]) == Some(Apply(s, a))
  {
    hide Enabled, Apply;
    var more := run + [a];
    assert more[..|more| - 1] == run && more[|more| - 1] == a;
  }

  lemma QueueLength(s: State)
    requires Inv(s)
    ensures |s.queue| == |s.accepted| - |s.started|
  {
    hide Conserved, NoLostWakeup, ExitsDrained, WithinBound;
  }

  lemma InitInv(threads: nat, bound: nat)
    ensures Inv(Init(threads, bound))
  {
    var s := Init(threads, bound);
    forall t: Task
      ensures ConservedFor(s, t)
    {
      CountNone(s.workers, Running(t));
    }
  }

  /** When shutdown has returned, exactly the accepted tasks have run, each once. */
  lemma ShutdownDrains(threads: nat, bound: nat, run: seq<Action>, s: State)
    requires Outcome(threads, bound, run) == Some(s) && s.returned
    ensures s.queue == [] && multiset(s.finished) == multiset(s.accepted)
  {
    RunInv(threads, bound, run);
    assert Is(s, 0, Exited);
    forall t: Task
      ensures multiset(s.finished)[t] == multiset(s.accepted)[t]
    {
      assert ConservedFor(s, t);
      CountNone(s.workers, Running(t));
    }
  }

  /** A queued task always has a worker that is awake, or a notification that has not been delivered. */
  lemma QueueIsServed(threads: nat, bound: nat, run: seq<Action>, s: State)
    requires Outcome(threads, bound, run) == Some(s) && s.queue != []
    ensures s.notifies > 0 || exists w :: 0 <= w < |s.workers| && (s.workers[w].Ready? || s.workers[w].Running?)
  {
    RunInv(threads, bound, run);
    if Asleep(s) && s.notifies == 0 {
      CountWitness(s.workers, Ready);
    } else if !Asleep(s) {
      assert !Is(s, 0, Waiting) && !Is(s, 0, Exited);
    }
  }

  lemma {:induction false} CountWitness(ws: seq<Worker>, x: Worker)
    requires Count(ws, x) > 0
    ensures exists w :: 0 <= w < |ws| && ws[w] == x
  {
    if ws[|ws| - 1] != x { CountWitness(ws[..|ws| - 1], x); }
  }

  // ---------------------------------------------------------------- shutdown ends

  function Weight(x: Worker): nat {
    match x
    case Exited => 0
    case Ready => 1
    case Running(_) => 2
    case Waiting => 2
  }

  function Weights(ws: seq<Worker>): nat {
    if ws == [] then 0 else Weights(ws[..|ws| - 1]) + Weight(ws[|ws| - 1])
  }

  function Remaining(s: State): nat {
    2 * |s.queue| + Weights(s.workers) + s.notifies + (if s.notifyAll then 1 else 0) + (if s.returned then 0 else 1)
  }

  lemma {:induction false} WeightsUpdate(ws: seq<Worker>, w: nat, y: Worker)
    requires w < |ws|
    ensures Weights(ws[w := y]) == Weights(ws) - Weight(ws[w]) + Weight(y)
  {
    var n := |ws| - 1;
    if w < n {
      WeightsUpdate(ws[..n], w, y);
      assert ws[w := y][..n] == ws[..n][w := y];
    } else {
      assert ws[w := y][..n] == ws[..n];
    }
  }

  lemma {:induction false} WeightsWake(ws: seq<Worker>, vs: seq<Worker>)
    requires |ws| == |vs| && forall i :: 0 <= i < |ws| ==> vs[i] == Wake(ws[i])
    ensures Weights(vs) <= Weights(ws)
  {
    if ws != [] { WeightsWake(ws[..|ws| - 1], vs[..|vs| - 1]); }
  }

  /** Once stopping, every step but a refused submission uses up part of a finite remainder. */
  lemma StopDecreases(s: State, a: Action)
    requires Enabled(s, a) && s.stopping && !a.Submit?
    ensures Remaining(Apply(s, a)) < Remaining(s)
  {
    hide Weights, Asleep;
    match a
    case Notify(w) => if Asleep(s) { WeightsUpdate(s.workers, w, Ready); }
    case Look(w) => WeightsUpdate(s.workers, w, Apply(s, a).workers[w]);
    case Spurious(w) => WeightsUpdate(s.workers, w, Ready);
    case Finish(w) => WeightsUpdate(s.workers, w, Ready);
    case NotifyAll => WeightsWake(s.workers, Apply(s, a).workers);
    case _ =>
  }

  /** A stopping pool whose shutdown has not returned is never stuck: one of its own threads can take a step. */
  lemma StopNotStuck(s: State)
    requires Inv(s) && s.stopping && !s.returned
    ensures exists a :: Enabled(s, a) && !a.Submit? && !a.Spurious?
  {
    if s.notifyAll {
      assert Enabled(s, NotifyAll);
    } else if forall w :: 0 <= w < |s.workers| ==> s.workers[w] == Exited {
      assert Enabled(s, Join);
    } else {
      var w :| 0 <= w < |s.workers| && s.workers[w] != Exited;
      assert !Is(s, w, Waiting);
      assert Enabled(s, if s.workers[w].Running? then Finish(w) else Look(w));
    }
  }

  /** The state after further steps, if each was possible. */
  ghost function From(s: State, run: seq<Action>): Option<State>
    decreases |run|
  {
    if run == [] then Some(s)
    else if Enabled(s, run[0]) then From(Apply(s, run[0]), run[1..])
    else None
  }

  /**
   Given that tasks end, shutdown returns: however the pool's own threads are scheduled,
   and whatever spurious wakeups they have, at most `Remaining` steps are left, and until
   the join one of them can always be taken.
   */
  lemma {:induction false} ShutdownEnds(s: State, run: seq<Action>, t: State)
    requires Inv(s) && s.stopping && From(s, run) == Some(t)
    requires forall i :: 0 <= i < |run| ==> !run[i].Submit?
    ensures |run| <= Remaining(s)
    ensures t.returned || exists a :: Enabled(t, a) && !a.Submit? && !a.Spurious?
    decreases |run|
  {
    hide Inv, Enabled, Apply, Remaining;
    if run == [] {
      if !s.returned { StopNotStuck(s); }
    } else {
      StopDecreases(s, run[0]);
      StepInv(s, run[0]);
      StaysStopping(s, run[0]);
      ShutdownEnds(Apply(s, run[0]), run[1..], t);
    }
  }

  /** And there is a way on until the join. */
  lemma {:induction false} ShutdownReturns(s: State) returns (run: seq<Action>)
    requires Inv(s) && s.stopping
    ensures forall i :: 0 <= i < |run| ==> !run[i].Submit? && !run[i].Spurious?
    ensures From(s, run).Some? && From(s, run).value.returned
    ensures |run| <= Remaining(s)
    decreases Remaining(s)
  {
    hide Inv, Enabled, Apply, Remaining;
    if s.returned {
      run := [];
    } else {
      StopNotStuck(s);
      var a :| Enabled(s, a) && !a.Submit? && !a.Spurious?;
      StopDecreases(s, a);
      StepInv(s, a);
      StaysStopping(s, a);
      var rest := ShutdownReturns(Apply(s, a));
      run := [a] + rest;
      assert run[1..] == rest;
    }
  }

  lemma StaysStopping(s: State, a: Action)
    requires Enabled(s, a) && s.stopping
    ensures Apply(s, a).stopping
  {
  }
}
