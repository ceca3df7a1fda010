/**
 The accept loop, the connections and the worker pool as one system: a connection is served
 only by the worker that took its task off the queue, and the pool is stopped only after
 the active connections have been swept.
 */
module Shutdown {
  import opened Base
  import TP = ThreadPool
  import C = Connections

  /** Task i of the connections is task i of the pool. */
  datatype Server = Server(pool: TP.State, conns: C.State)

  datatype Step =
    | Pool(p: TP.Action)
    | Conn(a: C.Action)
    | Hand               // the accept loop offers its connection to the pool, and closes it if refused

  function Start(threads: nat, bound: nat): Server { Server(TP.Init(threads, bound), C.Start) }

  /** A step of one connection's task. */
  predicate OfTask(a: C.Action) { a.Register? || a.Check? || a.EndHandling? || a.Close? }

  ghost predicate RunBy(p: TP.State, w: nat, i: nat) { TP.Is(p, w, TP.Running(i)) }

  /** Some worker is running task i. */
  ghost predicate Served(p: TP.State, i: nat) { exists w :: RunBy(p, w, i) }

  /** The worker has run its task to the end. */
  ghost predicate Through(s: Server, w: nat) {
    w < |s.pool.workers| && s.pool.workers[w].Running? && C.At(s.conns, s.pool.workers[w].task, C.Done)
  }

  predicate Accepts(p: TP.State) { !p.stopping && (p.bound == 0 || |p.queue| < p.bound) }

  ghost predicate Enabled(s: Server, x: Step) {
    match x
    case Pool(p) =>
      && TP.Enabled(s.pool, p) && !p.Submit?
      && (p.Stop? ==> s.conns.swept) && (p.Finish? ==> Through(s, p.worker))
    case Conn(a) => C.Enabled(s.conns, a) && !a.Submit? && !a.Refuse? && (OfTask(a) ==> Served(s.pool, a.i))
    case Hand => s.conns.held.Some?
  }

  ghost function Apply(s: Server, x: Step): Server
    requires Enabled(s, x)
  {
    match x
    case Pool(p) => s.(pool := TP.Apply(s.pool, p))
    case Conn(a) => s.(conns := C.Apply(s.conns, a))
    case Hand =>
      if Accepts(s.pool) then
        Server(TP.Apply(s.pool, TP.Submit(|s.conns.tasks|)), C.Apply(s.conns, C.Submit))
      else s.(conns := C.Apply(s.conns, C.Refuse))
  }

  // ---------------------------------------------------------------- the invariant

  /** The pool has accepted the tasks of the connections, in order. */
  ghost predicate Numbered(s: Server) {
    |s.pool.accepted| == |s.conns.tasks| && forall i :: 0 <= i < |s.pool.accepted| ==> s.pool.accepted[i] == i
  }

  ghost predicate FinishedDone(s: Server) {
    forall t :: t in s.pool.finished ==> C.At(s.conns, t, C.Done)
  }

  ghost predicate Inv(s: Server) {
    && TP.Inv(s.pool) && C.Inv(s.conns) && Numbered(s) && FinishedDone(s)
    && (s.pool.stopping ==> s.conns.swept)
  }

  lemma PoolKeeps(p: TP.State, a: TP.Action)
    requires TP.Enabled(p, a) && !a.Submit?
    ensures TP.Apply(p, a).accepted == p.accepted
    ensures TP.Apply(p, a).finished == p.finished + if a.Finish? then [p.workers[a.worker].task] else []
    ensures TP.Apply(p, a).stopping == (p.stopping || a.Stop?)
  {
    hide TP.Asleep;
  }

  /** No step of the connections brings a finished task back. */
  lemma ConnKeeps(c: C.State, a: C.Action)
    requires C.Enabled(c, a)
    ensures |C.Apply(c, a).tasks| == |c.tasks| + if a.Submit? then 1 else 0
    ensures forall i: nat :: C.At(c, i, C.Done) ==> C.At(C.Apply(c, a), i, C.Done)
    ensures c.swept ==> C.Apply(c, a).swept
  {
  }

  lemma PoolInv(s: Server, p: TP.Action)
    requires Inv(s) && Enabled(s, Pool(p))
    ensures Inv(Apply(s, Pool(p)))
  {
    hide TP.Inv, TP.Apply, C.Inv, C.At;
    TP.StepInv(s.pool, p);
    PoolKeeps(s.pool, p);
  }

  lemma ConnInv(s: Server, a: C.Action)
    requires Inv(s) && Enabled(s, Conn(a))
    ensures Inv(Apply(s, Conn(a)))
  {
    hide TP.Inv, C.Inv, C.Apply, C.At;
    C.StepInv(s.conns, a);
    ConnKeeps(s.conns, a);
  }

  lemma HandInv(s: Server)
    requires Inv(s) && Enabled(s, Hand)
    ensures Inv(Apply(s, Hand))
  {
    hide TP.Inv, C.Inv, C.Apply, C.At;
    if Accepts(s.pool) {
      TP.StepInv(s.pool, TP.Submit(|s.conns.tasks|));
      C.StepInv(s.conns, C.Submit);
      ConnKeeps(s.conns, C.Submit);
    } else {
      C.StepInv(s.conns, C.Refuse);
      ConnKeeps(s.conns, C.Refuse);
    }
  }

  lemma StepInv(s: Server, x: Step)
    requires Inv(s) && Enabled(s, x)
    ensures Inv(Apply(s, x))
  {
    hide Inv, Enabled, Apply;
    match x
    case Pool(p) => PoolInv(s, p);
    case Conn(a) => ConnInv(s, a);
    case Hand => HandInv(s);
  }

  /** The state after an interleaving of steps from a new server, if each step was possible. */
  ghost function Outcome(threads: nat, bound: nat, run: seq<Step>): Option<Server> {
    if run == [] then Some(Start(threads, bound))
    else
      var s := Outcome(threads, bound, run[..|run| - 1]);
      if s.Some? && Enabled(s.value, run[|run| - 1]) then Some(Apply(s.value, run[|run| - 1])) else None
  }

  /** The invariants of pool and connections hold together in every state of every interleaving. */
  lemma {:induction false} RunInv(threads: nat, bound: nat, run: seq<Step>)
    ensures var s := Outcome(threads, bound, run); s.Some? ==> Inv(s.value)
  {
    if run == [] {
      hide TP.Inv, C.Inv;
      TP.InitInv(threads, bound);
      C.StartInv();
    } else {
      hide Inv, Enabled, Apply;
      var past := run[..|run| - 1];
      RunInv(threads, bound, past);
      var s := Outcome(threads, bound, past);
      if s.Some? && Enabled(s.value, run[|run| - 1]) { StepInv(s.value, run[|run| - 1]); }
    }
  }

  /**
   A connection the accept loop offers becomes a task exactly when the pool has not been
   stopped and fewer tasks than its bound wait to start; otherwise it is closed.
   */
  lemma HandExactly(threads: nat, bound: nat, run: seq<Step>, s: Server)
    requires Outcome(threads, bound, run) == Some(s) && s.conns.held.Some?
    ensures var s' := Apply(s, Hand); var c := s.conns.held.value.conn;
            && s'.conns.held == None
            && if !s.pool.stopping && (s.pool.bound == 0 || |s.pool.accepted| - |s.pool.started| < s.pool.bound)
               then s'.pool.accepted == s.pool.accepted + [|s.conns.tasks|]
                    && s'.conns.tasks == s.conns.tasks + [s.conns.held.value]
               else s'.pool == s.pool && s'.conns.tasks == s.conns.tasks && c in s'.conns.closed
  {
    RunInv(threads, bound, run);
    HeldIsOpen(s.conns);
    hide C.Inv, TP.Conserved, TP.NoLostWakeup, TP.ExitsDrained, Outcome, FinishedDone;
  }

  lemma HeldIsOpen(c: C.State)
    requires C.Inv(c) && c.held.Some?
    ensures c.held.value.fd in c.open && c.open[c.held.value.fd] == c.held.value.conn
  {
    hide C.Accounted, C.ActiveExact, C.Interrupted;
    assert C.Owns(c, -1, c.held.value.fd, c.held.value.conn);
  }

  // ---------------------------------------------------------------- where a task is

  /** A task is accepted exactly once. */
  lemma {:induction false} CountAccepted(s: seq<TP.Task>, t: TP.Task)
    requires forall i :: 0 <= i < |s| ==> s[i] == i
    ensures multiset(s)[t] == if t < |s| then 1 else 0
  {
    if s != [] {
      var rest := s[..|s| - 1];
      CountAccepted(rest, t);
      assert s == rest + [s[|s| - 1]];
    }
  }

  /** So it is queued, running or finished, once. */
  lemma Once(s: Server, t: TP.Task)
    requires Inv(s)
    ensures multiset(s.pool.queue)[t] + multiset(s.pool.finished)[t] + TP.Count(s.pool.workers, TP.Running(t))
         == if t < |s.conns.tasks| then 1 else 0
  {
    hide C.Inv, TP.Count, TP.NoLostWakeup, TP.ExitsDrained;
    CountAccepted(s.pool.accepted, t);
    assert TP.ConservedFor(s.pool, t);
    assert multiset(s.pool.accepted) == multiset(s.pool.started) + multiset(s.pool.queue);
  }

  lemma Where(s: Server, i: nat)
    requires Inv(s) && i < |s.conns.tasks|
    ensures i in s.pool.queue || Served(s.pool, i) || C.At(s.conns, i, C.Done)
  {
    Once(s, i);
    hide TP.Inv, C.Inv, TP.Count, Numbered;
    if TP.Count(s.pool.workers, TP.Running(i)) > 0 {
      TP.CountWitness(s.pool.workers, TP.Running(i));
      var w: nat :| w < |s.pool.workers| && s.pool.workers[w] == TP.Running(i);
      assert RunBy(s.pool, w, i);
    }
  }

  lemma {:induction false} CountTwo(ws: seq<TP.Worker>, x: TP.Worker, v: nat, w: nat)
    requires v < w < |ws| && ws[v] == x && ws[w] == x
    ensures TP.Count(ws, x) >= 2
  {
    var n := |ws| - 1;
    if w < n {
      CountTwo(ws[..n], x, v, w);
    } else {
      TP.CountUpdate(ws[..n], v, x, x);
    }
  }

  /** No two workers ever serve the same connection. */
  lemma OneWorker(threads: nat, bound: nat, run: seq<Step>, s: Server, i: nat, v: nat, w: nat)
    requires Outcome(threads, bound, run) == Some(s) && RunBy(s.pool, v, i) && RunBy(s.pool, w, i)
    ensures v == w
  {
    hide Inv, TP.Count;
    RunInv(threads, bound, run);
    Once(s, i);
    if v != w { CountTwo(s.pool.workers, TP.Running(i), Min(v, w), Max(v, w)); }
  }

  lemma RunningKnown(s: Server, w: nat, i: nat)
    requires Inv(s) && RunBy(s.pool, w, i)
    ensures i < |s.conns.tasks|
  {
    hide Inv, TP.Count;
    TP.CountUpdate(s.pool.workers, w, TP.Running(i), TP.Running(i));
    Once(s, i);
  }

  // ---------------------------------------------------------------- shutdown ends

  function Left(s: Server): nat { TP.Remaining(s.pool) + C.Weights(s.conns.tasks) }

  /** A step of one of the server's own threads. */
  predicate Own(x: Step) { x.Conn? ==> C.Own(x.a) }

  /** Once the pool is stopping every step of the server uses up part of a finite remainder. */
  lemma StoppingDecreases(s: Server, x: Step)
    requires Inv(s) && Enabled(s, x) && s.pool.stopping
    ensures Apply(s, x).pool.stopping
    ensures Own(x) ==> Left(Apply(s, x)) < Left(s)
    ensures !Own(x) ==> Left(Apply(s, x)) == Left(s)
  {
    hide TP.Apply, TP.Remaining, TP.Inv, C.Apply, C.Weights, Numbered, FinishedDone;
    NothingHeld(s.conns);
    match x
    case Pool(p) =>
      TP.StopDecreases(s.pool, p);
      TP.StaysStopping(s.pool, p);
    case Conn(a) => C.SweptDecreases(s.conns, a);
    case Hand =>
  }

  lemma NothingHeld(c: C.State)
    requires C.Inv(c) && c.swept
    ensures c.held == None
  {
  }

  /** The step can be taken now, without waiting for a peer or a spurious wakeup. */
  ghost predicate Ready(s: Server, x: Step) {
    && Enabled(s, x) && Own(x)
    && (x.Pool? ==> !x.p.Spurious?)
    && (x.Conn? && x.a.EndHandling? ==> !C.Blocked(s.conns, x.a.i))
  }

  /** The worker's own connection can always go on after the sweep. */
  lemma TaskReady(s: Server, w: nat, i: nat)
    requires Inv(s) && s.conns.swept && RunBy(s.pool, w, i) && !C.At(s.conns, i, C.Done)
    ensures exists x :: Ready(s, x)
  {
    RunningKnown(s, w, i);
    hide TP.Inv, C.Accounted, C.Owned, C.ActiveExact, Numbered, FinishedDone;
    assert Served(s.pool, i);
    var a := match s.conns.tasks[i].phase
             case Queued => C.Register(i)
             case Registered => C.Check(i)
             case Handling => C.EndHandling(i)
             case _ => C.Close(i);
    assert Ready(s, Conn(a));
  }

  /** Until the join some thread can go on, whatever the number of workers. */
  lemma NotStuck(s: Server)
    requires Inv(s) && s.pool.stopping && !s.pool.returned
    ensures exists x :: Ready(s, x)
  {
    TP.StopNotStuck(s.pool);
    hide TP.Inv, C.Inv, Numbered, FinishedDone;
    var p :| TP.Enabled(s.pool, p) && !p.Submit? && !p.Spurious?;
    if p.Finish? && !Through(s, p.worker) {
      var i := s.pool.workers[p.worker].task;
      assert RunBy(s.pool, p.worker, i);
      TaskReady(s, p.worker, i);
    } else {
      assert Ready(s, Pool(p));
    }
  }

  /** When the join has returned every connection has been served to the end. */
  lemma JoinedDone(s: Server)
    requires Inv(s) && s.pool.returned
    ensures s.conns.swept && C.AllDone(s.conns)
  {
    assert TP.Is(s.pool, 0, TP.Exited);
    assert s.pool.queue == [] && s.pool.stopping;
    forall i | 0 <= i < |s.conns.tasks|
      ensures s.conns.tasks[i].phase == C.Done
    {
      Where(s, i);
    }
  }

  ghost function From(s: Server, run: seq<Step>): Option<Server>
    decreases |run|
  {
    if run == [] then Some(s)
    else if Enabled(s, run[0]) then From(Apply(s, run[0]), run[1..])
    else None
  }

  function OwnSteps(run: seq<Step>): nat
    decreases |run|
  {
    if run == [] then 0 else (if Own(run[0]) then 1 else 0) + OwnSteps(run[1..])
  }

  /** The join has returned, and every connection that was ever accepted has been closed exactly once. */
  ghost predicate Over(s: Server) {
    && s.pool.returned && s.pool.queue == [] && C.AllDone(s.conns)
    && s.conns.open == map[] && Distinct(s.conns.closed)
    && forall c: C.Conn :: c in s.conns.closed <==> c < s.conns.accepted
  }

  lemma JoinedOver(s: Server)
    requires Inv(s) && s.pool.returned
    ensures Over(s)
  {
    JoinedDone(s);
    NothingHeld(s.conns);
    C.AllClosed(s.conns);
    assert TP.Is(s.pool, 0, TP.Exited);
  }

  /**
   With any number of workers, once the connections are swept and the pool is stopping, the
   server shuts down: under every schedule a bounded number of steps of its own are left,
   one of them can be taken without waiting for a peer until the join returns, and then
   every connection has been closed exactly once. Handling a request is taken to end.
   */
  lemma {:induction false} ShutsDown(s: Server, run: seq<Step>, t: Server)
    requires Inv(s) && s.pool.stopping && From(s, run) == Some(t)
    ensures OwnSteps(run) <= Left(s)
    ensures if t.pool.returned then Over(t) else exists x :: Ready(t, x)
    decreases |run|
  {
    hide Inv, Enabled, Apply, Own, Over, Ready, Left;
    if run == [] {
      if s.pool.returned { JoinedOver(s); } else { NotStuck(s); }
    } else {
      StoppingDecreases(s, run[0]);
      StepInv(s, run[0]);
      ShutsDown(Apply(s, run[0]), run[1..], t);
    }
  }
}
