/**
 The life of client connections in the server: the accept loop, the pool tasks that serve
 them, the set of active descriptors and the shutdown that interrupts them, as a step
 system with one step per critical section. Descriptor numbers are reused by the kernel;
 each accepted connection gets an identity of its own, which the server never sees.
 */
module Connections {
  import opened Base

  type Fd = nat
  type Conn = nat

  datatype Phase =
    | Queued       // submitted to the pool, not yet picked up
    | Registered   // in the active set, about to read the running flag
    | Handling     // read the flag as true; may be blocked in recv
    | Leaving      // about to unregister and close
    | Done

  datatype Task = Task(fd: Fd, conn: Conn, phase: Phase)

  datatype State = State(
    open: map<Fd, Conn>,   // the kernel's descriptor table
    shut: set<Conn>,       // connections on which shutdown() was called
    hungUp: set<Conn>,     // connections whose peer has gone
    accepted: nat,         // connections accepted so far; the next identity
    closed: seq<Conn>,     // history of close() calls
    held: Option<Task>,    // the descriptor the accept loop is holding
    tasks: seq<Task>,
    active: set<Fd>,
    running: bool,
    accepting: bool,
    swept: bool)           // shutdownActiveConnections has run

  const Start: State := State(map[], {}, {}, 0, [], None, [], {}, true, true, false)

  datatype Action =
    | Accept(fd: Fd)
    | Submit
    | Refuse               // the pool is full: answer and close
    | Register(i: nat)
    | Check(i: nat)        // reads the running flag, outside any lock
    | EndHandling(i: nat)
    | Close(i: nat)        // unregister and close, in one critical section
    | HangUp(conn: Conn)
    | Stop                 // stop(), from any thread
    | LeaveLoop
    | Sweep

  ghost predicate At(s: State, i: nat, p: Phase) { i < |s.tasks| && s.tasks[i].phase == p }

  ghost predicate Enabled(s: State, a: Action) {
    match a
    case Accept(fd) => s.accepting && s.held == None && fd !in s.open
    case Submit => s.held.Some?
    case Refuse => s.held.Some?
    case Register(i) => At(s, i, Queued)
    case Check(i) => At(s, i, Registered)
    case EndHandling(i) => At(s, i, Handling)
    case Close(i) => At(s, i, Leaving)
    case HangUp(_) => true
    case Stop => true
    case LeaveLoop => s.accepting && s.held == None
    case Sweep => !s.accepting && !s.swept
  }

  function Move(s: State, i: nat, p: Phase): State
    requires i < |s.tasks|
  {
    s.(tasks := s.tasks[i := s.tasks[i].(phase := p)])
  }

  /** A new connection under a number that is free. */
  function Admit(s: State, fd: Fd): State {
    s.(open := s.open[fd := s.accepted], held := Some(Task(fd, s.accepted, Queued)), accepted := s.accepted + 1)
  }

  /** The kernel closes whatever connection the number stands for. */
  function CloseFd(s: State, fd: Fd): State {
    if fd in s.open then s.(open := s.open - {fd}, closed := s.closed + [s.open[fd]]) else s
  }

  ghost function Apply(s: State, a: Action): State
    requires Enabled(s, a)
  {
    match a
    case Accept(fd) => Admit(s, fd)
    case Submit => s.(tasks := s.tasks + [s.held.value], held := None)
    case Refuse => CloseFd(s, s.held.value.fd).(held := None)
    case Register(i) => Move(s, i, Registered).(active := s.active + {s.tasks[i].fd})
    case Check(i) => Move(s, i, if s.running then Handling else Leaving)
    case EndHandling(i) => Move(s, i, Leaving)
    case Close(i) => CloseFd(Move(s, i, Done).(active := s.active - {s.tasks[i].fd}), s.tasks[i].fd)
    case HangUp(c) => s.(hungUp := s.hungUp + {c})
    case Stop => s.(running := false)
    case LeaveLoop => s.(accepting := false, running := false)
    case Sweep => s.(swept := true, shut := s.shut + (set fd | fd in s.active && fd in s.open :: s.open[fd]))
  }

  // ---------------------------------------------------------------- the invariant

  /** Every connection is open under one number or was closed once, never both. */
  ghost predicate Accounted(s: State) {
    && OpenOnce(s.open, s.closed, s.accepted)
    && Distinct(s.closed) && (forall c :: c in s.closed ==> c < s.accepted)
    && (forall c: Conn :: c < s.accepted ==> c in s.closed || c in s.open.Values)
  }

  ghost predicate OpenOnce(open: map<Fd, Conn>, closed: seq<Conn>, accepted: nat) {
    && (forall fd :: fd in open ==> open[fd] < accepted && open[fd] !in closed)
    && (forall f, g :: f in open && g in open && f != g ==> open[f] != open[g])
  }

  /** Who is responsible for a descriptor: the accept loop is owner -1, a task its index. */
  ghost predicate Owns(s: State, o: int, fd: Fd, c: Conn) {
    if o == -1 then s.held.Some? && s.held.value.fd == fd && s.held.value.conn == c
    else 0 <= o < |s.tasks| && s.tasks[o].phase != Done && s.tasks[o].fd == fd && s.tasks[o].conn == c
  }

  /** What an owner holds is open, under that number; no two owners hold the same; nothing open is unowned. */
  ghost predicate Owned(s: State) {
    && (forall o, fd, c :: Owns(s, o, fd, c) ==> fd in s.open && s.open[fd] == c)
    && (forall o, p, fd, c, d :: Owns(s, o, fd, c) && Owns(s, p, fd, d) ==> o == p)
    && (forall fd :: fd in s.open ==> exists o :: Owns(s, o, fd, s.open[fd]))
  }

  predicate Listed(p: Phase) { p == Registered || p == Handling || p == Leaving }

  /** The active set holds exactly the descriptors of the tasks between registering and closing. */
  ghost predicate ActiveExact(s: State) {
    && (forall i :: 0 <= i < |s.tasks| && Listed(s.tasks[i].phase) ==> s.tasks[i].fd in s.active)
    && (forall fd :: fd in s.active ==>
          exists i :: 0 <= i < |s.tasks| && Listed(s.tasks[i].phase) && s.tasks[i].fd == fd)
  }

  /** Once the sweep has run, the flag is down and whoever is still serving has been shut down. */
  ghost predicate Interrupted(s: State) {
    && (!s.accepting ==> !s.running && s.held == None)
    && (s.held.Some? ==> s.held.value.phase == Queued)
    && (s.swept ==> !s.accepting)
    && (s.swept ==> forall i :: 0 <= i < |s.tasks| && s.tasks[i].phase == Handling ==> s.tasks[i].conn in s.shut)
  }

  ghost predicate Inv(s: State) {
    Accounted(s) && Owned(s) && ActiveExact(s) && Interrupted(s)
  }

  lemma StepInterrupted(s: State, a: Action)
    requires Enabled(s, a) && Inv(s)
    ensures Interrupted(Apply(s, a))
  {
    if a == Sweep {
      var s' := Apply(s, a);
      forall i | 0 <= i < |s'.tasks| && s'.tasks[i].phase == Handling
        ensures s'.tasks[i].conn in s'.shut
      {
        var t := s.tasks[i];
        assert t.fd in s.active;
        assert Owns(s, i, t.fd, t.conn);
      }
    }
  }

  lemma StepAccounted(s: State, a: Action)
    requires Enabled(s, a) && Inv(s)
    ensures Accounted(Apply(s, a))
  {
    hide Accounted, Owned, ActiveExact, Interrupted;
    var s' := Apply(s, a);
    match a
    case Accept(fd) =>
      AcceptAccounted(s, fd);
      AccountedSame(s.(open := s.open[fd := s.accepted], accepted := s.accepted + 1), s');
    case Refuse =>
      HeldOpen(s);
      CloseAccounted(s, s.held.value.fd);
      AccountedSame(CloseFd(s, s.held.value.fd), s');
    case Close(i) =>
      TaskOpen(s, i);
      CloseAccounted(s, s.tasks[i].fd);
      AccountedSame(CloseFd(s, s.tasks[i].fd), s');
    case _ => AccountedSame(s, s');
  }

  lemma AccountedSame(s: State, s': State)
    requires Accounted(s) && s'.open == s.open && s'.closed == s.closed && s'.accepted == s.accepted
    ensures Accounted(s')
  {
  }

  lemma HeldOpen(s: State)
    requires Owned(s) && s.held.Some?
    ensures s.held.value.fd in s.open
  {
    assert Owns(s, -1, s.held.value.fd, s.held.value.conn);
  }

  lemma TaskOpen(s: State, i: nat)
    requires Owned(s) && i < |s.tasks| && s.tasks[i].phase != Done
    ensures s.tasks[i].fd in s.open
  {
    assert Owns(s, i, s.tasks[i].fd, s.tasks[i].conn);
  }

  lemma AcceptAccounted(s: State, fd: Fd)
    requires Accounted(s) && fd !in s.open
    ensures Accounted(s.(open := s.open[fd := s.accepted], accepted := s.accepted + 1))
  {
    hide OpenOnce, Distinct;
    var s' := s.(open := s.open[fd := s.accepted], accepted := s.accepted + 1);
    OpensOnce(s.open, s.closed, s.accepted, fd);
    forall c: Conn | c < s'.accepted
      ensures c in s'.closed || c in s'.open.Values
    {
      ValuesMore(s.open, fd, s.accepted, c);
    }
  }

  lemma OpensOnce(open: map<Fd, Conn>, closed: seq<Conn>, accepted: nat, fd: Fd)
    requires OpenOnce(open, closed, accepted) && fd !in open && forall c :: c in closed ==> c < accepted
    ensures OpenOnce(open[fd := accepted], closed, accepted + 1)
  {
  }

  lemma ValuesMore(open: map<Fd, Conn>, fd: Fd, conn: Conn, c: Conn)
    requires fd !in open
    ensures c in open.Values || c == conn ==> c in open[fd := conn].Values
  {
    var more := open[fd := conn];
    assert more[fd] == conn;
    if c in open.Values {
      var f :| f in open && open[f] == c;
      assert more[f] == c;
    }
  }

  lemma CloseAccounted(s: State, fd: Fd)
    requires Accounted(s) && fd in s.open
    ensures Accounted(CloseFd(s, fd))
  {
    var s' := CloseFd(s, fd);
    forall c: Conn | c < s'.accepted && c !in s'.closed
      ensures c in s'.open.Values
    {
      assert c !in s.closed;
      var f :| f in s.open && s.open[f] == c;
      assert s.open[fd] in s'.closed;
      assert f in s'.open && s'.open[f] == c;
    }
  }

  // ---------------------------------------------------------------- ownership

  /** The same owners hold the same descriptors. */
  lemma OwnedSame(s: State, s': State)
    requires Owned(s) && s'.open == s.open
    requires forall o, fd, c :: Owns(s', o, fd, c) <==> Owns(s, o, fd, c)
    ensures Owned(s')
  {
    hide Owns;
  }

  /** One owner gives its descriptor back. */
  lemma OwnedDrop(s: State, s': State, p: int, fd: Fd, c: Conn)
    requires Owned(s) && Owns(s, p, fd, c) && s'.open == s.open - {fd}
    requires forall f, d :: Owns(s, p, f, d) ==> f == fd
    requires forall o, f, d :: Owns(s', o, f, d) <==> Owns(s, o, f, d) && o != p
    ensures Owned(s')
  {
    hide Owns;
    forall o, f, d | Owns(s', o, f, d)
      ensures f in s'.open && s'.open[f] == d
    {
      assert f == fd ==> o == p;
    }
    forall f | f in s'.open
      ensures exists o :: Owns(s', o, f, s'.open[f])
    {
      var o :| Owns(s, o, f, s.open[f]);
      assert Owns(s', o, f, s'.open[f]);
    }
  }

  lemma OwnedAccept(s: State, fd: Fd)
    requires Owned(s) && s.held == None && fd !in s.open
    ensures Owned(Admit(s, fd))
  {
    var s' := Admit(s, fd);
    assert forall o, f, c :: Owns(s', o, f, c) <==> Owns(s, o, f, c) || (o == -1 && f == fd && c == s.accepted);
    hide Owns;
    forall f | f in s'.open
      ensures exists o :: Owns(s', o, f, s'.open[f])
    {
      if f == fd {
        assert Owns(s', -1, f, s'.open[f]);
      } else {
        var o :| Owns(s, o, f, s.open[f]);
        assert Owns(s', o, f, s'.open[f]);
      }
    }
  }

  lemma OwnedSubmit(s: State)
    requires Owned(s) && s.held.Some? && s.held.value.phase == Queued
    ensures Owned(s.(tasks := s.tasks + [s.held.value], held := None))
  {
    var s', n := s.(tasks := s.tasks + [s.held.value], held := None), |s.tasks|;
    assert forall o, f, c :: Owns(s', o, f, c) <==> if o == n then Owns(s, -1, f, c) else o != -1 && Owns(s, o, f, c);
    hide Owns;
    forall f | f in s'.open
      ensures exists o :: Owns(s', o, f, s'.open[f])
    {
      var o :| Owns(s, o, f, s.open[f]);
      assert Owns(s', if o == -1 then n else o, f, s'.open[f]);
    }
  }

  lemma StepOwned(s: State, a: Action)
    requires Enabled(s, a) && Inv(s)
    ensures Owned(Apply(s, a))
  {
    hide Accounted, ActiveExact, Owned;
    var s' := Apply(s, a);
    match a
    case Accept(fd) => OwnedAccept(s, fd);
    case Submit => OwnedSubmit(s);
    case Refuse =>
      HeldOpen(s);
      OwnedRefuse(s, s');
    case Close(i) =>
      TaskOpen(s, i);
      OwnedClose(s, s', i);
    case _ => OwnedSame(s, s');
  }

  lemma OwnedRefuse(s: State, s': State)
    requires Owned(s) && s.held.Some? && s'.open == s.open - {s.held.value.fd}
    requires s'.tasks == s.tasks && s'.held == None
    ensures Owned(s')
  {
    hide Owned;
    var t := s.held.value;
    assert Owns(s, -1, t.fd, t.conn);
    OwnedDrop(s, s', -1, t.fd, t.conn);
  }

  lemma OwnedClose(s: State, s': State, i: nat)
    requires Owned(s) && i < |s.tasks| && s.tasks[i].phase != Done && s'.open == s.open - {s.tasks[i].fd}
    requires s'.tasks == s.tasks[i := s.tasks[i].(phase := Done)] && s'.held == s.held
    ensures Owned(s')
  {
    hide Owned;
    var t := s.tasks[i];
    assert Owns(s, i, t.fd, t.conn);
    OwnedDrop(s, s', i, t.fd, t.conn);
  }

  // ---------------------------------------------------------------- the active set

  lemma StepActive(s: State, a: Action)
    requires Enabled(s, a) && Inv(s)
    ensures ActiveExact(Apply(s, a))
  {
    hide Accounted, Owned, ActiveExact;
    var s' := Apply(s, a);
    match a
    case Submit => ActiveSubmit(s, s');
    case Register(i) => ActiveMoves(s, s', i, s.active + {s.tasks[i].fd});
    case Check(i) => ActiveMoves(s, s', i, s.active);
    case EndHandling(i) => ActiveMoves(s, s', i, s.active);
    case Close(i) => ActiveClose(s, s', i);
    case _ => ActiveSame(s, s');
  }

  lemma ActiveSame(s: State, s': State)
    requires ActiveExact(s) && s'.tasks == s.tasks && s'.active == s.active
    ensures ActiveExact(s')
  {
  }

  lemma ActiveSubmit(s: State, s': State)
    requires ActiveExact(s) && s.held.Some? && s.held.value.phase == Queued
    requires s'.tasks == s.tasks + [s.held.value] && s'.active == s.active
    ensures ActiveExact(s')
  {
    forall fd | fd in s'.active
      ensures exists i :: 0 <= i < |s'.tasks| && Listed(s'.tasks[i].phase) && s'.tasks[i].fd == fd
    {
      var i :| 0 <= i < |s.tasks| && Listed(s.tasks[i].phase) && s.tasks[i].fd == fd;
      assert s'.tasks[i] == s.tasks[i];
    }
  }

  /** Task i moves to a phase in which it is listed. */
  lemma ActiveMoves(s: State, s': State, i: nat, active: set<Fd>)
    requires ActiveExact(s) && i < |s.tasks|
    requires active == s.active + if Listed(s.tasks[i].phase) then {} else {s.tasks[i].fd}
    requires s'.active == active && |s'.tasks| == |s.tasks| && Listed(s'.tasks[i].phase)
    requires s'.tasks == s.tasks[i := s.tasks[i].(phase := s'.tasks[i].phase)]
    ensures ActiveExact(s')
  {
    forall fd | fd in s'.active
      ensures exists j :: 0 <= j < |s'.tasks| && Listed(s'.tasks[j].phase) && s'.tasks[j].fd == fd
    {
      if fd == s.tasks[i].fd {
        assert Listed(s'.tasks[i].phase);
      } else {
        var j :| 0 <= j < |s.tasks| && Listed(s.tasks[j].phase) && s.tasks[j].fd == fd;
        assert s'.tasks[j] == s.tasks[j];
      }
    }
  }

  lemma ActiveClose(s: State, s': State, i: nat)
    requires ActiveExact(s) && Owned(s) && i < |s.tasks| && s.tasks[i].phase == Leaving
    requires s'.tasks == s.tasks[i := s.tasks[i].(phase := Done)] && s'.active == s.active - {s.tasks[i].fd}
    ensures ActiveExact(s')
  {
    forall j | 0 <= j < |s.tasks| && j != i && Listed(s.tasks[j].phase)
      ensures s.tasks[j].fd != s.tasks[i].fd
    {
      OneOwner(s, i, j);
    }
    forall fd | fd in s'.active
      ensures exists j :: 0 <= j < |s'.tasks| && Listed(s'.tasks[j].phase) && s'.tasks[j].fd == fd
    {
      var j :| 0 <= j < |s.tasks| && Listed(s.tasks[j].phase) && s.tasks[j].fd == fd;
      assert s'.tasks[j] == s.tasks[j];
    }
  }

  lemma OneOwner(s: State, i: nat, j: nat)
    requires Owned(s) && i < |s.tasks| && j < |s.tasks| && i != j
    requires s.tasks[i].phase != Done && s.tasks[j].phase != Done
    ensures s.tasks[i].fd != s.tasks[j].fd
  {
    var t, u := s.tasks[i], s.tasks[j];
    assert Owns(s, i, t.fd, t.conn) && Owns(s, j, u.fd, u.conn);
  }

  lemma StepInv(s: State, a: Action)
    requires Enabled(s, a) && Inv(s)
    ensures Inv(Apply(s, a))
  {
    StepAccounted(s, a);
    StepOwned(s, a);
    StepActive(s, a);
    StepInterrupted(s, a);
  }

  // ---------------------------------------------------------------- runs

  /** The state after an interleaving of steps, if each step was possible. */
  ghost function Outcome(run: seq<Action>): Option<State> {
    if run == [] then Some(Start)
    else
      var p := Outcome(run[..|run| - 1]);
      if p.Some? && Enabled(p.value, run[|run| - 1]) then Some(Apply(p.value, run[|run| - 1])) else None
  }

  /** The invariant holds in every state of every interleaving. */
  lemma {:induction false} RunInv(run: seq<Action>)
    ensures Outcome(run).Some? ==> Inv(Outcome(run).value)
  {
    hide Inv, Enabled, Apply;
    if run == [] {
      StartInv();
    } else {
      RunInv(run[..|run| - 1]);
      var p := Outcome(run[..|run| - 1]);
      if p.Some? && Enabled(p.value, run[|run| - 1]) { StepInv(p.value, run[|run| - 1]); }
    }
  }

  lemma StartInv()
    ensures Inv(Start)
  {
  }

  /** A worker that may wait in recv for ever: its peer is there and nobody has shut the connection down. */
  ghost predicate Blocked(s: State, i: nat) {
    At(s, i, Handling) && s.tasks[i].conn !in s.shut && s.tasks[i].conn !in s.hungUp
  }

  /** After the sweep no worker is left blocked, however the steps interleave. */
  lemma NobodyBlocked(run: seq<Action>, s: State)
    requires Outcome(run) == Some(s) && s.swept
    ensures forall i :: !Blocked(s, i)
  {
    RunInv(run);
  }

  /** No connection is ever closed twice, and what is active is open and is the connection its task was given. */
  lemma ClosedAtMostOnce(run: seq<Action>, s: State)
    requires Outcome(run) == Some(s)
    ensures Distinct(s.closed)
    ensures forall fd :: fd in s.active ==>
              fd in s.open && exists i :: 0 <= i < |s.tasks| && s.tasks[i].fd == fd && s.tasks[i].conn == s.open[fd]
  {
    RunInv(run);
    forall fd | fd in s.active
      ensures fd in s.open && exists i :: 0 <= i < |s.tasks| && s.tasks[i].fd == fd && s.tasks[i].conn == s.open[fd]
    {
      var i :| 0 <= i < |s.tasks| && Listed(s.tasks[i].phase) && s.tasks[i].fd == fd;
      assert Owns(s, i, fd, s.tasks[i].conn);
    }
  }

  ghost predicate AllDone(s: State) { forall i :: 0 <= i < |s.tasks| ==> s.tasks[i].phase == Done }

  lemma AllClosed(s: State)
    requires Inv(s) && s.held == None && AllDone(s)
    ensures s.open == map[] && Distinct(s.closed) && forall c: Conn :: c in s.closed <==> c < s.accepted
  {
    assert forall o, fd, c :: !Owns(s, o, fd, c);
    assert forall fd :: fd !in s.open;
  }

  /** Once the loop has let go and every task is done, each accepted connection has been closed exactly once. */
  lemma ClosedExactlyOnce(run: seq<Action>, s: State)
    requires Outcome(run) == Some(s) && s.held == None && AllDone(s)
    ensures s.open == map[] && Distinct(s.closed) && forall c: Conn :: c in s.closed <==> c < s.accepted
  {
    hide Inv;
    RunInv(run);
    AllClosed(s);
  }

  // ---------------------------------------------------------------- shutdown ends

  function Weight(p: Phase): nat {
    match p
    case Queued => 4
    case Registered => 3
    case Handling => 2
    case Leaving => 1
    case Done => 0
  }

  function Weights(tasks: seq<Task>): nat {
    if tasks == [] then 0 else Weights(tasks[..|tasks| - 1]) + Weight(tasks[|tasks| - 1].phase)
  }

  lemma {:induction false} WeightsUpdate(tasks: seq<Task>, i: nat, t: Task)
    requires i < |tasks|
    ensures Weights(tasks[i := t]) == Weights(tasks) - Weight(tasks[i].phase) + Weight(t.phase)
  {
    var n := |tasks| - 1;
    if i < n {
      assert tasks[i := t][..n] == tasks[..n][i := t];
      WeightsUpdate(tasks[..n], i, t);
    } else {
      assert tasks[i := t][..n] == tasks[..n];
    }
  }

  /** A step of one of the server's own threads, which peers and further stop requests are not. */
  predicate Own(a: Action) { !a.HangUp? && !a.Stop? }

  /** After the sweep every step of the server takes one connection further. */
  lemma SweptDecreases(s: State, a: Action)
    requires Enabled(s, a) && Inv(s) && s.swept
    ensures Apply(s, a).swept
    ensures Own(a) ==> Weights(Apply(s, a).tasks) < Weights(s.tasks)
    ensures !Own(a) ==> Apply(s, a).tasks == s.tasks
  {
    hide Accounted, Owned, ActiveExact, Weights;
    match a
    case Register(i) => WeightsUpdate(s.tasks, i, s.tasks[i].(phase := Registered));
    case Check(i) => WeightsUpdate(s.tasks, i, s.tasks[i].(phase := if s.running then Handling else Leaving));
    case EndHandling(i) => WeightsUpdate(s.tasks, i, s.tasks[i].(phase := Leaving));
    case Close(i) => WeightsUpdate(s.tasks, i, s.tasks[i].(phase := Done));
    case _ =>
  }

  /** The step can be taken without waiting for a peer. */
  ghost predicate Ready(s: State, a: Action) {
    Enabled(s, a) && Own(a) && (a.EndHandling? ==> !Blocked(s, a.i))
  }

  /** After the sweep, unless every task is done, some thread can go on. */
  lemma SweptNotStuck(s: State)
    requires Inv(s) && s.swept && !AllDone(s)
    ensures exists a :: Ready(s, a)
  {
    hide Accounted, Owned, ActiveExact;
    var i: nat :| i < |s.tasks| && s.tasks[i].phase != Done;
    var a := match s.tasks[i].phase
             case Queued => Register(i)
             case Registered => Check(i)
             case Handling => EndHandling(i)
             case _ => Close(i);
    assert Ready(s, a);
  }

  /** The state after further steps, if each was possible. */
  ghost function From(s: State, run: seq<Action>): Option<State>
    decreases |run|
  {
    if run == [] then Some(s)
    else if Enabled(s, run[0]) then From(Apply(s, run[0]), run[1..])
    else None
  }

  function OwnSteps(run: seq<Action>): nat
    decreases |run|
  {
    if run == [] then 0 else (if Own(run[0]) then 1 else 0) + OwnSteps(run[1..])
  }

  /**
   Once the sweep has run the server comes to rest: however its threads and the peers are
   interleaved, it has a bounded number of steps left, some thread can take one without
   waiting for a peer until every task is done, and then every accepted connection has been
   closed exactly once.
   */
  lemma {:induction false} SweptEnds(s: State, run: seq<Action>, t: State)
    requires Inv(s) && s.swept && From(s, run) == Some(t)
    ensures OwnSteps(run) <= Weights(s.tasks)
    ensures !AllDone(t) ==> exists a :: Ready(t, a)
    ensures AllDone(t) ==> t.open == map[] && Distinct(t.closed) && forall c: Conn :: c in t.closed <==> c < t.accepted
    decreases |run|
  {
    if run == [] {
      if AllDone(s) {
        AllClosed(s);
      } else {
        SweptNotStuck(s);
      }
    } else {
      hide Inv, Enabled, Apply, Own, AllDone, Ready, Weights;
      SweptDecreases(s, run[0]);
      StepInv(s, run[0]);
      SweptEnds(Apply(s, run[0]), run[1..], t);
    }
  }

  // ---------------------------------------------------------------- service

  predicate Undisturbed(run: seq<Action>) { forall j :: 0 <= j < |run| ==> !run[j].Stop? && !run[j].LeaveLoop? }

  /** As long as nobody stops the server, no task closes its connection before it has handled it. */
  lemma {:induction false} HandledFirst(run: seq<Action>, s: State, i: nat)
    requires Outcome(run) == Some(s) && Undisturbed(run)
    ensures s.running && (s.held.Some? ==> s.held.value.phase == Queued)
    ensures At(s, i, Leaving) || At(s, i, Done) ==> EndHandling(i) in run
  {
    if run != [] {
      hide Enabled, Apply, At;
      var past, a := run[..|run| - 1], run[|run| - 1];
      var p := Outcome(past).value;
      HandledFirst(past, p, i);
      StepHandled(p, a, i);
      assert run == past + [a];
    }
  }

  lemma StepHandled(s: State, a: Action, i: nat)
    requires Enabled(s, a) && s.running && !a.Stop? && !a.LeaveLoop?
    requires s.held.Some? ==> s.held.value.phase == Queued
    ensures var s' := Apply(s, a);
            && s'.running && (s'.held.Some? ==> s'.held.value.phase == Queued)
            && (At(s', i, Leaving) || At(s', i, Done) ==> At(s, i, Leaving) || At(s, i, Done) || a == EndHandling(i))
  {
  }

  /** The sweep shuts down exactly the connections of the tasks that have registered and not yet closed. */
  lemma SweepShuts(run: seq<Action>, s: State, c: Conn)
    requires Outcome(run) == Some(s) && Enabled(s, Sweep)
    ensures c in Apply(s, Sweep).shut <==>
              c in s.shut || exists i :: 0 <= i < |s.tasks| && Listed(s.tasks[i].phase) && s.tasks[i].conn == c
  {
    RunInv(run);
    forall i | 0 <= i < |s.tasks| && Listed(s.tasks[i].phase)
      ensures s.tasks[i].fd in s.active && s.tasks[i].fd in s.open && s.open[s.tasks[i].fd] == s.tasks[i].conn
    {
      assert Owns(s, i, s.tasks[i].fd, s.tasks[i].conn);
    }
    hide Accounted, Owned, Outcome;
  }
}
