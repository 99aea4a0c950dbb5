/** Whole runs of the socket threads: handles stay distinct and keep what was asked for, no slot is lost, no driver
    runs under a lock, and the calls in progress always come to an end. */
module SocketRuns {
  import opened Options
  import opened SocketThreads

  /** An empty table of n sockets and m threads between calls. */
  function Start(n: nat, m: nat): State {
    State(seq(n, _ => Slot(false, 0, 0, 0, 0, 0, NO_NETIF)), NOBODY, NOBODY, seq(n, _ => NOBODY),
          seq(m, _ => Thread(Idle, map[])))
  }

  lemma StartOk(n: nat, m: nat)
    ensures Inv(Start(n, m))
  {
  }

  /** Every state some interleaving leads to. */
  ghost predicate Reachable(s: State) {
    exists n, m, es :: ReachedBy(n, m, es, s)
  }

  ghost predicate ReachedBy(n: nat, m: nat, es: seq<Event>, s: State) {
    StartOk(n, m);
    Run(Start(n, m), es) == Some(s)
  }

  lemma ReachableInv(s: State)
    requires Reachable(s)
    ensures Inv(s)
  {
    var n, m, es :| ReachedBy(n, m, es, s);
    StartOk(n, m);
  }

  /** No two threads hold the same handle, and each held socket is alive with the domain, type and protocol its
      owner asked for; protocol 0 may have become the default of the type. */
  lemma HandlesStayDistinct(s: State, t: nat, u: nat, h: nat)
    requires Reachable(s) && t < |s.threads| && u < |s.threads|
    ensures h in s.threads[t].held ==>
      && (h in s.threads[u].held ==> t == u)
      && IsValid(s.slots, h) && s.slots[h].idx == h && Keeps(s.slots[h], s.threads[t].held[h])
  {
    ReachableInv(s);
    hide Keeps, LocksOk, Owned;
    assert ThreadOk(s.slots, s.threads[t]);
    if t != u {
      OnePairApart(s, t, u);
    }
    assert h in s.threads[t].held ==> Claims(s.threads[t], h);
    assert h in s.threads[u].held ==> Claims(s.threads[u], h);
  }

  /** net_socket returns a handle that no thread holds, with what was asked for already in place. */
  lemma FreshHandle(s: State, t: nat, u: nat)
    requires Reachable(s) && t < |s.threads| && u < |s.threads|
    requires s.threads[t].pc.New? && s.threads[t].pc.newAt.Leave?
    ensures var New(a, i, _) := s.threads[t].pc;
      && i < |s.slots| && s.slots[i].alive && s.slots[i].idx == i
      && s.slots[i].domain == a.domain && s.slots[i].kind == a.kind && s.slots[i].protocol == a.protocol
      && i !in s.threads[u].held
  {
    ReachableInv(s);
    LeavingOk(s.slots, s.threads[t]);
    hide Inv, ThreadOk, Reachable;
    if t != u {
      OnePairApart(s, t, u);
      assert Claims(s.threads[t], s.threads[t].pc.i);
    }
  }

  lemma LeavingOk(slots: seq<Slot>, th: Thread)
    requires ThreadOk(slots, th) && th.pc.New? && th.pc.newAt.Leave?
    ensures var New(a, i, _) := th.pc;
      && i < |slots| && slots[i].alive && slots[i].idx == i && i !in th.held
      && slots[i].domain == a.domain && slots[i].kind == a.kind && slots[i].protocol == a.protocol
  {
    hide Keeps;
    assert Taking(th.pc, th.pc.i);
  }

  /** Between calls, the sockets in use are exactly the handles the threads hold. */
  lemma NoSocketLost(s: State, h: nat)
    requires Reachable(s) && h < |s.slots|
    requires forall t :: 0 <= t < |s.threads| ==> s.threads[t].pc == Idle
    ensures s.slots[h].alive <==> exists t :: 0 <= t < |s.threads| && h in s.threads[t].held
  {
    ReachableInv(s);
    hide Keeps, LocksOk;
    if s.slots[h].alive {
      var t :| 0 <= t < |s.threads| && Claims(s.threads[t], h);
      assert h in s.threads[t].held;
    }
    if t :| 0 <= t < |s.threads| && h in s.threads[t].held {
      assert ThreadOk(s.slots, s.threads[t]);
    }
  }

  predicate InDriver(pc: Pc) {
    (pc.Use? && pc.useAt.InDriver?) || (pc.Close? && pc.closeAt.InDriver?)
  }

  /** While the driver works for a thread, that thread owns no lock at all. */
  lemma DriverRunsUnlocked(s: State, t: nat)
    requires Reachable(s) && t < |s.threads|
    ensures InDriver(s.threads[t].pc) ==>
      s.arrayOwner != t && s.listOwner != t && forall h :: 0 <= h < |s.locks| ==> s.locks[h] != t
  {
    ReachableInv(s);
    hide Owned, ThreadOk;
  }

  // ----- Progress

  /** Whoever owns the interface list can go on. */
  lemma ListOwnerGoes(s: State)
    requires Inv(s) && s.listOwner != NOBODY
    ensures 0 <= s.listOwner < |s.threads| && InTable(s.slots, s.threads[s.listOwner].pc) && Enabled(s, s.listOwner)
  {
    hide Owned;
    assert ThreadOk(s.slots, s.threads[s.listOwner]);
    assert HoldsList(s.threads[s.listOwner].pc);
  }

  /** Whoever owns a socket's lock waits for nothing but the interface list. */
  lemma LockOwnerGoes(s: State, h: nat) returns (u: nat)
    requires Inv(s) && h < |s.locks| && s.locks[h] != NOBODY
    ensures u < |s.threads| && InTable(s.slots, s.threads[u].pc) && Enabled(s, u)
    ensures u == s.locks[h] || u == s.listOwner
  {
    hide Owned;
    u := s.locks[h];
    assert ThreadOk(s.slots, s.threads[u]);
    assert HoldsLock(s.threads[u].pc, h);
    if s.listOwner != NOBODY {
      ListOwnerGoes(s);
      u := s.listOwner;
    }
  }

  /** Whoever owns the array lock waits for the list or one socket's lock at most. */
  lemma ArrayOwnerGoes(s: State) returns (u: nat)
    requires Inv(s) && s.arrayOwner != NOBODY
    ensures u < |s.threads| && InTable(s.slots, s.threads[u].pc) && Enabled(s, u)
    ensures u == s.arrayOwner || u == s.listOwner || exists h :: 0 <= h < |s.locks| && u == s.locks[h]
  {
    hide Owned;
    u := s.arrayOwner;
    assert ThreadOk(s.slots, s.threads[u]);
    assert HoldsArray(s.threads[u].pc);
    var i := s.threads[u].pc.i;
    if s.listOwner != NOBODY {
      ListOwnerGoes(s);
      u := s.listOwner;
    } else if i < |s.locks| && s.locks[i] != NOBODY {
      u := LockOwnerGoes(s, i);
    }
  }

  function WaitsFor(pc: Pc): int {
    match pc
    case Idle => NOBODY
    case New(_, i, at) => if at.WantLock? then i else NOBODY
    case Use(h, at) => if at.WantLock? || at.WantBack? || at.WantSend? then h else NOBODY
    case Close(h, at) => if at.WantLock? || at.WantBack? then h else NOBODY
  }

  /** No deadlock: while some thread is inside a call, some thread can take a step. */
  lemma SomeoneGoes(s: State, t: nat) returns (u: nat)
    requires Inv(s) && t < |s.threads| && s.threads[t].pc != Idle
    ensures u < |s.threads| && InTable(s.slots, s.threads[u].pc) && Enabled(s, u)
  {
    hide Owned;
    u := t;
    assert ThreadOk(s.slots, s.threads[t]);
    var h := WaitsFor(s.threads[t].pc);
    if s.listOwner != NOBODY {
      ListOwnerGoes(s);
      u := s.listOwner;
    } else if s.arrayOwner != NOBODY {
      u := ArrayOwnerGoes(s);
    } else if h != NOBODY && s.locks[h] != NOBODY {
      u := LockOwnerGoes(s, h);
    }
  }

  // ----- Every call ends

  /** Steps a thread has left at most, in a table of n sockets. */
  function Left(pc: Pc, n: nat): (r: nat)
    requires pc.New? ==> pc.i <= n
  {
    match pc
    case Idle => 0
    case New(_, i, at) =>
      (match at
       case WantArray => n + 20
       case Scan => n - i + 19
       case Take => 18
       case Reset => 17
       case WantList => 16
       case InList => 15
       case PutNetif(_) => 14
       case WantLock => 13
       case LeaveArray => 12
       case PutDomain => 11
       case PutKind => 10
       case PutProtocol => 9
       case Leave => 8
       case Fail => 1)
    case Use(_, at) =>
      (match at
       case FreeDefault => 20
       case WantLock | FreeCreate => 19
       case NeedNetif | FreeTest => 18
       case WantList | WantSend => 17
       case InList => 16
       case PutNetif(_) => 15
       case Default => 14
       case Create => 13
       case Test => 12
       case Access => 11
       case LeaveForDriver => 10
       case InDriver => 9
       case WantBack => 8
       case Leave => 7)
    case Close(_, at) =>
      (match at
       case WantLock => 8
       case Test => 7
       case LeaveForDriver => 6
       case InDriver => 5
       case WantBack => 4
       case ClearLow => 3
       case Drop => 2
       case Leave => 1)
  }

  lemma StepLeft(slots: seq<Slot>, th: Thread, reply: int)
    requires ThreadOk(slots, th) && th.pc != Idle
    ensures var pc := Act(slots, th, reply).th.pc;
      (pc.New? ==> pc.i <= |slots|) && Left(pc, |slots|) < Left(th.pc, |slots|)
  {
  }

  ghost predicate Bounded(threads: seq<Thread>, n: nat) {
    forall t :: 0 <= t < |threads| ==> threads[t].pc.New? ==> threads[t].pc.i <= n
  }

  ghost function Work(threads: seq<Thread>, n: nat): nat
    requires Bounded(threads, n)
  {
    if threads == [] then 0 else Left(threads[0].pc, n) + Work(threads[1..], n)
  }

  lemma {:induction false} WorkUpdate(threads: seq<Thread>, n: nat, t: nat, th: Thread)
    requires Bounded(threads, n) && t < |threads| && (th.pc.New? ==> th.pc.i <= n)
    ensures Bounded(threads[t := th], n)
    ensures Work(threads[t := th], n) == Work(threads, n) - Left(threads[t].pc, n) + Left(th.pc, n)
  {
    hide Left;
    if t == 0 {
      assert threads[t := th][1..] == threads[1..];
    } else {
      assert threads[t := th][1..] == threads[1..][t - 1 := th];
      WorkUpdate(threads[1..], n, t - 1, th);
    }
  }

  ghost function WorkLeft(s: State): nat
    requires Inv(s)
  {
    InvBounded(s);
    Work(s.threads, |s.slots|)
  }

  lemma InvBounded(s: State)
    requires Inv(s)
    ensures Bounded(s.threads, |s.slots|)
  {
    hide LocksOk, Owned, Apart;
    forall t | 0 <= t < |s.threads| && s.threads[t].pc.New? ensures s.threads[t].pc.i <= |s.slots| {
      assert ThreadOk(s.slots, s.threads[t]);
    }
  }

  lemma GoWorks(s: State, t: nat, reply: int)
    requires Inv(s) && t < |s.threads| && Enabled(s, t)
    ensures Inv(Step(s, t, reply)) && WorkLeft(Step(s, t, reply)) < WorkLeft(s)
  {
    StepKeeps(s, t, reply);
    InvBounded(s);
    assert ThreadOk(s.slots, s.threads[t]);
    assert s.threads[t].pc != Idle;
    hide Act, Inv, Enabled, ThreadOk;
    StepLeft(s.slots, s.threads[t], reply);
    WorkUpdate(s.threads, |s.slots|, t, Act(s.slots, s.threads[t], reply).th);
  }

  predicate Quiet(s: State) {
    forall t :: 0 <= t < |s.threads| ==> s.threads[t].pc == Idle
  }

  predicate OnlyGo(es: seq<Event>) {
    forall i :: 0 <= i < |es| ==> es[i].Go?
  }

  /** With no new calls, every schedule is short: the work left bounds its length. */
  lemma {:induction false} SchedulesEnd(s: State, es: seq<Event>)
    requires Inv(s) && OnlyGo(es) && Run(s, es).Some?
    ensures |es| <= WorkLeft(s)
    decreases |es|
  {
    hide Inv, Enabled, Step, WorkLeft;
    if es != [] {
      var Go(t, reply) := es[0];
      GoWorks(s, t, reply);
      SchedulesEnd(Next(s, es[0]), es[1..]);
    }
  }

  /** A schedule that cannot be continued has ended every call. */
  lemma StuckMeansQuiet(s: State)
    requires Inv(s)
    ensures Quiet(s) <==> forall t, reply :: !Possible(s, Go(t, reply))
  {
    if t: nat :| t < |s.threads| && s.threads[t].pc != Idle {
      var u := SomeoneGoes(s, t);
      assert Possible(s, Go(u, 0));
    }
  }

  /** From every reachable state the calls in progress can all be completed. */
  lemma EveryCallCanFinish(s: State) returns (es: seq<Event>)
    requires Reachable(s)
    ensures Inv(s) && OnlyGo(es) && Run(s, es).Some? && Quiet(Run(s, es).value)
  {
    ReachableInv(s);
    es := Finish(s);
  }

  lemma RunFirst(s: State, e: Event, more: seq<Event>)
    requires Inv(s) && Possible(s, e) && Inv(Next(s, e))
    ensures Run(s, [e] + more) == Run(Next(s, e), more)
  {
    hide Inv, Possible, Next;
    var es := [e] + more;
    assert es[0] == e && es[1..] == more;
  }

  lemma {:induction false} Finish(s: State) returns (es: seq<Event>)
    requires Inv(s)
    ensures OnlyGo(es) && Run(s, es).Some? && Quiet(Run(s, es).value)
    decreases WorkLeft(s)
  {
    es := [];
    if t: nat :| t < |s.threads| && s.threads[t].pc != Idle {
      var u := SomeoneGoes(s, t);
      hide Inv, Enabled, Step, WorkLeft;
      GoWorks(s, u, 0);
      var more := Finish(Step(s, u, 0));
      RunFirst(s, Go(u, 0), more);
      hide Run;
      es := [Go(u, 0)] + more;
    } else {
      hide Inv;
    }
  }
}
