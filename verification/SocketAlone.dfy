/** A call of core/net_socket.c made by one thread of the interleaved model with nobody in its way: it comes to just
    what the specification of the call says. */
module SocketAlone {
  import opened Options
  import SocketApi
  import SocketSessions
  import opened SocketThreads

  /** What the environment answers during the call. */
  datatype World = World(netif: int, handle: int, granted: bool)

  function Answer(pc: Pc, w: World): int {
    match pc
    case New(_, _, InList) => w.netif
    case Use(_, InList) => w.netif
    case Use(_, Create) => w.handle
    case Use(_, FreeCreate) => w.handle
    case Use(_, Access) => if w.granted then 1 else 0
    case _ => 0
  }

  function Working(pc: Pc): bool {
    (pc.Use? && pc.useAt.InDriver?) || (pc.Close? && pc.closeAt.InDriver?)
  }

  /** One step of the thread. */
  function One(slots: seq<Slot>, th: Thread, w: World): (seq<Slot>, Thread)
    requires th.pc != Idle && InTable(slots, th.pc)
  {
    var a := Act(slots, th, Answer(th.pc, w));
    (if a.write.Some? && a.write.value.0 < |slots| then slots[a.write.value.0 := a.write.value.1] else slots, a.th)
  }

  /** The state after at most k steps of the thread, and whether its driver worked. */
  function Steps(slots: seq<Slot>, th: Thread, w: World, k: nat): (seq<Slot>, Thread, bool)
    decreases k
  {
    if k == 0 || th.pc == Idle || !InTable(slots, th.pc) then (slots, th, false)
    else
      var (slots', next) := One(slots, th, w);
      var (end, th', worked) := Steps(slots', next, w, k - 1);
      (end, th', worked || Working(th.pc))
  }

  lemma StepOn(slots: seq<Slot>, th: Thread, w: World, k: nat)
    requires k > 0 && th.pc != Idle && InTable(slots, th.pc)
    ensures var (slots', next) := One(slots, th, w);
      Steps(slots, th, w, k) ==
      var r := Steps(slots', next, w, k - 1); (r.0, r.1, r.2 || Working(th.pc))
  {
    hide One;
  }

  lemma Ended(slots: seq<Slot>, th: Thread, w: World, k: nat)
    requires th.pc == Idle
    ensures Steps(slots, th, w, k) == (slots, th, false)
  {
  }

  /** A socket as the interleaved model sees it. */
  function Seen(s: SocketApi.Sock): Slot {
    Slot(s.status != SocketApi.NotAlive, s.idx, s.domain, s.kind, s.protocol, s.low, s.netif)
  }

  function AllSeen(table: seq<SocketApi.Sock>): (slots: seq<Slot>)
    ensures |slots| == |table|
  {
    seq(|table|, i requires 0 <= i < |table| => Seen(table[i]))
  }

  // ----- net_bind, net_sendto and their like

  /** From the check of the new handle on. */
  lemma UseFromTest(slots: seq<Slot>, th: Thread, h: nat, w: World, k: nat)
    requires h < |slots| && th.pc == Use(h, UseAt.Test) && k >= 6
    ensures Steps(slots, th, w, k) == (slots, th.(pc := Idle), slots[h].low >= 0 && w.granted)
  {
    hide Steps;
    StepOn(slots, th, w, k);
    if slots[h].low >= 0 {
      UseFromAccess(slots, th.(pc := Use(h, Access)), h, w, k - 1);
    } else {
      UseFromLeave(slots, th.(pc := Use(h, UseAt.Leave)), h, w, k - 1);
    }
  }

  lemma UseFromAccess(slots: seq<Slot>, th: Thread, h: nat, w: World, k: nat)
    requires h < |slots| && th.pc == Use(h, Access) && k >= 5
    ensures Steps(slots, th, w, k) == (slots, th.(pc := Idle), w.granted)
  {
    hide Steps;
    StepOn(slots, th, w, k);
    if w.granted {
      StepOn(slots, th.(pc := Use(h, UseAt.LeaveForDriver)), w, k - 1);
      StepOn(slots, th.(pc := Use(h, UseAt.InDriver)), w, k - 2);
      StepOn(slots, th.(pc := Use(h, UseAt.WantBack)), w, k - 3);
      UseFromLeave(slots, th.(pc := Use(h, UseAt.Leave)), h, w, k - 4);
    } else {
      UseFromLeave(slots, th.(pc := Use(h, UseAt.Leave)), h, w, k - 1);
    }
  }

  lemma UseFromLeave(slots: seq<Slot>, th: Thread, h: nat, w: World, k: nat)
    requires h < |slots| && th.pc == Use(h, UseAt.Leave) && k >= 1
    ensures Steps(slots, th, w, k) == (slots, th.(pc := Idle), false)
  {
    hide Steps;
    StepOn(slots, th, w, k);
    Ended(slots, th.(pc := Idle), w, k - 1);
  }

  /** A slot with its low-level socket, the protocol being 6 for a stream and 17 for datagrams unless asked for. */
  function WithLow(s: Slot, handle: int): Slot {
    if s.low != -1 then s
    else s.(low := handle,
            protocol := if s.protocol != 0 then s.protocol
                        else if s.kind == 1 then 6 else if s.kind == 2 then 17 else 0)
  }

  lemma UseFromDefault(slots: seq<Slot>, th: Thread, h: nat, w: World, k: nat)
    requires h < |slots| && th.pc == Use(h, Default) && k >= 8
    ensures var s := WithLow(slots[h], w.handle);
      Steps(slots, th, w, k) == (slots[h := s], th.(pc := Idle), s.low >= 0 && w.granted)
  {
    hide Steps;
    var s1 := slots[h := Defaulted(slots[h])];
    var s2 := s1[h := CreatedAs(s1[h], w.handle)];
    StepOn(slots, th, w, k);
    StepOn(s1, th.(pc := Use(h, Create)), w, k - 1);
    UseFromTest(s2, th.(pc := Use(h, UseAt.Test)), h, w, k - 2);
    assert s2 == slots[h := WithLow(slots[h], w.handle)];
  }

  /** A whole net_bind. */
  lemma BindSteps(slots: seq<Slot>, th: Thread, h: nat, w: World, k: nat)
    requires h < |slots| && th.pc == Use(h, UseAt.WantLock) && k >= 20
    ensures var s := slots[h];
      var t := WithLow(if s.netif == -1 then s.(netif := w.netif) else s, w.handle);
      Steps(slots, th, w, k) == (slots[h := t], th.(pc := Idle), t.low >= 0 && w.granted)
  {
    hide Steps, WithLow;
    StepOn(slots, th, w, k);
    StepOn(slots, th.(pc := Use(h, NeedNetif)), w, k - 1);
    if slots[h].netif == -1 {
      StepOn(slots, th.(pc := Use(h, UseAt.WantList)), w, k - 2);
      StepOn(slots, th.(pc := Use(h, UseAt.InList)), w, k - 3);
      StepOn(slots, th.(pc := Use(h, UseAt.PutNetif(w.netif))), w, k - 4);
      var s1 := slots[h := slots[h].(netif := w.netif)];
      UseFromDefault(s1, th.(pc := Use(h, Default)), h, w, k - 5);
      assert s1[h := WithLow(s1[h], w.handle)] == slots[h := WithLow(s1[h], w.handle)];
    } else {
      UseFromDefault(slots, th.(pc := Use(h, Default)), h, w, k - 2);
    }
  }

  /** A whole net_sendto. */
  lemma SendSteps(slots: seq<Slot>, th: Thread, h: nat, w: World, k: nat)
    requires h < |slots| && th.pc == Use(h, FreeDefault) && k >= 20
    ensures var t := WithLow(slots[h], w.handle);
      Steps(slots, th, w, k) == (slots[h := t], th.(pc := Idle), t.low >= 0 && w.granted)
  {
    hide Steps;
    var s1 := slots[h := Defaulted(slots[h])];
    var s2 := s1[h := CreatedAs(s1[h], w.handle)];
    assert s2 == slots[h := WithLow(slots[h], w.handle)];
    StepOn(slots, th, w, k);
    StepOn(s1, th.(pc := Use(h, FreeCreate)), w, k - 1);
    StepOn(s2, th.(pc := Use(h, FreeTest)), w, k - 2);
    if s2[h].low < 0 {
      Ended(s2, th.(pc := Idle), w, k - 3);
    } else {
      StepOn(s2, th.(pc := Use(h, WantSend)), w, k - 3);
      UseFromAccess(s2, th.(pc := Use(h, Access)), h, w, k - 4);
    }
  }

  // ----- net_closesocket

  lemma CloseFromDrop(slots: seq<Slot>, th: Thread, h: nat, w: World, k: nat)
    requires h < |slots| && th.pc == Close(h, Drop) && k >= 2
    ensures Steps(slots, th, w, k) ==
      (slots[h := slots[h].(alive := false)], Thread(Idle, th.held - {h}), false)
  {
    hide Steps;
    var s1 := slots[h := slots[h].(alive := false)];
    StepOn(slots, th, w, k);
    StepOn(s1, Thread(Close(h, CloseAt.Leave), th.held - {h}), w, k - 1);
    Ended(s1, Thread(Idle, th.held - {h}), w, k - 2);
  }

  /** A whole net_closesocket. */
  lemma CloseSteps(slots: seq<Slot>, th: Thread, h: nat, w: World, k: nat)
    requires h < |slots| && th.pc == Close(h, CloseAt.WantLock) && k >= 20
    ensures var s := slots[h];
      Steps(slots, th, w, k) ==
      (slots[h := s.(alive := false, low := if s.low >= 0 then -1 else s.low)], Thread(Idle, th.held - {h}), s.low >= 0)
  {
    hide Steps;
    StepOn(slots, th, w, k);
    StepOn(slots, th.(pc := Close(h, CloseAt.Test)), w, k - 1);
    if slots[h].low >= 0 {
      var s1 := slots[h := slots[h].(low := -1)];
      StepOn(slots, th.(pc := Close(h, CloseAt.LeaveForDriver)), w, k - 2);
      StepOn(slots, th.(pc := Close(h, CloseAt.InDriver)), w, k - 3);
      StepOn(slots, th.(pc := Close(h, CloseAt.WantBack)), w, k - 4);
      StepOn(slots, th.(pc := Close(h, ClearLow)), w, k - 5);
      CloseFromDrop(s1, th.(pc := Close(h, Drop)), h, w, k - 6);
      assert s1[h := s1[h].(alive := false)] == slots[h := slots[h].(alive := false, low := -1)];
    } else {
      CloseFromDrop(slots, th.(pc := Close(h, Drop)), h, w, k - 2);
    }
  }

  // ----- net_socket

  lemma NewFromProtocol(slots: seq<Slot>, th: Thread, a: Ask, i: nat, w: World, k: nat)
    requires i < |slots| && th.pc == New(a, i, PutProtocol) && k >= 2
    ensures Steps(slots, th, w, k) ==
      (slots[i := slots[i].(protocol := a.protocol)], Thread(Idle, th.held[i := a]), false)
  {
    hide Steps;
    var s1 := slots[i := slots[i].(protocol := a.protocol)];
    StepOn(slots, th, w, k);
    StepOn(s1, th.(pc := New(a, i, NewAt.Leave)), w, k - 1);
    Ended(s1, Thread(Idle, th.held[i := a]), w, k - 2);
  }

  /** The values go in one after the other. */
  lemma NewFromValues(slots: seq<Slot>, th: Thread, a: Ask, i: nat, w: World, k: nat)
    requires i < |slots| && th.pc == New(a, i, PutDomain) && k >= 4
    ensures Steps(slots, th, w, k) ==
      (slots[i := slots[i].(domain := a.domain, kind := a.kind, protocol := a.protocol)],
       Thread(Idle, th.held[i := a]), false)
  {
    hide Steps;
    var s1 := slots[i := slots[i].(domain := a.domain)];
    var s2 := s1[i := s1[i].(kind := a.kind)];
    StepOn(slots, th, w, k);
    StepOn(s1, th.(pc := New(a, i, PutKind)), w, k - 1);
    NewFromProtocol(s2, th.(pc := New(a, i, PutProtocol)), a, i, w, k - 2);
    assert s2[i := s2[i].(protocol := a.protocol)] ==
      slots[i := slots[i].(domain := a.domain, kind := a.kind, protocol := a.protocol)];
  }

  lemma NewFromLock(slots: seq<Slot>, th: Thread, a: Ask, i: nat, w: World, k: nat)
    requires i < |slots| && th.pc == New(a, i, NewAt.WantLock) && k >= 6
    ensures Steps(slots, th, w, k) ==
      (slots[i := slots[i].(domain := a.domain, kind := a.kind, protocol := a.protocol)],
       Thread(Idle, th.held[i := a]), false)
  {
    hide Steps;
    StepOn(slots, th, w, k);
    StepOn(slots, th.(pc := New(a, i, LeaveArray)), w, k - 1);
    NewFromValues(slots, th.(pc := New(a, i, PutDomain)), a, i, w, k - 2);
  }

  lemma NewFromList(slots: seq<Slot>, th: Thread, a: Ask, i: nat, w: World, k: nat)
    requires i < |slots| && th.pc == New(a, i, NewAt.WantList) && k >= 9
    ensures Steps(slots, th, w, k) ==
      (slots[i := slots[i].(netif := w.netif, domain := a.domain, kind := a.kind, protocol := a.protocol)],
       Thread(Idle, th.held[i := a]), false)
  {
    hide Steps;
    var s1 := slots[i := slots[i].(netif := w.netif)];
    StepOn(slots, th, w, k);
    StepOn(slots, th.(pc := New(a, i, NewAt.InList)), w, k - 1);
    StepOn(slots, th.(pc := New(a, i, NewAt.PutNetif(w.netif))), w, k - 2);
    NewFromLock(s1, th.(pc := New(a, i, NewAt.WantLock)), a, i, w, k - 3);
    assert s1[i := s1[i].(domain := a.domain, kind := a.kind, protocol := a.protocol)] ==
      slots[i := slots[i].(netif := w.netif, domain := a.domain, kind := a.kind, protocol := a.protocol)];
  }

  lemma NewFromTake(slots: seq<Slot>, th: Thread, a: Ask, i: nat, w: World, k: nat)
    requires i < |slots| && th.pc == New(a, i, Take) && k >= 11
    ensures Steps(slots, th, w, k) ==
      (slots[i := Slot(true, i, a.domain, a.kind, a.protocol, -1, w.netif)], Thread(Idle, th.held[i := a]), false)
  {
    hide Steps;
    var s1 := slots[i := slots[i].(idx := i, alive := true)];
    var s2 := s1[i := s1[i].(domain := 0, kind := 0, protocol := 0, low := -1)];
    StepOn(slots, th, w, k);
    StepOn(s1, th.(pc := New(a, i, Reset)), w, k - 1);
    NewFromList(s2, th.(pc := New(a, i, NewAt.WantList)), a, i, w, k - 2);
    assert s2[i := s2[i].(netif := w.netif, domain := a.domain, kind := a.kind, protocol := a.protocol)] ==
      slots[i := Slot(true, i, a.domain, a.kind, a.protocol, -1, w.netif)];
  }

  /** The lowest slot from i on that is not in use, or the table's length. */
  predicate LowestFree(slots: seq<Slot>, i: nat, j: nat) {
    i <= j <= |slots| && (j < |slots| ==> !slots[j].alive) && forall m :: i <= m < j ==> slots[m].alive
  }

  lemma {:induction false} NewFromScan(slots: seq<Slot>, th: Thread, a: Ask, i: nat, j: nat, w: World, k: nat)
    requires i <= |slots| && th.pc == New(a, i, Scan) && LowestFree(slots, i, j) && k >= |slots| - i + 12
    ensures Steps(slots, th, w, k) ==
      if j == |slots| then (slots, th.(pc := Idle), false)
      else (slots[j := Slot(true, j, a.domain, a.kind, a.protocol, -1, w.netif)], Thread(Idle, th.held[j := a]), false)
    decreases |slots| - i
  {
    hide Steps;
    StepOn(slots, th, w, k);
    if i == |slots| {
      StepOn(slots, th.(pc := New(a, i, Fail)), w, k - 1);
      Ended(slots, th.(pc := Idle), w, k - 2);
    } else if slots[i].alive {
      NewFromScan(slots, th.(pc := New(a, i + 1, Scan)), a, i + 1, j, w, k - 1);
    } else {
      NewFromTake(slots, th.(pc := New(a, i, Take)), a, i, w, k - 1);
    }
  }

  /** A whole net_socket. */
  lemma SocketSteps(slots: seq<Slot>, th: Thread, a: Ask, j: nat, w: World)
    requires th.pc == New(a, 0, WantArray) && LowestFree(slots, 0, j)
    ensures Steps(slots, th, w, |slots| + 20) ==
      if j == |slots| then (slots, th.(pc := Idle), false)
      else (slots[j := Slot(true, j, a.domain, a.kind, a.protocol, -1, w.netif)], Thread(Idle, th.held[j := a]), false)
  {
    hide Steps;
    StepOn(slots, th, w, |slots| + 20);
    NewFromScan(slots, th.(pc := New(a, 0, Scan)), a, 0, j, w, |slots| + 19);
  }

  // ----- The specification of the calls

  /** The handle that asking for a low-level socket gives. */
  function Handle(env: SocketApi.Env): int {
    if env.hasCreate then env.handle else if env.lost then 0 else -1
  }

  function WorldOf(n: SocketSessions.Net, env: SocketApi.Env): World {
    World(n.netif, Handle(env), !env.lost)
  }

  /** The call as the interleaved model makes it. */
  predicate Matches(q: SocketSessions.Request, call: Call) {
    match call
    case Socket(a) => q == SocketSessions.OpenIt(a.domain, a.kind, a.protocol)
    case Bind(h) => q == SocketSessions.BindIt(h)
    case SendTo(h) => q == SocketSessions.WithCreation(SocketApi.SendToOp, h, false)
    case CloseSocket(h) => q == SocketSessions.CloseIt(h)
  }

  predicate DriverAsked(asked: seq<SocketApi.DriverCall>) {
    exists c :: c in asked && c.On?
  }

  lemma SeenUpdate(table: seq<SocketApi.Sock>, h: nat, s: SocketApi.Sock)
    requires h < |table|
    ensures AllSeen(table[h := s]) == AllSeen(table)[h := Seen(s)]
  {
  }

  lemma SeenCreated(s: SocketApi.Sock, env: SocketApi.Env)
    ensures Seen(SocketApi.Created(s, env.lost, env.hasCreate, env.handle)) == WithLow(Seen(s), Handle(env))
  {
  }

  /** What the spec of net_bind and net_sendto leaves and asks. */
  lemma CreateThenOperateSeen(n: SocketSessions.Net, h: nat, s: SocketApi.Sock, op: SocketApi.Operation,
      env: SocketApi.Env)
    requires h < |n.table| && s.netif != -1 && (op.BindOp? || op.SendToOp?)
    ensures var m := SocketSessions.CreateThenOperate(n, h, s, op, env).0;
      var t := WithLow(Seen(s), Handle(env));
      && AllSeen(m.table) == AllSeen(n.table)[h := t]
      && (DriverAsked(m.calls[|n.calls|..]) <==> t.low >= 0 && !env.lost)
  {
    var c := SocketApi.Created(s, env.lost, env.hasCreate, env.handle);
    var asked, used := SocketApi.CreateCall(s, h, env.hasCreate), SocketApi.OpCall(c, h, op, env);
    SeenCreated(s, env);
    SeenUpdate(n.table, h, c);
    assert c.netif == s.netif;
    var m := SocketSessions.CreateThenOperate(n, h, s, op, env).0;
    assert m.calls[|n.calls|..] == asked + (if c.low < 0 then [] else used);
    if c.low >= 0 && !env.lost {
      assert SocketApi.On(op, h, c.low) in m.calls[|n.calls|..];
    }
    hide AllSeen;
  }

  lemma AsksIs(n: SocketSessions.Net, q: SocketSessions.Request, env: SocketApi.Env)
    ensures var m := SocketSessions.Serves(n, q, env).0;
      |m.calls| >= |n.calls| && m.calls[|n.calls|..] == SocketSessions.Asks(n, q, env)
  {
    var asked := SocketSessions.Asks(n, q, env);
    hide SocketSessions.Serves, SocketSessions.Asks;
  }

  lemma BindAlone(n: SocketSessions.Net, h: nat, env: SocketApi.Env, th: Thread)
    requires SocketSessions.Bound(n) && SocketApi.IsValid(n.table, h) && th.pc == Use(h, UseAt.WantLock)
    ensures var (end, th', worked) := Steps(AllSeen(n.table), th, WorldOf(n, env), |n.table| + 20);
      var m := SocketSessions.Serves(n, SocketSessions.BindIt(h), env).0;
      th'.pc == Idle && end == AllSeen(m.table) && (worked <==> DriverAsked(m.calls[|n.calls|..]))
  {
    var s := n.table[h];
    assert s.netif != -1;
    BindSteps(AllSeen(n.table), th, h, WorldOf(n, env), |n.table| + 20);
    CreateThenOperateSeen(n, h, s, SocketApi.BindOp, env);
    hide Steps, WithLow, SocketSessions.CreateThenOperate, SocketSessions.Bound, DriverAsked;
  }

  lemma SendAlone(n: SocketSessions.Net, h: nat, env: SocketApi.Env, th: Thread)
    requires SocketSessions.Bound(n) && SocketApi.IsValid(n.table, h) && th.pc == Use(h, FreeDefault)
    ensures var (end, th', worked) := Steps(AllSeen(n.table), th, WorldOf(n, env), |n.table| + 20);
      var m := SocketSessions.Serves(n, SocketSessions.WithCreation(SocketApi.SendToOp, h, false), env).0;
      th'.pc == Idle && end == AllSeen(m.table) && (worked <==> DriverAsked(m.calls[|n.calls|..]))
  {
    var s := n.table[h];
    assert s.netif != -1;
    hide AllSeen, Seen, Steps, WithLow;
    assert |AllSeen(n.table)| == |n.table|;
    SendSteps(AllSeen(n.table), th, h, WorldOf(n, env), |n.table| + 20);
    CreateThenOperateSeen(n, h, s, SocketApi.SendToOp, env);
    hide SocketSessions.CreateThenOperate, SocketSessions.Bound, DriverAsked;
  }

  lemma CloseAlone(n: SocketSessions.Net, h: nat, env: SocketApi.Env, th: Thread)
    requires SocketSessions.Bound(n) && SocketApi.IsValid(n.table, h) && th.pc == Close(h, CloseAt.WantLock)
    ensures var (end, th', worked) := Steps(AllSeen(n.table), th, WorldOf(n, env), |n.table| + 20);
      var m := SocketSessions.Serves(n, SocketSessions.CloseIt(h), env).0;
      th'.pc == Idle && end == AllSeen(m.table) && (worked <==> DriverAsked(m.calls[|n.calls|..]))
  {
    var s := n.table[h];
    assert s.netif != -1;
    CloseSteps(AllSeen(n.table), th, h, WorldOf(n, env), |n.table| + 20);
    var t := if s.low < 0 then s.(status := SocketApi.NotAlive) else s.(low := -1, status := SocketApi.NotAlive);
    SeenUpdate(n.table, h, t);
    var m := SocketSessions.Serves(n, SocketSessions.CloseIt(h), env).0;
    hide Steps, AllSeen, SocketSessions.Bound;
    if s.low >= 0 {
      assert m.calls[|n.calls|..] == [SocketApi.On(SocketApi.CloseOp, h, s.low)];
      assert SocketApi.On(SocketApi.CloseOp, h, s.low) in m.calls[|n.calls|..];
    } else {
      assert m.calls[|n.calls|..] == [];
    }
  }

  lemma SocketAlone(n: SocketSessions.Net, a: Ask, env: SocketApi.Env, th: Thread)
    requires th.pc == New(a, 0, WantArray)
    ensures var (end, th', worked) := Steps(AllSeen(n.table), th, WorldOf(n, env), |n.table| + 20);
      var m := SocketSessions.Serves(n, SocketSessions.OpenIt(a.domain, a.kind, a.protocol), env).0;
      th'.pc == Idle && end == AllSeen(m.table) && (worked <==> DriverAsked(m.calls[|n.calls|..]))
  {
    var j := SocketSessions.FirstFree(n.table, 0);
    assert forall m :: 0 <= m < j ==> SocketApi.IsValid(n.table, m) && AllSeen(n.table)[m] == Seen(n.table[m]);
    assert j < |n.table| ==> AllSeen(n.table)[j] == Seen(n.table[j]);
    SocketSteps(AllSeen(n.table), th, a, j, WorldOf(n, env));
    var m := SocketSessions.Serves(n, SocketSessions.OpenIt(a.domain, a.kind, a.protocol), env).0;
    assert m.calls[|n.calls|..] == [];
    if j < |n.table| {
      SeenUpdate(n.table, j, m.table[j]);
    }
    hide Steps, AllSeen;
  }

  /** A call made alone leaves the table as its specification says, and asks the driver for the operation exactly when
      the specification does, as long as no interface is missing. */
  lemma AloneAsSpecified(n: SocketSessions.Net, q: SocketSessions.Request, env: SocketApi.Env, call: Call, th: Thread)
    requires Matches(q, call) && SocketSessions.Bound(n) && th.pc == Entry(AllSeen(n.table), call)
    ensures var (end, th', worked) := Steps(AllSeen(n.table), th, WorldOf(n, env), |n.table| + 20);
      && th'.pc == Idle && end == AllSeen(SocketSessions.Serves(n, q, env).0.table)
      && (worked <==> DriverAsked(SocketSessions.Asks(n, q, env)))
  {
    AsksIs(n, q, env);
    hide Steps, SocketSessions.Asks, DriverAsked, SocketSessions.Bound;
    match call
    case Socket(a) => SocketAlone(n, a, env, th);
    case Bind(h) =>
      if th.pc == Idle { Unserved(n, q, env, th); } else { BindAlone(n, h, env, th); }
    case SendTo(h) =>
      if th.pc == Idle { Unserved(n, q, env, th); } else { SendAlone(n, h, env, th); }
    case CloseSocket(h) =>
      if th.pc == Idle { Unserved(n, q, env, th); } else { CloseAlone(n, h, env, th); }
  }

  /** A call on an invalid socket. */
  lemma Unserved(n: SocketSessions.Net, q: SocketSessions.Request, env: SocketApi.Env, th: Thread)
    requires !q.OpenIt? && !SocketApi.IsValid(n.table, q.sock) && th.pc == Idle
    ensures Steps(AllSeen(n.table), th, WorldOf(n, env), |n.table| + 20) == (AllSeen(n.table), th, false)
    ensures SocketSessions.Serves(n, q, env).0 == n && !DriverAsked([])
  {
    Ended(AllSeen(n.table), th, WorldOf(n, env), |n.table| + 20);
  }
}
