/** Whole sequences of the socket calls of core/net_socket.c from one thread: what they leave behind, what they ask of
    the driver, and where one of them falls over a missing interface. */
module SocketSessions {
  import opened SocketApi

  datatype Request =
    | OpenIt(domain: int, kind: int, protocol: int) | BindIt(sock: int) | AcceptOn(sock: int) | ConnectIt(sock: int)
    | Existing(op: Operation, sock: int, missing: bool) | WithCreation(op: Operation, sock: int, missing: bool)
    | ShutdownIt(sock: int) | CloseIt(sock: int) | SetIt(sock: int, option: Option)

  predicate Proper(q: Request) {
    match q
    case Existing(op, _, missing) =>
      (op.ListenOp? && !missing) || op.SendOp? || op.RecvOp? || op.PeerNameOp? || op.SockNameOp?
    case WithCreation(op, _, _) => op.SendToOp? || op.RecvFromOp?
    case _ => true
  }

  predicate AllProper(qs: seq<Request>) {
    forall i :: 0 <= i < |qs| ==> Proper(qs[i])
  }

  /** The table, the head of the interface list, and what the driver was asked. */
  datatype Net = Net(table: seq<Sock>, netif: int, calls: seq<DriverCall>)

  function FirstFree(table: seq<Sock>, from: nat): (i: nat)
    requires from <= |table|
    ensures from <= i <= |table| && (i < |table| ==> !IsValid(table, i))
    ensures forall k :: from <= k < i ==> IsValid(table, k)
    decreases |table| - from
  {
    if from == |table| || table[from].status == NotAlive then from else FirstFree(table, from + 1)
  }

  // ----- What each call does

  /** The call changes one socket and asks the driver. */
  function Left(n: Net, sock: nat, s: Sock, calls: seq<DriverCall>): Net
    requires sock < |n.table|
  {
    Net(n.table[sock := s], n.netif, n.calls + calls)
  }

  /** A low-level socket if it is needed, then the operation. */
  function CreateThenOperate(n: Net, sock: nat, s: Sock, op: Operation, env: Env): (Net, Result)
    requires sock < |n.table|
  {
    var c := Created(s, env.lost, env.hasCreate, env.handle);
    var asked := CreateCall(s, sock, env.hasCreate);
    if s.low == -1 && s.netif == NULL then (n, Fault)
    else if c.low < 0 then (Left(n, sock, c, asked), Done(SOCKET_FAILURE))
    else (Left(n, sock, c, asked + OpCall(c, sock, op, env)), Outcome(c, op, env, FRAMEWORK))
  }

  function Opens(n: Net, domain: int, kind: int, protocol: int): (Net, Result) {
    var i := FirstFree(n.table, 0);
    if i == |n.table| then (n, Done(INVALID_SOCKET))
    else
      var s := Sock(Allocated, i, domain, kind, protocol, -1, n.netif, n.table[i].clone, WAIT, WAIT);
      (Left(n, i, s, []), Done(i))
  }

  function AcceptsOn(n: Net, sock: nat, env: Env): (Net, Result)
    requires sock < |n.table|
  {
    var s := n.table[sock];
    var got := Outcome(s, AcceptOp, env, -1);
    var asked := OpCall(s, sock, AcceptOp, env);
    var listening := s.(status := Connected);
    var i := FirstFree(n.table, 0);
    if s.low < 0 then (n, Done(SOCKET_FAILURE))
    else if got.Fault? || got.code < 0 then (Left(n, sock, s, asked), got)
    else if i == |n.table| then (Left(n, sock, listening, asked), Done(INVALID_SOCKET))
    else (Left(Left(n, sock, listening, asked), i, listening.(low := got.code, clone := true), []), Done(i))
  }

  function ConnectsTo(n: Net, sock: nat, env: Env): (Net, Result)
    requires sock < |n.table|
  {
    var s := WithDefault(n.table[sock], n.netif);
    var c := Created(s, env.lost, env.hasCreate, env.handle);
    var d := Created(c, env.lost, env.hasCreate, env.handle2);
    var asked := CreateCall(s, sock, env.hasCreate);
    var r := Outcome(c, ConnectOp, env, FRAMEWORK);
    if s.netif == NULL then (n, Done(INTERFACE_FAILURE))
    else if c.low < 0 then
      (Left(n, sock, d, asked + CreateCall(c, sock, env.hasCreate)),
       Done(if d.low < 0 then SOCKET_FAILURE else FRAMEWORK))
    else
      (Left(n, sock, if r == Done(OK) then c.(status := Connected) else c, asked + OpCall(c, sock, ConnectOp, env)), r)
  }

  /** Shutdown and close, which differ in what they leave of a socket the driver was asked about. */
  function Ends(n: Net, sock: nat, op: Operation, env: Env, left: Sock): (Net, Result)
    requires sock < |n.table|
  {
    var s := n.table[sock];
    if s.low < 0 then (Left(n, sock, s.(status := NotAlive), []), Done(OK))
    else (Left(n, sock, left, OpCall(s, sock, op, env)), Outcome(s, op, env, FRAMEWORK))
  }

  function SetsIt(n: Net, sock: nat, option: Option, env: Env): (Net, Result)
    requires sock < |n.table|
  {
    var (s, code, forward) := WithOption(n.table[sock], option);
    var t := WithDefault(s, n.netif);
    var c := Created(t, env.lost, env.hasCreate, env.handle);
    var asked := CreateCall(t, sock, env.hasCreate);
    if !forward then (Left(n, sock, s, []), Done(code))
    else if t.netif == NULL then (Left(n, sock, t, []), Done(INTERFACE_FAILURE))
    else if c.low < 0 then (Left(n, sock, c, asked), Done(SOCKET_FAILURE))
    else (Left(n, sock, c, asked + [On(SetOptionOp, sock, c.low)]), Done(env.reply))
  }

  function Serves(n: Net, q: Request, env: Env): (Net, Result) {
    if q.OpenIt? then Opens(n, q.domain, q.kind, q.protocol)
    else if !IsValid(n.table, q.sock) then (n, Done(INVALID_SOCKET))
    else
      var s := n.table[q.sock];
      match q
      case BindIt(sock) => CreateThenOperate(n, sock, WithDefault(s, n.netif), BindOp, env)
      case AcceptOn(sock) => AcceptsOn(n, sock, env)
      case ConnectIt(sock) => ConnectsTo(n, sock, env)
      case Existing(op, sock, missing) =>
        if missing then (n, Done(INVALID_SOCKET))
        else if s.low < 0 then (n, Done(SOCKET_FAILURE))
        else (Left(n, sock, s, OpCall(s, sock, op, env)), Outcome(s, op, env, FRAMEWORK))
      case WithCreation(op, sock, missing) =>
        if missing then (n, Done(INVALID_SOCKET)) else CreateThenOperate(n, sock, s, op, env)
      case ShutdownIt(sock) => Ends(n, sock, ShutdownOp, env, s)
      case CloseIt(sock) => Ends(n, sock, CloseOp, env, s.(low := -1, status := NotAlive))
      case SetIt(sock, option) => SetsIt(n, sock, option, env)
  }

  /** The calls one after the other, up to the first that faults: the state they leave and how many were served. */
  function Run(n: Net, qs: seq<Request>, envs: seq<Env>, k: nat): (r: (Net, nat))
    requires |envs| == |qs| && k <= |qs|
    ensures k <= r.1 <= |qs|
    decreases |qs| - k
  {
    if k == |qs| then (n, k)
    else
      var (n', r) := Serves(n, qs[k], envs[k]);
      if r == Fault then (n, k) else Run(n', qs, envs, k + 1)
  }

  // ----- The calls on the object

  ghost function Now(sockets: Sockets): Net
    reads sockets, sockets.table
  {
    Net(sockets.table[..], sockets.defaultNetif, sockets.calls)
  }

  lemma FirstFreeIs(table: seq<Sock>, from: nat, i: nat)
    requires from <= i < |table| && !IsValid(table, i) && forall k :: from <= k < i ==> IsValid(table, k)
    ensures FirstFree(table, from) == i
    decreases i - from
  {
  }

  lemma NoneFree(table: seq<Sock>)
    ensures FirstFree(table, 0) == |table| <==> forall k :: 0 <= k < |table| ==> IsValid(table, k)
  {
  }

  /** One call: what it does to the object is what the specification says, and it gives every lock back. */
  method Serve(sockets: Sockets, q: Request, env: Env) returns (r: Result)
    requires sockets.Valid() && sockets.NoLocks() && Proper(q)
    modifies sockets, sockets.table, sockets.locked
    ensures sockets.Valid() && r == Serves(old(Now(sockets)), q, env).1
    ensures r.Done? ==> sockets.NoLocks() && Now(sockets) == Serves(old(Now(sockets)), q, env).0
    ensures r.Fault? ==> sockets.calls == old(sockets.calls)
  {
    match q
    case OpenIt(domain, kind, protocol) => r := Open(sockets, domain, kind, protocol);
    case BindIt(sock) => r := sockets.Bind(sock, env);
    case AcceptOn(sock) => r := AcceptIt(sockets, sock, env);
    case ConnectIt(_) | SetIt(_, _) => r := ServeWithDefault(sockets, q, env);
    case _ => r := ServeKnown(sockets, q, env);
  }

  method Open(sockets: Sockets, domain: int, kind: int, protocol: int) returns (r: Result)
    requires sockets.Valid() && sockets.NoLocks()
    modifies sockets, sockets.table, sockets.locked
    ensures sockets.Valid() && sockets.NoLocks()
    ensures (Now(sockets), r) == Opens(old(Now(sockets)), domain, kind, protocol)
  {
    ghost var before := sockets.table[..];
    NoneFree(before);
    var ret := sockets.Socket(domain, kind, protocol);
    if ret >= 0 {
      FirstFreeIs(before, 0, ret);
    }
    r := Done(ret);
    assert sockets.calls + [] == sockets.calls;
  }

  method AcceptIt(sockets: Sockets, sock: int, env: Env) returns (r: Result)
    requires sockets.Valid() && sockets.NoLocks()
    modifies sockets, sockets.table, sockets.locked
    ensures sockets.Valid() && sockets.NoLocks()
    ensures (Now(sockets), r) == Serves(old(Now(sockets)), AcceptOn(sock), env)
  {
    ghost var before := sockets.table[..];
    NoneFree(before);
    r := sockets.Accept(sock, env);
    if 0 <= r.code < |before| && !IsValid(before, r.code) && forall k :: 0 <= k < r.code ==> IsValid(before, k) {
      FirstFreeIs(before, 0, r.code);
    }
    assert sockets.calls + [] == sockets.calls;
    assert 0 <= sock < |before| ==> before[sock := before[sock]] == before;
  }

  /** The two calls that refuse a socket without an interface. */
  method ServeWithDefault(sockets: Sockets, q: Request, env: Env) returns (r: Result)
    requires sockets.Valid() && sockets.NoLocks() && (q.ConnectIt? || q.SetIt?)
    modifies sockets, sockets.table, sockets.locked
    ensures sockets.Valid() && sockets.NoLocks() && r.Done?
    ensures r == Serves(old(Now(sockets)), q, env).1 && Now(sockets) == Serves(old(Now(sockets)), q, env).0
  {
    match q
    case ConnectIt(sock) => r := sockets.Connect(sock, env);
    case SetIt(sock, option) => r := sockets.SetSockOpt(sock, option, env);
  }

  method ServeKnown(sockets: Sockets, q: Request, env: Env) returns (r: Result)
    requires sockets.Valid() && sockets.NoLocks() && Proper(q)
    requires q.Existing? || q.WithCreation? || q.ShutdownIt? || q.CloseIt?
    modifies sockets, sockets.table, sockets.locked
    ensures sockets.Valid() && r == Serves(old(Now(sockets)), q, env).1
    ensures r.Done? ==> sockets.NoLocks() && Now(sockets) == Serves(old(Now(sockets)), q, env).0
    ensures r.Fault? ==> sockets.calls == old(sockets.calls)
  {
    match q
    case Existing(op, sock, missing) => r := sockets.OnExisting(op, sock, missing, env);
    case WithCreation(op, sock, missing) => r := sockets.OnCreated(op, sock, missing, env);
    case ShutdownIt(sock) => r := sockets.Shutdown(sock, env);
    case CloseIt(sock) => r := sockets.CloseSocket(sock, env);
  }

  /** Any sequence of calls: as many are served as the specification says, up to one that faults, with the effects the
      specification gives; between calls no lock is held. */
  method Session(sockets: Sockets, qs: seq<Request>, envs: seq<Env>) returns (done: nat)
    requires sockets.Valid() && sockets.NoLocks() && |envs| == |qs| && AllProper(qs)
    modifies sockets, sockets.table, sockets.locked
    ensures sockets.Valid() && done == Run(old(Now(sockets)), qs, envs, 0).1
    ensures sockets.calls == Run(old(Now(sockets)), qs, envs, 0).0.calls
    ensures done == |qs| ==> sockets.NoLocks() && Now(sockets) == Run(old(Now(sockets)), qs, envs, 0).0
  {
    done := 0;
    hide Serves;
    while done < |qs|
      invariant done <= |qs| && sockets.Valid() && sockets.NoLocks()
      invariant Run(old(Now(sockets)), qs, envs, 0) == Run(Now(sockets), qs, envs, done)
    {
      var r := Serve(sockets, qs[done], envs[done]);
      if r == Fault {
        return;
      }
      done := done + 1;
    }
  }

  // ----- Which call faults

  /** The guard: the call goes on without an interface. */
  predicate Faults(n: Net, q: Request) {
    && !q.OpenIt? && IsValid(n.table, q.sock) && n.table[q.sock].netif == NULL
    && var low := n.table[q.sock].low;
      match q
      case BindIt(_) => low == -1 && n.netif == NULL
      case Existing(op, _, missing) => !missing && low >= 0 && (op.PeerNameOp? || op.SockNameOp?)
      case WithCreation(_, _, missing) => !missing && low == -1
      case ShutdownIt(_) | CloseIt(_) => low >= 0
      case _ => false
  }

  lemma FaultsExactly(n: Net, q: Request, env: Env)
    requires Proper(q)
    ensures Serves(n, q, env).1 == Fault <==> Faults(n, q)
  {
  }

  /** The state before call j if none before it faults. */
  function Before(n: Net, qs: seq<Request>, envs: seq<Env>, j: nat): Net
    requires |envs| == |qs| && j <= |qs|
  {
    if j == 0 then n else Serves(Before(n, qs, envs, j - 1), qs[j - 1], envs[j - 1]).0
  }

  /** Call j meets the guard in that state. */
  predicate FaultsAt(n: Net, qs: seq<Request>, envs: seq<Env>, j: nat)
    requires |envs| == |qs| && j < |qs|
  {
    Faults(Before(n, qs, envs, j), qs[j])
  }

  lemma {:induction false} RunFromBefore(n: Net, qs: seq<Request>, envs: seq<Env>, k: nat)
    requires |envs| == |qs| && AllProper(qs) && k <= |qs|
    ensures var (end, done) := Run(Before(n, qs, envs, k), qs, envs, k);
      && end == Before(n, qs, envs, done)
      && (done < |qs| ==> FaultsAt(n, qs, envs, done))
      && forall j :: k <= j < done ==> !FaultsAt(n, qs, envs, j)
    decreases |qs| - k
  {
    hide Serves, Faults, Before;
    if k < |qs| {
      var m := Before(n, qs, envs, k);
      FaultsExactly(m, qs[k], envs[k]);
      if !Faults(m, qs[k]) {
        BeforeNext(n, qs, envs, k);
        RunFromBefore(n, qs, envs, k + 1);
      }
    }
  }

  lemma RunNext(m: Net, qs: seq<Request>, envs: seq<Env>, k: nat)
    requires |envs| == |qs| && k <= |qs|
    ensures Run(m, qs, envs, k) ==
      if k == |qs| || Serves(m, qs[k], envs[k]).1 == Fault then (m, k)
      else Run(Serves(m, qs[k], envs[k]).0, qs, envs, k + 1)
  {
    hide Serves;
  }

  lemma BeforeNext(n: Net, qs: seq<Request>, envs: seq<Env>, k: nat)
    requires |envs| == |qs| && k < |qs|
    ensures Before(n, qs, envs, k + 1) == Serves(Before(n, qs, envs, k), qs[k], envs[k]).0
  {
    hide Serves;
  }

  /** A sequence is served up to the first call that meets the guard in the state it finds. */
  lemma StopsExactly(n: Net, qs: seq<Request>, envs: seq<Env>)
    requires |envs| == |qs| && AllProper(qs)
    ensures var (end, done) := Run(n, qs, envs, 0);
      && end == Before(n, qs, envs, done)
      && (done < |qs| ==> FaultsAt(n, qs, envs, done))
      && forall j :: 0 <= j < done ==> !FaultsAt(n, qs, envs, j)
  {
    RunFromBefore(n, qs, envs, 0);
    hide Serves, Run, FaultsAt;
  }

  // ----- When none does

  /** Every socket has its interface, and there is one for new ones. */
  predicate Bound(n: Net) {
    n.netif != NULL && forall i :: 0 <= i < |n.table| && IsValid(n.table, i) ==> n.table[i].netif != NULL
  }

  /** The one call that takes a socket's interface away. */
  predicate Unbinds(q: Request) {
    q.SetIt? && q.option.BindToDevice? && q.option.sized && q.option.netif == NULL
  }

  lemma StaysBound(n: Net, q: Request, env: Env)
    requires Proper(q) && Bound(n) && !Unbinds(q)
    ensures Serves(n, q, env).1.Done? && Bound(Serves(n, q, env).0)
  {
    var m := Serves(n, q, env).0;
    forall i | 0 <= i < |m.table| && IsValid(m.table, i) ensures m.table[i].netif != NULL {
      if q.OpenIt? || !IsValid(n.table, q.sock) || i != q.sock {
        assert IsValid(n.table, i) ==> n.table[i].netif != NULL;
      }
    }
  }

  /** A sequence of calls on bound sockets can only fault after a socket was bound to no device. */
  lemma {:induction false} FaultsAfterUnbinding(n: Net, qs: seq<Request>, envs: seq<Env>, k: nat)
    requires |envs| == |qs| && AllProper(qs) && k <= |qs| && Bound(n)
    ensures var (end, done) := Run(n, qs, envs, k);
      (done == |qs| && Bound(end)) || exists j :: k <= j < done && Unbinds(qs[j])
    decreases |qs| - k
  {
    if k < |qs| {
      FaultsExactly(n, qs[k], envs[k]);
      assert !Faults(n, qs[k]);
      if !Unbinds(qs[k]) {
        StaysBound(n, qs[k], envs[k]);
        hide Serves, Bound, Unbinds;
        FaultsAfterUnbinding(Serves(n, qs[k], envs[k]).0, qs, envs, k + 1);
      }
    }
  }

  /** And it does: open, bind with a low-level socket, bind to no device, close. */
  lemma {:induction false} UnboundCloseFaults(n: Net, domain: int, kind: int, protocol: int, envs: seq<Env>)
    requires FirstFree(n.table, 0) < |n.table| && n.netif != NULL
    requires |envs| == 4 && envs[1].hasCreate && envs[1].handle >= 0
    ensures var i := FirstFree(n.table, 0);
      var qs := [OpenIt(domain, kind, protocol), BindIt(i), SetIt(i, BindToDevice(true, NULL)), CloseIt(i)];
      AllProper(qs) && Run(n, qs, envs, 0).1 == 3
  {
    var i := FirstFree(n.table, 0);
    var qs := [OpenIt(domain, kind, protocol), BindIt(i), SetIt(i, BindToDevice(true, NULL)), CloseIt(i)];
    var n1 := Serves(n, qs[0], envs[0]).0;
    var n2 := Serves(n1, qs[1], envs[1]).0;
    var n3 := Serves(n2, qs[2], envs[2]).0;
    assert n1.table[i].low == -1 && n2.table[i].low >= 0;
    assert Run(n3, qs, envs, 3).1 == 3;
    assert Run(n2, qs, envs, 2) == Run(n3, qs, envs, 3);
    assert Run(n1, qs, envs, 1) == Run(n2, qs, envs, 2);
  }

  // ----- What the driver is asked over a lost connection

  /** Operations that reach the driver over a lost connection. */
  predicate PassesLost(op: Operation) {
    op.ShutdownOp? || op.CloseOp? || op.PeerNameOp? || op.SockNameOp? || op.SetOptionOp?
  }

  /** Nothing asked earlier is taken back, and what was asked since is of the kind that passes. */
  ghost predicate OnlyPassing(before: seq<DriverCall>, calls: seq<DriverCall>) {
    before <= calls && forall i :: |before| <= i < |calls| && calls[i].On? ==> PassesLost(calls[i].op)
  }

  ghost predicate AllPass(asked: seq<DriverCall>) {
    forall i :: 0 <= i < |asked| && asked[i].On? ==> PassesLost(asked[i].op)
  }

  lemma PassingOn(calls: seq<DriverCall>, asked: seq<DriverCall>)
    requires AllPass(asked)
    ensures OnlyPassing(calls, calls + asked)
  {
    hide PassesLost;
  }

  lemma BothPass(a: seq<DriverCall>, b: seq<DriverCall>)
    requires AllPass(a) && AllPass(b)
    ensures AllPass(a + b)
  {
    hide PassesLost;
  }

  lemma OpPasses(s: Sock, sock: nat, op: Operation, env: Env)
    requires env.lost
    ensures AllPass(OpCall(s, sock, op, env))
  {
  }

  lemma CreatePasses(s: Sock, sock: nat, op: Operation, env: Env)
    requires env.lost
    ensures var asked := CreateCall(s, sock, env.hasCreate);
      var c := Created(s, env.lost, env.hasCreate, env.handle);
      && AllPass(asked) && AllPass(asked + OpCall(c, sock, op, env))
      && AllPass(asked + CreateCall(c, sock, env.hasCreate)) && AllPass(asked + [On(SetOptionOp, sock, c.low)])
  {
    var asked := CreateCall(s, sock, env.hasCreate);
    var c := Created(s, env.lost, env.hasCreate, env.handle);
    OpPasses(c, sock, op, env);
    assert AllPass(asked) && AllPass(CreateCall(c, sock, env.hasCreate)) && AllPass([On(SetOptionOp, sock, c.low)]);
    hide *;
    BothPass(asked, OpCall(c, sock, op, env));
    BothPass(asked, CreateCall(c, sock, env.hasCreate));
    BothPass(asked, [On(SetOptionOp, sock, c.low)]);
  }

  /** What the call asks of the driver. */
  function Asks(n: Net, q: Request, env: Env): (asked: seq<DriverCall>)
    ensures Serves(n, q, env).0.calls == n.calls + asked
  {
    if q.OpenIt? || !IsValid(n.table, q.sock) then []
    else Serves(n.(calls := []), q, env).0.calls
  }

  lemma AsksPassing(n: Net, q: Request, env: Env)
    requires Proper(q) && env.lost
    ensures OnlyPassing(n.calls, Serves(n, q, env).0.calls)
  {
    var asked := Asks(n, q, env);
    assert AllPass(asked) by {
      if !q.OpenIt? && IsValid(n.table, q.sock) {
        var s := n.table[q.sock];
        OpPasses(s, q.sock, AcceptOp, env);
        CreatePasses(WithDefault(s, n.netif), q.sock, BindOp, env);
        CreatePasses(WithDefault(s, n.netif), q.sock, ConnectOp, env);
        if q.Existing? || q.WithCreation? {
          OpPasses(s, q.sock, q.op, env);
          CreatePasses(s, q.sock, q.op, env);
        }
        OpPasses(s, q.sock, ShutdownOp, env);
        OpPasses(s, q.sock, CloseOp, env);
        if q.SetIt? {
          CreatePasses(WithDefault(WithOption(s, q.option).0, n.netif), q.sock, SetOptionOp, env);
        }
        hide Created, CreateCall, OpCall, AllPass, WithDefault, Outcome;
      }
    }
    hide *;
    PassingOn(n.calls, asked);
  }

  /** While the connection is lost throughout, the driver is asked for nothing but to shut down, close, name and
      configure sockets. */
  lemma {:induction false} LostSessionAsks(n: Net, qs: seq<Request>, envs: seq<Env>, k: nat)
    requires |envs| == |qs| && AllProper(qs) && k <= |qs| && forall i :: 0 <= i < |envs| ==> envs[i].lost
    ensures OnlyPassing(n.calls, Run(n, qs, envs, k).0.calls)
    decreases |qs| - k
  {
    if k < |qs| {
      AsksPassing(n, qs[k], envs[k]);
      hide Serves, PassesLost;
      LostSessionAsks(Serves(n, qs[k], envs[k]).0, qs, envs, k + 1);
    }
  }

  /** net_accept on a listening socket gives a new socket without asking the driver exactly when the connection is
      lost or there is no interface; the new socket then counts as connected, with the low-level handle 0. */
  lemma AcceptedFromNobody(n: Net, sock: nat, env: Env)
    requires IsValid(n.table, sock) && n.table[sock].low >= 0 && FirstFree(n.table, 0) < |n.table|
    ensures var (m, r) := Serves(n, AcceptOn(sock), env);
      var i := FirstFree(n.table, 0);
      && (r == Done(i) && m.calls == n.calls <==> env.lost || n.table[sock].netif == NULL)
      && (m.calls == n.calls ==> m.table[i].status == Connected && m.table[i].low == 0)
  {
  }
}
