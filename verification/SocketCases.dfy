/** What each socket call of core/net_socket.c comes to for its caller: when the driver is asked, with what, and what
    is returned. Codes and constants are written as numbers here. */
module SocketCases {
  import opened SocketApi
  import opened SocketSessions

  /** The operation a call asks of the driver. */
  function Wanted(q: Request): Operation
    requires !q.OpenIt?
  {
    match q
    case BindIt(_) => BindOp
    case AcceptOn(_) => AcceptOp
    case ConnectIt(_) => ConnectOp
    case Existing(op, _, _) => op
    case WithCreation(op, _, _) => op
    case ShutdownIt(_) => ShutdownOp
    case CloseIt(_) => CloseOp
    case SetIt(_, _) => SetOptionOp
  }

  /** The call is for a live socket and has all it needs. */
  predicate Complete(n: Net, q: Request) {
    && Proper(q) && !q.OpenIt? && IsValid(n.table, q.sock)
    && (q.Existing? || q.WithCreation? ==> !q.missing)
    && (q.SetIt? ==> match q.option
          case BindToDevice(sized, netif) => sized && netif != NULL
          case ReadTimeout(sized, _) => sized
          case WriteTimeout(sized, _) => sized
          case Other => true)
  }

  /** Connection up, or an operation that is let through without. */
  predicate Granted(op: Operation, env: Env) {
    !env.lost || op in {ShutdownOp, CloseOp, PeerNameOp, SockNameOp, SetOptionOp}
  }

  /** On a socket with a low-level handle and an interface, the driver is asked for just this operation on just this
      handle, and its answer returned, if and only if the connection is up or the operation passes without; otherwise
      nothing is asked and the answer is 0. net_accept makes a socket of an answer that is not negative. */
  lemma ReachesDriver(n: Net, q: Request, env: Env)
    requires Complete(n, q) && n.table[q.sock].low >= 0 && n.table[q.sock].netif != NULL
    ensures var (m, r) := Serves(n, q, env);
      var asked, answer := Granted(Wanted(q), env), if Granted(Wanted(q), env) then env.reply else 0;
      && m.calls == n.calls + (if asked then [On(Wanted(q), q.sock, n.table[q.sock].low)] else [])
      && (!q.AcceptOn? || answer < 0 ==> r == Done(answer))
      && (q.AcceptOn? && answer >= 0 ==>
            r == Done(if FirstFree(n.table, 0) < |n.table| then FirstFree(n.table, 0) else -6))
  {
    hide FirstFree;
  }

  /** The protocol a low-level socket is created with. */
  predicate CreatedWith(s: Sock, protocol: int) {
    protocol == if s.protocol != 0 then s.protocol else if s.kind == 1 then 6 else if s.kind == 2 then 17 else 0
  }

  predicate Creates(q: Request) {
    q.BindIt? || q.ConnectIt? || q.WithCreation? || q.SetIt?
  }

  /** The calls that create a low-level socket when there is none: the driver is asked for one with the socket's
      values, and then for the operation on the new handle; a negative handle fails the call. */
  lemma CreatesFirst(n: Net, q: Request, env: Env)
    requires Complete(n, q) && Creates(q) && n.table[q.sock].low == -1 && n.table[q.sock].netif != NULL
    requires env.hasCreate && (env.handle >= 0 || !q.ConnectIt?)
    ensures var (m, r) := Serves(n, q, env);
      var s := n.table[q.sock];
      && (env.handle < 0 ==> |m.calls| == |n.calls| + 1 && r == Done(-19))
      && (env.handle >= 0 ==>
            && r == Done(if Granted(Wanted(q), env) then env.reply else 0)
            && |m.calls| == |n.calls| + (if Granted(Wanted(q), env) then 2 else 1)
            && (Granted(Wanted(q), env) ==> m.calls[|n.calls| + 1] == On(Wanted(q), q.sock, env.handle)))
      && m.calls[..|n.calls|] == n.calls
      && m.calls[|n.calls|].Create? && m.calls[|n.calls|].sock == q.sock
      && m.calls[|n.calls|].domain == s.domain && m.calls[|n.calls|].kind == s.kind
      && CreatedWith(s, m.calls[|n.calls|].protocol)
      && m.table[q.sock].low == env.handle && m.table[q.sock].protocol == m.calls[|n.calls|].protocol
  {
  }

  /** Without a way to create one: over a lost connection the handle is taken to be 0, else the call fails. */
  lemma NobodyCreates(n: Net, q: Request, env: Env)
    requires Complete(n, q) && Creates(q) && n.table[q.sock].low == -1 && n.table[q.sock].netif != NULL
    requires !env.hasCreate
    ensures var (m, r) := Serves(n, q, env);
      && (!env.lost ==> r == Done(-19) && m.calls == n.calls && m.table[q.sock].low == -1)
      && (env.lost ==> m.table[q.sock].low == 0)
      && (env.lost && q.SetIt? ==> r == Done(env.reply) && m.calls == n.calls + [On(SetOptionOp, q.sock, 0)])
      && (env.lost && !q.SetIt? ==> r == Done(0) && m.calls == n.calls)
  {
  }

  /** The calls that do not: they fail, and ask nothing. Close and shutdown give the socket up. */
  lemma NothingToUse(n: Net, q: Request, env: Env)
    requires Complete(n, q) && !Creates(q) && n.table[q.sock].low < 0
    ensures var (m, r) := Serves(n, q, env);
      && m.calls == n.calls
      && (q.CloseIt? || q.ShutdownIt? ==> r == Done(0) && !IsValid(m.table, q.sock))
      && (q.AcceptOn? || q.Existing? ==> r == Done(-19) && m == n)
  {
  }

  /** What is refused before anything is done. */
  lemma Refused(n: Net, q: Request, env: Env)
    requires Proper(q)
    ensures !q.OpenIt? && !IsValid(n.table, q.sock) ==> Serves(n, q, env) == (n, Done(-6))
    ensures (q.Existing? || q.WithCreation?) && q.missing ==> Serves(n, q, env) == (n, Done(-6))
    ensures q.OpenIt? && (forall i :: 0 <= i < |n.table| ==> IsValid(n.table, i)) ==>
      Serves(n, q, env) == (n, Done(-6))
    ensures q.ConnectIt? && IsValid(n.table, q.sock) && n.netif == n.table[q.sock].netif == NULL ==>
      Serves(n, q, env).1 == Done(-17) && Serves(n, q, env).0.calls == n.calls
    ensures q.SetIt? && IsValid(n.table, q.sock) && !q.option.Other? && !q.option.sized ==>
      Serves(n, q, env).1 == Done(-4) && Serves(n, q, env).0.calls == n.calls
  {
    if q.OpenIt? && forall i :: 0 <= i < |n.table| ==> IsValid(n.table, i) {
      NoneFree(n.table);
    }
  }

  /** A new socket: the lowest free slot, unconnected, without a low-level socket, on the default interface, with a
      minute's time-outs. */
  lemma OpenedSocket(n: Net, domain: int, kind: int, protocol: int, env: Env, i: nat)
    requires i < |n.table| && !IsValid(n.table, i) && forall k :: 0 <= k < i ==> IsValid(n.table, k)
    ensures var (m, r) := Serves(n, OpenIt(domain, kind, protocol), env);
      && r == Done(i) && m.calls == n.calls && |m.table| == |n.table|
      && (forall k :: 0 <= k < |n.table| && k != i ==> m.table[k] == n.table[k])
      && var s := m.table[i];
        && s.status == Allocated && s.idx == i && s.domain == domain && s.kind == kind && s.protocol == protocol
        && s.low == -1 && s.netif == n.netif && s.clone == n.table[i].clone
        && s.readTimeout == 60000 && s.writeTimeout == 60000
  {
    FirstFreeIs(n.table, 0, i);
  }

  /** net_connect tries twice for a low-level socket; what only the second try creates stays unconnected, with the code
      of an internal error. */
  lemma SecondTry(n: Net, sock: nat, env: Env)
    requires IsValid(n.table, sock) && n.table[sock].low == -1 && n.table[sock].netif != NULL
    requires env.hasCreate && env.handle == -1
    ensures var (m, r) := Serves(n, ConnectIt(sock), env);
      && r == Done(if env.handle2 < 0 then -19 else -25)
      && |m.calls| == |n.calls| + 2 && m.calls[..|n.calls|] == n.calls
      && m.calls[|n.calls|].Create? && m.calls[|n.calls| + 1].Create?
      && m.table[sock].low == env.handle2 && m.table[sock].status == n.table[sock].status
  {
  }

  /** An accepted connection: both sockets count as connected, the new one is the other's copy down to its index, with
      the driver's handle and marked as a copy. */
  lemma AcceptedSocket(n: Net, sock: nat, env: Env, i: nat)
    requires IsValid(n.table, sock) && n.table[sock].low >= 0 && n.table[sock].netif != NULL
    requires !env.lost && env.reply >= 0
    requires i < |n.table| && !IsValid(n.table, i) && forall k :: 0 <= k < i ==> IsValid(n.table, k)
    ensures var (m, r) := Serves(n, AcceptOn(sock), env);
      && r == Done(i) && |m.table| == |n.table|
      && (forall k :: 0 <= k < |n.table| && k != i && k != sock ==> m.table[k] == n.table[k])
      && m.table[sock] == n.table[sock].(status := Connected)
      && m.table[i] == n.table[sock].(status := Connected, low := env.reply, clone := true)
  {
    FirstFreeIs(n.table, 0, i);
  }

  /** What an operation leaves of a socket that the driver was asked about. */
  lemma TableAfter(n: Net, q: Request, env: Env)
    requires Complete(n, q) && !q.AcceptOn? && !q.SetIt? && n.table[q.sock].low >= 0 && n.table[q.sock].netif != NULL
    ensures var (m, r) := Serves(n, q, env);
      var s := n.table[q.sock];
      m.table == n.table[q.sock :=
        if q.CloseIt? then s.(low := -1, status := NotAlive)
        else if q.ConnectIt? && r == Done(0) then s.(status := Connected)
        else s]
  {
    assert n.table[q.sock := n.table[q.sock]] == n.table;
  }

  /** What an option leaves on the socket, whatever the driver then answers. */
  lemma OptionKept(n: Net, q: Request, env: Env)
    requires Complete(n, q) && q.SetIt?
    ensures var s, t := n.table[q.sock], Serves(n, q, env).0.table[q.sock];
      && t.readTimeout == (if q.option.ReadTimeout? then q.option.value else s.readTimeout)
      && t.writeTimeout == (if q.option.WriteTimeout? then q.option.value else s.writeTimeout)
      && t.netif == (if q.option.BindToDevice? then q.option.netif else if s.netif != NULL then s.netif else n.netif)
      && t.status == s.status
  {
  }

  /** After net_closesocket the slot is free, unless the call faulted; and a connected socket is one net_connect
      got 0 for, or one side of an accepted connection. */
  lemma StatusAfter(n: Net, q: Request, env: Env, k: nat)
    requires Proper(q) && k < |n.table| && Serves(n, q, env).1.Done?
    ensures var m := Serves(n, q, env).0;
      && |m.table| == |n.table|
      && (q.CloseIt? && q.sock == k ==> m.table[k].status == NotAlive)
      && (m.table[k].status == Connected && n.table[k].status != Connected ==>
            (q.ConnectIt? && q.sock == k && Serves(n, q, env).1 == Done(0)) || q.AcceptOn?)
  {
    hide FirstFree, Outcome, OpCall, CreateCall, DefaultProtocol;
  }
}
