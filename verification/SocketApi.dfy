/** The socket calls of core/net_socket.c as one thread makes them, TLS off: every lock taken is released again, no
    lock is asked for twice, and the driver only runs with the socket's own lock released. */
module SocketApi {
  const STREAM := 1
  const DGRAM := 2
  const TCP := 6
  const UDP := 17
  const NULL := -1

  /** Default time-outs. */
  const WAIT := 60000

  const OK := 0
  const PARAMETER := -4
  const INVALID_SOCKET := -6
  const INTERFACE_FAILURE := -17
  const SOCKET_FAILURE := -19
  const FRAMEWORK := -25

  datatype Status = NotAlive | Allocated | Connected

  datatype Sock = Sock(
    status: Status, idx: int, domain: int, kind: int, protocol: int, low: int, netif: int, clone: bool,
    readTimeout: int, writeTimeout: int)

  datatype Access = ToSocket | ToBind | ToListen | ToConnect | ToClose | ToTransfer | ToSetOption

  datatype Operation =
    BindOp | AcceptOp | ListenOp | ConnectOp | SendOp | RecvOp | SendToOp | RecvFromOp | ShutdownOp | CloseOp
    | PeerNameOp | SockNameOp | SetOptionOp

  /** A call into the driver; `low` is the low-level handle it is given. */
  datatype DriverCall =
    | Create(sock: nat, domain: int, kind: int, protocol: int)
    | On(op: Operation, sock: nat, low: int)

  /** What the interface and its driver answer during one call: whether the connection is lost, whether the driver
      has a psocket and what that gives (the second value for a second try), and the answer of the operation. */
  datatype Env = Env(lost: bool, hasCreate: bool, handle: int, handle2: int, reply: int)

  /** Fault: the call dereferenced a NULL interface. */
  datatype Result = Done(code: int) | Fault

  datatype Option =
    BindToDevice(sized: bool, netif: int) | ReadTimeout(sized: bool, value: int) | WriteTimeout(sized: bool, value: int)
    | Other

  /** net_access_control: the answer, and what it leaves in the caller's code. */
  function AccessControl(netif: int, lost: bool, what: Access, code: int): (bool, int) {
    var up := netif != NULL && !lost;
    var left := if up then code else 0;
    match what
    case ToSocket | ToClose | ToSetOption => (true, left)
    case ToTransfer => (up, 0)
    case _ => (up, left)
  }

  function DefaultProtocol(kind: int): int {
    if kind == STREAM then TCP else if kind == DGRAM then UDP else 0
  }

  function Protocoled(s: Sock): Sock {
    if s.protocol == 0 then s.(protocol := DefaultProtocol(s.kind)) else s
  }

  /** A socket after its low-level socket was asked for. */
  function Created(s: Sock, lost: bool, hasCreate: bool, handle: int): Sock {
    if s.low != -1 then s
    else Protocoled(s).(low := if hasCreate then handle else if lost then 0 else -1)
  }

  function WithDefault(s: Sock, netif: int): Sock {
    if s.netif == NULL then s.(netif := netif) else s
  }

  /** The psocket call this makes, if any. */
  function CreateCall(s: Sock, sock: nat, hasCreate: bool): seq<DriverCall> {
    if s.low == -1 && hasCreate then [Create(sock, s.domain, s.kind, Protocoled(s).protocol)] else []
  }

  /** Every operation the driver was given came with a low-level handle that stands for one. */
  predicate HandlesGiven(calls: seq<DriverCall>) {
    forall i :: 0 <= i < |calls| && calls[i].On? ==> calls[i].low >= 0
  }

  function AccessOf(op: Operation): Access {
    match op
    case BindOp | AcceptOp => ToBind
    case ListenOp => ToListen
    case ConnectOp => ToConnect
    case SendOp | RecvOp | SendToOp | RecvFromOp => ToTransfer
    case ShutdownOp | CloseOp => ToClose
    case PeerNameOp | SockNameOp => ToSocket
    case SetOptionOp => ToSetOption
  }

  /** What an operation on a socket with a low-level handle comes to, if the caller's code was `code`. */
  function Outcome(s: Sock, op: Operation, env: Env, code: int): Result {
    var (granted, left) := AccessControl(s.netif, env.lost, AccessOf(op), code);
    if !granted then Done(left) else if s.netif == NULL then Fault else Done(env.reply)
  }

  /** Whether the driver is asked for it. */
  function OpCall(s: Sock, sock: nat, op: Operation, env: Env): seq<DriverCall> {
    if AccessControl(s.netif, env.lost, AccessOf(op), 0).0 && s.netif != NULL then [On(op, sock, s.low)] else []
  }

  predicate IsValid(table: seq<Sock>, sock: int) {
    0 <= sock < |table| && table[sock].status != NotAlive
  }

  /** What net_connect does to a valid socket. */
  ghost predicate Connects(before: seq<Sock>, asked: seq<DriverCall>, after: seq<Sock>, asked': seq<DriverCall>,
      sock: nat, netif: int, env: Env, r: Result)
    requires sock < |before|
  {
    var s := WithDefault(before[sock], netif);
    var c := Created(s, env.lost, env.hasCreate, env.handle);
    var d := Created(c, env.lost, env.hasCreate, env.handle2);
    if s.netif == NULL then r == Done(INTERFACE_FAILURE) && after == before && asked' == asked
    else if c.low < 0 then
      && after == before[sock := d] && r == Done(if d.low < 0 then SOCKET_FAILURE else FRAMEWORK)
      && asked' == asked + CreateCall(s, sock, env.hasCreate) + CreateCall(c, sock, env.hasCreate)
    else
      && r == Outcome(c, ConnectOp, env, FRAMEWORK)
      && after == before[sock := if r == Done(OK) then c.(status := Connected) else c]
      && asked' == asked + CreateCall(s, sock, env.hasCreate) + OpCall(c, sock, ConnectOp, env)
  }

  /** net_setsockopt before it turns to the driver: the socket with the option, the code so far, and whether to go
      on. */
  function WithOption(s: Sock, option: Option): (Sock, int, bool) {
    match option
    case BindToDevice(sized, netif) =>
      if !sized then (s, PARAMETER, false) else (s.(netif := netif), FRAMEWORK, netif != NULL)
    case ReadTimeout(sized, value) =>
      if !sized then (s, PARAMETER, false) else (s.(readTimeout := value), FRAMEWORK, true)
    case WriteTimeout(sized, value) =>
      if !sized then (s, PARAMETER, false) else (s.(writeTimeout := value), FRAMEWORK, true)
    case Other => (s, FRAMEWORK, true)
  }

  /** What net_setsockopt does to a valid socket. */
  ghost predicate SetsOption(before: seq<Sock>, asked: seq<DriverCall>, after: seq<Sock>, asked': seq<DriverCall>,
      sock: nat, netif: int, option: Option, env: Env, r: Result)
    requires sock < |before|
  {
    var (s, code, forward) := WithOption(before[sock], option);
    var t := WithDefault(s, netif);
    var c := Created(t, env.lost, env.hasCreate, env.handle);
    if !forward then r == Done(code) && after == before[sock := s] && asked' == asked
    else if t.netif == NULL then r == Done(INTERFACE_FAILURE) && after == before[sock := t] && asked' == asked
    else
      && after == before[sock := c]
      && r == (if c.low < 0 then Done(SOCKET_FAILURE) else Done(env.reply))
      && asked' == asked + CreateCall(t, sock, env.hasCreate)
          + (if c.low < 0 then [] else [On(SetOptionOp, sock, c.low)])
  }

  class Sockets {
    const table: array<Sock>
    /** One lock per socket, and the one of the table. */
    const locked: array<bool>
    var tableLocked: bool
    /** Head of the interface list. */
    var defaultNetif: int
    ghost var calls: seq<DriverCall>

    ghost predicate Valid()
      reads this, table, locked
    {
      table.Length == locked.Length && HandlesGiven(calls)
    }

    ghost predicate NoLocks()
      reads this, locked
    {
      !tableLocked && forall k :: 0 <= k < locked.Length ==> !locked[k]
    }

    constructor (n: nat, netif: int)
      ensures Valid() && NoLocks() && fresh(table) && fresh(locked)
      ensures table.Length == n && calls == [] && defaultNetif == netif
      ensures forall k :: 0 <= k < n ==> !IsValid(table[..], k)
    {
      table := new Sock[n](_ => Sock(NotAlive, 0, 0, 0, 0, 0, NULL, false, 0, 0));
      locked := new bool[n](_ => false);
      tableLocked, defaultNetif, calls := false, netif, [];
    }

    // ----- Locks and the driver

    /** Asking for a lock this thread already has would block it for good. */
    method Lock(k: nat)
      requires k < locked.Length && !locked[k]
      modifies locked
      ensures locked[..] == old(locked[..])[k := true]
    {
      locked[k] := true;
    }

    method Unlock(k: nat)
      requires k < locked.Length && locked[k]
      modifies locked
      ensures locked[..] == old(locked[..])[k := false]
    {
      locked[k] := false;
    }

    method LockTable()
      requires !tableLocked
      modifies `tableLocked
      ensures tableLocked
    {
      tableLocked := true;
    }

    method UnlockTable()
      requires tableLocked
      modifies `tableLocked
      ensures !tableLocked
    {
      tableLocked := false;
    }

    /** An operation of the socket's driver; it may block, so the socket must not be locked. */
    method Driver(op: Operation, sock: nat, reply: int) returns (ret: int)
      requires Valid() && sock < table.Length && !locked[sock] && table[sock].low >= 0
      modifies `calls
      ensures Valid() && calls == old(calls) + [On(op, sock, table[sock].low)] && ret == reply
    {
      calls := calls + [On(op, sock, table[sock].low)];
      ret := reply;
    }

    // ----- Helpers of the source

    /** create_low_level_socket, with or without the socket's lock. */
    method CreateLowLevel(sock: nat, lost: bool, hasCreate: bool, handle: int) returns (low: int, fault: bool)
      requires Valid() && sock < table.Length
      modifies table, `calls
      ensures Valid() && (fault <==> old(table[sock].low == -1 && table[sock].netif == NULL))
      ensures fault ==> calls == old(calls)
      ensures !fault ==> table[..] == old(table[..])[sock := Created(old(table[sock]), lost, hasCreate, handle)]
      ensures !fault ==> low == table[sock].low && calls == old(calls) + CreateCall(old(table[sock]), sock, hasCreate)
    {
      fault := false;
      if table[sock].low == -1 {
        var (granted, code) := AccessControl(table[sock].netif, lost, ToSocket, table[sock].low);
        table[sock] := table[sock].(low := code);
        if granted {
          if table[sock].protocol == 0 {
            if table[sock].kind == STREAM {
              table[sock] := table[sock].(protocol := TCP);
            }
            if table[sock].kind == DGRAM {
              table[sock] := table[sock].(protocol := UDP);
            }
          }
          if table[sock].netif == NULL {
            return table[sock].low, true;
          }
          if hasCreate {
            calls := calls + [Create(sock, table[sock].domain, table[sock].kind, table[sock].protocol)];
            table[sock] := table[sock].(low := handle);
          }
        }
      }
      low := table[sock].low;
    }

    /** check_low_level_socket */
    method CheckLowLevel(sock: int) returns (low: int)
      ensures low == if IsValid(table[..], sock) then table[sock].low else -1
    {
      low := -1;
      if 0 <= sock < table.Length && table[sock].status != NotAlive {
        low := table[sock].low;
      }
    }

    /** find_free_socket: the lowest free slot, reset and locked, or an error. */
    method FindFree() returns (ret: int)
      requires Valid() && !tableLocked
      requires forall k :: 0 <= k < table.Length && !IsValid(table[..], k) ==> !locked[k]
      modifies table, locked, `tableLocked
      ensures Valid() && !tableLocked
      ensures ret < 0 ==> ret == INVALID_SOCKET && table[..] == old(table[..]) && locked[..] == old(locked[..])
      ensures ret < 0 <==> forall k :: 0 <= k < table.Length ==> IsValid(old(table[..]), k)
      ensures ret >= 0 ==>
        && ret < table.Length && !IsValid(old(table[..]), ret)
        && (forall k :: 0 <= k < ret ==> IsValid(old(table[..]), k))
        && table[..] == old(table[..])[ret :=
             Sock(Allocated, ret, 0, 0, 0, -1, defaultNetif, old(table[ret].clone), WAIT, WAIT)]
        && locked[..] == old(locked[..])[ret := true]
    {
      ret := INVALID_SOCKET;
      LockTable();
      var i := 0;
      while i < table.Length
        invariant 0 <= i <= table.Length && tableLocked && ret == INVALID_SOCKET
        invariant table[..] == old(table[..]) && locked[..] == old(locked[..])
        invariant forall k :: 0 <= k < i ==> IsValid(table[..], k)
      {
        if table[i].status == NotAlive {
          table[i] := Sock(Allocated, i, 0, 0, 0, -1, defaultNetif, table[i].clone, WAIT, WAIT);
          assert !IsValid(old(table[..]), i);
          Lock(i);
          ret := i;
          break;
        }
        i := i + 1;
      }
      UnlockTable();
    }

    /** The locked part every operation shares: with access granted, the driver runs between unlock and lock. */
    method Operate(op: Operation, sock: nat, env: Env, code: int) returns (r: Result)
      requires Valid() && sock < table.Length && locked[sock] && table[sock].low >= 0
      modifies locked, `calls
      ensures Valid() && locked[..] == old(locked[..])
      ensures r == Outcome(table[sock], op, env, code) && calls == old(calls) + OpCall(table[sock], sock, op, env)
    {
      var (granted, left) := AccessControl(table[sock].netif, env.lost, AccessOf(op), code);
      r := Done(left);
      if granted {
        if table[sock].netif == NULL {
          return Fault;
        }
        Unlock(sock);
        var ret := Driver(op, sock, env.reply);
        Lock(sock);
        r := Done(ret);
      }
    }

    // ----- The calls

    /** net_socket */
    method Socket(domain: int, kind: int, protocol: int) returns (ret: int)
      requires Valid() && NoLocks()
      modifies table, locked, `tableLocked
      ensures Valid() && NoLocks()
      ensures ret < 0 <==> forall k :: 0 <= k < table.Length ==> IsValid(old(table[..]), k)
      ensures ret < 0 ==> ret == INVALID_SOCKET && table[..] == old(table[..])
      ensures ret >= 0 ==>
        && ret < table.Length && !IsValid(old(table[..]), ret)
        && (forall k :: 0 <= k < ret ==> IsValid(old(table[..]), k))
        && table[..] == old(table[..])[ret :=
             Sock(Allocated, ret, domain, kind, protocol, -1, defaultNetif, old(table[ret].clone), WAIT, WAIT)]
    {
      ret := FindFree();
      if ret >= 0 {
        table[ret] := table[ret].(domain := domain);
        table[ret] := table[ret].(kind := kind);
        table[ret] := table[ret].(protocol := protocol);
        Unlock(ret);
      }
    }

    /** net_bind */
    method Bind(sock: int, env: Env) returns (r: Result)
      requires Valid() && NoLocks()
      modifies table, locked, `calls
      ensures Valid() && (r.Done? ==> NoLocks())
      ensures !IsValid(old(table[..]), sock) ==>
        r == Done(INVALID_SOCKET) && table[..] == old(table[..]) && calls == old(calls)
      ensures IsValid(old(table[..]), sock) ==>
        var s := WithDefault(old(table[sock]), defaultNetif);
        var c := Created(s, env.lost, env.hasCreate, env.handle);
        if s.low == -1 && s.netif == NULL then r == Fault && calls == old(calls)
        else
          && table[..] == old(table[..])[sock := c]
          && r == (if c.low < 0 then Done(SOCKET_FAILURE) else Outcome(c, BindOp, env, FRAMEWORK))
          && calls == old(calls) + CreateCall(s, sock, env.hasCreate)
              + (if c.low < 0 then [] else OpCall(c, sock, BindOp, env))
    {
      if !(0 <= sock < table.Length && table[sock].status != NotAlive) {
        return Done(INVALID_SOCKET);
      }
      Lock(sock);
      if table[sock].netif == NULL {
        table[sock] := table[sock].(netif := defaultNetif);
      }
      var low, fault := CreateLowLevel(sock, env.lost, env.hasCreate, env.handle);
      if fault {
        return Fault;
      }
      if low < 0 {
        r := Done(SOCKET_FAILURE);
      } else {
        r := Operate(BindOp, sock, env, FRAMEWORK);
      }
      Unlock(sock);
    }

    /** net_listen, net_send, net_recv, net_getpeername and net_getsockname: the low-level socket must exist;
        `missing` says that the buffer or name is NULL. */
    method OnExisting(op: Operation, sock: int, missing: bool, env: Env) returns (r: Result)
      requires Valid() && NoLocks() && (op.ListenOp? || op.SendOp? || op.RecvOp? || op.PeerNameOp? || op.SockNameOp?)
      requires op.ListenOp? ==> !missing
      modifies locked, `calls
      ensures Valid() && (r.Done? ==> NoLocks())
      ensures !IsValid(table[..], sock) || missing ==> r == Done(INVALID_SOCKET) && calls == old(calls)
      ensures IsValid(table[..], sock) && !missing ==>
        if table[sock].low < 0 then r == Done(SOCKET_FAILURE) && calls == old(calls)
        else r == Outcome(table[sock], op, env, FRAMEWORK) && calls == old(calls) + OpCall(table[sock], sock, op, env)
    {
      if !(0 <= sock < table.Length && table[sock].status != NotAlive) || missing {
        return Done(INVALID_SOCKET);
      }
      var low := CheckLowLevel(sock);
      if low < 0 {
        return Done(SOCKET_FAILURE);
      }
      Lock(sock);
      r := Operate(op, sock, env, FRAMEWORK);
      if r.Done? {
        Unlock(sock);
      }
    }

    /** net_sendto and net_recvfrom: the low-level socket is created when needed, before the lock is taken. */
    method OnCreated(op: Operation, sock: int, missing: bool, env: Env) returns (r: Result)
      requires Valid() && NoLocks() && (op.SendToOp? || op.RecvFromOp?)
      modifies table, locked, `calls
      ensures Valid() && (r.Done? ==> NoLocks())
      ensures !IsValid(old(table[..]), sock) || missing ==>
        r == Done(INVALID_SOCKET) && table[..] == old(table[..]) && calls == old(calls)
      ensures IsValid(old(table[..]), sock) && !missing ==>
        var s := old(table[sock]);
        var c := Created(s, env.lost, env.hasCreate, env.handle);
        if s.low == -1 && s.netif == NULL then r == Fault && calls == old(calls)
        else
          && table[..] == old(table[..])[sock := c]
          && r == (if c.low < 0 then Done(SOCKET_FAILURE) else Outcome(c, op, env, FRAMEWORK))
          && calls == old(calls) + CreateCall(s, sock, env.hasCreate)
              + (if c.low < 0 then [] else OpCall(c, sock, op, env))
    {
      if !(0 <= sock < table.Length && table[sock].status != NotAlive) || missing {
        return Done(INVALID_SOCKET);
      }
      var low, fault := CreateLowLevel(sock, env.lost, env.hasCreate, env.handle);
      if fault {
        return Fault;
      }
      if low < 0 {
        return Done(SOCKET_FAILURE);
      }
      Lock(sock);
      r := Operate(op, sock, env, FRAMEWORK);
      if r.Done? {
        Unlock(sock);
      }
    }

    /** net_connect; a low-level socket that only the second try creates is left unconnected. */
    method Connect(sock: int, env: Env) returns (r: Result)
      requires Valid() && NoLocks()
      modifies table, locked, `calls
      ensures Valid() && r.Done? && NoLocks()
      ensures !IsValid(old(table[..]), sock) ==>
        r == Done(INVALID_SOCKET) && table[..] == old(table[..]) && calls == old(calls)
      ensures IsValid(old(table[..]), sock) ==>
        Connects(old(table[..]), old(calls), table[..], calls, sock, defaultNetif, env, r)
    {
      if !(0 <= sock < table.Length && table[sock].status != NotAlive) {
        return Done(INVALID_SOCKET);
      }
      Lock(sock);
      r := ConnectLocked(sock, env);
      Unlock(sock);
    }

    method ConnectLocked(sock: nat, env: Env) returns (r: Result)
      requires Valid() && sock < table.Length && locked[sock]
      modifies table, locked, `calls
      ensures Valid() && r.Done? && locked[..] == old(locked[..])
      ensures Connects(old(table[..]), old(calls), table[..], calls, sock, defaultNetif, env, r)
    {
      hide HandlesGiven;
      r := Done(FRAMEWORK);
      if table[sock].netif == NULL {
        table[sock] := table[sock].(netif := defaultNetif);
      }
      if table[sock].netif == NULL {
        return Done(INTERFACE_FAILURE);
      }
      var low, fault := CreateLowLevel(sock, env.lost, env.hasCreate, env.handle);
      if low < 0 {
        low, fault := CreateLowLevel(sock, env.lost, env.hasCreate, env.handle2);
        if low < 0 {
          r := Done(SOCKET_FAILURE);
        }
      } else {
        r := Operate(ConnectOp, sock, env, FRAMEWORK);
        if r == Done(OK) {
          table[sock] := table[sock].(status := Connected);
        }
      }
    }

    /** net_accept: the new socket is a copy of the listening one, down to its index. */
    method Accept(sock: int, env: Env) returns (r: Result)
      requires Valid() && NoLocks()
      modifies table, locked, `tableLocked, `calls
      ensures Valid() && r.Done? && NoLocks()
      ensures !IsValid(old(table[..]), sock) ==>
        r == Done(INVALID_SOCKET) && table[..] == old(table[..]) && calls == old(calls)
      ensures IsValid(old(table[..]), sock) && old(table[sock].low) < 0 ==>
        r == Done(SOCKET_FAILURE) && table[..] == old(table[..]) && calls == old(calls)
      ensures IsValid(old(table[..]), sock) && old(table[sock].low) >= 0 ==>
        var s := old(table[sock]);
        var got := Outcome(s, AcceptOp, env, -1);
        var listening := s.(status := Connected);
        && calls == old(calls) + OpCall(s, sock, AcceptOp, env) && got.Done?
        && if got.code < 0 then r == got && table[..] == old(table[..])
           else if forall k :: 0 <= k < table.Length ==> IsValid(old(table[..]), k) then
             r == Done(INVALID_SOCKET) && table[..] == old(table[..])[sock := listening]
           else
             && 0 <= r.code < table.Length && !IsValid(old(table[..]), r.code)
             && (forall k :: 0 <= k < r.code ==> IsValid(old(table[..]), k))
             && table[..] ==
                old(table[..])[sock := listening][r.code := listening.(low := got.code, clone := true)]
    {
      if !(0 <= sock < table.Length && table[sock].status != NotAlive) {
        return Done(INVALID_SOCKET);
      }
      var low := CheckLowLevel(sock);
      if low < 0 {
        return Done(SOCKET_FAILURE);
      }
      Lock(sock);
      r := Operate(AcceptOp, sock, env, -1);
      if r.code >= 0 {
        var newsock := Clone(sock, r.code);
        r := Done(newsock);
      }
      Unlock(sock);
    }

    /** clone_socket, and what net_accept then puts into the copy. */
    method Clone(sock: nat, low: int) returns (newsock: int)
      requires Valid() && IsValid(table[..], sock) && !tableLocked
          && forall k :: 0 <= k < locked.Length ==> (locked[k] <==> k == sock)
      modifies table, locked, `tableLocked
      ensures Valid() && !tableLocked && locked[..] == old(locked[..])
      ensures var listening := old(table[sock]).(status := Connected);
        if forall k :: 0 <= k < table.Length ==> IsValid(old(table[..]), k) then
          newsock == INVALID_SOCKET && table[..] == old(table[..])[sock := listening]
        else
          && 0 <= newsock < table.Length && !IsValid(old(table[..]), newsock)
          && (forall k :: 0 <= k < newsock ==> IsValid(old(table[..]), k))
          && table[..] == old(table[..])[sock := listening][newsock := listening.(low := low, clone := true)]
    {
      table[sock] := table[sock].(status := Connected);
      assert forall k :: 0 <= k < table.Length ==> (IsValid(table[..], k) <==> IsValid(old(table[..]), k));
      newsock := FindFree();
      if newsock >= 0 {
        table[newsock] := table[sock];
        table[newsock] := table[newsock].(low := low);
        table[newsock] := table[newsock].(clone := true);
        Unlock(newsock);
      }
    }

    /** net_shutdown: without a low-level socket the slot is given up. */
    method Shutdown(sock: int, env: Env) returns (r: Result)
      requires Valid() && NoLocks()
      modifies table, locked, `calls
      ensures Valid() && (r.Done? ==> NoLocks())
      ensures !IsValid(old(table[..]), sock) ==>
        r == Done(INVALID_SOCKET) && table[..] == old(table[..]) && calls == old(calls)
      ensures IsValid(old(table[..]), sock) ==>
        var s := old(table[sock]);
        if s.low < 0 then
          r == Done(OK) && table[..] == old(table[..])[sock := s.(status := NotAlive)] && calls == old(calls)
        else
          && r == Outcome(s, ShutdownOp, env, FRAMEWORK) && table[..] == old(table[..])
          && calls == old(calls) + OpCall(s, sock, ShutdownOp, env)
    {
      if !(0 <= sock < table.Length && table[sock].status != NotAlive) {
        return Done(INVALID_SOCKET);
      }
      Lock(sock);
      var low := CheckLowLevel(sock);
      if low < 0 {
        table[sock] := table[sock].(status := NotAlive);
        r := Done(OK);
      } else {
        r := Operate(ShutdownOp, sock, env, FRAMEWORK);
      }
      if r.Done? {
        Unlock(sock);
      }
    }

    /** net_closesocket: the slot is free afterwards, whatever the driver answers. */
    method CloseSocket(sock: int, env: Env) returns (r: Result)
      requires Valid() && NoLocks()
      modifies table, locked, `calls
      ensures Valid() && (r.Done? ==> NoLocks())
      ensures r.Done? ==> !IsValid(table[..], sock)
      ensures !IsValid(old(table[..]), sock) ==>
        r == Done(INVALID_SOCKET) && table[..] == old(table[..]) && calls == old(calls)
      ensures IsValid(old(table[..]), sock) ==>
        var s := old(table[sock]);
        if s.low < 0 then
          r == Done(OK) && table[..] == old(table[..])[sock := s.(status := NotAlive)] && calls == old(calls)
        else
          && r == Outcome(s, CloseOp, env, FRAMEWORK) && calls == old(calls) + OpCall(s, sock, CloseOp, env)
          && (r.Done? ==> table[..] == old(table[..])[sock := s.(low := -1, status := NotAlive)])
    {
      if !(0 <= sock < table.Length && table[sock].status != NotAlive) {
        return Done(INVALID_SOCKET);
      }
      Lock(sock);
      var low := CheckLowLevel(sock);
      if low < 0 {
        table[sock] := table[sock].(status := NotAlive);
        r := Done(OK);
      } else {
        r := Operate(CloseOp, sock, env, FRAMEWORK);
        if r == Fault {
          return;
        }
        table[sock] := table[sock].(low := -1);
        table[sock] := table[sock].(status := NotAlive);
      }
      Unlock(sock);
    }

    /** net_setsockopt */
    method SetSockOpt(sock: int, option: Option, env: Env) returns (r: Result)
      requires Valid() && NoLocks()
      modifies table, locked, `calls
      ensures Valid() && r.Done? && NoLocks()
      ensures !IsValid(old(table[..]), sock) ==>
        r == Done(INVALID_SOCKET) && table[..] == old(table[..]) && calls == old(calls)
      ensures IsValid(old(table[..]), sock) ==>
        SetsOption(old(table[..]), old(calls), table[..], calls, sock, defaultNetif, option, env, r)
    {
      if !(0 <= sock < table.Length && table[sock].status != NotAlive) {
        return Done(INVALID_SOCKET);
      }
      Lock(sock);
      r := SetLocked(sock, option, env);
      Unlock(sock);
    }

    method SetLocked(sock: nat, option: Option, env: Env) returns (r: Result)
      requires Valid() && sock < table.Length && locked[sock]
      modifies table, locked, `calls
      ensures Valid() && r.Done? && locked[..] == old(locked[..])
      ensures SetsOption(old(table[..]), old(calls), table[..], calls, sock, defaultNetif, option, env, r)
    {
      r := Done(FRAMEWORK);
      var forward := false;
      match option {
        case BindToDevice(sized, netif) =>
          if !sized {
            r := Done(PARAMETER);
          } else {
            table[sock] := table[sock].(netif := netif);
            forward := table[sock].netif != NULL;
          }
        case ReadTimeout(sized, value) =>
          if !sized {
            r := Done(PARAMETER);
          } else {
            table[sock] := table[sock].(readTimeout := value);
            forward := true;
          }
        case WriteTimeout(sized, value) =>
          if !sized {
            r := Done(PARAMETER);
          } else {
            table[sock] := table[sock].(writeTimeout := value);
            forward := true;
          }
        case Other =>
          forward := true;
      }
      if forward {
        r := Forward(sock, env);
      }
    }

    method Forward(sock: nat, env: Env) returns (r: Result)
      requires Valid() && sock < table.Length && locked[sock]
      modifies table, locked, `calls
      ensures Valid() && r.Done? && locked[..] == old(locked[..])
      ensures SetsOption(old(table[..]), old(calls), table[..], calls, sock, defaultNetif, Other, env, r)
    {
      if table[sock].netif == NULL {
        table[sock] := table[sock].(netif := defaultNetif);
      }
      if table[sock].netif == NULL {
        return Done(INTERFACE_FAILURE);
      }
      var low, fault := CreateLowLevel(sock, env.lost, env.hasCreate, env.handle);
      if low < 0 {
        r := Done(SOCKET_FAILURE);
      } else {
        r := Operate(SetOptionOp, sock, env, FRAMEWORK);
      }
    }
  }

  // ----- What access control makes of a lost connection

  ghost predicate NotConnected(asked: seq<DriverCall>, before: nat) {
    forall i :: before <= i < |asked| && asked[i].On? ==> asked[i].op != ConnectOp
  }

  /** net_connect on a valid socket with an interface answers success without asking the driver to connect exactly
      when the connection is lost and the low-level socket came into being at the first try; the socket then counts
      as connected. */
  lemma ConnectedWithoutAsking(before: seq<Sock>, asked: seq<DriverCall>, after: seq<Sock>, asked': seq<DriverCall>,
      sock: nat, netif: int, env: Env, r: Result)
    requires IsValid(before, sock) && WithDefault(before[sock], netif).netif != NULL
    requires Connects(before, asked, after, asked', sock, netif, env, r)
    ensures var c := Created(WithDefault(before[sock], netif), env.lost, env.hasCreate, env.handle);
      && (r == Done(OK) && NotConnected(asked', |asked|) <==> env.lost && c.low >= 0)
      && (env.lost && c.low >= 0 ==> after == before[sock := c.(status := Connected)])
  {
    hide Created, WithDefault, CreateCall;
    var s := WithDefault(before[sock], netif);
    var c := Created(s, env.lost, env.hasCreate, env.handle);
    CreatesOnly(s, sock, env.hasCreate);
    CreatesOnly(c, sock, env.hasCreate);
    if c.low >= 0 && !env.lost {
      KeepsInterface(before[sock], netif, env);
      assert asked'[|asked'| - 1] == On(ConnectOp, sock, c.low);
    }
    KeepsInterface(before[sock], netif, env);
  }

  lemma KeepsInterface(s: Sock, netif: int, env: Env)
    ensures Created(WithDefault(s, netif), env.lost, env.hasCreate, env.handle).netif == WithDefault(s, netif).netif
  {
  }

  lemma CreatesOnly(s: Sock, sock: nat, hasCreate: bool)
    ensures forall i :: 0 <= i < |CreateCall(s, sock, hasCreate)| ==> CreateCall(s, sock, hasCreate)[i].Create?
  {
  }
}
