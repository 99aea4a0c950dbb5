/** The DHCP server of services/net_sdhcp.c: what one packet does, and the class that does it. */
module DhcpServer {
  import opened Options
  import opened Words
  import opened DhcpOptions
  import opened DhcpMessage
  import opened DhcpLeases

  /** `live` is the set of heap blocks allocated for client ids and not freed. */
  datatype State = State(leases: seq<Lease>, lastOffer: U32, live: set<nat>, nextBlock: nat)

  /** What the packet's processing meets outside the server: the heap and the socket. */
  datatype Env = Env(mallocOk: bool, sendOk: bool)

  /** Stuck: an assertion of the server failed, and it loops for ever. */
  datatype Outcome = Silent | Sent(reply: Reply, dest: U32) | Stuck

  /** What the message type decides: nothing to send, a reply, or a failed assertion. */
  datatype Decision = Nothing | Answer(kind: U8, addr: U32) | Fail

  function SetBroadcast(b: U8): U8 {
    if b < 0x80 then b + 0x80 else b
  }

  function MakeReply(req: Request, kind: U8, addr: U32): Reply
    requires RequestShape(req)
  {
    Reply(kind, req.htype, req.hlen, req.xid,
          if req.giaddr != 0 then [SetBroadcast(req.flags[0]), req.flags[1]] else req.flags,
          if kind == ACK then addr else 0,
          if kind == NAK then 0 else addr,
          req.giaddr, req.chaddr)
  }

  /** Section 4.1 of RFC 2131, except that the client's own address is read from the request. */
  function Destination(req: Request, kind: U8): U32
    requires RequestShape(req)
  {
    if req.giaddr != 0 then req.giaddr
    else if kind == NAK then BROADCAST
    else if req.ciaddr != 0 then req.ciaddr
    else if req.flags[0] >= 0x80 || req.yiaddr == 0 then BROADCAST
    else req.yiaddr
  }

  function Deliver(req: Request, d: Decision, env: Env): Outcome
    requires RequestShape(req)
  {
    match d
    case Nothing => Silent
    case Fail => Stuck
    case Answer(kind, addr) =>
      var dest := Destination(req, kind);
      if dest == LOOPBACK || dest == 0 || !env.sendOk then Stuck
      else Sent(MakeReply(req, kind, addr), dest)
  }

  function Discover(cfg: Config, st: State, req: Request, env: Env): (State, Decision) {
    var i := IndexOfClient(st.leases, req.client);
    if i >= 0 then
      var a := st.leases[i].addr;
      if env.mallocOk
      then (st.(lastOffer := a, nextBlock := st.nextBlock + 1), Answer(OFFER, Swap32(a)))
      else (st.(lastOffer := a), Nothing)
    else
      PoolSize(cfg);
      match FirstFree(st.leases, MinAddr(cfg), MaxAddr(cfg))
      case None => (st.(lastOffer := MaxAddr(cfg)), Nothing)
      case Some(a) =>
        if req.client == [] then (st.(lastOffer := a), Fail)
        else if !env.mallocOk then (st.(lastOffer := a), Nothing)
        else if |st.leases| <= MAX_ADDRESS_INFO then
          (State(st.leases + [Lease(a, req.client, st.nextBlock)], a, st.live + {st.nextBlock}, st.nextBlock + 1),
           Answer(OFFER, Swap32(a)))
        else (st.(lastOffer := a, nextBlock := st.nextBlock + 1), Nothing)
  }

  function Confirm(st: State, req: Request): Decision {
    var i := IndexOfClient(st.leases, req.client);
    var offered := if i >= 0 then Swap32(st.leases[i].addr) else BROADCAST;
    var ack := if offered == BROADCAST then Fail else Answer(ACK, offered);
    if req.forThisServer then
      if req.ciaddr != 0 then Fail
      else if i >= 0 then ack
      else Answer(NAK, 0)
    else if req.requestedIp != BROADCAST || req.ciaddr != 0 then
      if i >= 0 && (offered == req.requestedIp || offered == req.ciaddr) then ack
      else Answer(NAK, 0)
    else Nothing
  }

  function Decide(cfg: Config, st: State, req: Request, env: Env): (State, Decision) {
    if req.kind == DISCOVER then Discover(cfg, st, req, env)
    else if req.kind == REQUEST then (st, Confirm(st, req))
    else (st, Nothing)
  }

  function Step(cfg: Config, st: State, req: Request, env: Env): (State, Outcome)
    requires RequestShape(req)
  {
    var (st', d) := Decide(cfg, st, req, env);
    (st', Deliver(req, d, env))
  }

  /** A dropped packet changes nothing and is not answered. */
  function Handle(cfg: Config, st: State, req: Option<Request>, env: Env): (State, Outcome)
    requires req.Some? ==> RequestShape(req.value)
  {
    if req.None? then (st, Silent) else Step(cfg, st, req.value, env)
  }

  function Process(cfg: Config, st: State, mem: seq<U8>, len: nat, env: Env): (State, Outcome)
    requires Received(mem, len)
  {
    Handle(cfg, st, Decode(cfg, mem, len), env)
  }

  // ----- Filling the reply buffer in place

  method Store(buf: array<U8>, at: nat, data: seq<U8>)
    requires at + |data| <= buf.Length
    modifies buf
    ensures BytesAt(buf[..], at, data)
    ensures forall j :: 0 <= j < buf.Length && (j < at || at + |data| <= j) ==> buf[j] == old(buf[j])
  {
    var i := 0;
    while i < |data|
      invariant 0 <= i <= |data|
      invariant forall k :: 0 <= k < i ==> buf[at + k] == data[k]
      invariant forall j :: 0 <= j < buf.Length && (j < at || at + i <= j) ==> buf[j] == old(buf[j])
    {
      buf[at + i] := data[i];
      i := i + 1;
    }
  }

  /** The bytes of `a` outside [at, end) are those of `b`. */
  ghost predicate SameOutside(a: seq<U8>, b: seq<U8>, at: nat, end: nat) {
    |a| == |b| && forall j :: 0 <= j < |a| && (j < at || end <= j) ==> a[j] == b[j]
  }

  method StoreIds(r: Reply, buf: array<U8>)
    requires ReplyShape(r) && buf.Length == REPLY_SIZE && ZeroFrom(buf[..], 0, REPLY_SIZE)
    modifies buf
    ensures BytesAt(buf[..], 0, [BOOT_REPLY, r.htype, r.hlen, 0]) && BytesAt(buf[..], 4, r.xid)
    ensures BytesAt(buf[..], 10, r.flags)
    ensures ZeroFrom(buf[..], 8, 10) && ZeroFrom(buf[..], 12, REPLY_SIZE)
  {
    buf[0] := BOOT_REPLY;
    buf[1] := r.htype;
    buf[2] := r.hlen;
    Store(buf, 4, r.xid);
    Store(buf, 10, r.flags);
  }

  method StoreAddresses(r: Reply, buf: array<U8>)
    requires ReplyShape(r) && buf.Length == REPLY_SIZE && ZeroFrom(buf[..], 12, REPLY_SIZE)
    modifies buf
    ensures SameOutside(buf[..], old(buf[..]), 12, HEADER_SIZE)
    ensures BytesAt(buf[..], 12, BytesOf(r.ciaddr)) && BytesAt(buf[..], 16, BytesOf(r.yiaddr))
    ensures ZeroFrom(buf[..], 20, 24)
    ensures BytesAt(buf[..], 24, BytesOf(r.giaddr)) && BytesAt(buf[..], 28, r.chaddr)
    ensures BytesAt(buf[..], 44, SERVER_NAME) && ZeroFrom(buf[..], 44 + |SERVER_NAME|, HEADER_SIZE)
  {
    Store(buf, 24, BytesOf(r.giaddr));
    Store(buf, 28, r.chaddr);
    Store(buf, 44, SERVER_NAME);
    Store(buf, 16, BytesOf(r.yiaddr));
    Store(buf, 12, BytesOf(r.ciaddr));
  }

  method StoreOptions(cfg: Config, kind: U8, buf: array<U8>)
    requires buf.Length == REPLY_SIZE
    modifies buf
    ensures SameOutside(buf[..], old(buf[..]), HEADER_SIZE, REPLY_SIZE)
    ensures OptionsLaid(cfg, kind, buf[..])
  {
    Store(buf, HEADER_SIZE, COOKIE);
    Store(buf, 240, [MESSAGE_TYPE, 1, kind]);
    Store(buf, 243, WordOption(LEASE_TIME, Swap32(LEASE_SECONDS)));
    Store(buf, 249, WordOption(SUBNET_MASK, cfg.mask));
    if !Granted(kind) {
      Store(buf, 243, seq(12, _ => PAD));
      assert ZeroFrom(buf[..], 243, 255) by {
        forall i | 243 <= i < 255 ensures buf[..][i] == 0 {
          assert seq(12, _ => PAD)[i - 243] == PAD;
        }
      }
    }
    Store(buf, 255, WordOption(SERVER_ID, cfg.host));
    Store(buf, 261, WordOption(ROUTER, cfg.host));
    Store(buf, 267, [END]);
  }

  method BuildReply(cfg: Config, r: Reply) returns (buf: array<U8>)
    requires ReplyShape(r)
    ensures fresh(buf) && ReplyLaid(cfg, r, buf[..])
  {
    buf := new U8[REPLY_SIZE](_ => 0);
    StoreIds(r, buf);
    StoreAddresses(r, buf);
    StoreOptions(cfg, r.kind, buf);
  }

  // ----- The server object

  /** The bytes of `addr` not yet moved after `k` rounds, and those already moved. */
  function Unmoved(addr: U32, k: nat): nat
    requires k <= 4
  {
    match k
    case 0 => addr
    case 1 => addr / 0x100
    case 2 => addr / 0x1_0000
    case 3 => addr / 0x100_0000
    case _ => 0
  }

  function Moved(addr: U32, k: nat): nat
    requires k <= 4
  {
    match k
    case 0 => 0
    case 1 => ByteAt(addr, 0)
    case 2 => ByteAt(addr, 0) * 0x100 + ByteAt(addr, 1)
    case 3 => ByteAt(addr, 0) * 0x1_0000 + ByteAt(addr, 1) * 0x100 + ByteAt(addr, 2)
    case _ => Swap32(addr)
  }

  lemma SwapRound(addr: U32, k: nat)
    requires k < 4
    ensures Unmoved(addr, k) % 0x100 == ByteAt(addr, k)
    ensures Unmoved(addr, k) / 0x100 == Unmoved(addr, k + 1)
    ensures Moved(addr, k) * 0x100 + ByteAt(addr, k) == Moved(addr, k + 1)
    ensures Moved(addr, k) < 0x100_0000
  {
    if k == 0 {
    } else if k == 1 {
      assert addr / 0x100 / 0x100 == addr / 0x1_0000;
    } else if k == 2 {
      assert addr / 0x1_0000 / 0x100 == addr / 0x100_0000;
    }
  }

  lemma MovedEnds(addr: U32)
    ensures Unmoved(addr, 0) == addr && Moved(addr, 0) == 0 && Moved(addr, 4) == Swap32(addr)
  {
  }

  /** Byte reversal as the source does it, one byte per round. */
  method SwapIp(addr: U32) returns (swapped: U32)
    ensures swapped == Swap32(addr)
  {
    hide Unmoved, Moved, ByteAt;
    MovedEnds(addr);
    var dw: nat := addr;
    swapped := 0;
    for k := 0 to 4
      invariant dw == Unmoved(addr, k) && swapped == Moved(addr, k)
    {
      SwapRound(addr, k);
      swapped := Wrap32(swapped * 0x100) + dw % 0x100;
      dw := dw / 0x100;
    }
  }

  class Server {
    const cfg: Config
    const table: array<Lease>
    var count: nat
    var lastOffer: U32
    var nextBlock: nat
    ghost var live: set<nat>

    ghost predicate Valid()
      reads this
    {
      && table.Length == TABLE_SLOTS && count <= TABLE_SLOTS
      && forall b :: b in live ==> b < nextBlock
    }

    ghost function Contents(): State
      requires Valid()
      reads this, table
    {
      State(table[..count], lastOffer, live, nextBlock)
    }

    constructor (cfg: Config)
      ensures Valid() && fresh(table) && this.cfg == cfg
      ensures Contents() == State([], 0, {}, 0)
    {
      this.cfg := cfg;
      table := new Lease[TABLE_SLOTS];
      count, lastOffer, nextBlock := 0, 0, 0;
      live := {};
    }

    /** The first occupied slot that passes the filter, or -1. */
    method FindIndex(filter: Lease -> bool) returns (i: int)
      requires Valid()
      ensures -1 <= i < count
      ensures i >= 0 ==> filter(table[i])
      ensures forall k :: 0 <= k < (if i == -1 then count else i) ==> !filter(table[k])
    {
      i := -1;
      var k := 0;
      while k < count
        invariant 0 <= k <= count
        invariant forall n :: 0 <= n < k ==> !filter(table[n])
      {
        if filter(table[k]) {
          return k;
        }
        k := k + 1;
      }
    }

    method FindClient(id: seq<U8>) returns (i: int)
      requires Valid()
      ensures i == IndexOfClient(table[..count], id)
    {
      i := FindIndex(lease => SameClient(lease, id));
      ghost var j := IndexOfClient(table[..count], id);
      if i >= 0 { assert SameClient(table[..count][i], id); }
      if j >= 0 { assert SameClient(table[j], id); }
    }

    /** Refuses only when more than MAX_ADDRESS_INFO leases are held. */
    method AddInfo(info: Lease) returns (added: bool)
      requires Valid()
      modifies this`count, table
      ensures Valid()
      ensures added == (old(count) <= MAX_ADDRESS_INFO)
      ensures table[..count] == old(table[..count]) + (if added then [info] else [])
    {
      added := count <= MAX_ADDRESS_INFO;
      if added {
        table[count] := info;
        count := count + 1;
      }
    }

    /** A heap block for a client id. */
    method Alloc() returns (block: nat)
      requires Valid()
      modifies this`live, this`nextBlock
      ensures Valid() && block == old(nextBlock) && block !in old(live)
      ensures live == old(live) + {block} && nextBlock == block + 1
    {
      block := nextBlock;
      nextBlock := nextBlock + 1;
      live := live + {block};
    }

    /** Only a live block may be freed, so no block is freed twice. */
    method Free(block: nat)
      requires Valid() && block in live
      modifies this`live
      ensures Valid() && live == old(live) - {block}
    {
      live := live - {block};
    }

    /** The wrap-around search: starts past the last pool address, wraps to the first, stops when it is
        back where it started. */
    method SearchAddress(min: U32, max: U32) returns (valid: bool, addr: U32)
      requires Valid() && min <= max && max + 1 < TWO32
      ensures FirstFree(table[..count], min, max) == if valid then Some(addr) else None
    {
      var initial: U32 := max + 1;
      addr := initial;
      valid := false;
      var offeredInitial := false;
      ghost var leases := table[..count];
      while !valid && !(offeredInitial && initial == addr)
        invariant if offeredInitial then min <= addr <= max + 1 else addr == initial
        invariant valid ==> offeredInitial && FirstFree(leases, min, max) == Some(addr)
        invariant !valid && offeredInitial ==> FirstFree(leases, min, max) == FirstFree(leases, addr, max)
        invariant leases == table[..count]
        decreases !offeredInitial, max + 1 - addr, !valid
      {
        if max < addr {
          assert max + 1 == addr;
          addr := min;
        }
        var x := addr;
        var i := FindIndex((lease: Lease) => lease.addr == x);
        if i >= 0 { assert leases[i].addr == x; }
        valid := i == -1;
        offeredInitial := true;
        if !valid {
          addr := addr + 1;
        }
      }
    }

    /** Keeps a copy of the client id: in a new lease, or for as long as the offer is prepared. */
    method Offer(known: bool, addr: U32, client: seq<U8>) returns (d: Decision)
      requires Valid()
      modifies this`count, this`nextBlock, this`live, table
      ensures Valid() && nextBlock == old(nextBlock) + 1
      ensures known || old(count) > MAX_ADDRESS_INFO ==>
        live == old(live) && table[..count] == old(table[..count])
      ensures !known && old(count) <= MAX_ADDRESS_INFO ==>
        && live == old(live) + {old(nextBlock)}
        && table[..count] == old(table[..count]) + [Lease(addr, client, old(nextBlock))]
      ensures d == if known || old(count) <= MAX_ADDRESS_INFO then Answer(OFFER, Swap32(addr)) else Nothing
    {
      d := Nothing;
      var block := Alloc();
      var added := known;
      if !known {
        added := AddInfo(Lease(addr, client, block));
      }
      if added {
        var offered := SwapIp(addr);
        d := Answer(OFFER, offered);
      } else {
        Free(block);
      }
      if known {
        Free(block);
      }
    }

    method HandleDiscover(req: Request, env: Env) returns (d: Decision)
      requires Valid() && RequestShape(req)
      modifies this`count, this`lastOffer, this`nextBlock, this`live, table
      ensures Valid()
      ensures (Contents(), d) == Discover(cfg, old(Contents()), req, env)
    {
      hide PoolBound, MinAddr, MaxAddr, Swap32, FirstFree, AddressUsed, IndexOfClient, SameClient;
      PoolSize(cfg);
      var i := FindClient(req.client);
      var min, max := MinAddr(cfg), MaxAddr(cfg);
      lastOffer := max;
      var found, addr;
      if i >= 0 {
        found, addr := true, table[i].addr;
      } else {
        found, addr := SearchAddress(min, max);
      }
      if !found {
        return Nothing;
      }
      lastOffer := addr;
      if i < 0 && req.client == [] {
        return Fail;
      }
      if !env.mallocOk {
        return Nothing;
      }
      d := Offer(i >= 0, addr, req.client);
    }

    method HandleRequest(req: Request) returns (d: Decision)
      requires Valid() && RequestShape(req)
      ensures d == Confirm(Contents(), req)
    {
      var i := FindClient(req.client);
      var offered := BROADCAST;
      if i >= 0 {
        offered := SwapIp(table[i].addr);
      }
      var kind := 0;
      if req.forThisServer {
        if req.ciaddr != 0 {
          return Fail;
        }
        kind := if i >= 0 then ACK else NAK;
      } else if req.requestedIp != BROADCAST || req.ciaddr != 0 {
        kind := if i >= 0 && (offered == req.requestedIp || offered == req.ciaddr) then ACK else NAK;
      }
      if kind == ACK {
        d := if offered == BROADCAST then Fail else Answer(ACK, offered);
      } else if kind == NAK {
        d := Answer(NAK, 0);
      } else {
        d := Nothing;
      }
    }

    /** One received packet. When a reply goes out, `buf` holds its bytes. */
    method ProcessRequest(mem: seq<U8>, len: nat, env: Env) returns (out: Outcome, buf: array<U8>)
      requires Valid() && Received(mem, len)
      modifies this`count, this`lastOffer, this`nextBlock, this`live, table
      ensures Valid()
      ensures (Contents(), out) == Process(cfg, old(Contents()), mem, len, env)
      ensures out.Sent? ==> fresh(buf) && ReplyLaid(cfg, out.reply, buf[..])
    {
      buf := new U8[0];
      var decoded := DecodeRequest(cfg, mem, len);
      if decoded.None? {
        return Silent, buf;
      }
      var req := decoded.value;
      var d := Nothing;
      if req.kind == DISCOVER {
        d := HandleDiscover(req, env);
      } else if req.kind == REQUEST {
        d := HandleRequest(req);
      }
      out := Deliver(req, d, env);
      if out.Sent? {
        buf := BuildReply(cfg, out.reply);
      }
    }
  }

  method FindData(opts: seq<U8>, len: nat, code: U8) returns (data: Option<seq<U8>>)
    requires len + 255 <= |opts| && IsCode(code)
    ensures data == OptionData(opts, len, code)
  {
    var found, at, n := FindOption(opts, len, code);
    data := if found then Some(opts[at..at + n]) else None;
  }

  /** The checks and option look-ups that come before the lease table is consulted. */
  method DecodeRequest(cfg: Config, mem: seq<U8>, len: nat) returns (r: Option<Request>)
    requires Received(mem, len)
    ensures r == Decode(cfg, mem, len)
  {
    hide OptionData, Word, WordAt;
    if !(OPTIONS_AT <= len && mem[0] == BOOT_REQUEST && mem[HEADER_SIZE..OPTIONS_AT] == COOKIE) {
      return None;
    }
    var opts, n := mem[OPTIONS_AT..], len - OPTIONS_AT;
    var t := FindData(opts, n, MESSAGE_TYPE);
    if t.None? || |t.value| != 1 || t.value[0] < DISCOVER || LAST_TYPE < t.value[0] {
      return None;
    }
    var host := FindData(opts, n, HOST_NAME);
    if host.Some? && SERVER_NAME <= host.value {
      return None;
    }
    var client := mem[28..44];
    var id := FindData(opts, n, CLIENT_ID);
    if id.Some? {
      client := id.value;
    }
    var requestedIp := BROADCAST;
    var wanted := FindData(opts, n, REQUESTED_IP);
    if wanted.Some? && |wanted.value| == 4 {
      requestedIp := WordAt(wanted.value, 0);
    }
    var server := FindData(opts, n, SERVER_ID);
    var mine := server.Some? && |server.value| == 4 && WordAt(server.value, 0) == cfg.host;
    r := Some(Request(t.value[0], client, requestedIp, mine, mem[1], mem[2], mem[4..8], mem[10..12],
                      WordAt(mem, 12), WordAt(mem, 16), WordAt(mem, 24), mem[28..44]));
  }
}
