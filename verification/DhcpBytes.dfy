/** The DHCP server from the bytes it receives to the bytes it sends: what a packet's fields and options mean, and
    what a reply shows of them. Offsets, option codes and message types are written as numbers here. */
module DhcpBytes {
  import opened Options
  import opened Words
  import opened DhcpOptions
  import opened DhcpMessage
  import opened DhcpLeases
  import opened DhcpServer
  import opened DhcpRuns

  // ----- Packets

  /** The fields of a message and its option list. */
  datatype Fields = Fields(
    op: U8, htype: U8, hlen: U8, xid: seq<U8>, flags: seq<U8>,
    ciaddr: U32, yiaddr: U32, giaddr: U32,
    chaddr: seq<U8>, cookie: seq<U8>, options: seq<Field>)

  function FieldBytes(f: Field): seq<U8>
    requires FieldOk(f)
  {
    match f
    case Pad => [0]
    case Opt(code, data) => [code, |data|] + data
  }

  function OptionBytes(fs: seq<Field>): seq<U8>
    requires FieldsOk(fs)
  {
    if fs == [] then [] else FieldBytes(fs[0]) + OptionBytes(fs[1..])
  }

  predicate FieldsShape(p: Fields) {
    |p.xid| == 4 && |p.flags| == 2 && |p.chaddr| == 16 && |p.cookie| == 4 && FieldsOk(p.options)
  }

  /** The packet lies in memory as section 2 of RFC 2131 lays it out; the options end with the packet or with the
      end mark. */
  predicate PacketAt(mem: seq<U8>, len: nat, p: Fields) {
    && FieldsShape(p)
    && BytesAt(mem, 0, [p.op, p.htype, p.hlen])
    && BytesAt(mem, 4, p.xid) && BytesAt(mem, 10, p.flags)
    && BytesAt(mem, 12, BytesOf(p.ciaddr)) && BytesAt(mem, 16, BytesOf(p.yiaddr)) && BytesAt(mem, 24, BytesOf(p.giaddr))
    && BytesAt(mem, 28, p.chaddr) && BytesAt(mem, 236, p.cookie)
    && BytesAt(mem, 240, OptionBytes(p.options))
    && var end := 240 + |OptionBytes(p.options)|;
      end <= len <= |mem| && (end < len ==> mem[end] == 255)
  }

  lemma {:induction false} EncodedList(opts: seq<U8>, pos: nat, fs: seq<Field>)
    requires FieldsOk(fs) && BytesAt(opts, pos, OptionBytes(fs))
    ensures ListAt(opts, pos, fs, pos + |OptionBytes(fs)|)
    decreases |fs|
  {
    hide BytesAt, FieldAt, FieldSize, FieldBytes;
    if fs != [] {
      var head, tail := FieldBytes(fs[0]), OptionBytes(fs[1..]);
      assert OptionBytes(fs) == head + tail && FieldOk(fs[0]) && FieldsOk(fs[1..]);
      hide *;
      BytesSplit(opts, pos, head, tail);
      FieldEncoded(opts, pos, fs[0]);
      EncodedList(opts, pos + |head|, fs[1..]);
      ListCons(opts, pos, fs, pos + |head| + |tail|);
    }
  }

  lemma ListCons(opts: seq<U8>, pos: nat, fs: seq<Field>, end: nat)
    requires fs != [] && FieldAt(opts, pos, fs[0]) && ListAt(opts, pos + FieldSize(fs[0]), fs[1..], end)
    ensures ListAt(opts, pos, fs, end)
  {
    hide FieldAt, FieldSize;
  }

  lemma FieldEncoded(opts: seq<U8>, pos: nat, f: Field)
    requires FieldOk(f) && BytesAt(opts, pos, FieldBytes(f))
    ensures FieldAt(opts, pos, f) && FieldSize(f) == |FieldBytes(f)|
  {
    var bytes := FieldBytes(f);
    ByteRead(opts, pos, bytes, 0);
    if f.Opt? {
      ByteRead(opts, pos, bytes, 1);
      BytesSplit(opts, pos, [f.code, |f.data|], f.data);
    }
  }

  lemma ByteRead(opts: seq<U8>, pos: nat, data: seq<U8>, i: nat)
    requires BytesAt(opts, pos, data) && i < |data|
    ensures opts[pos + i] == data[i]
  {
  }

  lemma BytesSplit(opts: seq<U8>, pos: nat, a: seq<U8>, b: seq<U8>)
    requires BytesAt(opts, pos, a + b)
    ensures BytesAt(opts, pos, a) && BytesAt(opts, pos + |a|, b)
  {
    forall i | 0 <= i < |a| ensures opts[pos + i] == a[i] {
      assert (a + b)[i] == a[i];
    }
    forall i | 0 <= i < |b| ensures opts[pos + |a| + i] == b[i] {
      assert (a + b)[|a| + i] == b[i];
      assert opts[pos + (|a| + i)] == b[i];
    }
  }

  lemma BytesBehind(mem: seq<U8>, at: nat, pos: nat, data: seq<U8>)
    requires at <= pos && BytesAt(mem, pos, data)
    ensures BytesAt(mem[at..], pos - at, data)
  {
    forall i | 0 <= i < |data| ensures mem[at..][pos - at + i] == data[i] {
      assert mem[pos + i] == data[i];
    }
  }

  /** The server finds each option's first data, wherever the options end. */
  lemma OptionFound(mem: seq<U8>, len: nat, p: Fields, code: U8)
    requires Received(mem, len) && PacketAt(mem, len, p) && IsCode(code)
    ensures OptionData(mem[240..], len - 240, code) == FirstData(p.options, code)
  {
    hide BytesOf, OptionBytes, FieldOk;
    var opts, n, end := mem[240..], len - 240, |OptionBytes(p.options)|;
    assert BytesAt(mem, 240, OptionBytes(p.options)) && FieldsOk(p.options) && ClosedAt(opts, n, end);
    hide *;
    BytesBehind(mem, 240, 240, OptionBytes(p.options));
    EncodedList(opts, 0, p.options);
    FindListed(opts, 0, p.options, end, n, code);
    DataOf(opts, n, code, FirstData(p.options, code));
  }

  lemma DataOf(opts: seq<U8>, n: nat, code: U8, data: Option<seq<U8>>)
    requires n + 255 <= |opts| && IsCode(code) && Denotes(opts, FindFrom(opts, n, code, 0), data)
    ensures OptionData(opts, n, code) == data
  {
    hide FindFrom;
    match Find(opts, n, code)
    case None =>
    case Some((at, k)) => SliceAt(opts, at, data.value);
  }

  // ----- Decoding

  /** The four bytes of an address option as the word they make in memory. */
  function AddressOption(fs: seq<Field>, code: U8): Option<U32> {
    match FirstData(fs, code)
    case None => None
    case Some(d) => if |d| == 4 then Some(Word(d[0], d[1], d[2], d[3])) else None
  }

  function TypeOption(fs: seq<Field>): Option<U8> {
    match FirstData(fs, 53)
    case None => None
    case Some(d) => if |d| == 1 && 1 <= d[0] <= 8 then Some(d[0]) else None
  }

  /** The sender calls itself ST-HotSpot, or something that goes on from there. */
  predicate OwnNameOption(fs: seq<Field>) {
    match FirstData(fs, 12)
    case None => false
    case Some(d) => [83, 84, 45, 72, 111, 116, 83, 112, 111, 116] <= d
  }

  /** A packet the server does not look at any further. */
  predicate Dropped(p: Fields) {
    p.op != 1 || p.cookie != [99, 130, 83, 99] || TypeOption(p.options).None? || OwnNameOption(p.options)
  }

  lemma HeaderFields(mem: seq<U8>, len: nat, p: Fields)
    requires PacketAt(mem, len, p)
    ensures mem[0] == p.op && mem[1] == p.htype && mem[2] == p.hlen
    ensures mem[4..8] == p.xid && mem[10..12] == p.flags && mem[28..44] == p.chaddr && mem[236..240] == p.cookie
    ensures WordAt(mem, 12) == p.ciaddr && WordAt(mem, 16) == p.yiaddr && WordAt(mem, 24) == p.giaddr
  {
    var start := [p.op, p.htype, p.hlen];
    ByteRead(mem, 0, start, 0);
    ByteRead(mem, 0, start, 1);
    ByteRead(mem, 0, start, 2);
    hide BytesOf, WordAt;
    SliceAt(mem, 4, p.xid);
    SliceAt(mem, 10, p.flags);
    SliceAt(mem, 28, p.chaddr);
    SliceAt(mem, 236, p.cookie);
    WordReadsBack(mem, 12, p.ciaddr);
    WordReadsBack(mem, 16, p.yiaddr);
    WordReadsBack(mem, 24, p.giaddr);
  }

  lemma SliceAt(mem: seq<U8>, at: nat, data: seq<U8>)
    requires BytesAt(mem, at, data)
    ensures mem[at..at + |data|] == data
  {
    forall i | 0 <= i < |data| ensures mem[at..at + |data|][i] == data[i] {
      assert mem[at + i] == data[i];
    }
  }

  /** The request carries the header fields of the packet. */
  predicate CarriesHeader(q: Request, p: Fields) {
    && q.htype == p.htype && q.hlen == p.hlen && q.xid == p.xid && q.flags == p.flags
    && q.ciaddr == p.ciaddr && q.yiaddr == p.yiaddr && q.giaddr == p.giaddr && q.chaddr == p.chaddr
  }

  /** And what its options say: an address of a wrong length counts as none. */
  predicate CarriesOptions(cfg: Config, q: Request, p: Fields) {
    && Some(q.kind) == TypeOption(p.options)
    && q.client == (match FirstData(p.options, 61) case Some(d) => d case None => p.chaddr)
    && q.requestedIp == (match AddressOption(p.options, 50) case Some(w) => w case None => 0xffff_ffff)
    && (q.forThisServer <==> AddressOption(p.options, 54) == Some(cfg.host))
  }

  /** A packet is dropped exactly for a wrong operation or cookie, a missing or bad type, or the server's own name;
      any other is understood as its fields and first options say. */
  lemma DecodesExactly(cfg: Config, mem: seq<U8>, len: nat, p: Fields)
    requires Received(mem, len) && PacketAt(mem, len, p)
    ensures var r := Decode(cfg, mem, len);
      && (r.None? <==> Dropped(p))
      && (r.Some? ==> CarriesHeader(r.value, p) && CarriesOptions(cfg, r.value, p))
  {
    HeaderFields(mem, len, p);
    assert 240 <= len;
    hide *;
    DropsExactly(mem, len, p);
    ReadsOptions(mem, len, p);
    Reads(cfg, mem, len, p);
  }

  lemma DropsExactly(mem: seq<U8>, len: nat, p: Fields)
    requires Received(mem, len) && PacketAt(mem, len, p) && 240 <= len
    ensures Acceptable(mem, len) <==> p.op == 1 && p.cookie == [99, 130, 83, 99]
    ensures MessageType(mem[240..], len - 240) == TypeOption(p.options)
    ensures FromOwnName(mem[240..], len - 240) == OwnNameOption(p.options)
  {
    HeaderFields(mem, len, p);
    hide PacketAt, OptionData, FirstData;
    OptionFound(mem, len, p, 53);
    OptionFound(mem, len, p, 12);
  }

  lemma ReadsOptions(mem: seq<U8>, len: nat, p: Fields)
    requires Received(mem, len) && PacketAt(mem, len, p) && 240 <= len
    ensures OptionData(mem[240..], len - 240, 61) == FirstData(p.options, 61)
    ensures OptionData(mem[240..], len - 240, 50) == FirstData(p.options, 50)
    ensures OptionData(mem[240..], len - 240, 54) == FirstData(p.options, 54)
  {
    assert IsCode(61) && IsCode(50) && IsCode(54);
    hide *;
    OptionFound(mem, len, p, 61);
    OptionFound(mem, len, p, 50);
    OptionFound(mem, len, p, 54);
  }

  lemma Reads(cfg: Config, mem: seq<U8>, len: nat, p: Fields)
    requires Received(mem, len) && 240 <= len
    requires Acceptable(mem, len) <==> p.op == 1 && p.cookie == [99, 130, 83, 99]
    requires MessageType(mem[240..], len - 240) == TypeOption(p.options)
    requires FromOwnName(mem[240..], len - 240) == OwnNameOption(p.options)
    requires OptionData(mem[240..], len - 240, 61) == FirstData(p.options, 61)
    requires OptionData(mem[240..], len - 240, 50) == FirstData(p.options, 50)
    requires OptionData(mem[240..], len - 240, 54) == FirstData(p.options, 54)
    requires mem[1] == p.htype && mem[2] == p.hlen
    requires mem[4..8] == p.xid && mem[10..12] == p.flags && mem[28..44] == p.chaddr
    requires WordAt(mem, 12) == p.ciaddr && WordAt(mem, 16) == p.yiaddr && WordAt(mem, 24) == p.giaddr
    ensures var r := Decode(cfg, mem, len);
      && (r.None? <==> Dropped(p))
      && (r.Some? ==> CarriesHeader(r.value, p) && CarriesOptions(cfg, r.value, p))
  {
    hide Acceptable, MessageType, FromOwnName, OptionData, FirstData, TypeOption, OwnNameOption, Word;
  }

  /** So is a packet too short for the header and the cookie. */
  lemma ShortDropped(cfg: Config, mem: seq<U8>, len: nat)
    requires Received(mem, len) && len < 240
    ensures Decode(cfg, mem, len).None?
  {
  }

  // ----- Replies

  /** The flags of a reply: a relay agent is told to broadcast. */
  predicate FlagsFor(giaddr: U32, flags: seq<U8>, replied: seq<U8>)
    requires |flags| == |replied| == 2
  {
    && replied[1] == flags[1] && replied[0] % 128 == flags[0] % 128
    && (replied[0] >= 128 <==> giaddr != 0 || flags[0] >= 128)
  }

  /** `reply` is what an orderly server sends for the packet, and to where. */
  ghost predicate Replies(cfg: Config, st: State, mem: seq<U8>, len: nat, p: Fields, env: Env, reply: Reply, dest: U32)
  {
    && Received(mem, len) && PacketAt(mem, len, p) && Inv(cfg, st)
    && Process(cfg, st, mem, len, env).1 == Sent(reply, dest)
  }

  /** What the bytes of a reply owe to the packet's fields. */
  ghost predicate Echoes(p: Fields, kind: U8, bytes: seq<U8>)
    requires FieldsShape(p)
  {
    && |bytes| == 268 && bytes[0] == 2 && bytes[1] == p.htype && bytes[2] == p.hlen && bytes[3] == 0
    && bytes[4..8] == p.xid && FlagsFor(p.giaddr, p.flags, bytes[10..12])
    && bytes[24..28] == BytesOf(p.giaddr) && bytes[28..44] == p.chaddr
    && bytes[44..54] == [83, 84, 45, 72, 111, 116, 83, 112, 111, 116]
    && bytes[236..243] == [99, 130, 83, 99, 53, 1, kind] && kind in {2, 5, 6}
    && bytes[12..16] == (if kind == 5 then bytes[16..20] else [0, 0, 0, 0])
    && (kind == 6 ==> bytes[16..20] == [0, 0, 0, 0])
    && forall i :: 8 <= i < 10 || 20 <= i < 24 || 54 <= i < 236 ==> bytes[i] == 0
  }

  /** Every reply sent echoes its packet. */
  lemma ReplyEchoes(cfg: Config, st: State, mem: seq<U8>, len: nat, p: Fields, env: Env, reply: Reply, dest: U32,
      bytes: seq<U8>)
    requires FieldsShape(p)
    ensures Replies(cfg, st, mem, len, p, env, reply, dest) && ReplyLaid(cfg, reply, bytes) ==>
      Echoes(p, reply.kind, bytes)
  {
    RepliesTo(cfg, st, mem, len, p, env, reply, dest);
    if Replies(cfg, st, mem, len, p, env, reply, dest) && ReplyLaid(cfg, reply, bytes) {
      hide Replies;
      EchoedHeader(cfg, reply, bytes);
      ZeroWord();
      hide ReplyLaid;
    }
  }

  lemma ZeroWord()
    ensures BytesOf(0) == [0, 0, 0, 0]
  {
  }

  /** A reply with the packet's own values. */
  predicate RepliedWith(p: Fields, reply: Reply)
    requires FieldsShape(p)
  {
    && ReplyShape(reply) && reply.kind in {2, 5, 6}
    && reply.htype == p.htype && reply.hlen == p.hlen && reply.xid == p.xid
    && FlagsFor(p.giaddr, p.flags, reply.flags)
    && reply.giaddr == p.giaddr && reply.chaddr == p.chaddr
    && reply.ciaddr == (if reply.kind == 5 then reply.yiaddr else 0) && (reply.kind == 6 ==> reply.yiaddr == 0)
  }

  /** The reply to a packet, before it is laid out. */
  lemma RepliesTo(cfg: Config, st: State, mem: seq<U8>, len: nat, p: Fields, env: Env, reply: Reply, dest: U32)
    requires FieldsShape(p)
    ensures Replies(cfg, st, mem, len, p, env, reply, dest) ==> RepliedWith(p, reply)
  {
    if Replies(cfg, st, mem, len, p, env, reply, dest) {
      DecodesExactly(cfg, mem, len, p);
      var req := Decode(cfg, mem, len).value;
      hide Decode, PacketAt, TypeOption, OwnNameOption, AddressOption, FirstData, Dropped;
      assert RequestShape(req);
      var (_, d) := Decide(cfg, st, req, env);
      AnswerKinds(cfg, st, req, env);
      hide Decide, Inv, Destination;
      EchoedFields(req, d.kind, d.addr);
    }
  }

  lemma AnswerKinds(cfg: Config, st: State, req: Request, env: Env)
    requires Inv(cfg, st)
    ensures var d := Decide(cfg, st, req, env).1;
      d.Answer? ==> d.kind in {2, 5, 6} && (d.kind == 2 <==> req.kind == 1) && (d.kind in {5, 6} ==> req.kind == 3)
  {
    hide Inv, Discover, Confirm;
    if req.kind == DISCOVER {
      DiscoverExact(cfg, st, req, env);
    } else if req.kind == REQUEST {
      ConfirmExact(cfg, st, req);
    }
  }

  lemma EchoedFields(req: Request, kind: U8, addr: U32)
    requires RequestShape(req) && kind in {2, 5, 6}
    ensures var reply := MakeReply(req, kind, addr);
      && ReplyShape(reply) && reply.kind == kind
      && reply.htype == req.htype && reply.hlen == req.hlen && reply.xid == req.xid
      && FlagsFor(req.giaddr, req.flags, reply.flags)
      && reply.giaddr == req.giaddr && reply.chaddr == req.chaddr
      && reply.ciaddr == (if kind == 5 then reply.yiaddr else 0) && (kind == 6 ==> reply.yiaddr == 0)
  {
  }

  /** Where a reply goes: to the relay, else a refusal to everybody, else to the client's own address, else where the
      packet's flag and yiaddr say. */
  lemma RepliesGoTo(cfg: Config, st: State, mem: seq<U8>, len: nat, p: Fields, env: Env, reply: Reply, dest: U32)
    requires FieldsShape(p)
    ensures Replies(cfg, st, mem, len, p, env, reply, dest) ==>
      && (p.giaddr != 0 ==> dest == p.giaddr)
      && (p.giaddr == 0 && reply.kind == 6 ==> dest == 0xffff_ffff)
      && (p.giaddr == 0 && reply.kind != 6 && p.ciaddr != 0 ==> dest == p.ciaddr)
      && (p.giaddr == p.ciaddr == 0 && reply.kind != 6 ==>
            dest == if p.flags[0] >= 128 || p.yiaddr == 0 then 0xffff_ffff else p.yiaddr)
  {
    if Replies(cfg, st, mem, len, p, env, reply, dest) {
      DecodesExactly(cfg, mem, len, p);
      hide Decode, PacketAt, TypeOption, OwnNameOption, AddressOption, FirstData, Dropped, Decide, Inv;
    }
  }

  lemma EchoedHeader(cfg: Config, r: Reply, bytes: seq<U8>)
    requires ReplyLaid(cfg, r, bytes) && ReplyShape(r)
    ensures |bytes| == 268 && bytes[0] == 2 && bytes[1] == r.htype && bytes[2] == r.hlen && bytes[3] == 0
    ensures bytes[4..8] == r.xid && bytes[10..12] == r.flags
    ensures bytes[12..16] == BytesOf(r.ciaddr) && bytes[16..20] == BytesOf(r.yiaddr)
    ensures bytes[24..28] == BytesOf(r.giaddr)
    ensures bytes[28..44] == r.chaddr && bytes[44..54] == [83, 84, 45, 72, 111, 116, 83, 112, 111, 116]
    ensures bytes[236..243] == [99, 130, 83, 99, 53, 1, r.kind]
    ensures forall i :: 8 <= i < 10 || 20 <= i < 24 || 54 <= i < 236 ==> bytes[i] == 0
  {
    var start, cookie, kind := [BOOT_REPLY, r.htype, r.hlen, 0], COOKIE, [MESSAGE_TYPE, 1, r.kind];
    assert BytesAt(bytes, 0, start) && BytesAt(bytes, 236, cookie) && BytesAt(bytes, 240, kind);
    SliceAt(bytes, 0, start);
    SliceAt(bytes, 236, cookie);
    SliceAt(bytes, 240, kind);
    SliceAt(bytes, 4, r.xid);
    SliceAt(bytes, 10, r.flags);
    SliceAt(bytes, 12, BytesOf(r.ciaddr));
    SliceAt(bytes, 16, BytesOf(r.yiaddr));
    SliceAt(bytes, 24, BytesOf(r.giaddr));
    SliceAt(bytes, 28, r.chaddr);
    SliceAt(bytes, 44, SERVER_NAME);
    hide ReplyLaid, BytesOf;
    assert bytes[0..4][0] == bytes[0] && bytes[0..4][1] == bytes[1] && bytes[0..4][2] == bytes[2];
    assert bytes[0..4][3] == bytes[3];
    assert bytes[236..243] == bytes[236..240] + bytes[240..243];
  }

  /** The options of a reply, byte by byte: an hour's lease, the mask, and the server as itself and as router; a
      refusal has pads for the first two. */
  lemma ReplyOptions(cfg: Config, r: Reply, bytes: seq<U8>)
    requires ReplyLaid(cfg, r, bytes)
    ensures |bytes| == 268 && bytes[240..243] == [53, 1, r.kind]
    ensures r.kind in {2, 5} ==> bytes[243..255] == [51, 4, 0, 0, 14, 16, 1, 4] + BytesOf(cfg.mask)
    ensures r.kind !in {2, 5} ==> forall i :: 243 <= i < 255 ==> bytes[i] == 0
    ensures bytes[255..268] == [54, 4] + BytesOf(cfg.host) + [3, 4] + BytesOf(cfg.host) + [255]
  {
    var kind, id, router, end := [MESSAGE_TYPE, 1, r.kind], WordOption(SERVER_ID, cfg.host),
      WordOption(ROUTER, cfg.host), [END];
    assert BytesAt(bytes, 240, kind) && BytesAt(bytes, 255, id) && BytesAt(bytes, 261, router);
    assert BytesAt(bytes, 267, end);
    SliceAt(bytes, 240, kind);
    SliceAt(bytes, 255, id);
    SliceAt(bytes, 261, router);
    SliceAt(bytes, 267, end);
    assert bytes[255..268] == bytes[255..261] + bytes[261..267] + bytes[267..268];
    if Granted(r.kind) {
      LeaseBytes();
      var lease, mask := WordOption(LEASE_TIME, Swap32(LEASE_SECONDS)), WordOption(SUBNET_MASK, cfg.mask);
      hide Swap32, ByteAt;
      assert BytesAt(bytes, 243, lease) && BytesAt(bytes, 249, mask);
      SliceAt(bytes, 243, lease);
      SliceAt(bytes, 249, mask);
      assert bytes[243..255] == bytes[243..249] + bytes[249..255];
    }
  }

  lemma LeaseBytes()
    ensures BytesOf(Swap32(LEASE_SECONDS)) == [0, 0, 14, 16]
  {
    BytesOfWord(ByteAt(3600, 3), ByteAt(3600, 2), ByteAt(3600, 1), ByteAt(3600, 0));
  }

  // ----- Two exchanges, byte for byte

  /** The client a packet comes from. */
  function ClientOf(p: Fields): seq<U8> {
    match FirstData(p.options, 61) case Some(d) => d case None => p.chaddr
  }

  /** A client that holds an address and asks to keep it, with that address in the packet's ciaddr and no server
      named, gets it confirmed at that address, unless sending the confirmation fails an assertion. */
  lemma RenewalConfirmed(cfg: Config, st: State, mem: seq<U8>, len: nat, p: Fields, env: Env)
    requires Received(mem, len) && FieldsShape(p) && p.giaddr == 0 && p.ciaddr != 0
    requires !Dropped(p) && TypeOption(p.options) == Some(3) && AddressOption(p.options, 54) != Some(cfg.host)
    ensures PacketAt(mem, len, p) && Inv(cfg, st) && Holds(st.leases, ClientOf(p), p.ciaddr) ==>
      var (st', out) := Process(cfg, st, mem, len, env);
      st' == st && Renewed(p, env, out)
  {
    if PacketAt(mem, len, p) && Inv(cfg, st) && Holds(st.leases, ClientOf(p), p.ciaddr) {
      DecodesExactly(cfg, mem, len, p);
      var req := Decode(cfg, mem, len).value;
      hide Decode, PacketAt, TypeOption, OwnNameOption, AddressOption, FirstData, Dropped;
      ConfirmExact(cfg, st, req);
      HoldsOnlyOwn(cfg, st.leases, req.client, p.ciaddr) by {
        hide Confirm;
      }
      assert Entitled(st.leases, req);
      var d := Confirm(st, req);
      HoldsOnlyOwn(cfg, st.leases, req.client, d.addr);
      hide Confirm, Holds, IndexOfClient, Swap32;
    }
  }

  predicate Renewed(p: Fields, env: Env, out: Outcome) {
    if !env.sendOk || p.ciaddr == 0x7f00_0001 then out.Stuck?
    else
      && out.Sent? && out.dest == p.ciaddr
      && out.reply.kind == 5 && out.reply.yiaddr == p.ciaddr && out.reply.ciaddr == p.ciaddr
  }

  /** A new client's DISCOVER is offered the network's next address: the interface's own with 15, 16 or 17 as last
      byte. */
  lemma NewClientOffered(cfg: Config, st: State, mem: seq<U8>, len: nat, p: Fields, env: Env)
    requires Received(mem, len) && FieldsShape(p) && env == Env(true, true)
    requires p.giaddr == 0 && p.ciaddr == 0 && p.yiaddr == 0
    requires !Dropped(p) && TypeOption(p.options) == Some(1) && ClientOf(p) != []
    ensures
      PacketAt(mem, len, p) && Inv(cfg, st) && !Known(st.leases, ClientOf(p)) && |st.leases| < 3 ==>
      OfferedTo(cfg, st, ClientOf(p), Process(cfg, st, mem, len, env))
  {
    if PacketAt(mem, len, p) && Inv(cfg, st) && !Known(st.leases, ClientOf(p)) && |st.leases| < 3 {
      DecodesExactly(cfg, mem, len, p);
      hide Decode, PacketAt, TypeOption, OwnNameOption, AddressOption, FirstData, Dropped, Step, BytesOf, Known, Holds,
          Inv, OfferedTo;
      NewRequestOffered(cfg, st, Decode(cfg, mem, len).value, env);
    }
  }

  /** The client was sent the next address of the pool, and holds it. */
  ghost predicate OfferedTo(cfg: Config, st: State, client: seq<U8>, r: (State, Outcome)) {
    && r.1.Sent? && r.1.dest == 0xffff_ffff && r.1.reply.kind == 2 && |st.leases| < 3
    && BytesOf(r.1.reply.yiaddr) == BytesOf(cfg.host)[..3] + [15 + |st.leases|]
    && Holds(r.0.leases, client, r.1.reply.yiaddr) && |r.0.leases| == |st.leases| + 1
  }

  lemma NewRequestOffered(cfg: Config, st: State, req: Request, env: Env)
    requires RequestShape(req) && req.kind == 1 && req.client != []
    requires env == Env(true, true) && req.giaddr == 0 && req.ciaddr == 0 && req.yiaddr == 0
    ensures Inv(cfg, st) && !Known(st.leases, req.client) && |st.leases| < 3 ==>
      OfferedTo(cfg, st, req.client, Step(cfg, st, req, env))
  {
    if Inv(cfg, st) && !Known(st.leases, req.client) && |st.leases| < 3 {
      hide Inv, Holds, Discover, Swap32, BytesOf, MinAddr, MaxAddr, Known, Deliver;
      OfferedNext(cfg, st, req, env);
      PoolAddressBytes(cfg, |st.leases|);
      BroadcastOffer(req, Swap32(MinAddr(cfg) + |st.leases|));
    }
  }

  lemma BroadcastOffer(req: Request, y: U32)
    requires RequestShape(req) && req.giaddr == 0 && req.ciaddr == 0 && req.yiaddr == 0
    ensures var out := Deliver(req, Answer(2, y), Env(true, true));
      out.Sent? && out.dest == 0xffff_ffff && out.reply.kind == 2 && out.reply.yiaddr == y
  {
  }

  lemma OfferedNext(cfg: Config, st: State, req: Request, env: Env)
    requires Inv(cfg, st) && req.client != [] && !Known(st.leases, req.client) && |st.leases| < 3 && env.mallocOk
    ensures MinAddr(cfg) + |st.leases| < TWO32
    ensures var (st', d) := Discover(cfg, st, req, env);
      && d == Answer(2, Swap32(MinAddr(cfg) + |st.leases|)) && |st'.leases| == |st.leases| + 1
      && Holds(st'.leases, req.client, d.addr)
  {
    DiscoverExact(cfg, st, req, env);
    NextFree(cfg, st.leases);
    KnownIndex(cfg, st.leases, req.client);
    hide Holds, Swap32, FirstFree, IndexOfClient, MinAddr, MaxAddr;
  }

  lemma PoolAddressBytes(cfg: Config, k: nat)
    requires k < 3
    ensures MinAddr(cfg) + k < TWO32
    ensures BytesOf(Swap32(MinAddr(cfg) + k)) == BytesOf(cfg.host)[..3] + [15 + k]
  {
    PoolBoundValue(cfg, MIN_IP);
    var b0, b1, b2 := ByteAt(cfg.host, 0), ByteAt(cfg.host, 1), ByteAt(cfg.host, 2);
    assert MinAddr(cfg) + k == Word(15 + k, b2, b1, b0);
    BytesOfWord(15 + k, b2, b1, b0);
    var x := Word(15 + k, b2, b1, b0);
    assert BytesOf(x)[0] == 15 + k && BytesOf(x)[1] == b2 && BytesOf(x)[2] == b1 && BytesOf(x)[3] == b0;
    BytesOfWord(b0, b1, b2, 15 + k);
  }
}
