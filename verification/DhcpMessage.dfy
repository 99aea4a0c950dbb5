/** DHCP messages of services/net_sdhcp.c: decoding a received packet and laying out a reply.
    Addresses are 32-bit memory words: their bytes in memory are in network order. */
module DhcpMessage {
  import opened Options
  import opened Words
  import opened DhcpOptions

  const HEADER_SIZE := 236
  const COOKIE: seq<U8> := [99, 130, 83, 99]
  const OPTIONS_AT := 240
  const REPLY_SIZE := 268
  const SERVER_NAME: seq<U8> := [83, 84, 45, 72, 111, 116, 83, 112, 111, 116] // ST-HotSpot

  const BOOT_REQUEST: U8 := 1
  const BOOT_REPLY: U8 := 2

  const DISCOVER: U8 := 1
  const OFFER: U8 := 2
  const REQUEST: U8 := 3
  const ACK: U8 := 5
  const NAK: U8 := 6
  const LAST_TYPE: U8 := 8

  const BROADCAST: U32 := 0xffff_ffff
  const LOOPBACK: U32 := 0x7f00_0001
  const LEASE_SECONDS: U32 := 3600

  /** The interface the server runs on: its address and mask, as stored by the stack. */
  datatype Config = Config(host: U32, mask: U32)

  datatype Request = Request(
    kind: U8,
    client: seq<U8>,
    requestedIp: U32,
    forThisServer: bool,
    htype: U8, hlen: U8,
    xid: seq<U8>,
    flags: seq<U8>,
    ciaddr: U32, yiaddr: U32, giaddr: U32,
    chaddr: seq<U8>)

  datatype Reply = Reply(
    kind: U8,
    htype: U8, hlen: U8,
    xid: seq<U8>,
    flags: seq<U8>,
    ciaddr: U32, yiaddr: U32, giaddr: U32,
    chaddr: seq<U8>)

  predicate RequestShape(r: Request) {
    |r.xid| == 4 && |r.flags| == 2 && |r.chaddr| == 16
  }

  predicate ReplyShape(r: Reply) {
    |r.xid| == 4 && |r.flags| == 2 && |r.chaddr| == 16
  }

  function WordAt(mem: seq<U8>, at: nat): U32
    requires at + 4 <= |mem|
  {
    Word(mem[at], mem[at + 1], mem[at + 2], mem[at + 3])
  }

  /** The packet is the first `len` bytes of `mem`; the memory behind it is readable far enough for an
      option whose data runs past the end of the packet. */
  predicate Received(mem: seq<U8>, len: nat) {
    len + 255 <= |mem|
  }

  /** Data of an option, wherever it lies. */
  function OptionData(opts: seq<U8>, len: nat, code: U8): Option<seq<U8>>
    requires len + 255 <= |opts| && IsCode(code)
  {
    match Find(opts, len, code)
    case None => None
    case Some((at, n)) => Some(opts[at..at + n])
  }

  function MessageType(opts: seq<U8>, len: nat): Option<U8>
    requires len + 255 <= |opts|
  {
    match OptionData(opts, len, MESSAGE_TYPE)
    case None => None
    case Some(d) => if |d| == 1 && DISCOVER <= d[0] <= LAST_TYPE then Some(d[0]) else None
  }

  /** Messages from a host whose name starts with the server's own name are ignored. */
  predicate FromOwnName(opts: seq<U8>, len: nat)
    requires len + 255 <= |opts|
  {
    match OptionData(opts, len, HOST_NAME)
    case None => false
    case Some(d) => SERVER_NAME <= d
  }

  predicate Acceptable(mem: seq<U8>, len: nat)
    requires Received(mem, len)
  {
    OPTIONS_AT <= len && mem[0] == BOOT_REQUEST && mem[HEADER_SIZE..OPTIONS_AT] == COOKIE
  }

  /** The request a packet carries; None when the server drops it. */
  function Decode(cfg: Config, mem: seq<U8>, len: nat): (r: Option<Request>)
    requires Received(mem, len)
    ensures r.Some? ==> RequestShape(r.value)
  {
    if !Acceptable(mem, len) then None
    else
      var opts, n := mem[OPTIONS_AT..], len - OPTIONS_AT;
      match MessageType(opts, n)
      case None => None
      case Some(kind) =>
        if FromOwnName(opts, n) then None
        else Some(Request(
          kind,
          match OptionData(opts, n, CLIENT_ID) case Some(d) => d case None => mem[28..44],
          match OptionData(opts, n, REQUESTED_IP)
          case Some(d) => if |d| == 4 then WordAt(d, 0) else BROADCAST
          case None => BROADCAST,
          match OptionData(opts, n, SERVER_ID)
          case Some(d) => |d| == 4 && WordAt(d, 0) == cfg.host
          case None => false,
          mem[1], mem[2], mem[4..8], mem[10..12],
          WordAt(mem, 12), WordAt(mem, 16), WordAt(mem, 24),
          mem[28..44]))
  }

  // ----- Layout of a reply

  predicate Granted(kind: U8) {
    kind == OFFER || kind == ACK
  }

  predicate ZeroFrom(bytes: seq<U8>, at: nat, end: nat) {
    end <= |bytes| && forall i :: at <= i < end ==> bytes[i] == 0
  }

  predicate HeaderLaid(r: Reply, bytes: seq<U8>) {
    && BytesAt(bytes, 0, [BOOT_REPLY, r.htype, r.hlen, 0])
    && BytesAt(bytes, 4, r.xid)
    && ZeroFrom(bytes, 8, 10)
    && BytesAt(bytes, 10, r.flags)
    && BytesAt(bytes, 12, BytesOf(r.ciaddr))
    && BytesAt(bytes, 16, BytesOf(r.yiaddr))
    && ZeroFrom(bytes, 20, 24)
    && BytesAt(bytes, 24, BytesOf(r.giaddr))
    && BytesAt(bytes, 28, r.chaddr)
    && BytesAt(bytes, 44, SERVER_NAME)
    && ZeroFrom(bytes, 44 + |SERVER_NAME|, HEADER_SIZE)
  }

  function WordOption(code: U8, w: U32): (s: seq<U8>)
    ensures |s| == 6
  {
    [code, 4] + BytesOf(w)
  }

  /** Lease time and mask are blanked out in a refusal. */
  predicate OptionsLaid(cfg: Config, kind: U8, bytes: seq<U8>) {
    && BytesAt(bytes, HEADER_SIZE, COOKIE)
    && BytesAt(bytes, 240, [MESSAGE_TYPE, 1, kind])
    && (if Granted(kind)
        then BytesAt(bytes, 243, WordOption(LEASE_TIME, Swap32(LEASE_SECONDS)))
          && BytesAt(bytes, 249, WordOption(SUBNET_MASK, cfg.mask))
        else ZeroFrom(bytes, 243, 255))
    && BytesAt(bytes, 255, WordOption(SERVER_ID, cfg.host))
    && BytesAt(bytes, 261, WordOption(ROUTER, cfg.host))
    && BytesAt(bytes, 267, [END])
  }

  predicate ReplyLaid(cfg: Config, r: Reply, bytes: seq<U8>) {
    |bytes| == REPLY_SIZE && HeaderLaid(r, bytes) && OptionsLaid(cfg, r.kind, bytes)
  }

  // ----- Reading a reply back with the server's own scanner

  /** What a client finds in the reply for each option. */
  function ReplyValue(cfg: Config, kind: U8, code: U8): Option<seq<U8>> {
    if code == MESSAGE_TYPE then Some([kind])
    else if code == SERVER_ID || code == ROUTER then Some(BytesOf(cfg.host))
    else if code == LEASE_TIME && Granted(kind) then Some(BytesOf(Swap32(LEASE_SECONDS)))
    else if code == SUBNET_MASK && Granted(kind) then Some(BytesOf(cfg.mask))
    else None
  }

  lemma ScanWordOption(opts: seq<U8>, pos: nat, len: nat, field: U8, w: U32, code: U8)
    requires IsCode(field) && IsCode(code)
    requires pos + 6 <= len <= |opts| && BytesAt(opts, pos, WordOption(field, w))
    ensures FindFrom(opts, len, code, pos) ==
      if code == field then Some((pos + 2, 4)) else FindFrom(opts, len, code, pos + 6)
    ensures BytesAt(opts, pos + 2, BytesOf(w))
  {
    var s := WordOption(field, w);
    assert opts[pos] == s[0] && opts[pos + 1] == s[1];
    assert opts[pos + 2] == s[2] && opts[pos + 3] == s[3] && opts[pos + 4] == s[4] && opts[pos + 5] == s[5];
  }

  lemma {:induction false} ScanPads(opts: seq<U8>, pos: nat, end: nat, len: nat, code: U8)
    requires IsCode(code)
    requires pos <= end <= len <= |opts| && ZeroFrom(opts, pos, end)
    ensures FindFrom(opts, len, code, pos) == FindFrom(opts, len, code, end)
    decreases end - pos
  {
    if pos < end {
      ScanPads(opts, pos + 1, end, len, code);
    }
  }

  lemma OptionsShift(bytes: seq<U8>, pos: nat, data: seq<U8>)
    requires OPTIONS_AT <= pos && BytesAt(bytes, pos, data)
    ensures BytesAt(bytes[OPTIONS_AT..], pos - OPTIONS_AT, data)
  {
    forall i | 0 <= i < |data| ensures bytes[OPTIONS_AT..][pos - OPTIONS_AT + i] == data[i] {
      assert bytes[pos + i] == data[i];
    }
  }

  /** The tail of every reply: server id, router, END. */
  lemma ScanTail(cfg: Config, r: Reply, bytes: seq<U8>, code: U8)
    requires ReplyLaid(cfg, r, bytes) && IsCode(code)
    ensures var opts := bytes[OPTIONS_AT..];
      Denotes(opts, FindFrom(opts, 28, code, 15),
        if code == SERVER_ID || code == ROUTER then Some(BytesOf(cfg.host)) else None)
  {
    var opts := bytes[OPTIONS_AT..];
    OptionsShift(bytes, 255, WordOption(SERVER_ID, cfg.host));
    OptionsShift(bytes, 261, WordOption(ROUTER, cfg.host));
    OptionsShift(bytes, 267, [END]);
    ScanWordOption(opts, 15, 28, SERVER_ID, cfg.host, code);
    ScanWordOption(opts, 21, 28, ROUTER, cfg.host, code);
    assert opts[27] == [END][0];
  }

  lemma ScanGrant(cfg: Config, r: Reply, bytes: seq<U8>, code: U8)
    requires ReplyLaid(cfg, r, bytes) && IsCode(code) && code != MESSAGE_TYPE
    ensures var opts := bytes[OPTIONS_AT..];
      Denotes(opts, FindFrom(opts, 28, code, 3), ReplyValue(cfg, r.kind, code))
  {
    var opts := bytes[OPTIONS_AT..];
    ScanTail(cfg, r, bytes, code);
    if Granted(r.kind) {
      OptionsShift(bytes, 243, WordOption(LEASE_TIME, Swap32(LEASE_SECONDS)));
      OptionsShift(bytes, 249, WordOption(SUBNET_MASK, cfg.mask));
      ScanWordOption(opts, 3, 28, LEASE_TIME, Swap32(LEASE_SECONDS), code);
      ScanWordOption(opts, 9, 28, SUBNET_MASK, cfg.mask, code);
    } else {
      assert ZeroFrom(opts, 3, 15);
      ScanPads(opts, 3, 15, 28, code);
    }
  }

  /** Every reply reads back, option by option, with the server's own scanner. */
  lemma ReplyReadsBack(cfg: Config, r: Reply, bytes: seq<U8>, code: U8)
    requires ReplyLaid(cfg, r, bytes) && IsCode(code)
    ensures var opts := bytes[OPTIONS_AT..];
      Denotes(opts, Find(opts, 28, code), ReplyValue(cfg, r.kind, code))
  {
    var opts := bytes[OPTIONS_AT..];
    var t := [MESSAGE_TYPE, 1, r.kind];
    OptionsShift(bytes, 240, t);
    assert opts[0] == t[0] && opts[1] == t[1] && opts[2] == t[2];
    if code != MESSAGE_TYPE {
      ScanGrant(cfg, r, bytes, code);
    }
  }

  lemma WordReadsBack(bytes: seq<U8>, at: nat, w: U32)
    requires BytesAt(bytes, at, BytesOf(w))
    ensures WordAt(bytes, at) == w
  {
    var b := BytesOf(w);
    assert bytes[at + 0] == b[0] && bytes[at + 1] == b[1] && bytes[at + 2] == b[2] && bytes[at + 3] == b[3];
    WordOfBytes(w);
  }

  /** The address given to the client, as it lies in the packet. */
  lemma ReplyAddress(cfg: Config, r: Reply, bytes: seq<U8>)
    requires ReplyLaid(cfg, r, bytes)
    ensures WordAt(bytes, 16) == r.yiaddr && WordAt(bytes, 12) == r.ciaddr && WordAt(bytes, 24) == r.giaddr
  {
    WordReadsBack(bytes, 16, r.yiaddr);
    WordReadsBack(bytes, 12, r.ciaddr);
    WordReadsBack(bytes, 24, r.giaddr);
  }
}
