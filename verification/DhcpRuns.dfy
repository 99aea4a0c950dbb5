/** Whole runs of the DHCP server: one address per client, one client per address, no block lost. */
module DhcpRuns {
  import opened Options
  import opened Words
  import opened DhcpOptions
  import opened DhcpMessage
  import opened DhcpLeases
  import opened DhcpServer

  /** A received packet, and how the heap and the socket behave while it is processed. */
  datatype Packet = Packet(mem: seq<U8>, len: nat, env: Env)

  /** A packet after decoding. */
  datatype Input = Input(req: Option<Request>, env: Env)

  datatype Event = Event(req: Option<Request>, out: Outcome)

  const START := State([], 0, {}, 0)

  predicate PacketsOk(packets: seq<Packet>) {
    forall i :: 0 <= i < |packets| ==> Received(packets[i].mem, packets[i].len)
  }

  predicate InputOk(input: Input) {
    input.req.Some? ==> RequestShape(input.req.value)
  }

  predicate InputsOk(inputs: seq<Input>) {
    forall i :: 0 <= i < |inputs| ==> InputOk(inputs[i])
  }

  function Inputs(cfg: Config, packets: seq<Packet>): (inputs: seq<Input>)
    requires PacketsOk(packets)
    ensures InputsOk(inputs) && |inputs| == |packets|
  {
    seq(|packets|, i requires 0 <= i < |packets| =>
      Input(Decode(cfg, packets[i].mem, packets[i].len), packets[i].env))
  }

  /** The receive loop; a failed assertion ends the run. */
  function RunFrom(cfg: Config, st: State, inputs: seq<Input>): (r: (State, seq<Event>))
    requires InputsOk(inputs)
    decreases |inputs|
  {
    if inputs == [] then (st, [])
    else
      var (st', out) := Handle(cfg, st, inputs[0].req, inputs[0].env);
      var ev := Event(inputs[0].req, out);
      if out.Stuck? then (st', [ev])
      else
        var (end, evs) := RunFrom(cfg, st', inputs[1..]);
        (end, [ev] + evs)
  }

  function Run(cfg: Config, packets: seq<Packet>): (State, seq<Event>)
    requires PacketsOk(packets)
  {
    RunFrom(cfg, START, Inputs(cfg, packets))
  }

  /** An OFFER or ACK went out. */
  predicate Answered(ev: Event) {
    ev.req.Some? && ev.out.Sent? && Granted(ev.out.reply.kind)
  }

  // ----- The invariant

  ghost function Blocks(leases: seq<Lease>): set<nat> {
    set i | 0 <= i < |leases| :: leases[i].block
  }

  /** Every live block belongs to exactly one lease. */
  ghost predicate BlocksOk(st: State) {
    && st.live == Blocks(st.leases)
    && (forall i :: 0 <= i < |st.leases| ==> st.leases[i].block < st.nextBlock)
    && (forall i, j :: 0 <= i < j < |st.leases| ==> st.leases[i].block != st.leases[j].block)
  }

  ghost predicate Inv(cfg: Config, st: State) {
    LeasesOk(cfg, st.leases) && BlocksOk(st)
  }

  /** `reply` carries the address leased to `client`. */
  ghost predicate Holds(leases: seq<Lease>, client: seq<U8>, yiaddr: U32) {
    exists i :: 0 <= i < |leases| && leases[i].client == client && yiaddr == Swap32(leases[i].addr)
  }

  predicate Known(leases: seq<Lease>, client: seq<U8>) {
    exists i :: 0 <= i < |leases| && leases[i].client == client
  }

  lemma KnownIndex(cfg: Config, leases: seq<Lease>, client: seq<U8>)
    requires LeasesOk(cfg, leases)
    ensures IndexOfClient(leases, client) >= 0 <==> Known(leases, client)
  {
  }

  /** What DISCOVER does to an orderly table: the same address again to a known client, the next pool
      address to a new one, nothing when all are taken; the table never refuses a free address. */
  lemma DiscoverExact(cfg: Config, st: State, req: Request, env: Env)
    requires Inv(cfg, st)
    ensures var (st', d) := Discover(cfg, st, req, env);
      var unseen := !Known(st.leases, req.client) && |st.leases| < TABLE_SLOTS;
      && (d == Fail <==> unseen && req.client == [])
      && (d.Answer? <==> env.mallocOk && (Known(st.leases, req.client) || (unseen && req.client != [])))
      && (d.Answer? ==> d.kind == OFFER && Holds(st'.leases, req.client, d.addr))
      && st'.leases == st.leases + (if d.Answer? && unseen
           then [Lease(MinAddr(cfg) + |st.leases|, req.client, st.nextBlock)] else [])
      && st'.live == st.live + (if d.Answer? && unseen then {st.nextBlock} else {})
      && st'.nextBlock == st.nextBlock + (if d.Answer? then 1 else 0)
  {
    PoolSize(cfg);
    KnownIndex(cfg, st.leases, req.client);
    NextFree(cfg, st.leases);
    var (st', d) := Discover(cfg, st, req, env);
    if d.Answer? && !Known(st.leases, req.client) {
      assert st'.leases[|st.leases|].client == req.client;
    }
  }

  /** The last offer on record after a DISCOVER: the known client's own address, else the next one of the pool, or the
      pool's last when there is none. */
  lemma LastOffer(cfg: Config, st: State, req: Request, env: Env)
    requires Inv(cfg, st)
    ensures var last := Discover(cfg, st, req, env).0.lastOffer;
      if Known(st.leases, req.client) then Holds(st.leases, req.client, Swap32(last))
      else last == MinAddr(cfg) + if |st.leases| < 3 then |st.leases| else 2
  {
    PoolSize(cfg);
    KnownIndex(cfg, st.leases, req.client);
    NextFree(cfg, st.leases);
    hide Swap32, FirstFree, MinAddr, MaxAddr;
  }

  /** A REQUEST this server replies to: it names the server, or asks for an address. */
  predicate Asks(req: Request) {
    req.forThisServer || req.requestedIp != BROADCAST || req.ciaddr != 0
  }

  /** The client holds a lease and, unless the REQUEST names this server, asks for that very address. */
  ghost predicate Entitled(leases: seq<Lease>, req: Request) {
    if req.forThisServer then Known(leases, req.client)
    else Holds(leases, req.client, req.requestedIp) || (req.ciaddr != 0 && Holds(leases, req.client, req.ciaddr))
  }

  lemma HoldsOnlyOwn(cfg: Config, leases: seq<Lease>, client: seq<U8>, y: U32)
    requires LeasesOk(cfg, leases)
    ensures var i := IndexOfClient(leases, client);
      Holds(leases, client, y) <==> i >= 0 && y == Swap32(leases[i].addr)
  {
    KnownIndex(cfg, leases, client);
    var i := IndexOfClient(leases, client);
    if Holds(leases, client, y) {
      var k :| 0 <= k < |leases| && leases[k].client == client && y == Swap32(leases[k].addr);
      assert i >= 0 ==> leases[i].client == leases[k].client;
    }
  }

  lemma SwapZeroOnly(x: U32)
    ensures Swap32(x) == 0 ==> x == 0
  {
    assert Swap32(0) == 0;
    if Swap32(x) == 0 {
      SwapInjective(x, 0);
    }
  }

  /** REQUEST in every case: a failed assertion, silence, the client's own lease, or a refusal; the assertion on
      the leased address never fails. */
  lemma ConfirmExact(cfg: Config, st: State, req: Request)
    requires Inv(cfg, st)
    ensures var d := Confirm(st, req);
      && (d == Fail <==> req.forThisServer && req.ciaddr != 0)
      && (d == Nothing <==> !Asks(req))
      && (d.Answer? ==> d.kind == (if Entitled(st.leases, req) then ACK else NAK))
      && (d.Answer? && d.kind == ACK ==> Holds(st.leases, req.client, d.addr))
      && (d.Answer? && d.kind == NAK ==> d.addr == 0)
  {
    KnownIndex(cfg, st.leases, req.client);
    HoldsOnlyOwn(cfg, st.leases, req.client, req.requestedIp);
    HoldsOnlyOwn(cfg, st.leases, req.client, req.ciaddr);
    var i := IndexOfClient(st.leases, req.client);
    if i >= 0 {
      LeaseInPool(cfg, st.leases, i);
      PoolSize(cfg);
      SwapZeroOnly(st.leases[i].addr);
    }
  }

  lemma BlocksGrow(st: State, lease: Lease)
    requires BlocksOk(st) && lease.block == st.nextBlock
    ensures Blocks(st.leases + [lease]) == st.live + {lease.block}
  {
    var more := st.leases + [lease];
    forall b | b in st.live + {lease.block} ensures b in Blocks(more) {
      if b == lease.block {
        assert more[|st.leases|].block == b;
      } else {
        var i :| 0 <= i < |st.leases| && st.leases[i].block == b;
        assert more[i].block == b;
      }
    }
  }

  /** A request other than DISCOVER, or one that adds no lease. */
  lemma SameLeases(cfg: Config, st: State, st': State)
    requires Inv(cfg, st) && st'.leases == st.leases && st'.live == st.live && st.nextBlock <= st'.nextBlock
    ensures Inv(cfg, st')
  {
  }

  lemma NewLease(cfg: Config, st: State, st': State, client: seq<U8>)
    requires Inv(cfg, st) && |st.leases| < TABLE_SLOTS && client != [] && !Known(st.leases, client)
    requires var min: int := MinAddr(cfg); min + |st.leases| < TWO32
    requires st'.leases == st.leases + [Lease(MinAddr(cfg) + |st.leases|, client, st.nextBlock)]
    requires st'.live == st.live + {st.nextBlock} && st'.nextBlock == st.nextBlock + 1
    ensures Inv(cfg, st')
  {
    BlocksGrow(st, st'.leases[|st.leases|]);
    assert forall i :: 0 <= i < |st.leases| ==> st.leases[i].client != client;
  }

  lemma DiscoverKeeps(cfg: Config, st: State, req: Request, env: Env)
    requires Inv(cfg, st)
    ensures var st' := Discover(cfg, st, req, env).0; Inv(cfg, st') && st.leases <= st'.leases
  {
    DiscoverExact(cfg, st, req, env);
    PoolSize(cfg);
    var st' := Discover(cfg, st, req, env).0;
    if st'.leases == st.leases {
      SameLeases(cfg, st, st');
    } else {
      NewLease(cfg, st, st', req.client);
    }
  }

  /** The event agrees with the table: an answered client holds the address it was told. */
  ghost predicate Agrees(leases: seq<Lease>, ev: Event) {
    Answered(ev) ==> Holds(leases, ev.req.value.client, ev.out.reply.yiaddr)
  }

  /** One packet keeps the invariant, never takes a lease back, and tells the client its own lease. */
  lemma HandleKeeps(cfg: Config, st: State, input: Input)
    requires Inv(cfg, st) && InputOk(input)
    ensures var (st', out) := Handle(cfg, st, input.req, input.env);
      && Inv(cfg, st') && st.leases <= st'.leases
      && Agrees(st'.leases, Event(input.req, out))
  {
    if input.req.Some? {
      var req := input.req.value;
      if req.kind == DISCOVER {
        DiscoverKeeps(cfg, st, req, input.env);
        DiscoverExact(cfg, st, req, input.env);
      } else if req.kind == REQUEST {
        ConfirmExact(cfg, st, req);
      }
    }
  }

  lemma AgreesLater(a: seq<Lease>, b: seq<Lease>, ev: Event)
    requires a <= b && Agrees(a, ev)
    ensures Agrees(b, ev)
  {
    if Answered(ev) {
      var i :| 0 <= i < |a| && a[i].client == ev.req.value.client && ev.out.reply.yiaddr == Swap32(a[i].addr);
      assert b[i] == a[i];
    }
  }

  ghost predicate AllAgree(leases: seq<Lease>, evs: seq<Event>) {
    forall k :: 0 <= k < |evs| ==> Agrees(leases, evs[k])
  }

  /** Over a run the invariant is kept, leases only grow, and every answer agrees with the final table. */
  lemma {:induction false} RunKeeps(cfg: Config, st: State, inputs: seq<Input>)
    requires InputsOk(inputs) && Inv(cfg, st)
    ensures var (end, evs) := RunFrom(cfg, st, inputs);
      Inv(cfg, end) && st.leases <= end.leases && AllAgree(end.leases, evs)
    decreases |inputs|
  {
    if inputs != [] {
      var (st', out) := Handle(cfg, st, inputs[0].req, inputs[0].env);
      HandleKeeps(cfg, st, inputs[0]);
      if !out.Stuck? {
        RunKeeps(cfg, st', inputs[1..]);
        AgreesLater(st'.leases, RunFrom(cfg, st', inputs[1..]).0.leases, Event(inputs[0].req, out));
      }
    }
  }

  // ----- The main results

  lemma StartOk(cfg: Config)
    ensures Inv(cfg, START)
  {
    assert Blocks([]) == {};
  }

  /** In any run, over any packets, two OFFER or ACK packets carry the same address exactly when they
      answer the same client id, and the address is always one of the pool. The addresses are read from
      the reply packets themselves. */
  lemma OneAddressPerClient(cfg: Config, packets: seq<Packet>, i: nat, j: nat, sentI: seq<U8>, sentJ: seq<U8>)
    requires PacketsOk(packets)
    ensures var evs := Run(cfg, packets).1;
      AnsweredBy(cfg, evs, i, sentI) && AnsweredBy(cfg, evs, j, sentJ) ==>
        && (WordAt(sentI, 16) == WordAt(sentJ, 16) <==> evs[i].req.value.client == evs[j].req.value.client)
        && MinAddr(cfg) <= Swap32(WordAt(sentI, 16)) <= MaxAddr(cfg)
  {
    StartOk(cfg);
    RunKeeps(cfg, START, Inputs(cfg, packets));
    var (end, evs) := Run(cfg, packets);
    if AnsweredBy(cfg, evs, i, sentI) && AnsweredBy(cfg, evs, j, sentJ) {
      ReplyAddress(cfg, evs[i].out.reply, sentI);
      ReplyAddress(cfg, evs[j].out.reply, sentJ);
      assert Agrees(end.leases, evs[i]) && Agrees(end.leases, evs[j]);
      SameAddress(cfg, end.leases, evs[i].req.value.client, evs[i].out.reply.yiaddr,
                  evs[j].req.value.client, evs[j].out.reply.yiaddr);
    }
  }

  /** The k-th event sent the bytes `sent` as an OFFER or ACK. */
  predicate AnsweredBy(cfg: Config, evs: seq<Event>, k: nat, sent: seq<U8>) {
    k < |evs| && Answered(evs[k]) && ReplyLaid(cfg, evs[k].out.reply, sent)
  }

  lemma SameAddress(cfg: Config, leases: seq<Lease>, c1: seq<U8>, y1: U32, c2: seq<U8>, y2: U32)
    requires LeasesOk(cfg, leases)
    ensures Holds(leases, c1, y1) && Holds(leases, c2, y2) ==>
      (y1 == y2 <==> c1 == c2) && MinAddr(cfg) <= Swap32(y1) <= MaxAddr(cfg)
  {
    if Holds(leases, c1, y1) && Holds(leases, c2, y2) {
      var a :| 0 <= a < |leases| && leases[a].client == c1 && y1 == Swap32(leases[a].addr);
      var b :| 0 <= b < |leases| && leases[b].client == c2 && y2 == Swap32(leases[b].addr);
      OneToOne(cfg, leases, a, b);
      LeaseInPool(cfg, leases, a);
      SwapInvolution(leases[a].addr);
    }
  }

  lemma BlocksOfFront(leases: seq<Lease>)
    requires leases != []
    ensures Blocks(leases) == Blocks(leases[..|leases| - 1]) + {leases[|leases| - 1].block}
  {
    var front, last := leases[..|leases| - 1], leases[|leases| - 1];
    forall b | b in Blocks(leases) ensures b in Blocks(front) + {last.block} {
      var i :| 0 <= i < |leases| && leases[i].block == b;
      if i < |front| { assert front[i].block == b; }
    }
    forall b | b in Blocks(front) + {last.block} ensures b in Blocks(leases) {
      if b != last.block {
        var i :| 0 <= i < |front| && front[i].block == b;
        assert leases[i].block == b;
      }
    }
  }

  lemma {:induction false} BlockCount(leases: seq<Lease>)
    requires forall i, j :: 0 <= i < j < |leases| ==> leases[i].block != leases[j].block
    ensures |Blocks(leases)| == |leases|
    decreases |leases|
  {
    if leases == [] {
      assert Blocks(leases) == {};
    } else {
      var front, last := leases[..|leases| - 1], leases[|leases| - 1];
      BlockCount(front);
      BlocksOfFront(leases);
      assert last.block !in Blocks(front);
    }
  }

  /** After any run the blocks still allocated are exactly those of the leases, one each. */
  lemma NoBlockLost(cfg: Config, packets: seq<Packet>)
    requires PacketsOk(packets)
    ensures var end := Run(cfg, packets).0;
      end.live == Blocks(end.leases) && |end.live| == |end.leases| <= TABLE_SLOTS
  {
    StartOk(cfg);
    RunKeeps(cfg, START, Inputs(cfg, packets));
    BlockCount(Run(cfg, packets).0.leases);
  }

  /** `ev` offered that address to that client. */
  predicate Offered(ev: Event, client: seq<U8>, yiaddr: U32) {
    Answered(ev) && ev.out.reply.kind == OFFER && ev.req.value.client == client && ev.out.reply.yiaddr == yiaddr
  }

  ghost predicate OfferedBy(evs: seq<Event>, k: nat, client: seq<U8>, yiaddr: U32) {
    exists n :: 0 <= n <= k && n < |evs| && Offered(evs[n], client, yiaddr)
  }

  /** A lease that was not there before a packet was offered in answer to it. */
  lemma NewLeaseIsOffered(cfg: Config, st: State, input: Input, client: seq<U8>)
    requires Inv(cfg, st) && InputOk(input)
    ensures var (st', out) := Handle(cfg, st, input.req, input.env);
      !out.Stuck? && Known(st'.leases, client) && !Known(st.leases, client) ==>
        out.Sent? && Offered(Event(input.req, out), client, out.reply.yiaddr)
  {
    if input.req.Some? && input.req.value.kind == DISCOVER {
      var req := input.req.value;
      DiscoverExact(cfg, st, req, input.env);
      var st' := Discover(cfg, st, req, input.env).0;
      assert forall i :: 0 <= i < |st.leases| ==> st'.leases[i] == st.leases[i];
    }
  }

  lemma OfferedLater(ev: Event, rest: seq<Event>, k: nat, client: seq<U8>, yiaddr: U32)
    requires OfferedBy(rest, k, client, yiaddr)
    ensures OfferedBy([ev] + rest, k + 1, client, yiaddr)
  {
    var n :| 0 <= n <= k && n < |rest| && Offered(rest[n], client, yiaddr);
    assert ([ev] + rest)[n + 1] == rest[n];
  }

  /** Every OFFER or ACK carries an address that this run offered to that client before or just now,
      unless the client already held a lease when the run began. */
  lemma {:induction false} OfferComesFirst(cfg: Config, st: State, inputs: seq<Input>, k: nat)
    requires InputsOk(inputs) && Inv(cfg, st)
    requires var evs := RunFrom(cfg, st, inputs).1; k < |evs| && Answered(evs[k])
    ensures var evs := RunFrom(cfg, st, inputs).1;
      var c, y := evs[k].req.value.client, evs[k].out.reply.yiaddr;
      Known(st.leases, c) || OfferedBy(evs, k, c, y)
    decreases |inputs|
  {
    var (st', out) := Handle(cfg, st, inputs[0].req, inputs[0].env);
    var (end, evs) := RunFrom(cfg, st, inputs);
    var c, y := evs[k].req.value.client, evs[k].out.reply.yiaddr;
    HandleKeeps(cfg, st, inputs[0]);
    RunKeeps(cfg, st, inputs);
    assert Agrees(end.leases, evs[k]);
    if k > 0 {
      OfferComesFirst(cfg, st', inputs[1..], k - 1);
      var rest := RunFrom(cfg, st', inputs[1..]).1;
      if OfferedBy(rest, k - 1, c, y) {
        OfferedLater(evs[0], rest, k - 1, c, y);
      }
    } else {
      HolderIsKnown(st'.leases, c, y);
    }
    if Known(st'.leases, c) && !Known(st.leases, c) && !out.Stuck? {
      NewLeaseIsOffered(cfg, st, inputs[0], c);
      assert Agrees(end.leases, evs[0]);
      SameAddress(cfg, end.leases, c, y, c, out.reply.yiaddr);
      assert Offered(evs[0], c, y);
    }
  }

  lemma HolderIsKnown(leases: seq<Lease>, client: seq<U8>, yiaddr: U32)
    ensures Holds(leases, client, yiaddr) ==> Known(leases, client)
  {
  }

  /** Nobody is answered with an address that was not offered to it first. */
  lemma NoAckBeforeOffer(cfg: Config, packets: seq<Packet>, k: nat)
    requires PacketsOk(packets)
    requires var evs := Run(cfg, packets).1; k < |evs| && Answered(evs[k])
    ensures var evs := Run(cfg, packets).1;
      OfferedBy(evs, k, evs[k].req.value.client, evs[k].out.reply.yiaddr)
  {
    StartOk(cfg);
    OfferComesFirst(cfg, START, Inputs(cfg, packets), k);
  }

  // ----- The table is declared one slot too short

  /** A lease is written past the declared MAX_ADDRESS_INFO slots exactly when a third client is served. */
  lemma WritesPastDeclaredSize(cfg: Config, st: State, req: Request, env: Env)
    requires Inv(cfg, st)
    ensures var st' := Discover(cfg, st, req, env).0;
      (|st.leases| < |st'.leases| && |st.leases| >= MAX_ADDRESS_INFO) <==>
      (|st.leases| == MAX_ADDRESS_INFO && env.mallocOk && req.client != [] && !Known(st.leases, req.client))
  {
    DiscoverExact(cfg, st, req, env);
  }

  /** A DISCOVER that can be answered by broadcast. */
  predicate PlainDiscover(req: Request) {
    RequestShape(req) && req.kind == DISCOVER && req.client != [] && req.giaddr == req.ciaddr == req.yiaddr == 0
  }

  predicate NewClients(leases: seq<Lease>, reqs: seq<Request>) {
    && (forall i :: 0 <= i < |reqs| ==> PlainDiscover(reqs[i]) && !Known(leases, reqs[i].client))
    && (forall i, j :: 0 <= i < j < |reqs| ==> reqs[i].client != reqs[j].client)
  }

  function AllWell(reqs: seq<Request>): (inputs: seq<Input>)
    ensures |inputs| == |reqs|
  {
    seq(|reqs|, i requires 0 <= i < |reqs| => Input(Some(reqs[i]), Env(true, true)))
  }

  lemma NewClientServed(cfg: Config, st: State, req: Request)
    requires Inv(cfg, st) && |st.leases| < TABLE_SLOTS && NewClients(st.leases, [req])
    ensures PlainDiscover(req)
    ensures var (st', out) := Handle(cfg, st, Some(req), Env(true, true));
      && Inv(cfg, st') && |st'.leases| == |st.leases| + 1
      && st'.leases[..|st.leases|] == st.leases && st'.leases[|st.leases|].client == req.client
      && out.Sent? && out.reply.kind == OFFER
  {
    assert [req][0] == req;
    HandleKeeps(cfg, st, Input(Some(req), Env(true, true)));
    DiscoverExact(cfg, st, req, Env(true, true));
  }

  lemma StillNew(before: seq<Lease>, after: seq<Lease>, reqs: seq<Request>)
    requires reqs != [] && NewClients(before, reqs)
    requires |after| == |before| + 1 && after[..|before|] == before
    requires after[|before|].client == reqs[0].client
    ensures NewClients(after, reqs[1..])
  {
    forall i | 1 <= i < |reqs| ensures !Known(after, reqs[i].client) {
      forall n | 0 <= n < |after| ensures after[n].client != reqs[i].client {
        if n < |before| {
          assert after[..|before|][n] == before[n];
        }
      }
    }
  }

  /** As many new clients as there are slots left are all served, in order. */
  lemma {:induction false} NewClientsServed(cfg: Config, st: State, reqs: seq<Request>)
    requires Inv(cfg, st) && |st.leases| + |reqs| <= TABLE_SLOTS && NewClients(st.leases, reqs)
    requires InputsOk(AllWell(reqs))
    ensures var (end, evs) := RunFrom(cfg, st, AllWell(reqs));
      && |end.leases| == |st.leases| + |reqs|
      && |evs| == |reqs|
      && forall k :: 0 <= k < |evs| ==> evs[k].out.Sent? && evs[k].out.reply.kind == OFFER
    decreases |reqs|
  {
    if reqs != [] {
      var inputs := AllWell(reqs);
      assert inputs[0] == Input(Some(reqs[0]), Env(true, true));
      assert inputs[1..] == AllWell(reqs[1..]);
      NewClientServed(cfg, st, reqs[0]);
      var st' := Handle(cfg, st, Some(reqs[0]), Env(true, true)).0;
      StillNew(st.leases, st'.leases, reqs);
      NewClientsServed(cfg, st', reqs[1..]);
    }
  }

  /** The declared table does overflow: three new clients are all answered, which takes a slot more than it has. */
  lemma ThreeClientsServed(cfg: Config, reqs: seq<Request>)
    requires |reqs| == 3 && NewClients([], reqs)
    ensures InputsOk(AllWell(reqs))
    ensures var (end, evs) := RunFrom(cfg, START, AllWell(reqs));
      && |end.leases| == 3 > MAX_ADDRESS_INFO && |evs| == 3
      && forall k :: 0 <= k < 3 ==> evs[k].out.Sent? && evs[k].out.reply.kind == OFFER
  {
    StartOk(cfg);
    NewClientsServed(cfg, START, reqs);
  }
}
