/** When a run of the DHCP server ends, how far it fills the table, and what an offer is followed by. */
module DhcpStops {
  import opened Options
  import opened Words
  import opened DhcpMessage
  import opened DhcpLeases
  import opened DhcpServer
  import opened DhcpRuns

  // ----- Failed assertions

  /** One half of the assertion on the destination never fails. */
  lemma DestinationNeverZero(req: Request, kind: U8)
    requires RequestShape(req)
    ensures Destination(req, kind) != 0
  {
  }

  /** The unicast destination of an offer or confirmation is the address the request itself carries, whatever
      address is given out. */
  lemma UnicastIgnoresGivenAddress(req: Request, kind: U8, given: U32, env: Env)
    requires RequestShape(req) && Granted(kind) && env.sendOk
    requires req.giaddr == req.ciaddr == 0 && req.flags[0] < 0x80 && req.yiaddr != 0 && req.yiaddr != LOOPBACK
    ensures var out := Deliver(req, Answer(kind, given), env);
      out.Sent? && out.reply.yiaddr == given && (out.dest == out.reply.yiaddr <==> given == req.yiaddr)
  {
  }

  /** A reply to this request would go to the loopback address. */
  predicate ToLoopback(req: Request, refusal: bool)
    requires RequestShape(req)
  {
    if req.giaddr != 0 then req.giaddr == LOOPBACK
    else if refusal then false
    else if req.ciaddr != 0 then req.ciaddr == LOOPBACK
    else req.flags[0] < 0x80 && req.yiaddr == LOOPBACK
  }

  /** A DISCOVER that gets an offer. */
  ghost predicate Offers(leases: seq<Lease>, req: Request, env: Env) {
    env.mallocOk && (Known(leases, req.client) || (|leases| < TABLE_SLOTS && req.client != []))
  }

  /** The guard of every assertion that input or environment can make fail. */
  ghost predicate Stops(leases: seq<Lease>, req: Request, env: Env)
    requires RequestShape(req)
  {
    if req.kind == DISCOVER then
      || (req.client == [] && |leases| < TABLE_SLOTS)
      || (Offers(leases, req, env) && (!env.sendOk || ToLoopback(req, false)))
    else if req.kind == REQUEST then
      || (req.forThisServer && req.ciaddr != 0)
      || (Asks(req) && (!env.sendOk || ToLoopback(req, !Entitled(leases, req))))
    else false
  }

  lemma EmptyUnknown(cfg: Config, leases: seq<Lease>)
    requires LeasesOk(cfg, leases)
    ensures !Known(leases, [])
  {
  }

  /** A packet stops the server exactly when its request meets the guard. */
  lemma StuckExact(cfg: Config, st: State, input: Input)
    requires Inv(cfg, st) && InputOk(input)
    ensures Handle(cfg, st, input.req, input.env).1.Stuck? <==>
      input.req.Some? && Stops(st.leases, input.req.value, input.env)
  {
    if input.req.Some? {
      var req := input.req.value;
      hide Inv, Discover, Confirm, Known, Holds, Entitled;
      assert LeasesOk(cfg, st.leases) by {
        InvLeases(cfg, st);
      }
      EmptyUnknown(cfg, st.leases);
      if req.kind == DISCOVER {
        DiscoverExact(cfg, st, req, input.env);
      } else if req.kind == REQUEST {
        ConfirmExact(cfg, st, req);
      }
    }
  }

  lemma InvLeases(cfg: Config, st: State)
    requires Inv(cfg, st)
    ensures LeasesOk(cfg, st.leases)
  {
  }

  /** The state in which the k-th packet is processed, while none before it stops the server. */
  function StateAt(cfg: Config, st: State, inputs: seq<Input>, k: nat): State
    requires InputsOk(inputs) && k <= |inputs|
    decreases k
  {
    if k == 0 then st
    else StateAt(cfg, Handle(cfg, st, inputs[0].req, inputs[0].env).0, inputs[1..], k - 1)
  }

  ghost predicate StopsAt(cfg: Config, st: State, inputs: seq<Input>, k: nat)
    requires InputsOk(inputs) && k < |inputs|
  {
    inputs[k].req.Some? && Stops(StateAt(cfg, st, inputs, k).leases, inputs[k].req.value, inputs[k].env)
  }

  /** A run handles every packet up to the first one that meets the guard, and ends with that one. */
  lemma {:induction false} RunEndsExactly(cfg: Config, st: State, inputs: seq<Input>)
    requires InputsOk(inputs) && Inv(cfg, st)
    ensures var evs := RunFrom(cfg, st, inputs).1;
      && |evs| <= |inputs|
      && (forall k :: 0 <= k < |evs| ==>
            (evs[k].out.Stuck? <==> StopsAt(cfg, st, inputs, k)) && (evs[k].out.Stuck? ==> k == |evs| - 1))
      && (|evs| < |inputs| ==> evs != [] && StopsAt(cfg, st, inputs, |evs| - 1))
    decreases |inputs|
  {
    if inputs != [] {
      var (st', out) := Handle(cfg, st, inputs[0].req, inputs[0].env);
      StuckExact(cfg, st, inputs[0]);
      HandleKeeps(cfg, st, inputs[0]);
      RunStep(cfg, st, inputs);
      hide Handle, Inv, Stops, RunFrom;
      if !out.Stuck? {
        RunEndsExactly(cfg, st', inputs[1..]);
        var rest := RunFrom(cfg, st', inputs[1..]).1;
        forall k | 0 < k <= |rest|
          ensures StopsAt(cfg, st, inputs, k) <==> StopsAt(cfg, st', inputs[1..], k - 1)
        {
          assert inputs[1..][k - 1] == inputs[k];
        }
      }
    }
  }

  /** The first DISCOVER with an empty client identifier stops a server that has an address to give. */
  const NAMELESS: Request :=
    Request(DISCOVER, [], BROADCAST, false, 1, 6, [0, 0, 0, 1], [0, 0], 0, 0, 0, seq(16, _ => 0))

  lemma NamelessDiscoverStops(cfg: Config, rest: seq<Input>)
    ensures RequestShape(NAMELESS) && InputOk(Input(Some(NAMELESS), Env(true, true)))
    ensures InputsOk(rest) ==>
      RunFrom(cfg, START, [Input(Some(NAMELESS), Env(true, true))] + rest) ==
      (State([], MinAddr(cfg), {}, 0), [Event(Some(NAMELESS), Stuck)])
  {
    StartOk(cfg);
    var input := Input(Some(NAMELESS), Env(true, true));
    NextFree(cfg, []);
    assert IndexOfClient([], []) == -1;
    hide FirstFree, PoolBound, MinAddr, MaxAddr;
    assert ([input] + rest)[0] == input;
  }

  // ----- After an offer

  /** A REQUEST that accepts this server's offer. */
  predicate Accepts(ev: Event, client: seq<U8>) {
    && ev.req.Some? && ev.req.value.kind == REQUEST && ev.req.value.client == client
    && ev.req.value.forThisServer && ev.req.value.ciaddr == 0
  }

  /** An event that confirms the address, unless sending the confirmation stopped the server. */
  predicate Confirms(ev: Event, yiaddr: U32) {
    ev.out.Stuck? || (ev.out.Sent? && ev.out.reply.kind == ACK && ev.out.reply.yiaddr == yiaddr)
  }

  lemma AcceptConfirmed(cfg: Config, st: State, input: Input, client: seq<U8>, y: U32)
    requires Inv(cfg, st) && InputOk(input)
    ensures var ev := Event(input.req, Handle(cfg, st, input.req, input.env).1);
      Holds(st.leases, client, y) && Accepts(ev, client) ==> Confirms(ev, y)
  {
    if input.req.Some? && input.req.value.kind == REQUEST {
      var req := input.req.value;
      InvLeases(cfg, st);
      ConfirmExact(cfg, st, req);
      HolderIsKnown(st.leases, client, y);
      var d := Confirm(st, req);
      hide Inv, Confirm, Holds, Known;
      if d.Answer? {
        SameAddress(cfg, st.leases, client, y, client, d.addr);
      }
    }
  }

  lemma HoldsLater(a: seq<Lease>, b: seq<Lease>, client: seq<U8>, y: U32)
    requires a <= b
    ensures Holds(a, client, y) ==> Holds(b, client, y)
  {
    if Holds(a, client, y) {
      var i :| 0 <= i < |a| && a[i].client == client && y == Swap32(a[i].addr);
      assert b[i] == a[i];
    }
  }

  lemma {:induction false} HolderConfirmed(cfg: Config, st: State, inputs: seq<Input>, m: nat, client: seq<U8>, y: U32)
    requires InputsOk(inputs) && Inv(cfg, st) && Holds(st.leases, client, y)
    ensures var evs := RunFrom(cfg, st, inputs).1;
      m < |evs| && Accepts(evs[m], client) ==> Confirms(evs[m], y)
    decreases |inputs|
  {
    if inputs != [] {
      var (st', out) := Handle(cfg, st, inputs[0].req, inputs[0].env);
      AcceptConfirmed(cfg, st, inputs[0], client, y);
      HandleKeeps(cfg, st, inputs[0]);
      HoldsLater(st.leases, st'.leases, client, y);
      hide Handle, Inv, Holds, Accepts, Confirms;
      if m > 0 && !out.Stuck? {
        HolderConfirmed(cfg, st', inputs[1..], m - 1, client, y);
      }
    }
  }

  lemma RunStep(cfg: Config, st: State, inputs: seq<Input>)
    requires InputsOk(inputs) && inputs != []
    ensures var (st', out) := Handle(cfg, st, inputs[0].req, inputs[0].env);
      RunFrom(cfg, st, inputs).1 ==
        [Event(inputs[0].req, out)] + if out.Stuck? then [] else RunFrom(cfg, st', inputs[1..]).1
  {
    hide Handle;
  }

  lemma OfferHeld(cfg: Config, st: State, input: Input, client: seq<U8>, y: U32)
    requires Inv(cfg, st) && InputOk(input)
    ensures var (st', out) := Handle(cfg, st, input.req, input.env);
      Inv(cfg, st') && (Offered(Event(input.req, out), client, y) ==> Holds(st'.leases, client, y))
  {
    HandleKeeps(cfg, st, input);
    hide Handle, Inv, Holds;
  }

  /** Once an address was offered to a client, every later acceptance of that client is confirmed with it. */
  lemma {:induction false} OfferThenAck(cfg: Config, st: State, inputs: seq<Input>, k: nat, m: nat,
      client: seq<U8>, y: U32)
    requires InputsOk(inputs) && Inv(cfg, st)
    ensures var evs := RunFrom(cfg, st, inputs).1;
      k < m < |evs| && Offered(evs[k], client, y) && Accepts(evs[m], client) ==> Confirms(evs[m], y)
    decreases |inputs|
  {
    if inputs != [] {
      var (st', out) := Handle(cfg, st, inputs[0].req, inputs[0].env);
      OfferHeld(cfg, st, inputs[0], client, y);
      RunStep(cfg, st, inputs);
      hide Handle, Inv, Holds, Offered, Accepts, Confirms, RunFrom;
      if !out.Stuck? && k < m {
        if k > 0 {
          OfferThenAck(cfg, st', inputs[1..], k - 1, m - 1, client, y);
        } else if Offered(Event(inputs[0].req, out), client, y) {
          HolderConfirmed(cfg, st', inputs[1..], m - 1, client, y);
        }
      }
    }
  }

  // ----- How far a run fills the table

  /** One of the first n packets is a DISCOVER of that client, and there was memory for its identifier. */
  ghost predicate Asked(inputs: seq<Input>, n: nat, client: seq<U8>) {
    exists k :: 0 <= k < n && k < |inputs| && AskedBy(inputs[k], client)
  }

  predicate AskedBy(input: Input, client: seq<U8>) {
    && input.req.Some? && input.req.value.kind == DISCOVER && input.req.value.client == client
    && client != [] && input.env.mallocOk
  }

  lemma StepServes(cfg: Config, st: State, input: Input, client: seq<U8>)
    requires Inv(cfg, st) && InputOk(input)
    ensures var st' := Handle(cfg, st, input.req, input.env).0;
      && (Known(st.leases, client) ==> Known(st'.leases, client))
      && (Known(st'.leases, client) ==> Known(st.leases, client) || AskedBy(input, client))
      && (AskedBy(input, client) ==> Known(st'.leases, client) || |st.leases| == |st'.leases| == TABLE_SLOTS)
      && |st.leases| <= |st'.leases|
  {
    if input.req.Some? && input.req.value.kind == DISCOVER {
      var req := input.req.value;
      DiscoverExact(cfg, st, req, input.env);
      var st' := Discover(cfg, st, req, input.env).0;
      EmptyUnknown(cfg, st.leases);
      KnownWithOneMore(st.leases, st'.leases, client);
    }
  }

  lemma KnownWithOneMore(a: seq<Lease>, b: seq<Lease>, client: seq<U8>)
    requires b == a || (|b| == |a| + 1 && b[..|a|] == a)
    ensures Known(b, client) <==> Known(a, client) || (|b| > |a| && b[|a|].client == client)
  {
    if Known(a, client) {
      var i :| 0 <= i < |a| && a[i].client == client;
      assert b[..|a|][i] == b[i] || b == a;
      assert b[i].client == client;
    }
    if Known(b, client) {
      var i :| 0 <= i < |b| && b[i].client == client;
      if i < |a| {
        assert b == a || b[..|a|][i] == b[i];
        assert a[i].client == client;
      }
    }
  }

  lemma AskedFirst(inputs: seq<Input>, n: nat, client: seq<U8>)
    requires inputs != []
    ensures Asked(inputs, n + 1, client) <==> AskedBy(inputs[0], client) || Asked(inputs[1..], n, client)
  {
    if k :| 0 <= k < n + 1 && k < |inputs| && AskedBy(inputs[k], client) {
      if k > 0 {
        assert AskedBy(inputs[1..][k - 1], client);
      }
    }
    if k :| 0 <= k < n && k < |inputs[1..]| && AskedBy(inputs[1..][k], client) {
      assert AskedBy(inputs[k + 1], client);
    }
  }

  /** Of the n packets processed, those that asked for an address have one, and nobody else has a new one. */
  ghost predicate Served(st: State, end: State, inputs: seq<Input>, n: nat, client: seq<U8>) {
    && |st.leases| <= |end.leases|
    && (Known(st.leases, client) ==> Known(end.leases, client))
    && (Known(end.leases, client) ==> Known(st.leases, client) || Asked(inputs, n, client))
    && (Asked(inputs, n, client) ==> Known(end.leases, client) || |end.leases| == TABLE_SLOTS)
  }

  /** After a run the known clients are those known before and those that asked, as long as the table has room. */
  lemma {:induction false} RunServes(cfg: Config, st: State, inputs: seq<Input>, client: seq<U8>)
    requires InputsOk(inputs) && Inv(cfg, st)
    ensures Served(st, RunFrom(cfg, st, inputs).0, inputs, |RunFrom(cfg, st, inputs).1|, client)
    decreases |inputs|
  {
    if inputs != [] {
      var (st', out) := Handle(cfg, st, inputs[0].req, inputs[0].env);
      HandleKeeps(cfg, st, inputs[0]);
      StepServes(cfg, st, inputs[0], client);
      RunKeeps(cfg, st, inputs);
      var (end, evs) := RunFrom(cfg, st, inputs);
      InvLeases(cfg, end);
      assert |end.leases| <= TABLE_SLOTS;
      hide Handle, Inv, Known, AskedBy, Asked, LeasesOk;
      AskedFirst(inputs, |evs| - 1, client);
      if out.Stuck? {
        NobodyAsked(inputs[1..], client);
      } else {
        RunServes(cfg, st', inputs[1..], client);
      }
    }
  }

  lemma NobodyAsked(inputs: seq<Input>, client: seq<U8>)
    ensures !Asked(inputs, 0, client)
  {
  }

  ghost predicate ThreeAsked(inputs: seq<Input>, n: nat) {
    exists a, b, c :: AllThreeAsked(inputs, n, a, b, c)
  }

  ghost predicate AllThreeAsked(inputs: seq<Input>, n: nat, a: seq<U8>, b: seq<U8>, c: seq<U8>) {
    a != b && a != c && b != c && Asked(inputs, n, a) && Asked(inputs, n, b) && Asked(inputs, n, c)
  }

  lemma ThreeNeedThree(leases: seq<Lease>, a: seq<U8>, b: seq<U8>, c: seq<U8>)
    requires a != b && a != c && b != c && Known(leases, a) && Known(leases, b) && Known(leases, c)
    ensures |leases| >= 3
  {
    var i :| 0 <= i < |leases| && leases[i].client == a;
    var j :| 0 <= j < |leases| && leases[j].client == b;
    var k :| 0 <= k < |leases| && leases[k].client == c;
    assert i != j && i != k && j != k;
  }

  /** A run stays inside the table as declared, of MAX_ADDRESS_INFO entries, exactly when no three different
      clients get as far as asking with memory for their identifiers. */
  lemma TableOverflowsExactly(cfg: Config, packets: seq<Packet>)
    requires PacketsOk(packets)
    ensures var (end, evs) := Run(cfg, packets);
      |end.leases| > MAX_ADDRESS_INFO <==> ThreeAsked(Inputs(cfg, packets), |evs|)
  {
    StartOk(cfg);
    var inputs := Inputs(cfg, packets);
    var (end, evs) := Run(cfg, packets);
    RunKeeps(cfg, START, inputs);
    InvLeases(cfg, end);
    var leases := end.leases;
    hide RunFrom, Inv, Asked;
    if |leases| > MAX_ADDRESS_INFO {
      var a, b, c := leases[0].client, leases[1].client, leases[2].client;
      assert Known(leases, a) && Known(leases, b) && Known(leases, c);
      RunServes(cfg, START, inputs, a);
      RunServes(cfg, START, inputs, b);
      RunServes(cfg, START, inputs, c);
      assert AllThreeAsked(inputs, |evs|, a, b, c);
    }
    if ThreeAsked(inputs, |evs|) {
      var a, b, c :| AllThreeAsked(inputs, |evs|, a, b, c);
      RunServes(cfg, START, inputs, a);
      RunServes(cfg, START, inputs, b);
      RunServes(cfg, START, inputs, c);
      if |leases| < TABLE_SLOTS {
        ThreeNeedThree(leases, a, b, c);
      }
    }
  }

  /** The same in whole runs: an offer is honoured. */
  lemma OfferIsHonoured(cfg: Config, packets: seq<Packet>, k: nat, m: nat, client: seq<U8>, y: U32)
    requires PacketsOk(packets)
    ensures var evs := Run(cfg, packets).1;
      k < m < |evs| && Offered(evs[k], client, y) && Accepts(evs[m], client) ==> Confirms(evs[m], y)
  {
    StartOk(cfg);
    OfferThenAck(cfg, START, Inputs(cfg, packets), k, m, client, y);
  }

  /** In whole runs: every packet is handled up to the first that meets the guard of an assertion. */
  lemma ServerStopsExactly(cfg: Config, packets: seq<Packet>)
    requires PacketsOk(packets)
    ensures var evs, inputs := Run(cfg, packets).1, Inputs(cfg, packets);
      && |evs| <= |packets|
      && (forall k :: 0 <= k < |evs| - 1 ==> !StopsAt(cfg, START, inputs, k))
      && (evs != [] ==> (evs[|evs| - 1].out.Stuck? <==> StopsAt(cfg, START, inputs, |evs| - 1)))
      && (|evs| < |packets| ==> evs != [] && StopsAt(cfg, START, inputs, |evs| - 1))
  {
    StartOk(cfg);
    RunEndsExactly(cfg, START, Inputs(cfg, packets));
  }
}
