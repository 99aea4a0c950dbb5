/** The interface state machine (core/net_state.c). A driver operation or the user's notification callback
    may report further events while an event is being handled: such re-entry is a tree of calls. */
module NetState {

  datatype State =
    | Deinitialized | Initialized | Starting | Ready | Connecting | Connected
    | Stopping | Disconnecting | ConnectionLost

  datatype Event =
    | CmdInit | CmdStart | CmdConnect | CmdDisconnect | CmdStop | CmdDeinit
    | InterfaceInitialized | InterfaceReady | LinkUp | LinkDown | IpAddr

  /** One event, the events the user callback reports when it is notified, and those the driver operation
      (if one is called) reports before it returns `driverRet`. */
  datatype Call = Call(event: Event, onNotify: seq<Call>, onDriver: seq<Call>, driverRet: int)

  const NET_OK := 0
  const NET_ERROR_INTERFACE_FAILURE := -17
  const NET_ERROR_INVALID_STATE := -28

  /** What a state does with an event: nothing, a change of state, or one with a driver operation. */
  datatype Action = Ignore | Move(to: State) | MoveThenDrive(to: State) | DriveThenMove(to: State)

  function React(s: State, e: Event): Action {
    match (s, e)
    case (Initialized, CmdStart) => MoveThenDrive(Starting)
    case (Initialized, CmdDeinit) => DriveThenMove(Deinitialized)
    case (Starting, InterfaceReady) => Move(Ready)
    case (Starting, CmdStop) => MoveThenDrive(Initialized)
    case (Ready, CmdConnect) => MoveThenDrive(Connecting)
    case (Ready, CmdStop) => MoveThenDrive(Stopping)
    case (Connecting, IpAddr) => Move(Connected)
    case (Connecting, CmdDisconnect) => Move(Ready)
    case (Connected, CmdDisconnect) => MoveThenDrive(Disconnecting)
    case (Connected, LinkDown) => Move(ConnectionLost)
    case (Connected, IpAddr) => Move(Connected)
    case (Disconnecting, InterfaceReady) => Move(Ready)
    case (Stopping, InterfaceInitialized) => Move(Initialized)
    case (ConnectionLost, LinkUp) => Move(Connecting)
    case _ => Ignore
  }

  function Status(driverRet: int): int {
    if driverRet == NET_OK then NET_OK else NET_ERROR_INTERFACE_FAILURE
  }

  /** Final state, notified states in order, and return code. */
  datatype Result = Result(state: State, notified: seq<State>, ret: int)

  function Manage(s: State, c: Call): Result
    decreases c, 1
  {
    if s == Deinitialized then Result(s, [], NET_ERROR_INVALID_STATE)
    else
      match React(s, c.event)
      case Ignore => Result(s, [], NET_OK)
      case Move(to) =>
        var n := RunAll(to, c.onNotify);
        Result(n.state, [to] + n.notified, NET_OK)
      case MoveThenDrive(to) =>
        var n := RunAll(to, c.onNotify);
        var d := RunAll(n.state, c.onDriver);
        Result(d.state, [to] + n.notified + d.notified, Status(c.driverRet))
      case DriveThenMove(to) =>
        var d := RunAll(s, c.onDriver);
        var n := RunAll(to, c.onNotify);
        Result(n.state, d.notified + [to] + n.notified, Status(c.driverRet))
  }

  /** Calls one after the other. */
  function RunAll(s: State, cs: seq<Call>): Result
    decreases cs, 0
  {
    if cs == [] then Result(s, [], NET_OK)
    else
      var r := Manage(s, cs[0]);
      var rest := RunAll(r.state, cs[1..]);
      Result(rest.state, r.notified + rest.notified, NET_OK)
  }

  // ----- The interface object

  class Interface {
    var state: State
    ghost var notified: seq<State>

    constructor ()
      ensures state == Initialized && notified == []
    {
      state, notified := Initialized, [];
    }

    /** The object went through `r`. */
    twostate predicate Did(r: Result)
      reads this
    {
      state == r.state && notified == old(notified) + r.notified
    }

    method SetState(to: State, onNotify: seq<Call>)
      modifies this
      ensures state == RunAll(to, onNotify).state
      ensures notified == old(notified) + [to] + RunAll(to, onNotify).notified
      decreases onNotify, 1
    {
      state := to;
      notified := notified + [to];
      Report(onNotify);
    }

    /** Events reported one after the other, by the callback or by the driver. */
    method Report(cs: seq<Call>)
      modifies this
      ensures Did(RunAll(old(state), cs))
      decreases cs, 0
    {
      if cs != [] {
        var ret := ManageEvent(cs[0]);
        Report(cs[1..]);
      }
    }

    method Drive(c: Call) returns (ret: int)
      modifies this
      ensures Did(RunAll(old(state), c.onDriver)) && ret == Status(c.driverRet)
      decreases c, 0
    {
      Report(c.onDriver);
      ret := c.driverRet;
      if ret != NET_OK {
        ret := NET_ERROR_INTERFACE_FAILURE;
      }
    }

    method WhenInitialized(c: Call) returns (ret: int)
      requires state == Initialized
      modifies this
      ensures Did(Manage(old(state), c)) && ret == Manage(old(state), c).ret
      decreases c, 1
    {
      ret := NET_OK;
      if c.event == CmdStart {
        SetState(Starting, c.onNotify);
        ret := Drive(c);
      } else if c.event == CmdDeinit {
        ret := Drive(c);
        SetState(Deinitialized, c.onNotify);
      }
    }

    method WhenStarting(c: Call) returns (ret: int)
      requires state == Starting
      modifies this
      ensures Did(Manage(old(state), c)) && ret == Manage(old(state), c).ret
      decreases c, 1
    {
      ret := NET_OK;
      if c.event == InterfaceReady {
        SetState(Ready, c.onNotify);
      } else if c.event == CmdStop {
        SetState(Initialized, c.onNotify);
        ret := Drive(c);
      }
    }

    method WhenReady(c: Call) returns (ret: int)
      requires state == Ready
      modifies this
      ensures Did(Manage(old(state), c)) && ret == Manage(old(state), c).ret
      decreases c, 1
    {
      ret := NET_OK;
      if c.event == CmdConnect {
        SetState(Connecting, c.onNotify);
        ret := Drive(c);
      } else if c.event == CmdStop {
        SetState(Stopping, c.onNotify);
        ret := Drive(c);
      }
    }

    method WhenConnecting(c: Call) returns (ret: int)
      requires state == Connecting
      modifies this
      ensures Did(Manage(old(state), c)) && ret == Manage(old(state), c).ret
      decreases c, 1
    {
      ret := NET_OK;
      if c.event == IpAddr {
        SetState(Connected, c.onNotify);
      } else if c.event == CmdDisconnect {
        SetState(Ready, c.onNotify);
      }
    }

    method WhenConnected(c: Call) returns (ret: int)
      requires state == Connected
      modifies this
      ensures Did(Manage(old(state), c)) && ret == Manage(old(state), c).ret
      decreases c, 1
    {
      ret := NET_OK;
      if c.event == CmdDisconnect {
        SetState(Disconnecting, c.onNotify);
        ret := Drive(c);
      } else if c.event == LinkDown {
        SetState(ConnectionLost, c.onNotify);
      } else if c.event == IpAddr {
        SetState(Connected, c.onNotify);
      }
    }

    method WhenDisconnecting(c: Call) returns (ret: int)
      requires state == Disconnecting
      modifies this
      ensures Did(Manage(old(state), c)) && ret == Manage(old(state), c).ret
      decreases c, 1
    {
      ret := NET_OK;
      if c.event == InterfaceReady {
        SetState(Ready, c.onNotify);
      }
    }

    method WhenStopping(c: Call) returns (ret: int)
      requires state == Stopping
      modifies this
      ensures Did(Manage(old(state), c)) && ret == Manage(old(state), c).ret
      decreases c, 1
    {
      ret := NET_OK;
      if c.event == InterfaceInitialized {
        SetState(Initialized, c.onNotify);
      }
    }

    method WhenConnectionLost(c: Call) returns (ret: int)
      requires state == ConnectionLost
      modifies this
      ensures Did(Manage(old(state), c)) && ret == Manage(old(state), c).ret
      decreases c, 1
    {
      ret := NET_OK;
      if c.event == LinkUp {
        SetState(Connecting, c.onNotify);
      }
    }

    /** One event, dispatched on the current state. */
    method ManageEvent(c: Call) returns (ret: int)
      modifies this
      ensures Did(Manage(old(state), c)) && ret == Manage(old(state), c).ret
      decreases c, 2
    {
      match state {
        case Initialized => ret := WhenInitialized(c);
        case Starting => ret := WhenStarting(c);
        case Ready => ret := WhenReady(c);
        case Connecting => ret := WhenConnecting(c);
        case Connected => ret := WhenConnected(c);
        case Disconnecting => ret := WhenDisconnecting(c);
        case ConnectionLost => ret := WhenConnectionLost(c);
        case Stopping => ret := WhenStopping(c);
        case Deinitialized => ret := NET_ERROR_INVALID_STATE;
      }
    }
  }

  // ----- Notified states follow the transition graph

  predicate Edge(s: State, t: State) {
    match s
    case Deinitialized => false
    case Initialized => t == Starting || t == Deinitialized
    case Starting => t == Ready || t == Initialized
    case Ready => t == Connecting || t == Stopping
    case Connecting => t == Connected || t == Ready
    case Connected => t == Disconnecting || t == ConnectionLost || t == Connected
    case Stopping => t == Initialized
    case Disconnecting => t == Ready
    case ConnectionLost => t == Connecting
  }

  predicate Path(s: State, ts: seq<State>)
    decreases |ts|
  {
    ts == [] || (Edge(s, ts[0]) && Path(ts[0], ts[1..]))
  }

  function Last(s: State, ts: seq<State>): State {
    if ts == [] then s else ts[|ts| - 1]
  }

  /** Whatever if_deinit reports back leaves the interface where it was. */
  predicate DeinitOrderly(s: State, c: Call)
    decreases c, 1
  {
    s != Deinitialized ==>
      match React(s, c.event)
      case Ignore => true
      case Move(to) => AllOrderly(to, c.onNotify)
      case MoveThenDrive(to) =>
        AllOrderly(to, c.onNotify) && AllOrderly(RunAll(to, c.onNotify).state, c.onDriver)
      case DriveThenMove(to) =>
        && AllOrderly(s, c.onDriver) && RunAll(s, c.onDriver).state == Initialized
        && AllOrderly(to, c.onNotify)
  }

  predicate AllOrderly(s: State, cs: seq<Call>)
    decreases cs, 0
  {
    cs == [] || (DeinitOrderly(s, cs[0]) && AllOrderly(Manage(s, cs[0]).state, cs[1..]))
  }

  lemma {:induction false} PathJoin(s: State, a: seq<State>, b: seq<State>)
    ensures Path(s, a + b) <==> Path(s, a) && Path(Last(s, a), b)
    ensures Last(s, a + b) == Last(Last(s, a), b)
    decreases |a|
  {
    if a == [] {
      assert a + b == b;
    } else {
      assert (a + b)[1..] == a[1..] + b;
      PathJoin(a[0], a[1..], b);
    }
  }

  lemma PathCons(s: State, t: State, b: seq<State>)
    ensures Path(s, [t] + b) <==> Edge(s, t) && Path(t, b)
    ensures Last(s, [t] + b) == Last(t, b)
  {
    assert ([t] + b)[1..] == b;
  }

  lemma PathNil(s: State)
    ensures Path(s, []) && Last(s, []) == s
  {
  }

  /** Every move is an edge; the move out of the driver's if_deinit is one only from INITIALIZED. */
  lemma ActionIsEdge(s: State, e: Event)
    requires s != Deinitialized
    ensures React(s, e).Move? || React(s, e).MoveThenDrive? ==> Edge(s, React(s, e).to)
    ensures React(s, e).DriveThenMove? ==>
      s == Initialized && forall t :: Edge(t, React(s, e).to) <==> t == Initialized
  {
  }

  lemma MoveDrivePath(s: State, to: State, n: seq<State>, d: seq<State>)
    ensures Path(s, [to] + n + d) <==> Edge(s, to) && Path(to, n) && Path(Last(to, n), d)
    ensures Last(s, [to] + n + d) == Last(Last(to, n), d)
  {
    PathCons(s, to, n);
    PathJoin(s, [to] + n, d);
  }

  lemma DriveMovePath(s: State, d: seq<State>, to: State, n: seq<State>)
    ensures Path(s, d + [to] + n) <==> Path(s, d) && Edge(Last(s, d), to) && Path(to, n)
    ensures Last(s, d + [to] + n) == Last(to, n)
  {
    PathCons(Last(s, d), to, n);
    PathJoin(s, d, [to] + n);
    assert d + [to] + n == d + ([to] + n);
  }

  /** The state is always the last one notified, and the notified states are a path of the graph exactly
      when if_deinit never moves the interface. */
  lemma {:induction false} NotifiedPath(s: State, c: Call)
    ensures var r := Manage(s, c);
      r.state == Last(s, r.notified) && (Path(s, r.notified) <==> DeinitOrderly(s, c))
    decreases c, 1
  {
    hide Path, Last, Edge;
    PathNil(s);
    if s != Deinitialized {
      ActionIsEdge(s, c.event);
      match React(s, c.event)
      case Ignore =>
      case Move(to) =>
        AllNotifiedPath(to, c.onNotify);
        PathCons(s, to, RunAll(to, c.onNotify).notified);
      case MoveThenDrive(to) =>
        var n := RunAll(to, c.onNotify);
        AllNotifiedPath(to, c.onNotify);
        AllNotifiedPath(n.state, c.onDriver);
        MoveDrivePath(s, to, n.notified, RunAll(n.state, c.onDriver).notified);
      case DriveThenMove(to) =>
        AllNotifiedPath(s, c.onDriver);
        AllNotifiedPath(to, c.onNotify);
        DriveMovePath(s, RunAll(s, c.onDriver).notified, to, RunAll(to, c.onNotify).notified);
    }
  }

  lemma {:induction false} AllNotifiedPath(s: State, cs: seq<Call>)
    ensures var r := RunAll(s, cs);
      r.state == Last(s, r.notified) && (Path(s, r.notified) <==> AllOrderly(s, cs))
    decreases cs, 0
  {
    if cs != [] {
      NotifiedPath(s, cs[0]);
      var r := Manage(s, cs[0]);
      AllNotifiedPath(r.state, cs[1..]);
      PathJoin(s, r.notified, RunAll(r.state, cs[1..]).notified);
    }
  }

  /** A driver that reports CMD_START from its if_deinit breaks the graph. */
  lemma DeinitMayBreakGraph()
    ensures var c := Call(CmdDeinit, [], [Call(CmdStart, [], [], 0)], 0);
      Manage(Initialized, c).notified == [Starting, Deinitialized]
          && !Path(Initialized, Manage(Initialized, c).notified)
  {
    var start := Call(CmdStart, [], [], 0);
    var c := Call(CmdDeinit, [], [start], 0);
    assert [start][1..] == [];
    assert Manage(Initialized, start) == Result(Starting, [Starting], 0);
    assert RunAll(Initialized, [start]).notified == [Starting];
    PathCons(Initialized, Starting, [Deinitialized]);
    PathCons(Starting, Deinitialized, []);
    assert [Starting] + [Deinitialized] == [Starting, Deinitialized];
  }

  /** Once deinitialized, no event changes or notifies anything. */
  lemma {:induction false} DeinitializedAbsorbs(cs: seq<Call>)
    ensures RunAll(Deinitialized, cs).state == Deinitialized && RunAll(Deinitialized, cs).notified == []
    decreases |cs|
  {
    if cs != [] {
      DeinitializedAbsorbs(cs[1..]);
    }
  }

  /** The events each state acts on. */
  function Handled(s: State): set<Event> {
    match s
    case Deinitialized => {}
    case Initialized => {CmdStart, CmdDeinit}
    case Starting => {InterfaceReady, CmdStop}
    case Ready => {CmdConnect, CmdStop}
    case Connecting => {IpAddr, CmdDisconnect}
    case Connected => {CmdDisconnect, LinkDown, IpAddr}
    case Stopping => {InterfaceInitialized}
    case Disconnecting => {InterfaceReady}
    case ConnectionLost => {LinkUp}
  }

  lemma ActsExactly(s: State, c: Call)
    ensures Manage(s, c).notified == [] <==> c.event !in Handled(s)
    ensures c.event !in Handled(s) ==> Manage(s, c).state == s
  {
    if s != Deinitialized && React(s, c.event) != Ignore {
      var to := React(s, c.event).to;
      assert to in Manage(s, c).notified;
    }
  }

  /** A sequence of events notifies nothing exactly when the state acts on none of them, and then leaves the state
      as it is, whatever callback and driver would have reported. */
  lemma {:induction false} UnhandledIsSilent(s: State, cs: seq<Call>)
    ensures RunAll(s, cs).notified == [] <==> forall i :: 0 <= i < |cs| ==> cs[i].event !in Handled(s)
    ensures RunAll(s, cs).notified == [] ==> RunAll(s, cs).state == s
    decreases |cs|
  {
    if cs != [] {
      ActsExactly(s, cs[0]);
      hide Manage, Handled;
      if Manage(s, cs[0]).notified == [] {
        UnhandledIsSilent(s, cs[1..]);
        assert forall i :: 0 < i < |cs| ==> cs[i] == cs[1..][i - 1];
      }
    }
  }

  lemma LoneMove(s: State, e: Event)
    ensures var n := Manage(s, Call(e, [], [], NET_OK)).notified;
      n == [] || (n == [n[0]] && Edge(s, n[0]))
  {
  }

  /** The graph is exact: its edges are the moves that single events make. */
  lemma EdgesAreEvents(s: State, t: State)
    ensures Edge(s, t) <==> exists e :: Manage(s, Call(e, [], [], NET_OK)).notified == [t]
  {
    if Edge(s, t) {
      var e := EventFor(s, t);
      assert Manage(s, Call(e, [], [], NET_OK)).notified == [t];
    }
    if e :| Manage(s, Call(e, [], [], NET_OK)).notified == [t] {
      LoneMove(s, e);
    }
  }

  function EventFor(s: State, t: State): Event
    requires Edge(s, t)
  {
    match (s, t)
    case (Initialized, Starting) => CmdStart
    case (Initialized, Deinitialized) => CmdDeinit
    case (Starting, Ready) => InterfaceReady
    case (Starting, Initialized) => CmdStop
    case (Ready, Connecting) => CmdConnect
    case (Ready, Stopping) => CmdStop
    case (Connecting, Connected) => IpAddr
    case (Connecting, Ready) => CmdDisconnect
    case (Connected, Disconnecting) => CmdDisconnect
    case (Connected, ConnectionLost) => LinkDown
    case (Connected, Connected) => IpAddr
    case (Disconnecting, Ready) => InterfaceReady
    case (Stopping, Initialized) => InterfaceInitialized
    case (ConnectionLost, Connecting) => LinkUp
    case _ => CmdInit
  }

  // ----- A condition on drivers alone

  /** Wherever CMD_DEINIT occurs, the driver's if_deinit reports neither CMD_START nor CMD_DEINIT. */
  predicate Gentle(c: Call)
    decreases c, 1
  {
    && (c.event == CmdDeinit ==> NoCommand(c.onDriver))
    && AllGentle(c.onNotify) && AllGentle(c.onDriver)
  }

  predicate AllGentle(cs: seq<Call>)
    decreases cs, 0
  {
    cs == [] || (Gentle(cs[0]) && AllGentle(cs[1..]))
  }

  predicate NoCommand(cs: seq<Call>) {
    forall i :: 0 <= i < |cs| ==> cs[i].event != CmdStart && cs[i].event != CmdDeinit
  }

  lemma NoCommandStays(cs: seq<Call>)
    requires NoCommand(cs)
    ensures RunAll(Initialized, cs).state == Initialized
  {
    UnhandledIsSilent(Initialized, cs);
  }

  lemma {:induction false} GentleIsOrderly(s: State, c: Call)
    requires Gentle(c)
    ensures DeinitOrderly(s, c)
    decreases c, 1
  {
    if s != Deinitialized {
      match React(s, c.event)
      case Ignore =>
      case Move(to) =>
        AllGentleIsOrderly(to, c.onNotify);
      case MoveThenDrive(to) =>
        AllGentleIsOrderly(to, c.onNotify);
        AllGentleIsOrderly(RunAll(to, c.onNotify).state, c.onDriver);
      case DriveThenMove(to) =>
        AllGentleIsOrderly(s, c.onDriver);
        AllGentleIsOrderly(to, c.onNotify);
        NoCommandStays(c.onDriver);
    }
  }

  lemma {:induction false} AllGentleIsOrderly(s: State, cs: seq<Call>)
    requires AllGentle(cs)
    ensures AllOrderly(s, cs)
    decreases cs, 0
  {
    if cs != [] {
      GentleIsOrderly(s, cs[0]);
      AllGentleIsOrderly(Manage(s, cs[0]).state, cs[1..]);
    }
  }

  /** With drivers whose if_deinit reports neither CMD_START nor CMD_DEINIT, whatever else they and the callbacks
      report at any depth, the notified states are a path of the transition graph. */
  lemma GentleDriversKeepToGraph(s: State, cs: seq<Call>)
    requires AllGentle(cs)
    ensures var r := RunAll(s, cs);
      Path(s, r.notified) && r.state == Last(s, r.notified)
  {
    AllGentleIsOrderly(s, cs);
    AllNotifiedPath(s, cs);
  }

  // ----- What a caller gets back, and when the driver runs

  /** The events that call one of the driver's operations. */
  predicate Drives(s: State, e: Event) {
    match s
    case Initialized => e == CmdStart || e == CmdDeinit
    case Starting => e == CmdStop
    case Ready => e == CmdConnect || e == CmdStop
    case Connected => e == CmdDisconnect
    case _ => false
  }

  /** A failing if_start, if_connect, if_disconnect, if_stop or if_deinit is reported as an interface failure, a
      de-initialized interface as an invalid state, and nothing else as an error. */
  lemma ReturnCodes(s: State, c: Call)
    ensures Manage(s, c).ret ==
      if s == Deinitialized then -28 else if Drives(s, c.event) && c.driverRet != 0 then -17 else 0
  {
  }

  /** What the driver reports makes a difference for exactly these events. */
  lemma DriverRunsExactly(s: State, e: Event)
    ensures Drives(s, e) <==>
      exists cs :: Manage(s, Call(e, [], cs, NET_OK)).notified != Manage(s, Call(e, [], [], NET_OK)).notified
  {
    if Drives(s, e) {
      var report := Call(Heard(s, e), [], [], NET_OK);
      RunOne(if e == CmdDeinit then s else React(s, e).to, report);
      assert Manage(s, Call(e, [], [report], NET_OK)).notified != Manage(s, Call(e, [], [], NET_OK)).notified;
    }
  }

  /** A report that the driver operation's state acts on. */
  function Heard(s: State, e: Event): Event {
    if s == Initialized && e == CmdStart then InterfaceReady
    else if s == Ready && e == CmdConnect then IpAddr
    else if s == Ready then InterfaceInitialized
    else if s == Connected then InterfaceReady
    else CmdStart
  }

  lemma Alone(s: State, e: Event)
    requires React(s, e).Move?
    ensures Manage(s, Call(e, [], [], NET_OK)) == Result(React(s, e).to, [React(s, e).to], NET_OK)
  {
  }

  /** The callback hears of the new state before the driver works, */
  lemma CallbackThenDriver()
    ensures var ip, down := Call(IpAddr, [], [], NET_OK), Call(LinkDown, [], [], NET_OK);
      Manage(Ready, Call(CmdConnect, [ip], [down], NET_OK)).notified == [Connecting, Connected, ConnectionLost]
  {
    var ip, down := Call(IpAddr, [], [], NET_OK), Call(LinkDown, [], [], NET_OK);
    Alone(Connecting, IpAddr);
    Alone(Connected, LinkDown);
    RunOne(Connecting, ip);
    RunOne(Connected, down);
    hide RunAll;
  }

  /** except at the end, where the driver goes first. */
  lemma DriverThenCallback(c: Call)
    requires c.event == CmdDeinit
    ensures Manage(Initialized, c).notified == RunAll(Initialized, c.onDriver).notified + [Deinitialized]
  {
    DeafAfterwards(c.onNotify);
    hide RunAll;
    assert RunAll(Initialized, c.onDriver).notified + [Deinitialized] + [] ==
      RunAll(Initialized, c.onDriver).notified + [Deinitialized];
  }

  lemma {:induction false} DeafAfterwards(cs: seq<Call>)
    ensures RunAll(Deinitialized, cs).notified == []
  {
    if cs != [] {
      DeafAfterwards(cs[1..]);
    }
  }

  // ----- The normal flow: start, connect, disconnect, stop

  predicate LinkEvent(e: Event) {
    e == LinkUp || e == LinkDown || e == IpAddr
  }

  /** Link and address events only, also in every re-entry. */
  predicate LinkOnly(c: Call)
    decreases c, 1
  {
    LinkEvent(c.event) && AllLink(c.onNotify) && AllLink(c.onDriver)
  }

  predicate AllLink(cs: seq<Call>)
    decreases cs, 0
  {
    cs == [] || (LinkOnly(cs[0]) && AllLink(cs[1..]))
  }

  predicate Live(s: State) {
    s == Connecting || s == Connected || s == ConnectionLost
  }

  /** Link and address events neither enter nor leave {CONNECTING, CONNECTED, CONNECTION_LOST}, and do
      nothing outside it. */
  lemma {:induction false} LinkStaysLive(s: State, c: Call)
    requires LinkOnly(c)
    ensures var r := Manage(s, c);
      if Live(s) then Live(r.state) else r.state == s && r.notified == []
    decreases c, 1
  {
    if s != Deinitialized && React(s, c.event).Move? {
      AllLinkStaysLive(React(s, c.event).to, c.onNotify);
    }
  }

  lemma {:induction false} AllLinkStaysLive(s: State, cs: seq<Call>)
    requires AllLink(cs)
    ensures var r := RunAll(s, cs);
      if Live(s) then Live(r.state) else r.state == s && r.notified == []
    decreases cs, 0
  {
    if cs != [] {
      LinkStaysLive(s, cs[0]);
      AllLinkStaysLive(Manage(s, cs[0]).state, cs[1..]);
    }
  }

  /** A driver operation that reports its completion once, among link and address events. */
  ghost predicate Completes(cs: seq<Call>, done: Event) {
    exists before, c, after :: cs == before + [c] + after && CompletesWith(before, c, after, done)
  }

  predicate CompletesWith(before: seq<Call>, c: Call, after: seq<Call>, done: Event) {
    AllLink(before) && AllLink(after) && c.event == done && AllLink(c.onNotify)
  }

  lemma {:induction false} RunJoin(s: State, a: seq<Call>, b: seq<Call>)
    ensures RunAll(s, a + b).state == RunAll(RunAll(s, a).state, b).state
    decreases |a|
  {
    if a == [] {
      assert a + b == b;
    } else {
      assert (a + b)[0] == a[0] && (a + b)[1..] == a[1..] + b;
      RunJoin(Manage(s, a[0]).state, a[1..], b);
    }
  }

  lemma RunOne(s: State, c: Call)
    ensures RunAll(s, [c]).state == Manage(s, c).state && RunAll(s, [c]).notified == Manage(s, c).notified
  {
    assert [c][1..] == [];
    hide Manage;
    assert Manage(s, c).notified + [] == Manage(s, c).notified;
  }

  /** The completion event takes effect whatever link events surround it. */
  lemma CompletionTakes(s: State, cs: seq<Call>, done: Event, to: State)
    requires Completes(cs, done) && s != Deinitialized && React(s, done) == Move(to) && !Live(s) && !Live(to)
    ensures RunAll(s, cs).state == to
  {
    var before, c, after :| cs == before + [c] + after && CompletesWith(before, c, after, done);
    AllLinkStaysLive(s, before);
    AllLinkStaysLive(to, c.onNotify);
    AllLinkStaysLive(to, after);
    RunJoin(s, before + [c], after);
    RunJoin(s, before, [c]);
    RunOne(s, c);
  }

  /** A command whose callback reports link events only. */
  predicate Command(c: Call, e: Event) {
    c.event == e && AllLink(c.onNotify)
  }

  lemma StartFlow(c: Call)
    requires Command(c, CmdStart) && Completes(c.onDriver, InterfaceReady)
    ensures Manage(Initialized, c).state == Ready
  {
    AllLinkStaysLive(Starting, c.onNotify);
    CompletionTakes(Starting, c.onDriver, InterfaceReady, Ready);
  }

  lemma ConnectFlow(c: Call)
    requires Command(c, CmdConnect) && AllLink(c.onDriver)
    ensures Live(Manage(Ready, c).state)
  {
    AllLinkStaysLive(Connecting, c.onNotify);
    AllLinkStaysLive(RunAll(Connecting, c.onNotify).state, c.onDriver);
  }

  /** Disconnecting works from CONNECTING and CONNECTED and is ignored in CONNECTION_LOST. */
  lemma DisconnectFlow(s: State, c: Call)
    requires Live(s) && Command(c, CmdDisconnect) && Completes(c.onDriver, InterfaceReady)
    ensures Manage(s, c).state == if s == ConnectionLost then ConnectionLost else Ready
  {
    if s == Connecting {
      AllLinkStaysLive(Ready, c.onNotify);
    } else if s == Connected {
      AllLinkStaysLive(Disconnecting, c.onNotify);
      CompletionTakes(Disconnecting, c.onDriver, InterfaceReady, Ready);
    }
  }

  lemma StopFlow(s: State, c: Call)
    requires s == Ready || Live(s)
    requires Command(c, CmdStop) && Completes(c.onDriver, InterfaceInitialized)
    ensures Manage(s, c).state == if s == Ready then Initialized else s
  {
    if s == Ready {
      AllLinkStaysLive(Stopping, c.onNotify);
      CompletionTakes(Stopping, c.onDriver, InterfaceInitialized, Initialized);
    }
  }

  /** Start, connect, disconnect, stop, with link and address events at any time: the interface ends
      INITIALIZED exactly when the link was not lost at the moment of the disconnect; if it was, both
      commands are ignored and the interface stays among the connected states. */
  lemma NormalFlow(start: Call, connect: Call, disconnect: Call, stop: Call,
                   l0: seq<Call>, l1: seq<Call>, l2: seq<Call>, l3: seq<Call>, l4: seq<Call>)
    requires AllLink(l0) && AllLink(l1) && AllLink(l2) && AllLink(l3) && AllLink(l4)
    requires Command(start, CmdStart) && Completes(start.onDriver, InterfaceReady)
    requires Command(connect, CmdConnect) && AllLink(connect.onDriver)
    requires Command(disconnect, CmdDisconnect) && Completes(disconnect.onDriver, InterfaceReady)
    requires Command(stop, CmdStop) && Completes(stop.onDriver, InterfaceInitialized)
    ensures
      var up := RunAll(Initialized, l0 + [start] + l1 + [connect] + l2).state;
      var end := RunAll(up, [disconnect] + l3 + [stop] + l4).state;
      && Live(up)
      && (end == Initialized <==> up != ConnectionLost)
      && (end != Initialized ==> Live(end))
  {
    hide *;
    var up := BringUp(start, connect, l0, l1, l2);
    TakeDown(up, disconnect, stop, l3, l4);
  }

  /** Four pieces of a run, one after the other. */
  lemma RunFour(s: State, a: Call, b: seq<Call>, c: Call, d: seq<Call>)
    ensures var s1 := Manage(s, a).state;
      var s2 := RunAll(s1, b).state;
      var s3 := Manage(s2, c).state;
      RunAll(s, [a] + b + [c] + d).state == RunAll(s3, d).state
  {
    hide Manage, RunAll;
    RunOne(s, a);
    RunJoin(s, [a], b);
    RunJoin(s, [a] + b, [c]);
    RunOne(RunAll(s, [a] + b).state, c);
    RunJoin(s, [a] + b + [c], d);
  }

  lemma TakeDown(up: State, disconnect: Call, stop: Call, l3: seq<Call>, l4: seq<Call>)
    requires Live(up) && AllLink(l3) && AllLink(l4)
    requires Command(disconnect, CmdDisconnect) && Completes(disconnect.onDriver, InterfaceReady)
    requires Command(stop, CmdStop) && Completes(stop.onDriver, InterfaceInitialized)
    ensures var end := RunAll(up, [disconnect] + l3 + [stop] + l4).state;
      (end == Initialized <==> up != ConnectionLost) && (end != Initialized ==> Live(end))
  {
    hide Manage, RunAll, AllLink, LinkOnly, Command, Completes;
    RunFour(up, disconnect, l3, stop, l4);
    DisconnectFlow(up, disconnect);
    var s1 := Manage(up, disconnect).state;
    AllLinkStaysLive(s1, l3);
    var s2 := RunAll(s1, l3).state;
    StopFlow(s2, stop);
    AllLinkStaysLive(Manage(s2, stop).state, l4);
  }

  lemma BringUp(start: Call, connect: Call, l0: seq<Call>, l1: seq<Call>, l2: seq<Call>) returns (up: State)
    requires AllLink(l0) && AllLink(l1) && AllLink(l2)
    requires Command(start, CmdStart) && Completes(start.onDriver, InterfaceReady)
    requires Command(connect, CmdConnect) && AllLink(connect.onDriver)
    ensures up == RunAll(Initialized, l0 + [start] + l1 + [connect] + l2).state && Live(up)
  {
    hide RunAll, Manage, AllLink, LinkOnly;
    AllLinkStaysLive(Initialized, l0);
    StartFlow(start);
    AllLinkStaysLive(Ready, l1);
    ConnectFlow(connect);
    var s := Manage(Ready, connect).state;
    AllLinkStaysLive(s, l2);
    up := RunAll(s, l2).state;
    RunOne(Initialized, start);
    RunOne(Ready, connect);
    RunJoin(Initialized, l0, [start]);
    RunJoin(Initialized, l0 + [start], l1);
    RunJoin(Initialized, l0 + [start] + l1, [connect]);
    RunJoin(Initialized, l0 + [start] + l1 + [connect], l2);
  }

  /** An address and then the loss of the link, seen by quiet callbacks, leave every live state in CONNECTION_LOST. */
  lemma AddressThenLoss(s: State)
    requires Live(s)
    ensures RunAll(s, [Call(IpAddr, [], [], NET_OK), Call(LinkDown, [], [], NET_OK)]).state == ConnectionLost
  {
    var ip, down := Call(IpAddr, [], [], NET_OK), Call(LinkDown, [], [], NET_OK);
    RunOne(s, ip);
    RunOne(Manage(s, ip).state, down);
    RunJoin(s, [ip], [down]);
    assert [ip] + [down] == [ip, down];
  }

  /** So the failing side of the normal flow is reached from every start: when the link is lost right before the
      disconnect, neither disconnect nor stop does anything. */
  lemma LostLinkBlocksFlow(start: Call, connect: Call, disconnect: Call, stop: Call,
                           l0: seq<Call>, l1: seq<Call>, l2: seq<Call>)
    requires AllLink(l0) && AllLink(l1) && AllLink(l2)
    requires Command(start, CmdStart) && Completes(start.onDriver, InterfaceReady)
    requires Command(connect, CmdConnect) && AllLink(connect.onDriver)
    requires disconnect.event == CmdDisconnect && stop.event == CmdStop
    ensures
      var loss := [Call(IpAddr, [], [], NET_OK), Call(LinkDown, [], [], NET_OK)];
      RunAll(Initialized, l0 + [start] + l1 + [connect] + l2 + loss + [disconnect] + [stop]).state == ConnectionLost
  {
    hide Manage, RunAll, AllLink, LinkOnly, Command, Completes;
    var loss := [Call(IpAddr, [], [], NET_OK), Call(LinkDown, [], [], NET_OK)];
    var flow := l0 + [start] + l1 + [connect] + l2;
    var up := BringUp(start, connect, l0, l1, l2);
    AddressThenLoss(up);
    RunJoin(Initialized, flow, loss);
    RunJoin(Initialized, flow + loss, [disconnect]);
    RunJoin(Initialized, flow + loss + [disconnect], [stop]);
    IgnoredWhenLost(disconnect);
    IgnoredWhenLost(stop);
  }

  lemma IgnoredWhenLost(c: Call)
    requires c.event == CmdDisconnect || c.event == CmdStop
    ensures RunAll(ConnectionLost, [c]).state == ConnectionLost
  {
    RunOne(ConnectionLost, c);
  }
}
