/** Any number of threads that create, use and close sockets of core/net_socket.c, interleaved at every access to
    the socket table and at every lock operation. TLS is off; each thread uses only the sockets it created. */
module SocketThreads {
  import opened Options

  const NOBODY := -1
  const STREAM := 1
  const DGRAM := 2
  const TCP := 6
  const UDP := 17
  const NO_NETIF := -1

  /** What the caller of net_socket asked for. */
  datatype Ask = Ask(domain: int, kind: int, protocol: int)

  datatype Slot = Slot(alive: bool, idx: int, domain: int, kind: int, protocol: int, low: int, netif: int)

  // ----- Where a thread is inside a call

  /** net_socket: find_free_socket under the array lock, then the caller's values under the new socket's lock. */
  datatype NewAt =
    | WantArray | Scan | Take | Reset | WantList | InList | PutNetif(found: int) | WantLock | LeaveArray
    | PutDomain | PutKind | PutProtocol | Leave | Fail

  /** A call like net_bind (low-level socket created under the lock) or net_sendto (created without it). */
  datatype UseAt =
    | WantLock | NeedNetif | WantList | InList | PutNetif(found: int) | Default | Create | Test
    | Access | LeaveForDriver | InDriver | WantBack | Leave
    | FreeDefault | FreeCreate | FreeTest | WantSend

  /** net_closesocket. */
  datatype CloseAt = WantLock | Test | LeaveForDriver | InDriver | WantBack | ClearLow | Drop | Leave

  datatype Pc = Idle | New(a: Ask, i: nat, newAt: NewAt) | Use(h: nat, useAt: UseAt) | Close(h: nat, closeAt: CloseAt)

  /** `held` remembers, for each handle the thread holds, what it asked for. */
  datatype Thread = Thread(pc: Pc, held: map<nat, Ask>)

  /** Lock owners are thread numbers, or nobody. */
  datatype State = State(slots: seq<Slot>, arrayOwner: int, listOwner: int, locks: seq<int>, threads: seq<Thread>)

  predicate HoldsArray(pc: Pc) {
    pc.New? && match pc.newAt
      case Scan | Take | Reset | WantList | InList | PutNetif(_) | WantLock | LeaveArray | Fail => true
      case _ => false
  }

  predicate HoldsList(pc: Pc) {
    (pc.New? && pc.newAt.InList?) || (pc.Use? && pc.useAt.InList?)
  }

  predicate HoldsLock(pc: Pc, h: int) {
    match pc
    case Idle => false
    case New(_, i, at) => i == h && (at.LeaveArray? || at.PutDomain? || at.PutKind? || at.PutProtocol? || at.Leave?)
    case Use(k, at) =>
      k == h && (match at
                 case NeedNetif | WantList | InList | PutNetif(_) | Default | Create | Test | Access
                     | LeaveForDriver | Leave => true
                 case _ => false)
    case Close(k, at) => k == h && (at.Test? || at.LeaveForDriver? || at.ClearLow? || at.Drop? || at.Leave?)
  }

  // ----- One step of one thread

  function DefaultProtocol(kind: int): int {
    if kind == STREAM then TCP else if kind == DGRAM then UDP else 0
  }

  datatype LockOp = Keep | Acquire | Free

  /** A step: where the thread is next, the slot it writes, and what it does to the locks. */
  datatype Action = Action(th: Thread, write: Option<(nat, Slot)>, arrayOp: LockOp, listOp: LockOp,
      lock: Option<(nat, LockOp)>)

  function Goto(th: Thread, pc: Pc): Action {
    Action(th.(pc := pc), None, Keep, Keep, None)
  }

  function Write(th: Thread, pc: Pc, h: nat, slot: Slot): Action {
    Goto(th, pc).(write := Some((h, slot)))
  }

  function LockStep(th: Thread, pc: Pc, h: nat, op: LockOp): Action {
    Goto(th, pc).(lock := Some((h, op)))
  }

  /** net_socket, core/net_socket.c:116-152 and 179-195. `reply` is the interface the list yields. */
  function ActNew(slots: seq<Slot>, th: Thread, reply: int): Action
    requires th.pc.New?
  {
    var New(a, i, at) := th.pc;
    if |slots| <= i then
      match at
      case WantArray => Goto(th, New(a, 0, Scan)).(arrayOp := Acquire)
      case Fail => Goto(th, Idle).(arrayOp := Free)
      case _ => Goto(th, New(a, i, Fail))
    else
      match at
      case WantArray => Goto(th, New(a, 0, Scan)).(arrayOp := Acquire)
      case Scan => Goto(th, if slots[i].alive then New(a, i + 1, Scan) else New(a, i, Take))
      case Take => Write(th, New(a, i, Reset), i, slots[i].(idx := i, alive := true))
      case Reset => Write(th, New(a, i, NewAt.WantList), i, slots[i].(domain := 0, kind := 0, protocol := 0, low := -1))
      case WantList => Goto(th, New(a, i, NewAt.InList)).(listOp := Acquire)
      case InList => Goto(th, New(a, i, NewAt.PutNetif(reply))).(listOp := Free)
      case PutNetif(found) => Write(th, New(a, i, NewAt.WantLock), i, slots[i].(netif := found))
      case WantLock => LockStep(th, New(a, i, LeaveArray), i, Acquire)
      case LeaveArray => Goto(th, New(a, i, PutDomain)).(arrayOp := Free)
      case PutDomain => Write(th, New(a, i, PutKind), i, slots[i].(domain := a.domain))
      case PutKind => Write(th, New(a, i, PutProtocol), i, slots[i].(kind := a.kind))
      case PutProtocol => Write(th, New(a, i, NewAt.Leave), i, slots[i].(protocol := a.protocol))
      case Leave => LockStep(th.(held := th.held[i := a]), Idle, i, Free)
      case Fail => Goto(th, Idle).(arrayOp := Free)
  }

  /** The protocol the low-level socket is created with, when it has not been created yet. */
  function Defaulted(slot: Slot): Slot {
    if slot.low == -1 && slot.protocol == 0 then slot.(protocol := DefaultProtocol(slot.kind)) else slot
  }

  function CreatedAs(slot: Slot, reply: int): Slot {
    if slot.low == -1 then slot.(low := reply) else slot
  }

  /** net_bind and net_sendto. `reply` is the interface the list yields, the handle the driver gives, or what
      net_access_control answers. */
  function ActUse(slots: seq<Slot>, th: Thread, reply: int): Action
    requires th.pc.Use? && th.pc.h < |slots|
  {
    var Use(h, at) := th.pc;
    match at
    case WantLock => LockStep(th, Use(h, NeedNetif), h, Acquire)
    case NeedNetif => Goto(th, Use(h, if slots[h].netif == NO_NETIF then UseAt.WantList else Default))
    case WantList => Goto(th, Use(h, UseAt.InList)).(listOp := Acquire)
    case InList => Goto(th, Use(h, UseAt.PutNetif(reply))).(listOp := Free)
    case PutNetif(found) => Write(th, Use(h, Default), h, slots[h].(netif := found))
    case Default => Write(th, Use(h, Create), h, Defaulted(slots[h]))
    case Create => Write(th, Use(h, UseAt.Test), h, CreatedAs(slots[h], reply))
    case Test => Goto(th, Use(h, if slots[h].low < 0 then UseAt.Leave else Access))
    case Access => Goto(th, Use(h, if reply == 0 then UseAt.Leave else UseAt.LeaveForDriver))
    case LeaveForDriver => LockStep(th, Use(h, UseAt.InDriver), h, Free)
    case InDriver => Goto(th, Use(h, UseAt.WantBack))
    case WantBack => LockStep(th, Use(h, UseAt.Leave), h, Acquire)
    case Leave => LockStep(th, Idle, h, Free)
    case FreeDefault => Write(th, Use(h, FreeCreate), h, Defaulted(slots[h]))
    case FreeCreate => Write(th, Use(h, FreeTest), h, CreatedAs(slots[h], reply))
    case FreeTest => Goto(th, if slots[h].low < 0 then Idle else Use(h, WantSend))
    case WantSend => LockStep(th, Use(h, Access), h, Acquire)
  }

  /** net_closesocket, core/net_socket.c:757-808. */
  function ActClose(slots: seq<Slot>, th: Thread): Action
    requires th.pc.Close? && th.pc.h < |slots|
  {
    var Close(h, at) := th.pc;
    match at
    case WantLock => LockStep(th, Close(h, CloseAt.Test), h, Acquire)
    case Test => Goto(th, Close(h, if slots[h].low < 0 then Drop else CloseAt.LeaveForDriver))
    case LeaveForDriver => LockStep(th, Close(h, CloseAt.InDriver), h, Free)
    case InDriver => Goto(th, Close(h, CloseAt.WantBack))
    case WantBack => LockStep(th, Close(h, ClearLow), h, Acquire)
    case ClearLow => Write(th, Close(h, Drop), h, slots[h].(low := -1))
    case Drop => Write(th.(held := th.held - {h}), Close(h, CloseAt.Leave), h, slots[h].(alive := false))
    case Leave => LockStep(th, Idle, h, Free)
  }

  predicate InTable(slots: seq<Slot>, pc: Pc) {
    match pc
    case Idle => true
    case New(_, i, at) => i <= |slots| && (!at.WantArray? && !at.Scan? && !at.Fail? ==> i < |slots|)
    case Use(h, _) => h < |slots|
    case Close(h, _) => h < |slots|
  }

  function Act(slots: seq<Slot>, th: Thread, reply: int): Action
    requires th.pc != Idle && InTable(slots, th.pc)
  {
    match th.pc
    case New(_, _, _) => ActNew(slots, th, reply)
    case Use(_, _) => ActUse(slots, th, reply)
    case Close(_, _) => ActClose(slots, th)
  }

  function OwnerAfter(owner: int, op: LockOp, t: nat): int {
    match op
    case Keep => owner
    case Acquire => t
    case Free => NOBODY
  }

  ghost predicate WellFormed(s: State) {
    |s.locks| == |s.slots| && forall t :: 0 <= t < |s.threads| ==> InTable(s.slots, s.threads[t].pc)
  }

  /** A thread can go on unless it waits for a lock that someone owns. */
  predicate Enabled(s: State, t: nat)
    requires t < |s.threads| && |s.locks| == |s.slots| && InTable(s.slots, s.threads[t].pc)
  {
    var pc := s.threads[t].pc;
    match pc
    case Idle => false
    case New(_, i, at) =>
      (at.WantArray? ==> s.arrayOwner == NOBODY) && (at.WantList? ==> s.listOwner == NOBODY) &&
      (at.WantLock? ==> s.locks[i] == NOBODY)
    case Use(h, at) =>
      (at.WantLock? || at.WantBack? || at.WantSend? ==> s.locks[h] == NOBODY)
          && (at.WantList? ==> s.listOwner == NOBODY)
    case Close(h, at) => at.WantLock? || at.WantBack? ==> s.locks[h] == NOBODY
  }

  function Apply(s: State, t: nat, a: Action): State
    requires t < |s.threads| && |s.locks| == |s.slots|
    requires (a.write.Some? ==> a.write.value.0 < |s.slots|) && (a.lock.Some? ==> a.lock.value.0 < |s.slots|)
  {
    State(
      if a.write.Some? then s.slots[a.write.value.0 := a.write.value.1] else s.slots,
      OwnerAfter(s.arrayOwner, a.arrayOp, t),
      OwnerAfter(s.listOwner, a.listOp, t),
      if a.lock.Some? then
        s.locks[a.lock.value.0 := OwnerAfter(s.locks[a.lock.value.0], a.lock.value.1, t)]
      else s.locks,
      s.threads[t := a.th])
  }

  // ----- The invariant

  predicate Keeps(slot: Slot, a: Ask) {
    && slot.domain == a.domain && slot.kind == a.kind
    && (slot.protocol == a.protocol || (a.protocol == 0 && slot.protocol == DefaultProtocol(a.kind)))
  }

  predicate HeldOk(slot: Slot, h: nat, a: Ask) {
    slot.alive && slot.idx == h && Keeps(slot, a)
  }

  /** The slot taken by a net_socket that has not returned yet. */
  predicate Taking(pc: Pc, h: int) {
    pc.New? && pc.i == h && !pc.newAt.WantArray? && !pc.newAt.Scan? && !pc.newAt.Take? && !pc.newAt.Fail?
  }

  predicate Claims(th: Thread, h: int) {
    h in th.held || Taking(th.pc, h)
  }

  predicate PcOk(slots: seq<Slot>, th: Thread)
    requires InTable(slots, th.pc)
  {
    match th.pc
    case Idle => true
    case New(a, i, at) =>
      && (at.Take? ==> !slots[i].alive)
      && (Taking(th.pc, i) ==> slots[i].alive && slots[i].idx == i && i !in th.held)
      && (at.PutKind? || at.PutProtocol? || at.Leave? ==> slots[i].domain == a.domain)
      && (at.PutProtocol? || at.Leave? ==> slots[i].kind == a.kind)
      && (at.Leave? ==> slots[i].protocol == a.protocol)
    case Use(h, _) => h in th.held
    case Close(h, at) => if at.Leave? then h !in th.held else h in th.held
  }

  predicate ThreadOk(slots: seq<Slot>, th: Thread) {
    && InTable(slots, th.pc) && PcOk(slots, th)
    && forall h :: h in th.held ==> h < |slots| && HeldOk(slots[h], h, th.held[h])
  }

  ghost predicate Apart(x: Thread, y: Thread) {
    forall h :: !(Claims(x, h) && Claims(y, h))
  }

  ghost predicate LocksOk(s: State) {
    && |s.locks| == |s.slots|
    && (forall t :: 0 <= t < |s.threads| ==> (HoldsArray(s.threads[t].pc) <==> s.arrayOwner == t))
    && (forall t :: 0 <= t < |s.threads| ==> (HoldsList(s.threads[t].pc) <==> s.listOwner == t))
    && (forall t, h :: 0 <= t < |s.threads| && 0 <= h < |s.locks| ==>
          (HoldsLock(s.threads[t].pc, h) <==> s.locks[h] == t))
    && NOBODY <= s.arrayOwner < |s.threads| && NOBODY <= s.listOwner < |s.threads|
    && (forall h :: 0 <= h < |s.locks| ==> NOBODY <= s.locks[h] < |s.threads|)
  }

  /** No slot is lost: each one in use belongs to some thread. */
  ghost predicate Owned(s: State) {
    forall h :: 0 <= h < |s.slots| && s.slots[h].alive ==> exists t :: 0 <= t < |s.threads| && Claims(s.threads[t], h)
  }

  ghost predicate Inv(s: State) {
    && (forall t :: 0 <= t < |s.threads| ==> ThreadOk(s.slots, s.threads[t]))
    && (forall t, u :: 0 <= t < u < |s.threads| ==> Apart(s.threads[t], s.threads[u]))
    && LocksOk(s) && Owned(s)
  }

  // ----- What one step does, seen from the thread alone

  /** Locks move only as the places of the thread say, and only the thread's own slot is written. */
  predicate Sound(slots: seq<Slot>, th: Thread, a: Action) {
    && (match a.arrayOp case Keep => HoldsArray(a.th.pc) == HoldsArray(th.pc)
                     case Acquire => HoldsArray(a.th.pc) && th.pc.New? && th.pc.newAt.WantArray?
                     case Free => HoldsArray(th.pc) && !HoldsArray(a.th.pc))
    && (match a.listOp case Keep => HoldsList(a.th.pc) == HoldsList(th.pc)
                    case Acquire => HoldsList(a.th.pc) && WaitsList(th.pc)
                    case Free => HoldsList(th.pc) && !HoldsList(a.th.pc))
    && (a.write.Some? ==> var (h, x) := a.write.value;
         h < |slots| && (Claims(th, h) || (TakesFrom(th.pc, h) && HoldsArray(th.pc))) &&
         (x.alive && !slots[h].alive ==> TakesFrom(th.pc, h)) &&
         (!x.alive && slots[h].alive ==> !Claims(a.th, h)))
  }

  predicate WaitsList(pc: Pc) {
    (pc.New? && pc.newAt.WantList?) || (pc.Use? && pc.useAt.WantList?)
  }

  predicate TakesFrom(pc: Pc, h: int) {
    pc.New? && pc.newAt.Take? && pc.i == h
  }

  /** Slots held and locks held after the step. */
  ghost predicate SoundSlots(th: Thread, a: Action) {
    && (forall h :: Claims(a.th, h) ==> Claims(th, h) || TakesFrom(th.pc, h))
    && (forall h :: Claims(th, h) ==>
          Claims(a.th, h) || (a.write.Some? && a.write.value.0 == h && !a.write.value.1.alive))
    && (forall h :: TakesFrom(th.pc, h) ==> Claims(a.th, h))
  }

  ghost predicate SoundLocks(slots: seq<Slot>, th: Thread, a: Action) {
    match a.lock
    case None => forall h :: HoldsLock(a.th.pc, h) <==> HoldsLock(th.pc, h)
    case Some((k, op)) =>
      && k < |slots|
      && (forall h :: h != k ==> (HoldsLock(a.th.pc, h) <==> HoldsLock(th.pc, h)))
      && (op.Acquire? ==> HoldsLock(a.th.pc, k) && !HoldsLock(th.pc, k))
      && (op.Free? ==> HoldsLock(th.pc, k) && !HoldsLock(a.th.pc, k))
      && !op.Keep?
  }

  function SlotsAfter(slots: seq<Slot>, a: Action): seq<Slot>
    requires a.write.Some? ==> a.write.value.0 < |slots|
  {
    if a.write.Some? then slots[a.write.value.0 := a.write.value.1] else slots
  }

  lemma ActSound(slots: seq<Slot>, th: Thread, reply: int)
    requires ThreadOk(slots, th) && th.pc != Idle
    ensures Sound(slots, th, Act(slots, th, reply))
  {
  }

  lemma ActSoundSlots(slots: seq<Slot>, th: Thread, reply: int)
    requires ThreadOk(slots, th) && th.pc != Idle
    ensures SoundSlots(th, Act(slots, th, reply))
  {
  }

  lemma ActSoundLocks(slots: seq<Slot>, th: Thread, reply: int)
    requires ThreadOk(slots, th) && th.pc != Idle
    ensures SoundLocks(slots, th, Act(slots, th, reply))
  {
  }

  ghost predicate StaysOk(slots: seq<Slot>, a: Action) {
    (a.write.Some? ==> a.write.value.0 < |slots|) && ThreadOk(SlotsAfter(slots, a), a.th)
  }

  lemma NewThreadOk(slots: seq<Slot>, th: Thread, reply: int)
    requires ThreadOk(slots, th) && th.pc.New?
    ensures StaysOk(slots, ActNew(slots, th, reply))
  {
  }

  lemma UseThreadOk(slots: seq<Slot>, th: Thread, reply: int)
    requires ThreadOk(slots, th) && th.pc.Use?
    ensures StaysOk(slots, ActUse(slots, th, reply))
  {
  }

  lemma CloseThreadOk(slots: seq<Slot>, th: Thread)
    requires ThreadOk(slots, th) && th.pc.Close?
    ensures StaysOk(slots, ActClose(slots, th))
  {
  }

  lemma ActThreadOk(slots: seq<Slot>, th: Thread, reply: int)
    requires ThreadOk(slots, th) && th.pc != Idle
    ensures StaysOk(slots, Act(slots, th, reply))
  {
    hide StaysOk, ActNew, ActUse, ActClose, ThreadOk;
    match th.pc
    case New(_, _, _) => NewThreadOk(slots, th, reply);
    case Use(_, _) => UseThreadOk(slots, th, reply);
    case Close(_, _) => CloseThreadOk(slots, th);
  }

  // ----- One step in the system

  function Step(s: State, t: nat, reply: int): State
    requires t < |s.threads| && Inv(s) && Enabled(s, t)
  {
    var a := Act(s.slots, s.threads[t], reply);
    ActThreadOk(s.slots, s.threads[t], reply);
    ActSoundLocks(s.slots, s.threads[t], reply);
    Apply(s, t, a)
  }

  /** The other threads do not notice the write. */
  lemma OtherOk(slots: seq<Slot>, th: Thread, a: Action, other: Thread)
    requires ThreadOk(slots, th) && ThreadOk(slots, other) && Apart(th, other) && Sound(slots, th, a)
    requires !(HoldsArray(th.pc) && HoldsArray(other.pc))
    ensures ThreadOk(SlotsAfter(slots, a), other)
  {
  }

  lemma StillApart(slots: seq<Slot>, th: Thread, a: Action, other: Thread)
    requires ThreadOk(slots, other) && ThreadOk(slots, th) && Apart(th, other) && SoundSlots(th, a)
    ensures Apart(a.th, other)
  {
  }

  lemma StepLocks(s: State, t: nat, a: Action)
    requires LocksOk(s) && t < |s.threads| && InTable(s.slots, s.threads[t].pc) && Enabled(s, t)
    requires Sound(s.slots, s.threads[t], a) && SoundLocks(s.slots, s.threads[t], a)
    requires a.write.Some? ==> a.write.value.0 < |s.slots|
    requires a.lock.Some? && a.lock.value.1.Acquire? ==> s.locks[a.lock.value.0] == NOBODY
    ensures LocksOk(Apply(s, t, a))
  {
    hide HoldsArray, HoldsList, HoldsLock;
  }

  lemma StepOwned(s: State, t: nat, a: Action)
    requires Owned(s) && |s.locks| == |s.slots| && t < |s.threads|
    requires Sound(s.slots, s.threads[t], a) && SoundSlots(s.threads[t], a)
    requires a.lock.Some? ==> a.lock.value.0 < |s.slots|
    ensures Owned(Apply(s, t, a))
  {
    hide Claims, HoldsArray, HoldsList, TakesFrom;
    var s' := Apply(s, t, a);
    forall h | 0 <= h < |s'.slots| && s'.slots[h].alive
      ensures exists u :: 0 <= u < |s'.threads| && Claims(s'.threads[u], h)
    {
      if s.slots[h].alive {
        var u :| 0 <= u < |s.threads| && Claims(s.threads[u], h);
        assert u != t ==> s'.threads[u] == s.threads[u];
        assert Claims(s'.threads[u], h);
      } else {
        assert Claims(s'.threads[t], h);
      }
    }
  }

  lemma AcquiresFree(s: State, t: nat, reply: int)
    requires |s.locks| == |s.slots| && t < |s.threads| && ThreadOk(s.slots, s.threads[t]) && Enabled(s, t)
    ensures var a := Act(s.slots, s.threads[t], reply);
      a.lock.Some? && a.lock.value.0 < |s.slots| && a.lock.value.1.Acquire? ==> s.locks[a.lock.value.0] == NOBODY
  {
  }

  lemma StepThreads(s: State, t: nat, a: Action)
    requires t < |s.threads| && Inv(s) && StaysOk(s.slots, a) && Sound(s.slots, s.threads[t], a)
    ensures var ths := s.threads[t := a.th]; forall u :: 0 <= u < |ths| ==> ThreadOk(SlotsAfter(s.slots, a), ths[u])
  {
    var ths := s.threads[t := a.th];
    forall u | 0 <= u < |ths| ensures ThreadOk(SlotsAfter(s.slots, a), ths[u]) {
      if u != t {
        OnePairApart(s, t, u);
        hide *;
        OtherOk(s.slots, s.threads[t], a, s.threads[u]);
      }
    }
  }

  lemma StepApart(s: State, t: nat, a: Action)
    requires t < |s.threads| && Inv(s) && SoundSlots(s.threads[t], a)
    ensures var ths := s.threads[t := a.th];
      forall u, w :: 0 <= u < w < |ths| ==> Apart(ths[u], ths[w])
  {
    var ths := s.threads[t := a.th];
    hide ThreadOk, LocksOk, Owned, Apart, SoundSlots;
    forall u, w | 0 <= u < w < |ths| ensures Apart(ths[u], ths[w]) {
      OnePairApart(s, u, w);
      if u == t {
        StillApart(s.slots, s.threads[t], a, s.threads[w]);
      } else if w == t {
        OnePairApart(s, w, u);
        StillApart(s.slots, s.threads[t], a, s.threads[u]);
        ApartBothWays(a.th, s.threads[u]);
      }
    }
  }

  lemma ApplyKeeps(s: State, t: nat, a: Action)
    requires t < |s.threads| && Inv(s) && InTable(s.slots, s.threads[t].pc) && Enabled(s, t)
    requires StaysOk(s.slots, a) && Sound(s.slots, s.threads[t], a) && SoundSlots(s.threads[t], a)
    requires SoundLocks(s.slots, s.threads[t], a) && (a.lock.Some? ==> a.lock.value.0 < |s.slots|)
    requires a.lock.Some? && a.lock.value.1.Acquire? ==> s.locks[a.lock.value.0] == NOBODY
    ensures Inv(Apply(s, t, a))
    ensures |Apply(s, t, a).threads| == |s.threads| && |Apply(s, t, a).slots| == |s.slots|
  {
    StepThreads(s, t, a);
    hide Sound, SoundSlots, SoundLocks, ThreadOk, Enabled, Apart, Owned;
    StepOwned(s, t, a);
    StepApart(s, t, a);
    StepLocks(s, t, a);
  }

  lemma StepKeeps(s: State, t: nat, reply: int)
    requires t < |s.threads| && Inv(s) && Enabled(s, t)
    ensures Inv(Step(s, t, reply))
    ensures |Step(s, t, reply).threads| == |s.threads| && |Step(s, t, reply).slots| == |s.slots|
  {
    var th := s.threads[t];
    assert th.pc != Idle;
    hide Act, Sound, SoundSlots, Enabled, Apart, Owned, Apply, Claims, PcOk, InTable, HeldOk;
    var a := Act(s.slots, th, reply);
    ActThreadOk(s.slots, th, reply);
    ActSound(s.slots, th, reply);
    ActSoundSlots(s.slots, th, reply);
    ActSoundLocks(s.slots, th, reply);
    AcquiresFree(s, t, reply);
    hide ThreadOk;
    ApplyKeeps(s, t, a);
  }

  lemma ApartBothWays(x: Thread, y: Thread)
    requires Apart(x, y)
    ensures Apart(y, x)
  {
  }

  lemma OnePairApart(s: State, t: nat, u: nat)
    requires Inv(s) && t < |s.threads| && u < |s.threads| && t != u
    ensures Apart(s.threads[t], s.threads[u])
    ensures !(HoldsArray(s.threads[t].pc) && HoldsArray(s.threads[u].pc))
  {
    if u < t {
      ApartBothWays(s.threads[u], s.threads[t]);
    }
  }

  // ----- Calls and runs

  /** net_socket; a call that creates the low-level socket under the lock, or without it; net_closesocket. */
  datatype Call = Socket(a: Ask) | Bind(h: nat) | SendTo(h: nat) | CloseSocket(h: nat)

  datatype Event = Enter(t: nat, call: Call) | Go(t: nat, reply: int)

  /** is_valid_socket */
  predicate IsValid(slots: seq<Slot>, h: nat) {
    h < |slots| && slots[h].alive
  }

  function Entry(slots: seq<Slot>, call: Call): Pc {
    match call
    case Socket(a) => New(a, 0, WantArray)
    case Bind(h) => if IsValid(slots, h) then Use(h, UseAt.WantLock) else Idle
    case SendTo(h) => if IsValid(slots, h) then Use(h, FreeDefault) else Idle
    case CloseSocket(h) => if IsValid(slots, h) then Close(h, CloseAt.WantLock) else Idle
  }

  /** A thread between calls may call again, on a socket it created. */
  predicate Possible(s: State, e: Event)
    requires Inv(s)
  {
    e.t < |s.threads| && match e
      case Enter(t, call) => s.threads[t].pc == Idle && (!call.Socket? ==> call.h in s.threads[t].held)
      case Go(t, _) => Enabled(s, t)
  }

  function Next(s: State, e: Event): State
    requires Inv(s) && Possible(s, e)
  {
    match e
    case Enter(t, call) => s.(threads := s.threads[t := s.threads[t].(pc := Entry(s.slots, call))])
    case Go(t, reply) => Step(s, t, reply)
  }

  lemma EnterKeeps(s: State, t: nat, call: Call)
    requires Inv(s) && Possible(s, Enter(t, call))
    ensures Inv(Next(s, Enter(t, call)))
  {
    hide Owned, Keeps, IsValid;
    var s' := Next(s, Enter(t, call));
    assert forall h :: Claims(s'.threads[t], h) <==> Claims(s.threads[t], h);
    EnterOwned(s, t, s'.threads[t]);
  }

  lemma EnterOwned(s: State, t: nat, th: Thread)
    requires Owned(s) && t < |s.threads| && forall h :: Claims(th, h) <==> Claims(s.threads[t], h)
    ensures Owned(s.(threads := s.threads[t := th]))
  {
    hide Claims;
    var s' := s.(threads := s.threads[t := th]);
    forall h | 0 <= h < |s'.slots| && s'.slots[h].alive
      ensures exists u :: 0 <= u < |s'.threads| && Claims(s'.threads[u], h)
    {
      var u :| 0 <= u < |s.threads| && Claims(s.threads[u], h);
      assert Claims(s'.threads[u], h);
    }
  }

  /** The state after a sequence of events, if they can happen in this order. */
  function Run(s: State, es: seq<Event>): (r: Option<State>)
    requires Inv(s)
    ensures r.Some? ==> Inv(r.value) && |r.value.threads| == |s.threads| && |r.value.slots| == |s.slots|
    decreases |es|
  {
    if es == [] then Some(s)
    else if !Possible(s, es[0]) then None
    else
      NextKeeps(s, es[0]);
      Run(Next(s, es[0]), es[1..])
  }

  lemma NextKeeps(s: State, e: Event)
    requires Inv(s) && Possible(s, e)
    ensures Inv(Next(s, e))
    ensures |Next(s, e).threads| == |s.threads| && |Next(s, e).slots| == |s.slots|
  {
    match e {
      case Enter(t, call) =>
        EnterKeeps(s, t, call);
      case Go(t, reply) =>
        hide Step, Inv, InTable, Enabled;
        StepKeeps(s, t, reply);
    }
  }
}
