/** The transmit ring of templates/net_conf_ethernet_template.c: ten buffer slots with three modulo
    indices, and the DMA descriptors. The DMA runs beside the processor: it may finish any number of
    frames, in ring order, between any two steps of a send. */
module EthernetTx {
  import opened Options
  import opened Words

  const BUFFER_LIST_SIZE := 10

  /** A buffer handed to the ring, and the bytes it holds. */
  datatype Frame = Frame(id: nat, data: seq<U8>)

  /** Buffer1Addr (None for 0) and the OWN bit. */
  datatype Desc = Desc(buffer: Option<Frame>, own: bool)

  function Pending(s: seq<Desc>): (c: nat)
    ensures c <= |s|
  {
    if s == [] then 0 else Pending(s[..|s| - 1]) + (if s[|s| - 1].buffer.Some? then 1 else 0)
  }

  function Owned(s: seq<Desc>): nat {
    if s == [] then 0 else Owned(s[..|s| - 1]) + (if s[|s| - 1].own then 1 else 0)
  }

  lemma {:induction false} CountUpdate(s: seq<Desc>, i: nat, d: Desc)
    requires i < |s|
    ensures Pending(s[i := d]) ==
      Pending(s) - (if s[i].buffer.Some? then 1 else 0) + (if d.buffer.Some? then 1 else 0)
    ensures Owned(s[i := d]) == Owned(s) - (if s[i].own then 1 else 0) + (if d.own then 1 else 0)
    decreases |s|
  {
    var last := |s| - 1;
    var t := s[i := d];
    if i == last {
      assert t[..last] == s[..last];
    } else {
      assert t[..last] == s[..last][i := d];
      CountUpdate(s[..last], i, d);
    }
  }

  lemma {:induction false} OwnedArePending(s: seq<Desc>)
    requires forall i :: 0 <= i < |s| ==> s[i].own ==> s[i].buffer.Some?
    ensures Owned(s) <= Pending(s)
    decreases |s|
  {
    if s != [] {
      OwnedArePending(s[..|s| - 1]);
    }
  }

  lemma {:induction false} PendingAtMost(now: seq<Desc>, before: seq<Desc>)
    requires |now| == |before| && forall i :: 0 <= i < |now| ==> now[i].buffer.Some? ==> before[i].own
    ensures Pending(now) <= Owned(before)
    decreases |now|
  {
    if now != [] {
      PendingAtMost(now[..|now| - 1], before[..|now| - 1]);
    }
  }

  function Min(a: nat, b: nat): nat {
    if a <= b then a else b
  }

  /** Steps the DMA may take before the k-th point of a send. */
  function Total(dmaSteps: nat -> nat, k: nat): nat {
    if k == 0 then 0 else Total(dmaSteps, k - 1) + dmaSteps(k - 1)
  }

  /** How many of `all` accepted frames are on the wire at the k-th point, when `start` were at first. */
  function WireAt(all: nat, start: nat, dmaSteps: nat -> nat, k: nat): nat {
    Min(all, start + Total(dmaSteps, k))
  }

  lemma WireStep(all: nat, start: nat, dmaSteps: nat -> nat, k: nat)
    ensures WireAt(all, start, dmaSteps, k + 1) == Min(all, WireAt(all, start, dmaSteps, k) + dmaSteps(k))
  {
  }

  lemma WireStart(all: nat, start: nat, dmaSteps: nat -> nat)
    requires start <= all
    ensures WireAt(all, start, dmaSteps, 0) == start
  {
  }

  lemma {:induction false} NoneOwned(s: seq<Desc>)
    requires forall i :: 0 <= i < |s| ==> s[i] == Desc(None, false)
    ensures Owned(s) == 0 && Pending(s) == 0
    decreases |s|
  {
    if s != [] {
      NoneOwned(s[..|s| - 1]);
    }
  }

  /** How far descriptor i lies behind the next one the DMA finishes. */
  function Offset(n: nat, dma: nat, i: nat): nat
    requires dma < n && i < n
  {
    if i >= dma then i - dma else i + n - dma
  }

  function Next(n: nat, i: nat): nat
    requires i < n
  {
    if i + 1 == n then 0 else i + 1
  }

  /** What the DMA owns: the `flight` descriptors from `dma` up to `tx`, holding the frames in order. */
  ghost predicate RingOk(s: seq<Desc>, dma: nat, tx: nat, frames: seq<Frame>) {
    && dma < |s| && tx < |s| && |frames| <= |s|
    && tx == (if dma + |frames| < |s| then dma + |frames| else dma + |frames| - |s|)
    && (forall i :: 0 <= i < |s| ==> (s[i].own <==> Offset(|s|, dma, i) < |frames|))
    && (forall i :: 0 <= i < |s| && s[i].own ==> s[i].buffer == Some(frames[Offset(|s|, dma, i)]))
  }

  lemma RingFinish(s: seq<Desc>, dma: nat, tx: nat, frames: seq<Frame>)
    requires RingOk(s, dma, tx, frames) && frames != []
    ensures s[dma].own && s[dma].buffer == Some(frames[0])
    ensures RingOk(s[dma := s[dma].(own := false)], Next(|s|, dma), tx, frames[1..])
  {
    assert Offset(|s|, dma, dma) == 0;
    var n, dma' := |s|, Next(|s|, dma);
    assert forall i :: 0 <= i < n && i != dma ==> Offset(n, dma', i) == Offset(n, dma, i) - 1;
    assert Offset(n, dma', dma) == n - 1;
  }

  lemma RingAccept(s: seq<Desc>, dma: nat, tx: nat, frames: seq<Frame>, f: Frame)
    requires RingOk(s, dma, tx, frames) && !s[tx].own
    ensures RingOk(s[tx := Desc(Some(f), true)], dma, Next(|s|, tx), frames + [f])
  {
    var n := |s|;
    assert Offset(n, dma, tx) == if |frames| == n then 0 else |frames|;
    assert forall i :: 0 <= i < n && i != tx ==> Offset(n, dma, i) != Offset(n, dma, tx);
  }

  /** Counting a finished descriptor touches only one the DMA does not own. */
  lemma RingCount(s: seq<Desc>, dma: nat, tx: nat, frames: seq<Frame>, i: nat)
    requires RingOk(s, dma, tx, frames) && i < |s| && !s[i].own
    ensures RingOk(s[i := Desc(None, false)], dma, tx, frames)
  {
  }

  /** The frames written as numbers `order`. */
  function Pick(writes: seq<Frame>, order: seq<nat>): (fs: seq<Frame>)
    requires forall a :: 0 <= a < |order| ==> order[a] < |writes|
    ensures |fs| == |order|
  {
    seq(|order|, a requires 0 <= a < |order| => writes[order[a]])
  }

  function SlotOf(k: nat): nat {
    (k + 1) % BUFFER_LIST_SIZE
  }

  function CircularInc(a: nat): nat {
    if a + 1 == BUFFER_LIST_SIZE then 0 else a + 1
  }

  lemma CircularIncIsNext(k: nat)
    ensures CircularInc(k % BUFFER_LIST_SIZE) == (k + 1) % BUFFER_LIST_SIZE == SlotOf(k)
  {
  }

  lemma PickExtend(writes: seq<Frame>, order: seq<nat>, f: Frame)
    requires forall a :: 0 <= a < |order| ==> order[a] < |writes|
    ensures Pick(writes + [f], order) == Pick(writes, order)
    ensures Pick(writes + [f], order + [|writes|]) == Pick(writes, order) + [f]
  {
  }

  function Flatten(chain: seq<Frame>): seq<U8> {
    if chain == [] then [] else chain[0].data + Flatten(chain[1..])
  }

  /** A single buffer is sent as it is; a chain is copied into a new buffer. */
  function FrameOf(chain: seq<Frame>, copyId: nat): Frame
    requires chain != []
  {
    if |chain| == 1 then chain[0] else Frame(copyId, Flatten(chain))
  }

  /** Bytes of the first k segments. */
  function Length(chain: seq<Frame>, k: nat): nat
    requires k <= |chain|
  {
    if k == 0 then 0 else Length(chain, k - 1) + |chain[k - 1].data|
  }

  /** Each segment's bytes lie behind those of the segments before it, and nothing else is there. */
  predicate InOrder(chain: seq<Frame>, data: seq<U8>) {
    && |data| == Length(chain, |chain|)
    && forall k :: 0 <= k < |chain| ==> SegmentAt(data, Length(chain, k), chain[k].data)
  }

  predicate SegmentAt(data: seq<U8>, at: nat, segment: seq<U8>) {
    at + |segment| <= |data| && data[at..at + |segment|] == segment
  }

  lemma {:induction false} FlattenJoins(a: seq<Frame>, b: seq<Frame>)
    ensures Flatten(a + b) == Flatten(a) + Flatten(b)
  {
    if a == [] {
      assert a + b == b;
    } else {
      assert (a + b)[0] == a[0] && (a + b)[1..] == a[1..] + b;
      FlattenJoins(a[1..], b);
    }
  }

  lemma FlattenOne(f: Frame)
    ensures Flatten([f]) == f.data
  {
    assert Flatten([f]) == f.data + Flatten([]);
  }

  /** The first k segments, and the next one. */
  lemma FlattenNext(chain: seq<Frame>, k: nat)
    requires k < |chain|
    ensures Flatten(chain[..k + 1]) == Flatten(chain[..k]) + chain[k].data
  {
    assert chain[..k + 1] == chain[..k] + [chain[k]];
    FlattenJoins(chain[..k], [chain[k]]);
    FlattenOne(chain[k]);
  }

  lemma {:induction false} FlattenLength(chain: seq<Frame>, k: nat)
    requires k <= |chain|
    ensures |Flatten(chain[..k])| == Length(chain, k)
    decreases k
  {
    if k > 0 {
      FlattenLength(chain, k - 1);
      FlattenNext(chain, k - 1);
    }
  }

  /** A copied chain holds its segments in order. */
  lemma FlattenInOrder(chain: seq<Frame>)
    ensures InOrder(chain, Flatten(chain))
  {
    hide Flatten, Length;
    assert chain[..|chain|] == chain;
    FlattenLength(chain, |chain|);
    forall k | 0 <= k < |chain| ensures SegmentAt(Flatten(chain), Length(chain, k), chain[k].data) {
      FlattenLength(chain, k);
      FlattenNext(chain, k);
      assert chain == chain[..k + 1] + chain[k + 1..];
      FlattenJoins(chain[..k + 1], chain[k + 1..]);
    }
  }

  /** So does every frame sent, copied or not. */
  lemma FrameInOrder(chain: seq<Frame>, copyId: nat)
    requires chain != []
    ensures InOrder(chain, FrameOf(chain, copyId).data)
    ensures FrameOf(chain, copyId).id == if |chain| == 1 then chain[0].id else copyId
  {
    hide InOrder;
    FlattenInOrder(chain);
    if |chain| == 1 {
      assert chain == [chain[0]];
      FlattenOne(chain[0]);
    }
  }

  /** The length loop of a send. */
  method ChainLength(chain: seq<Frame>) returns (len: nat)
    ensures len == Length(chain, |chain|)
  {
    len := 0;
    for k := 0 to |chain|
      invariant len == Length(chain, k)
    {
      len := len + |chain[k].data|;
    }
  }

  method CopySegment(buf: array<U8>, at: nat, segment: seq<U8>)
    requires at + |segment| <= buf.Length
    modifies buf
    ensures buf[..at + |segment|] == old(buf[..at]) + segment
  {
    for i := 0 to |segment|
      invariant buf[..at + i] == old(buf[..at]) + segment[..i]
    {
      buf[at + i] := segment[i];
      assert segment[..i + 1] == segment[..i] + [segment[i]];
    }
    assert segment[..|segment|] == segment;
  }

  /** The copy loop: one new buffer for all segments. */
  method CopyChain(chain: seq<Frame>) returns (buf: array<U8>)
    ensures fresh(buf) && buf[..] == Flatten(chain)
  {
    var len := ChainLength(chain);
    buf := new U8[len];
    var at := 0;
    assert chain[..|chain|] == chain;
    FlattenLength(chain, |chain|);
    for k := 0 to |chain|
      invariant at == Length(chain, k) <= len && buf[..at] == Flatten(chain[..k])
    {
      LengthGrows(chain, k + 1);
      FlattenNext(chain, k);
      CopySegment(buf, at, chain[k].data);
      at := at + |chain[k].data|;
    }
    assert buf[..len] == buf[..];
  }

  lemma {:induction false} LengthGrows(chain: seq<Frame>, k: nat)
    requires k <= |chain|
    ensures Length(chain, k) <= Length(chain, |chain|)
    decreases |chain| - k
  {
    if k < |chain| {
      LengthGrows(chain, k + 1);
    }
  }

  /** The slots from the first unreleased write to the last hold those writes, and the others are empty. */
  ghost predicate SlotsHold(writes: seq<Frame>, released: seq<Option<Frame>>, sent: seq<Option<Frame>>) {
    && |sent| == BUFFER_LIST_SIZE
    && |released| <= |writes| <= |released| + BUFFER_LIST_SIZE
    && (forall k :: 0 <= k < |released| ==> released[k] == Some(writes[k]))
    && (forall k :: |released| <= k < |writes| ==> sent[SlotOf(k)] == Some(writes[k]))
    && (forall k :: |writes| <= k < |released| + BUFFER_LIST_SIZE ==> sent[SlotOf(k)] == None)
  }

  lemma SlotsDiffer(k: nat, j: nat)
    requires k < j < k + BUFFER_LIST_SIZE
    ensures SlotOf(k) != SlotOf(j)
  {
  }

  lemma ReleaseSlot(writes: seq<Frame>, released: seq<Option<Frame>>, sent: seq<Option<Frame>>)
    requires SlotsHold(writes, released, sent) && |released| < |writes|
    ensures var b := SlotOf(|released|);
      SlotsHold(writes, released + [sent[b]], sent[b := None])
  {
    var b, after := SlotOf(|released|), released + [sent[SlotOf(|released|)]];
    forall k | |released| < k < |released| + BUFFER_LIST_SIZE ensures SlotOf(k) != b {
      SlotsDiffer(|released|, k);
    }
    assert SlotOf(|released| + BUFFER_LIST_SIZE) == b;
    forall k | |writes| <= k < |after| + BUFFER_LIST_SIZE ensures sent[b := None][SlotOf(k)] == None {
      if k < |released| + BUFFER_LIST_SIZE {
        assert sent[SlotOf(k)] == None;
      }
    }
  }

  lemma SlotsBound(writes: seq<Frame>, released: seq<Option<Frame>>, sent: seq<Option<Frame>>)
    requires SlotsHold(writes, released, sent)
    ensures |released| <= |writes| <= |released| + BUFFER_LIST_SIZE
  {
  }

  lemma RecordSlot(writes: seq<Frame>, released: seq<Option<Frame>>, sent: seq<Option<Frame>>, f: Frame)
    requires SlotsHold(writes, released, sent) && |writes| < |released| + BUFFER_LIST_SIZE
    ensures SlotsHold(writes + [f], released, sent[SlotOf(|writes|) := Some(f)])
  {
    forall k | |released| <= k < |writes| ensures SlotOf(k) != SlotOf(|writes|) {
      SlotsDiffer(k, |writes|);
    }
    forall k | |writes| < k < |released| + BUFFER_LIST_SIZE ensures SlotOf(k) != SlotOf(|writes|) {
      SlotsDiffer(|writes|, k);
    }
  }

  /** The slots after those of n writes, the first of them number `start`, were released. */
  ghost function Emptied(sent: seq<Option<Frame>>, start: nat, n: nat): (r: seq<Option<Frame>>)
    requires |sent| == BUFFER_LIST_SIZE
    ensures |r| == BUFFER_LIST_SIZE
    decreases n
  {
    if n == 0 then sent else Emptied(sent[SlotOf(start) := None], start + 1, n - 1)
  }

  lemma EmptiedNext(sent: seq<Option<Frame>>, start: nat, n: nat)
    requires |sent| == BUFFER_LIST_SIZE && n > 0
    ensures Emptied(sent, start, n) == Emptied(sent[SlotOf(start) := None], start + 1, n - 1)
  {
  }

  lemma EmptiedNone(sent: seq<Option<Frame>>, start: nat)
    requires |sent| == BUFFER_LIST_SIZE
    ensures Emptied(sent, start, 0) == sent
  {
  }

  /** The next slot is in use exactly when ten writes are not released, and then holds the first of them. */
  lemma NextSlotUsed(writes: seq<Frame>, released: seq<Option<Frame>>, sent: seq<Option<Frame>>)
    requires SlotsHold(writes, released, sent)
    ensures sent[SlotOf(|writes|)].Some? <==> |writes| == |released| + BUFFER_LIST_SIZE
    ensures sent[SlotOf(|writes|)].Some? ==> sent[SlotOf(|writes|)] == Some(writes[|writes| - BUFFER_LIST_SIZE])
  {
    if |writes| == |released| + BUFFER_LIST_SIZE {
      assert SlotOf(|released|) == SlotOf(|writes|);
    }
  }

  /** The DMA's view: the frames on the wire are the first accepted ones, those in flight come next, and
      every accepted frame is counted, waiting to be counted, or its count was lost. */
  ghost predicate DmaState(desc: seq<Desc>, dma: nat, tx: nat, all: seq<Frame>, wire: seq<Frame>,
                           counted: nat, lost: nat) {
    && wire <= all
    && RingOk(desc, dma, tx, all[|wire|..])
    && |wire| + Owned(desc) == |all|
    && counted + Pending(desc) + lost == |all|
  }

  lemma OwnedHaveBuffers(desc: seq<Desc>, dma: nat, tx: nat, all: seq<Frame>, wire: seq<Frame>, counted: nat,
      lost: nat)
    requires DmaState(desc, dma, tx, all, wire, counted, lost)
    ensures forall i :: 0 <= i < |desc| && desc[i].own ==> desc[i].buffer.Some?
  {
  }

  lemma FinishStep(desc: seq<Desc>, dma: nat, tx: nat, all: seq<Frame>, wire: seq<Frame>, counted: nat, lost: nat)
    requires DmaState(desc, dma, tx, all, wire, counted, lost) && desc[dma].own
    ensures |wire| < |all|
    ensures DmaState(desc[dma := desc[dma].(own := false)], Next(|desc|, dma), tx, all, wire + [all[|wire|]],
        counted, lost)
  {
    assert Offset(|desc|, dma, dma) == 0;
    RingFinish(desc, dma, tx, all[|wire|..]);
    CountUpdate(desc, dma, desc[dma].(own := false));
    assert all[|wire|..][1..] == all[|wire| + 1..];
  }

  lemma CountStep(desc: seq<Desc>, dma: nat, tx: nat, all: seq<Frame>, wire: seq<Frame>, counted: nat, lost: nat,
      i: nat)
    requires DmaState(desc, dma, tx, all, wire, counted, lost)
    requires i < |desc| && desc[i].buffer.Some? && !desc[i].own
    ensures DmaState(desc[i := Desc(None, false)], dma, tx, all, wire, counted + 1, lost)
    ensures Pending(desc) >= 1 && Pending(desc[i := Desc(None, false)]) == Pending(desc) - 1
    ensures counted + lost < |all|
  {
    RingCount(desc, dma, tx, all[|wire|..], i);
    CountUpdate(desc, i, Desc(None, false));
  }

  lemma AcceptStep(desc: seq<Desc>, dma: nat, tx: nat, all: seq<Frame>, wire: seq<Frame>, counted: nat, lost: nat,
      f: Frame)
    requires DmaState(desc, dma, tx, all, wire, counted, lost) && !desc[tx].own
    ensures DmaState(desc[tx := Desc(Some(f), true)], dma, Next(|desc|, tx), all + [f], wire, counted,
                     lost + if desc[tx].buffer.Some? then 1 else 0)
  {
    RingAccept(desc, dma, tx, all[|wire|..], f);
    CountUpdate(desc, tx, Desc(Some(f), true));
    assert (all + [f])[|wire|..] == all[|wire|..] + [f];
  }

  class TxRing {
    const desc: array<Desc>
    const sent: array<Option<Frame>>
    var txDesc: nat
    var freeIdx: nat
    var writeIdx: nat
    var busyIdx: nat

    /** The descriptor the DMA finishes next, and the frames it has put on the wire. */
    var dma: nat
    ghost var wire: seq<Frame>

    /** Every buffer written to the ring; write numbers the DMA accepted, in order; how many of those the
        DMA finished and how many finished descriptors were counted; sends that found their descriptor
        owned; finished descriptors reused before they were counted. */
    ghost var writes: seq<Frame>
    ghost var order: seq<nat>
    ghost var counted: nat
    ghost var rejected: nat
    ghost var lost: nat

    /** What was passed to NET_BUF_FREE, and whether every slot was empty when it was written. */
    ghost var released: seq<Option<Frame>>
    ghost var intact: bool

    /** The three indices count modulo ten, and the slots in use hold the writes not released yet. */
    ghost predicate SlotsOk()
      reads `writeIdx, `freeIdx, `busyIdx, `writes, `counted, `released, `intact, sent
    {
      && (desc as object) != (sent as object)
      && 1 <= desc.Length < BUFFER_LIST_SIZE && sent.Length == BUFFER_LIST_SIZE
      && writeIdx == |writes| % BUFFER_LIST_SIZE
      && freeIdx == counted % BUFFER_LIST_SIZE
      && busyIdx == |released| % BUFFER_LIST_SIZE
      && |released| <= counted <= |released| + desc.Length
      && (intact ==> SlotsHold(writes, released, sent[..]))
    }

    /** The k-th frame the DMA accepted is write number order[k], and its descriptors agree. */
    ghost predicate DmaOk()
      reads `dma, `txDesc, `writes, `order, `wire, `counted, `lost, `rejected, desc
    {
      && |order| + rejected <= |writes|
      && (forall a :: 0 <= a < |order| ==> a <= order[a] < |writes|)
      && dma < desc.Length && txDesc < desc.Length
      && counted + lost <= |order| <= counted + lost + desc.Length
      && DmaState(desc[..], dma, txDesc, Pick(writes, order), wire, counted, lost)
    }

    ghost predicate Valid()
      reads this, desc, sent
    {
      SlotsOk() && DmaOk()
    }

    /** No send is under way: every write was accepted or rejected. */
    ghost predicate Settled()
      reads `order, `rejected, `writes
    {
      |order| + rejected == |writes|
    }

    constructor (descriptors: nat)
      requires 1 <= descriptors < BUFFER_LIST_SIZE
      ensures Valid() && Settled() && fresh(desc) && fresh(sent) && desc.Length == descriptors
      ensures writes == [] && released == [] && wire == [] && intact && rejected == lost == counted == 0
      ensures forall b :: 0 <= b < sent.Length ==> sent[b] == None
    {
      desc := new Desc[descriptors](_ => Desc(None, false));
      sent := new Option<Frame>[BUFFER_LIST_SIZE](_ => None);
      txDesc, freeIdx, writeIdx, busyIdx, dma := 0, 0, 0, 0, 0;
      wire, writes, order, released := [], [], [], [];
      counted, rejected, lost, intact := 0, 0, 0, true;
      new;
      NoneOwned(desc[..]);
    }

    /** The finished frames were counted before any of them was released: nothing released is in flight. */
    lemma ReleasedAreFinished()
      requires Valid()
      ensures |released| <= counted && counted + lost <= |wire|
      ensures forall a :: |wire| <= a < |order| ==> |released| <= order[a]
    {
      OwnedArePending(desc[..]);
    }

    /** Every buffer written is counted, waiting in a descriptor, rejected, or its count was lost. */
    lemma Conserved()
      requires Valid() && Settled()
      ensures |writes| == counted + Pending(desc[..]) + rejected + lost
    {
    }

    /** While no slot is reused too early, the buffers released are the first ones written, once each and in
        order. */
    lemma ReleasedInOrder()
      requires Valid() && intact
      ensures |released| <= |writes| && forall k :: 0 <= k < |released| ==> released[k] == Some(writes[k])
    {
    }

    /** The DMA is at work exactly when an accepted frame is not on the wire yet; the next descriptor to
        use is owned exactly when all of them are. */
    lemma OwnedEnds()
      requires DmaOk()
      ensures dma < desc.Length && txDesc < desc.Length
      ensures desc[dma].own <==> |wire| < |order|
      ensures desc[txDesc].own <==> |order| == |wire| + desc.Length
      ensures |wire| <= |order| <= |wire| + desc.Length
    {
      assert Offset(desc.Length, dma, dma) == 0;
      var flight := |order| - |wire|;
      assert Offset(desc.Length, dma, txDesc) == if flight == desc.Length then 0 else flight;
    }

    /** The DMA finishes `steps` frames, or all it owns. */
    method Dma(steps: nat)
      requires DmaOk()
      modifies this`dma, this`wire, desc
      ensures DmaOk() && old(wire) <= wire
      ensures |wire| == Min(|order|, old(|wire|) + steps)
      ensures forall i :: 0 <= i < desc.Length ==>
        desc[i].buffer == old(desc[i].buffer) && (desc[i].own ==> old(desc[i].own))
    {
      hide DmaState;
      var k := 0;
      OwnedEnds();
      while k < steps && desc[dma].own
        invariant 0 <= k <= steps
        invariant DmaOk() && old(wire) <= wire
        invariant |wire| == old(|wire|) + k <= |order|
        invariant forall i :: 0 <= i < desc.Length ==>
          desc[i].buffer == old(desc[i].buffer) && (desc[i].own ==> old(desc[i].own))
      {
        FinishOne();
        OwnedEnds();
        k := k + 1;
      }
      OwnedEnds();
    }

    method FinishOne()
      requires DmaOk() && desc[dma].own
      modifies this`dma, this`wire, desc
      ensures DmaOk() && |wire| == old(|wire|) + 1 && old(wire) <= wire
      ensures forall i :: 0 <= i < desc.Length ==>
        desc[i].buffer == old(desc[i].buffer) && (desc[i].own <==> old(desc[i].own) && i != old(dma))
    {
      ghost var s, all := desc[..], Pick(writes, order);
      FinishStep(s, dma, txDesc, all, wire, counted, lost);
      desc[dma] := desc[dma].(own := false);
      assert desc[..] == s[dma := s[dma].(own := false)];
      wire := wire + [all[|wire|]];
      dma := Next(desc.Length, dma);
    }

    /** Counts one finished descriptor: its buffer slot may be released. */
    method CountFinished(i: nat)
      requires Valid() && i < desc.Length && desc[i].buffer.Some? && !desc[i].own
      requires counted < |released| + desc.Length
      modifies this`freeIdx, this`counted, desc
      ensures Valid() && counted == old(counted) + 1
      ensures desc[..] == old(desc[..])[i := Desc(None, false)]
    {
      hide SlotsHold;
      ghost var s := desc[..];
      CountStep(s, dma, txDesc, Pick(writes, order), wire, counted, lost, i);
      CircularIncIsNext(counted);
      freeIdx := CircularInc(freeIdx);
      counted := counted + 1;
      desc[i] := Desc(None, false);
      assert desc[..] == s[i := Desc(None, false)];
    }

    /** Gives the current descriptor to the DMA; if it still held an uncounted buffer, that count is lost. */
    method Transmit(frame: Frame)
      requires DmaOk() && !desc[txDesc].own
      requires |order| + rejected + 1 == |writes| && frame == writes[|writes| - 1]
      modifies this`txDesc, this`order, this`lost, desc
      ensures DmaOk() && Settled() && order == old(order) + [|writes| - 1]
      ensures lost == old(lost) + (if old(desc[txDesc].buffer.Some?) then 1 else 0)
    {
      hide RingOk, Pending, Owned;
      ghost var s, all := desc[..], Pick(writes, order);
      AcceptStep(s, dma, txDesc, all, wire, counted, lost, frame);
      assert Pick(writes, order + [|writes| - 1]) == all + [frame];
      lost := lost + if desc[txDesc].buffer.Some? then 1 else 0;
      order := order + [|writes| - 1];
      desc[txDesc] := Desc(Some(frame), true);
      assert desc[..] == s[txDesc := Desc(Some(frame), true)];
      txDesc := Next(desc.Length, txDesc);
    }

    /** The scan reads descriptor i, counts it if it is finished, and reports whether it was owned. */
    method ScanOne(i: nat, steps: nat) returns (ghost owned: bool)
      requires Valid() && i < desc.Length && |order| <= lost + |released| + desc.Length
      modifies this`dma, this`wire, this`freeIdx, this`counted, desc
      ensures Valid() && old(counted) <= counted && old(wire) <= wire
      ensures |wire| == Min(|order|, old(|wire|) + steps)
      ensures desc[i].own == owned && desc[i].buffer.Some? == owned && (owned ==> old(desc[i].own))
      ensures forall j :: 0 <= j < desc.Length && j != i ==>
        desc[j].buffer == old(desc[j].buffer) && (desc[j].own ==> old(desc[j].own))
    {
      hide SlotsHold, DmaState;
      Dma(steps);
      OwnedHaveBuffers(desc[..], dma, txDesc, Pick(writes, order), wire, counted, lost);
      owned := desc[i].own;
      if desc[i].buffer.Some? && !desc[i].own {
        CountStep(desc[..], dma, txDesc, Pick(writes, order), wire, counted, lost, i);
        CountFinished(i);
      }
    }

    /** Counts finished descriptors, at least all that were finished before; `seen` says whether the one to
        use next was still owned when read. */
    method Scan(dmaSteps: nat -> nat) returns (ghost seen: bool)
      requires Valid() && |order| <= lost + |released| + desc.Length
      modifies this`dma, this`wire, this`freeIdx, this`counted, desc
      ensures Valid() && old(counted) <= counted && old(wire) <= wire
      ensures |wire| == WireAt(|order|, old(|wire|), dmaSteps, desc.Length)
      ensures seen <==> desc[txDesc].buffer.Some?
      ensures seen <==> |order| == WireAt(|order|, old(|wire|), dmaSteps, txDesc + 1) + desc.Length
      ensures old(|wire|) <= counted + lost
    {
      hide SlotsOk, DmaOk, WireAt, Owned;
      ghost var before := desc[..];
      seen := false;
      var i := 0;
      OwnedEnds();
      OwnedCount();
      WireStart(|order|, |wire|, dmaSteps);
      while i < desc.Length
        invariant 0 <= i <= desc.Length && Valid()
        invariant old(counted) <= counted && old(wire) <= wire
        invariant |wire| == WireAt(|order|, old(|wire|), dmaSteps, i)
        invariant i > txDesc ==> (seen <==> desc[txDesc].buffer.Some?)
        invariant i > txDesc ==>
          (seen <==> |order| == WireAt(|order|, old(|wire|), dmaSteps, txDesc + 1) + desc.Length)
        invariant forall j :: 0 <= j < desc.Length ==> desc[j].own ==> before[j].own
        invariant forall j :: 0 <= j < i ==> desc[j].buffer.Some? ==> before[j].own
      {
        ghost var owned := ScanOne(i, dmaSteps(i));
        WireStep(|order|, old(|wire|), dmaSteps, i);
        OwnedEnds();
        if i == txDesc {
          seen := owned;
        }
        i := i + 1;
      }
      Balance(before, old(|wire|));
    }

    /** Descriptors that hold a buffer now were owned before, when `start` frames were on the wire. */
    lemma Balance(before: seq<Desc>, start: nat)
      requires DmaOk() && |before| == desc.Length && start + Owned(before) == |order|
      requires forall j :: 0 <= j < desc.Length ==> desc[j].buffer.Some? ==> before[j].own
      ensures start <= counted + lost
    {
      PendingAtMost(desc[..], before);
    }

    lemma AcceptedAtMost()
      requires DmaOk()
      ensures |order| <= counted + lost + desc.Length
    {
    }

    lemma OwnedCount()
      requires DmaOk()
      ensures |wire| + Owned(desc[..]) == |order|
    {
    }

    /** The ownership check and, when the descriptor is free, the hand-over. */
    method CheckAndTransmit(frame: Frame, steps: nat) returns (ok: bool)
      requires DmaOk()
      requires |order| + rejected + 1 == |writes| && frame == writes[|writes| - 1]
      modifies this`dma, this`wire, this`txDesc, this`order, this`lost, this`rejected, desc
      ensures DmaOk() && Settled() && old(wire) <= wire
      ensures |wire| == Min(old(|order|), old(|wire|) + steps)
      ensures ok <==> old(|order|) < |wire| + desc.Length
      ensures order == old(order) + (if ok then [|writes| - 1] else [])
      ensures rejected == old(rejected) + (if ok then 0 else 1)
      ensures lost == old(lost) + (if ok && old(desc[txDesc].buffer.Some?) then 1 else 0)
    {
      hide DmaState;
      Dma(steps);
      OwnedEnds();
      ok := !desc[txDesc].own;
      if ok {
        Transmit(frame);
      } else {
        rejected := rejected + 1;
      }
    }

    /** Counts finished descriptors, then hands the frame to the current descriptor unless the DMA still
        owns it. `dmaSteps(i)` is how many frames the DMA may finish before step i: the scan of descriptor
        i, and for i = desc.Length the ownership check. The frame is rejected exactly when all descriptors
        are owned at the check; a count is lost exactly when they all were at the scan of the descriptor
        used, and no longer are at the check. */
    method LowOutput(frame: Frame, dmaSteps: nat -> nat) returns (ok: bool, ghost seen: bool)
      requires Valid() && counted == |released|
      requires |order| + rejected + 1 == |writes| && frame == writes[|writes| - 1]
      modifies this`dma, this`wire, this`freeIdx, this`counted, this`txDesc, this`order, this`lost, this`rejected, desc
      ensures Valid() && Settled() && old(counted) <= counted && old(wire) <= wire
      ensures |wire| == WireAt(old(|order|), old(|wire|), dmaSteps, desc.Length + 1)
      ensures ok <==> old(|order|) < |wire| + desc.Length
      ensures seen <==> old(|order|) == WireAt(old(|order|), old(|wire|), dmaSteps, old(txDesc) + 1) + desc.Length
      ensures order == old(order) + (if ok then [|writes| - 1] else [])
      ensures rejected == old(rejected) + (if ok then 0 else 1)
      ensures lost == old(lost) + (if ok && seen then 1 else 0)
      ensures old(|wire|) <= counted + old(lost)
    {
      hide SlotsHold, DmaState;
      seen := Scan(dmaSteps);
      ok := CheckAndTransmit(frame, dmaSteps(desc.Length));
    }

    /** Frees, in order, every buffer whose transmission has been counted, and empties its slot. */
    method ReleaseReturned()
      requires Valid()
      modifies this`busyIdx, this`released, sent
      ensures Valid() && |released| == counted
      ensures old(released) <= released
      ensures sent[..] == Emptied(old(sent[..]), old(|released|), counted - old(|released|))
    {
      hide SlotsHold, DmaOk, Emptied, SlotOf;
      while busyIdx != freeIdx
        invariant Valid() && old(released) <= released
        invariant Emptied(sent[..], |released|, counted - |released|) ==
          Emptied(old(sent[..]), old(|released|), counted - old(|released|))
        decreases counted - |released|
      {
        EmptiedNext(sent[..], |released|, counted - |released|);
        ReleaseOne();
      }
      EmptiedNone(sent[..], |released|);
    }

    method ReleaseOne()
      requires Valid() && |released| < counted
      modifies this`busyIdx, this`released, sent
      ensures Valid() && released == old(released) + [old(sent[SlotOf(|released|)])]
      ensures sent[..] == old(sent[..])[SlotOf(old(|released|)) := None]
    {
      hide SlotsHold, DmaState;
      CircularIncIsNext(|released|);
      if intact { ReleaseSlot(writes, released, sent[..]); }
      ghost var before := sent[..];
      busyIdx := CircularInc(busyIdx);
      released := released + [sent[busyIdx]];
      sent[busyIdx] := None;
      assert sent[..] == before[busyIdx := None];
    }

    /** Puts the buffer in the next slot, whatever the slot holds. As long as no slot in use was overwritten, this
        one is in use exactly when ten writes are not released, and then the first of those is lost. */
    method Record(frame: Frame)
      requires Valid() && Settled() && counted == |released|
      modifies this`writeIdx, this`writes, this`intact, sent
      ensures Valid() && writes == old(writes) + [frame]
      ensures sent[..] == old(sent[..])[SlotOf(|old(writes)|) := Some(frame)]
      ensures intact <==> old(intact) && old(sent[SlotOf(|writes|)]).None?
      ensures old(intact) ==> (old(sent[SlotOf(|writes|)]).Some? <==> |old(writes)| - counted >= BUFFER_LIST_SIZE)
      ensures old(intact) && !intact ==>
        |old(writes)| >= BUFFER_LIST_SIZE && old(sent[SlotOf(|writes|)] == Some(writes[|writes| - BUFFER_LIST_SIZE]))
    {
      hide SlotsHold, DmaState;
      CircularIncIsNext(|writes|);
      PickExtend(writes, order, frame);
      ghost var before := sent[..];
      if intact {
        NextSlotUsed(writes, released, before);
        SlotsBound(writes, released, before);
      }
      writeIdx := CircularInc(writeIdx);
      intact := intact && sent[writeIdx].None?;
      if intact {
        RecordSlot(writes, released, before, frame);
      }
      sent[writeIdx] := Some(frame);
      assert sent[..] == before[SlotOf(|writes|) := Some(frame)];
      writes := writes + [frame];
    }

    /** One send. Everything counted before is released, exactly once and in write order; the frame is
        recorded in the slot after the last write, then transmitted or rejected. As long as no slot in use was
        overwritten, one is now exactly when ten writes are not counted yet. */
    method Output(chain: seq<Frame>, copyId: nat, dmaSteps: nat -> nat) returns (ok: bool, ghost seen: bool)
      requires Valid() && Settled() && chain != []
      modifies this, desc, sent
      ensures Valid() && Settled()
      ensures writes == old(writes) + [FrameOf(chain, copyId)] && InOrder(chain, writes[|old(writes)|].data)
      ensures writes[|old(writes)|].id == if |chain| == 1 then chain[0].id else copyId
      ensures old(released) <= released && |released| == old(counted)
      ensures old(wire) <= wire
      ensures |wire| == WireAt(old(|order|), old(|wire|), dmaSteps, desc.Length + 1)
      ensures ok <==> old(|order|) < |wire| + desc.Length
      ensures seen <==> old(|order|) == WireAt(old(|order|), old(|wire|), dmaSteps, old(txDesc) + 1) + desc.Length
      ensures order == old(order) + (if ok then [|old(writes)|] else [])
      ensures rejected == old(rejected) + (if ok then 0 else 1)
      ensures lost == old(lost) + (if ok && seen then 1 else 0)
      ensures old(|wire|) <= counted + old(lost)
      ensures var slots := Emptied(old(sent[..]), old(|released|), old(counted - |released|));
        && sent[..] == slots[SlotOf(|old(writes)|) := Some(FrameOf(chain, copyId))]
        && (intact <==> old(intact) && slots[SlotOf(|old(writes)|)].None?)
      ensures old(intact) ==> (intact <==> old(|writes| - counted) < BUFFER_LIST_SIZE)
      ensures old(intact) && desc.Length + old(rejected) + old(lost) + 1 <= BUFFER_LIST_SIZE ==> intact
    {
      hide SlotsHold, DmaState, DmaOk, WireAt, InOrder, Flatten;
      AcceptedAtMost();
      ReleaseReturned();
      var frame := chain[0];
      if |chain| != 1 {
        var buf := CopyChain(chain);
        frame := Frame(copyId, buf[..]);
      }
      FrameInOrder(chain, copyId);
      Record(frame);
      ok, seen := LowOutput(frame, dmaSteps);
    }
  }

  /** Any sequence of sends, with the DMA finishing any number of frames at any point of each: buffers are
      released in write order, once each, and none while the DMA owns its descriptor, as long as descriptors,
      rejected sends and lost counts leave a slot of the ten free. */
  method SendAll(ring: TxRing, chains: seq<seq<Frame>>, dmaSteps: seq<nat -> nat>)
    requires ring.Valid() && ring.Settled() && ring.intact && |dmaSteps| == |chains|
    requires forall i :: 0 <= i < |chains| ==> chains[i] != []
    modifies ring, ring.desc, ring.sent
    ensures ring.Valid() && ring.Settled()
    ensures |ring.writes| == old(|ring.writes|) + |chains|
    ensures |ring.writes| == ring.counted + Pending(ring.desc[..]) + ring.rejected + ring.lost
    ensures ring.desc.Length + ring.rejected + ring.lost + 1 <= BUFFER_LIST_SIZE ==>
      && (forall k :: 0 <= k < |ring.released| ==> k < |ring.writes| && ring.released[k] == Some(ring.writes[k]))
      && (forall a :: |ring.wire| <= a < |ring.order| ==> |ring.released| <= ring.order[a])
  {
    hide SlotsHold, DmaState;
    var i := 0;
    while i < |chains|
      invariant 0 <= i <= |chains| && ring.Valid() && ring.Settled()
      invariant |ring.writes| == old(|ring.writes|) + i
      invariant ring.desc.Length + ring.rejected + ring.lost + 1 <= BUFFER_LIST_SIZE ==> ring.intact
    {
      var ok, seen := ring.Output(chains[i], i, dmaSteps[i]);
      i := i + 1;
    }
    ring.Conserved();
    ring.ReleasedAreFinished();
    if ring.intact {
      ring.ReleasedInOrder();
    }
  }

  /** Descriptor scan and DMA can race: with one descriptor, a frame that is finished after the scan and
      before the ownership check is never counted, so writes exceed counted, pending and rejected ones. */
  method RaceLosesACount() returns (ring: TxRing)
    ensures ring.Valid() && ring.Settled()
    ensures ring.lost == 1
    ensures |ring.writes| == ring.counted + Pending(ring.desc[..]) + ring.rejected + 1
  {
    ring := new TxRing(1);
    var f := Frame(1, [7]);
    var ok, seen := ring.Output([f], 0, i => 0);
    assert ring.desc.Length == 1;
    ok, seen := ring.Output([f], 0, i => if i == 1 then 1 else 0);
  }

  /** With one descriptor and a DMA that makes no progress, the eleventh send takes the slot of the first: that
      buffer is lost, neither released nor in any slot. */
  method StalledRingOverwrites() returns (ring: TxRing)
    ensures ring.Valid() && |ring.writes| == 11 && !ring.intact && ring.released == []
    ensures forall i, j :: 0 <= i < j < 11 ==> ring.writes[i] != ring.writes[j]
    ensures Some(ring.writes[0]) !in ring.sent[..]
  {
    hide SlotsHold, DmaState;
    ring := new TxRing(1);
    var idle := (i: nat) => 0;
    assert Total(idle, 1) == 0 && Total(idle, 2) == 0;
    var k := 0;
    while k < 11
      invariant 0 <= k <= 11 && ring.Valid() && ring.Settled()
      invariant |ring.writes| == k && ring.wire == [] && ring.counted == 0 && ring.desc.Length == 1
      invariant ring.released == []
      invariant fresh(ring) && fresh(ring.desc) && fresh(ring.sent)
      invariant ring.intact <==> k <= 10
      invariant forall j :: 0 <= j < k ==> ring.writes[j] == Frame(j, [7])
      invariant forall b :: 0 <= b < BUFFER_LIST_SIZE && ring.sent[b].Some? ==> ring.sent[b].value.id < k
      invariant k == 11 ==> forall b :: 0 <= b < BUFFER_LIST_SIZE && ring.sent[b].Some? ==> ring.sent[b].value.id > 0
      invariant k <= 10 ==>
        forall b :: 0 <= b < BUFFER_LIST_SIZE && b != 1 && ring.sent[b].Some? ==> ring.sent[b].value.id > 0
    {
      var ok, seen := ring.Output([Frame(k, [7])], 0, idle);
      ring.ReleasedAreFinished();
      k := k + 1;
    }
  }
}
