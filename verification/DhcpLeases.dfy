/** The lease table and the address search of services/net_sdhcp.c, as functions on sequences. */
module DhcpLeases {
  import opened Options
  import opened Words
  import opened DhcpMessage

  const MIN_IP: U8 := 15
  const MAX_IP: U8 := 17
  /** The bound the table check uses; the check is `<=`, so one slot more than this is filled. */
  const MAX_ADDRESS_INFO: nat := MAX_IP - MIN_IP
  const TABLE_SLOTS: nat := MAX_ADDRESS_INFO + 1

  /** `block` is the heap block that holds the copy of the client id. */
  datatype Lease = Lease(addr: U32, client: seq<U8>, block: nat)

  /** A pool bound in host order: the interface's address with its last byte replaced. */
  function PoolBound(cfg: Config, last: U8): U32 {
    Swap32(Word(ByteAt(cfg.host, 0), ByteAt(cfg.host, 1), ByteAt(cfg.host, 2), last))
  }

  function MinAddr(cfg: Config): U32 {
    PoolBound(cfg, MIN_IP)
  }

  function MaxAddr(cfg: Config): U32 {
    PoolBound(cfg, MAX_IP)
  }

  lemma PoolBoundValue(cfg: Config, last: U8)
    ensures PoolBound(cfg, last) ==
      Word(last, ByteAt(cfg.host, 2), ByteAt(cfg.host, 1), ByteAt(cfg.host, 0))
  {
    var b0, b1, b2 := ByteAt(cfg.host, 0), ByteAt(cfg.host, 1), ByteAt(cfg.host, 2);
    var w := Word(b0, b1, b2, last);
    BytesOfWord(b0, b1, b2, last);
    assert BytesOf(w)[0] == b0 && BytesOf(w)[1] == b1 && BytesOf(w)[2] == b2 && BytesOf(w)[3] == last;
  }

  /** The pool holds three addresses, and the address after it still fits in a word. */
  lemma PoolSize(cfg: Config)
    ensures MIN_IP <= MinAddr(cfg)
    ensures MaxAddr(cfg) == MinAddr(cfg) + 2
    ensures MaxAddr(cfg) + 1 < TWO32 - 1
  {
    PoolBoundValue(cfg, MIN_IP);
    PoolBoundValue(cfg, MAX_IP);
  }

  lemma SwapBroadcast()
    ensures Swap32(BROADCAST) == BROADCAST
  {
    assert ByteAt(BROADCAST, 0) == 0xff && ByteAt(BROADCAST, 1) == 0xff;
  }

  /** No pool address is the broadcast word. */
  lemma PoolNotBroadcast(cfg: Config, a: U32)
    requires MinAddr(cfg) <= a <= MaxAddr(cfg)
    ensures Swap32(a) != BROADCAST
  {
    hide Swap32, MinAddr, MaxAddr;
    PoolSize(cfg);
    SwapBroadcast();
    if Swap32(a) == BROADCAST {
      SwapInjective(a, BROADCAST);
    }
  }

  predicate AddressUsed(leases: seq<Lease>, a: U32) {
    exists i :: 0 <= i < |leases| && leases[i].addr == a
  }

  predicate SameClient(lease: Lease, id: seq<U8>) {
    lease.client != [] && lease.client == id
  }

  /** Index of the first lease of that client, or -1. An empty id never matches. */
  function IndexOfClient(leases: seq<Lease>, id: seq<U8>): (i: int)
    ensures -1 <= i < |leases|
    ensures i >= 0 ==> SameClient(leases[i], id)
    ensures forall k :: 0 <= k < (if i == -1 then |leases| else i) ==> !SameClient(leases[k], id)
  {
    if leases == [] then -1
    else
      var i := IndexOfClient(leases[..|leases| - 1], id);
      if i >= 0 then i
      else if SameClient(leases[|leases| - 1], id) then |leases| - 1
      else -1
  }

  /** The smallest unused address from `a` to `max`. */
  function FirstFree(leases: seq<Lease>, a: U32, max: U32): (r: Option<U32>)
    requires a <= max + 1
    ensures r.Some? ==> a <= r.value <= max && !AddressUsed(leases, r.value)
    ensures forall x: U32 :: a <= x < (if r.Some? then r.value else max + 1) ==> AddressUsed(leases, x)
    decreases max + 1 - a
  {
    if a > max then None
    else if !AddressUsed(leases, a) then Some(a)
    else if a == max then None
    else FirstFree(leases, a + 1, max)
  }

  // ----- The invariant of the table

  /** Lease i holds the i-th pool address, clients are distinct and not empty. */
  ghost predicate LeasesOk(cfg: Config, leases: seq<Lease>) {
    && |leases| <= TABLE_SLOTS
    && (forall i :: 0 <= i < |leases| ==> leases[i].addr == MinAddr(cfg) + i && leases[i].client != [])
    && (forall i, j :: 0 <= i < j < |leases| ==> leases[i].client != leases[j].client)
  }

  lemma LeaseInPool(cfg: Config, leases: seq<Lease>, i: nat)
    requires LeasesOk(cfg, leases) && i < |leases|
    ensures MinAddr(cfg) <= leases[i].addr <= MaxAddr(cfg)
    ensures Swap32(leases[i].addr) != BROADCAST
  {
    PoolSize(cfg);
    PoolNotBroadcast(cfg, leases[i].addr);
  }

  /** The table is full exactly when the pool is, and addresses are given out in pool order. */
  lemma NextFree(cfg: Config, leases: seq<Lease>)
    requires LeasesOk(cfg, leases)
    ensures MinAddr(cfg) <= MaxAddr(cfg)
    ensures FirstFree(leases, MinAddr(cfg), MaxAddr(cfg)) ==
      if |leases| < TABLE_SLOTS then Some(MinAddr(cfg) + |leases|) else None
  {
    PoolSize(cfg);
    var min := MinAddr(cfg);
    forall x: U32 | min <= x < min + |leases| ensures AddressUsed(leases, x) {
      assert leases[x - min].addr == x;
    }
    assert |leases| < TABLE_SLOTS ==> !AddressUsed(leases, min + |leases|);
  }

  /** Distinct clients hold distinct addresses, and the same client one address. */
  lemma OneToOne(cfg: Config, leases: seq<Lease>, i: nat, j: nat)
    requires LeasesOk(cfg, leases) && i < |leases| && j < |leases|
    ensures leases[i].client == leases[j].client <==> Swap32(leases[i].addr) == Swap32(leases[j].addr)
  {
    if Swap32(leases[i].addr) == Swap32(leases[j].addr) {
      SwapInjective(leases[i].addr, leases[j].addr);
    }
  }
}
