/** The list of network interfaces (core/net_core.c): a linked list that behaves as a duplicate-free
    sequence, and the interface initialization and de-initialization that add to it and remove from it. */
module NetList {
  import opened Options
  import opened Words
  import NetState

  const NET_OK := NetState.NET_OK
  const NET_ERROR_PARAMETER := -4
  const NET_ERROR_INTERFACE_FAILURE := NetState.NET_ERROR_INTERFACE_FAILURE

  class Netif {
    var next: Netif?
    var state: NetState.State
    var ipaddr: U32

    constructor (ipaddr: U32)
      ensures next == null && this.ipaddr == ipaddr
    {
      next, state, this.ipaddr := null, NetState.Deinitialized, ipaddr;
    }
  }

  /** The sequence without that element, the others in the same order. */
  ghost function Without<T>(items: seq<T>, p: T): (r: seq<T>)
    ensures p !in r
    ensures forall i :: 0 <= i < |r| ==> r[i] in items
  {
    if items == [] then []
    else if items[|items| - 1] == p then Without(items[..|items| - 1], p)
    else Without(items[..|items| - 1], p) + [items[|items| - 1]]
  }

  lemma {:induction false} WithoutAbsent<T>(items: seq<T>, p: T)
    requires p !in items
    ensures Without(items, p) == items
    decreases |items|
  {
    if items != [] {
      WithoutAbsent(items[..|items| - 1], p);
    }
  }

  lemma {:induction false} WithoutAt<T>(items: seq<T>, k: nat)
    requires k < |items| && Distinct(items)
    ensures Without(items, items[k]) == items[..k] + items[k + 1..]
    decreases |items|
  {
    var last := |items| - 1;
    if k == last {
      WithoutAbsent(items[..last], items[k]);
      assert items[k + 1..] == [];
    } else {
      WithoutAt(items[..last], k);
      assert items[..last][k] == items[k];
      assert items[..k] + items[k + 1..] == items[..k] + items[k + 1..last] + [items[last]];
    }
  }

  ghost predicate Distinct<T>(items: seq<T>) {
    forall i, j :: 0 <= i < j < |items| ==> items[i] != items[j]
  }

  lemma OtherElement<T>(s: seq<T>, i: nat, k: nat)
    requires Distinct(s) && i < |s| && k < |s| && i != k
    ensures s[i] != s[k]
  {
  }

  lemma CutOut<T>(s: seq<T>, k: nat) returns (t: seq<T>)
    requires Distinct(s) && k < |s|
    ensures t == s[..k] + s[k + 1..] && Distinct(t)
    ensures |t| == |s| - 1 && forall i :: 0 <= i < |t| ==> t[i] == if i < k then s[i] else s[i + 1]
  {
    t := s[..k] + s[k + 1..];
  }

  /** What the link of element i must be. */
  ghost function Following(items: seq<Netif>, i: nat): Netif?
    requires i < |items|
  {
    if i + 1 == |items| then null else items[i + 1]
  }

  /** Index of the first interface with that address, or the length. */
  function FirstWith(items: seq<Netif>, addr: U32): (k: nat)
    reads items
    ensures k <= |items| && (k < |items| ==> items[k].ipaddr == addr)
    ensures forall i :: 0 <= i < k ==> items[i].ipaddr != addr
  {
    if items == [] then 0
    else
      var k := FirstWith(items[..|items| - 1], addr);
      if k < |items| - 1 then k
      else if items[|items| - 1].ipaddr == addr then k
      else k + 1
  }

  lemma DeinitAccepted(s: NetState.State, c: NetState.Call)
    requires c.event == NetState.CmdDeinit
    ensures NetState.Manage(s, c).ret == NET_OK <==>
      s != NetState.Deinitialized && (s == NetState.Initialized ==> c.driverRet == NET_OK)
  {
  }

  class NetifList {
    var head: Netif?
    ghost var items: seq<Netif>

    /** The links spell the sequence and end in NULL: no interface occurs twice, so no cycle. */
    ghost predicate Valid()
      reads this, items
    {
      && Distinct(items)
      && head == (if items == [] then null else items[0])
      && forall i {:trigger items[i].next} :: 0 <= i < |items| ==> items[i].next == Following(items, i)
    }

    constructor ()
      ensures Valid() && items == []
    {
      head, items := null, [];
    }

    /** Appends an interface that is not a member and not linked. */
    method AddToList(p: Netif)
      requires Valid() && p !in items && p.next == null
      modifies this, items`next
      ensures Valid() && items == old(items) + [p]
    {
      if head == null {
        head := p;
      } else {
        var last := head;
        ghost var k := 0;
        while last.next != null
          invariant 0 <= k < |items| && last == items[k]
          decreases |items| - k
        {
          last := last.next;
          k := k + 1;
        }
        last.next := p;
      }
      items := items + [p];
    }

    /** Cuts the successor of `prev` out of the chain. */
    method UnlinkAfter(prev: Netif, ghost k: nat, p: Netif)
      requires Valid() && k + 1 < |items| && prev == items[k] && p == items[k + 1]
      modifies this, prev`next
      ensures Valid() && items == Without(old(items), p)
    {
      hide Without, Distinct;
      WithoutAt(items, k + 1);
      ghost var before := items;
      ghost var after := CutOut(items, k + 1);
      forall i | 0 <= i < |before| && i != k ensures before[i] != prev {
        OtherElement(before, i, k);
      }
      prev.next := p.next;
      items := after;
    }

    /** Unlinks one interface; without it in the list nothing changes. The source reads through the head,
        so the list must not be empty. */
    method RemoveFromList(p: Netif)
      requires Valid() && items != []
      modifies this, items`next
      ensures Valid() && items == Without(old(items), p)
      ensures p.next == old(p.next)
    {
      hide Without;
      if head == p {
        WithoutAt(items, 0);
        head := head.next;
        items := items[1..];
      } else {
        var prev := head;
        ghost var k := 0;
        while prev.next != null && prev.next != p
          invariant 0 <= k < |items| && prev == items[k]
          invariant forall i :: 0 <= i <= k ==> items[i] != p
          decreases |items| - k
        {
          prev := prev.next;
          k := k + 1;
        }
        if prev.next == p {
          UnlinkAfter(prev, k, p);
        } else {
          WithoutAbsent(items, p);
        }
      }
    }

    /** The first interface with that address; the head for the zero address. */
    method Find(addr: U32) returns (p: Netif?)
      requires Valid() && (addr != 0 ==> items != [])
      ensures addr == 0 ==> p == head
      ensures addr != 0 ==>
        var k := FirstWith(items, addr);
        p == if k == |items| then null else items[k]
    {
      p := head;
      if addr != 0 {
        ghost var k := 0;
        while p != null && p.ipaddr != addr
          invariant 0 <= k <= |items| && p == (if k == |items| then null else items[k])
          invariant forall i :: 0 <= i < k ==> items[i].ipaddr != addr
          decreases |items| - k
        {
          p := p.next;
          k := k + 1;
        }
        assert k == FirstWith(items, addr);
      }
    }

    /** netif_check: a missing interface stands for the first one. */
    method Check(p: Netif?) returns (q: Netif?)
      requires Valid()
      ensures q == if p == null then head else p
    {
      q := p;
      if p == null {
        q := Find(0);
      }
    }

    /** Initialization: the driver reports `events` and returns `driverRet`. A failed one leaves the list as
        it was. */
    method Init(p: Netif?, events: seq<NetState.Call>, driverRet: int) returns (ret: int)
      requires Valid() && (p != null ==> p !in items && p.next == null)
      modifies this, items`next, p
      ensures Valid()
      ensures p == null ==> ret == NET_ERROR_PARAMETER == -4 && items == old(items)
      ensures p != null && driverRet == NET_OK ==>
        ret == NET_OK && items == old(items) + [p] && p.state == NetState.RunAll(NetState.Initialized, events).state
      ensures p != null && driverRet != NET_OK ==>
        && ret == NET_ERROR_INTERFACE_FAILURE && items == old(items)
        && p.state == NetState.Deinitialized && p.next == null
    {
      hide NetState.RunAll, Without;
      if p == null {
        return NET_ERROR_PARAMETER;
      }
      p.state := NetState.Initialized;
      AddToList(p);
      p.state := NetState.RunAll(NetState.Initialized, events).state;
      ret := driverRet;
      if ret != NET_OK {
        p.state := NetState.Deinitialized;
        assert items[|items| - 1] == p;
        WithoutAt(items, |items| - 1);
        assert p.next == null;
        RemoveFromList(p);
        ret := NET_ERROR_INTERFACE_FAILURE;
      }
    }

    /** De-initialization forces the state in every case, but unlinks the interface only if the event was
        accepted: not when it was de-initialized before, nor when it was INITIALIZED and if_deinit failed. A
        second call after a successful one is refused by the state. */
    method Deinit(p: Netif, c: NetState.Call) returns (ret: int)
      requires Valid() && c.event == NetState.CmdDeinit
      requires items != [] || p.state == NetState.Deinitialized ||
               (p.state == NetState.Initialized && c.driverRet != NET_OK)
      modifies this, items`next, p
      ensures Valid() && p.state == NetState.Deinitialized
      ensures ret == NetState.Manage(old(p.state), c).ret
      ensures ret == NET_OK <==>
        old(p.state) != NetState.Deinitialized && (old(p.state) == NetState.Initialized ==> c.driverRet == NET_OK)
      ensures items == if ret == NET_OK then Without(old(items), p) else old(items)
      ensures ret == NET_OK ==> p.next == null
    {
      DeinitAccepted(p.state, c);
      hide NetState.Manage, Without;
      ret := NetState.Manage(p.state, c).ret;
      p.state := NetState.Deinitialized;
      if ret == NET_OK {
        RemoveFromList(p);
        p.next := null;
      }
    }
  }
}
