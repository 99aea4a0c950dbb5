/** The debug allocator of core/net_os.c: a table of live blocks, summary counters, and the tree of per-directory
    totals. A call that the program never returns from gives false. */
module AllocDebug {
  import opened Words
  import opened AllocPaths
  import opened AllocTree
  import opened AllocBranch
  import opened AllocWalk
  import opened AllocArena
  import opened AllocRoutes
  import opened AllocBooks
  import opened AllocExact

  const TABLE := 300
  const BREAK: U32 := 0xFFFF_FFFF

  /** The table as it starts: all entries zero. */
  ghost function Zeros(): (s: seq<Slot>)
    ensures |s| == TABLE
  {
    seq(TABLE, _ => FREE_SLOT)
  }

  function Low16(x: U32): U16 {
    x % 0x1_0000
  }

  /** The lowest free entry. */
  ghost predicate LowestFree(slots: seq<Slot>, i: nat) {
    i < |slots| && slots[i].p == 0 && forall j :: 0 <= j < i ==> slots[j].p != 0
  }

  /** A new block in the lowest free entry. */
  ghost predicate Entered(before: seq<Slot>, after: seq<Slot>, s: Slot) {
    exists i: nat {:trigger before[i := s]} :: LowestFree(before, i) && after == before[i := s]
  }

  /** The entry of a live address. */
  ghost function EntryOf(slots: seq<Slot>, p: U32): (i: nat)
    requires !NotLive(slots, p)
    ensures i < |slots| && slots[i].p == p
  {
    var i: nat :| i < |slots| && slots[i].p == p;
    i
  }

  /** The block's entry emptied. */
  ghost predicate Released(before: seq<Slot>, after: seq<Slot>, p: U32) {
    !NotLive(before, p) && after == before[EntryOf(before, p) := Freed(before[EntryOf(before, p)])]
  }

  /** The block's size is taken off its node and all that node's parents. */
  ghost predicate TakenBack(ns: seq<Node>, ms: seq<Node>, s: Slot) {
    Loose(ns) && 0 <= s.node < |ns| && TakenOff(ns, ms, Ups(ns, s.node), s.size)
  }

  /** Live entries have distinct addresses and point to nodes. */
  ghost predicate Pointed(slots: seq<Slot>, count: nat) {
    && (forall i :: 0 <= i < |slots| && slots[i].p != 0 ==> 0 <= slots[i].node < count)
    && forall i, j :: 0 <= i < j < |slots| && slots[i].p != 0 ==> slots[i].p != slots[j].p
  }

  lemma EntryUnique(slots: seq<Slot>, count: nat, i: nat)
    requires Pointed(slots, count) && i < |slots| && slots[i].p != 0
    ensures !NotLive(slots, slots[i].p) && EntryOf(slots, slots[i].p) == i
  {
  }

  lemma PointedEntered(slots: seq<Slot>, count: nat, more: nat, i: nat, s: Slot)
    requires Pointed(slots, count) && count <= more && i < |slots| && NotLive(slots, s.p) && 0 <= s.node < more
    ensures Pointed(slots[i := s], more)
  {
  }

  lemma EntryFilled(slots: seq<Slot>, count: nat, more: nat, i: nat, s: Slot)
    requires Pointed(slots, count) && count <= more && LowestFree(slots, i) && s.p != 0
    requires HeapGives(slots, s.p, s.size) && 0 <= s.node < more
    ensures Pointed(slots[i := s], more)
  {
    hide Pointed, Total;
    PointedEntered(slots, count, more, i, s);
  }

  lemma PointedFreed(slots: seq<Slot>, count: nat, i: nat)
    requires Pointed(slots, count) && i < |slots|
    ensures Pointed(slots[i := Freed(slots[i])], count)
  {
  }

  /** Live bytes and blocks now, and the most there ever were. */
  ghost predicate Tally(slots: seq<Slot>, past: seq<seq<Slot>>, bytes: int, maxBytes: int, blocks: int,
      maxBlocks: int)
  {
    && Current(slots, past)
    && bytes == Total(slots, Bytes([])) && maxBytes == Peak(past, Bytes([]))
    && blocks == Total(slots, Blocks) && maxBlocks == Peak(past, Blocks)
  }

  /** The counters already include one more block of this size. */
  ghost predicate Ahead(slots: seq<Slot>, past: seq<seq<Slot>>, size: U32, bytes: int, maxBytes: int, blocks: int,
      maxBlocks: int)
  {
    && Current(slots, past)
    && bytes == Total(slots, Bytes([])) + size && maxBytes == Larger(Peak(past, Bytes([])), bytes)
    && blocks == Total(slots, Blocks) + 1 && maxBlocks == Larger(Peak(past, Blocks), blocks)
  }

  lemma LiveAfter(before: seq<Slot>, mid: seq<Slot>, s: Slot, p: U32)
    requires Entered(before, mid, s) && s.p != 0 && p != 0
    ensures !NotLive(mid, p) <==> (!NotLive(before, p) || s.p == p)
  {
    var i: nat :| LowestFree(before, i) && mid == before[i := s];
    assert mid[i].p == s.p;
    if !NotLive(before, p) {
      var j :| 0 <= j < |before| && before[j].p == p;
      assert mid[j].p == p;
    }
  }

  lemma NothingCounted(slots: seq<Slot>)
    ensures Total(slots[..0], Blocks) == 0 == Total(slots[..0], Bytes([]))
  {
  }

  lemma TotalNext(slots: seq<Slot>, i: nat, m: Measure)
    requires i < |slots|
    ensures Total(slots[..i + 1], m) == Total(slots[..i], m) + Weight(m, slots[i]) <= Total(slots, m)
  {
    TotalOfPart(slots, i + 1, m);
    hide Weight;
    assert slots[..i + 1][..i] == slots[..i];
  }

  lemma ReportStep(slots: seq<Slot>, i: nat)
    requires i < |slots|
    ensures Total(slots[..i + 1], Blocks) == Total(slots[..i], Blocks) + (if slots[i].p != 0 then 1 else 0)
    ensures Total(slots[..i + 1], Bytes([])) == Total(slots[..i], Bytes([]))
        + (if slots[i].p != 0 then slots[i].size else 0)
    ensures Total(slots[..i + 1], Blocks) <= Total(slots, Blocks)
        && Total(slots[..i + 1], Bytes([])) <= Total(slots, Bytes([]))
  {
    hide Split, Total;
    TotalNext(slots, i, Blocks);
    TotalNext(slots, i, Bytes([]));
  }

  lemma {:induction false} TotalOfPart(slots: seq<Slot>, i: nat, m: Measure)
    requires i <= |slots|
    ensures Total(slots[..i], m) <= Total(slots, m)
  {
    hide Weight;
    if i == |slots| {
      assert slots[..i] == slots;
    } else {
      var last := |slots| - 1;
      assert slots[..last][..i] == slots[..i];
      TotalOfPart(slots[..last], i, m);
    }
  }

  lemma NoWrap(x: int)
    requires 0 <= x < TWO32
    ensures Wrap32(x) == x
  {
  }

  lemma StartBooks()
    ensures forall m :: Total(Zeros(), m) == 0 && Peak([Zeros()], m) == 0
  {
    forall m ensures Total(Zeros(), m) == 0 && Peak([Zeros()], m) == 0 {
      TotalNothing(Zeros(), m);
      hide Total, Zeros;
      PeakStep([], Zeros(), m);
      assert [] + [Zeros()] == [Zeros()];
    }
  }

  /** What the counters must show once block `s` is in entry i. */
  lemma EntryCounters(slots: seq<Slot>, past: seq<seq<Slot>>, i: nat, s: Slot)
    requires i < |slots| && slots[i].p == 0 && s.p != 0
    ensures var t := slots[i := s];
      && Total(t, Bytes([])) == Total(slots, Bytes([])) + s.size && Total(t, Blocks) == Total(slots, Blocks) + 1
      && Peak(past + [t], Bytes([])) == Larger(Peak(past, Bytes([])), Total(t, Bytes([])))
      && Peak(past + [t], Blocks) == Larger(Peak(past, Blocks), Total(t, Blocks))
  {
    hide Total, Peak, Split;
    TotalUpdate(slots, i, s, Bytes([]));
    TotalUpdate(slots, i, s, Blocks);
    PeakStep(past, slots[i := s], Bytes([]));
    PeakStep(past, slots[i := s], Blocks);
  }

  lemma EntryTally(slots: seq<Slot>, past: seq<seq<Slot>>, i: nat, s: Slot, bytes: int, maxBytes: int, blocks: int,
      maxBlocks: int)
    requires i < |slots| && slots[i].p == 0 && s.p != 0
    requires Ahead(slots, past, s.size, bytes, maxBytes, blocks, maxBlocks)
    ensures Tally(slots[i := s], past + [slots[i := s]], bytes, maxBytes, blocks, maxBlocks)
  {
    hide Total, Peak;
    EntryCounters(slots, past, i, s);
  }

  /** What the counters must show once entry i is empty. */
  lemma FreeCounters(slots: seq<Slot>, past: seq<seq<Slot>>, bytes: int, maxBytes: int, blocks: int, maxBlocks: int,
      i: nat)
    requires Tally(slots, past, bytes, maxBytes, blocks, maxBlocks) && i < |slots| && slots[i].p != 0
    ensures slots[i].size <= bytes && 1 <= blocks
    ensures var t := slots[i := Freed(slots[i])];
      Tally(t, past + [t], bytes - slots[i].size, maxBytes, blocks - 1, maxBlocks)
  {
    hide Total, Peak, Split;
    FreedTotals(slots, past, i, Bytes([]));
    FreedTotals(slots, past, i, Blocks);
  }

  function Larger(a: int, b: int): int {
    if b > a then b else a
  }

  /** In the tree of the first file no chain leads anywhere, and its first node alone has no parent. */
  lemma FirstTree(ns: seq<Node>, ms: seq<Node>, filename: string, n: U32, top: nat)
    requires ns == [] && Loose(ns) && StartsAt(ns, NULL) && filename != ""
    requires ms == WalkNodes(ns, NULL, filename, n).0 && top < |ms|
    ensures StartsAt(ms, top) && (ms[top].up == NULL ==> top == 0)
  {
    WalkMissing(ns, NULL, filename, n);
    var branch := Branch(0, NULL, filename, n);
    AttachedNowhere(ns, branch, NULL);
    BranchLinks(branch, 0, NULL, filename, n);
    hide Branch, WalkNodes, Attached, Loose;
    assert ns + branch == branch;
  }

  /** The block just entered is the one its address finds. */
  lemma FoundAgain(slots: seq<Slot>, held: seq<Slot>, s: Slot, count: nat)
    requires Entered(slots, held, s) && s.p != 0 && Pointed(held, count)
    ensures !NotLive(held, s.p) && held[EntryOf(held, s.p)] == s
  {
    var i: nat :| LowestFree(slots, i) && held == slots[i := s];
    EntryUnique(held, count, i);
  }

  /** The exact condition, over the tables of a malloc and a free. */
  lemma InThenOut(ns: seq<Node>, v: View, root: int, files: set<string>, slots: seq<Slot>, past: seq<seq<Slot>>,
      s: Slot, held: seq<Slot>, after: seq<Slot>, os: seq<Node>)
    requires TreeAgrees(ns, v, root, files, slots, past) && Loose(ns) && StartsAt(ns, root) && Current(slots, past)
    requires s.p != 0 && HeapGives(slots, s.p, s.size) && s.filename != "" && s.size > 0
    requires s.node == WalkNodes(ns, root, s.filename, s.size).1
    requires Entered(slots, held, s) && Released(held, after, s.p)
    requires TakenBack(WalkNodes(ns, root, s.filename, s.size).0, os, s)
    ensures Routes(ns, v, NULL, Split(s.filename)) <==>
      CountsAgree(WalkNodes(ns, root, s.filename, s.size).0, v, held) && CountsAgree(os, v, after)
  {
    hide TreeAgrees, Loose, StartsAt, Routes, WalkNodes, TakenOff, Ups, CountsAgree, Split, Total, Peak, Current;
    var i: nat :| LowestFree(slots, i) && held == slots[i := s];
    assert EntryOf(held, s.p) == i by {
      assert forall j :: 0 <= j < |held| && j != i ==> held[j].p != s.p;
    }
    FindsExactly(ns, v, root, files, slots, past, i, s, os);
    InAndOut(os, v, slots, i, s);
  }

  lemma CreditStarts(ns: seq<Node>, ms: seq<Node>, ups: set<int>, n: U32, root: int)
    requires Loose(ns) && TakenOff(ns, ms, ups, n) && StartsAt(ns, root)
    ensures StartsAt(ms, root)
  {
    TakenOffLinks(ns, ms, ups, n);
    SameLinksLoose(ns, ms);
  }

  lemma AnyRoot(ns: seq<Node>, ms: seq<Node>, root: int, filename: string, n: U32)
    requires Loose(ns) && StartsAt(ns, root) && root != NULL && filename != ""
    requires ms == WalkNodes(ns, root, filename, n).0
    ensures StartsAt(ms, root)
  {
    WalkLoose(ns, root, filename, n);
  }

  // ----- The whole state

  /** The tree's nodes and root, the table, its history, and the numbers of calls. */
  datatype State = State(nodes: seq<Node>, root: int, table: seq<Slot>, past: seq<seq<Slot>>, allocs: U32, frees: U32)

  /** The first branch of all starts at its first node. */
  function TopOf(root: int): int {
    if root == NULL then 0 else root
  }

  /** A free entry and room for the new nodes. */
  ghost predicate FitsIn(a: State, size: U32, filename: string)
    requires Loose(a.nodes) && StartsAt(a.nodes, a.root) && filename != ""
  {
    Total(a.table, Blocks) < TABLE && |WalkNodes(a.nodes, a.root, filename, size).0| < MAX_NODE
  }

  /** What a malloc needs: memory, a free entry, room for the new nodes, and not to be the break. */
  ghost predicate Holds(a: State, size: U32, filename: string, pp: U32)
    requires Loose(a.nodes) && StartsAt(a.nodes, a.root) && filename != ""
  {
    pp != 0 && FitsIn(a, size, filename) && a.allocs + 1 < BREAK
  }

  /** The tree stands for `v` and agrees with the table, and the walk for the file finds its way. */
  ghost predicate OnWayIn(a: State, v: View, files: set<string>, filename: string) {
    TreeAgrees(a.nodes, v, a.root, files, a.table, a.past) && Routes(a.nodes, v, NULL, Split(filename))
  }

  /** A malloc that returns. */
  ghost predicate Allocates(a: State, size: U32, filename: string, line: U16, pp: U32, b: State) {
    && Loose(a.nodes) && StartsAt(a.nodes, a.root) && filename != "" && a.allocs < BREAK
    && var (ns, leaf) := WalkNodes(a.nodes, a.root, filename, size);
      && Entered(a.table, b.table, Slot(filename, line, Low16(a.allocs + 1), size, pp, leaf))
      && b.nodes == ns && b.root == TopOf(a.root) && b.past == a.past + [b.table]
      && b.allocs == a.allocs + 1 && b.frees == a.frees
  }

  /** A free that returns. */
  ghost predicate Frees(a: State, p: U32, b: State) {
    if p == 0 then b == a
    else
      && Released(a.table, b.table, p) && TakenBack(a.nodes, b.nodes, a.table[EntryOf(a.table, p)])
      && b.root == a.root && b.past == a.past + [b.table] && b.allocs == a.allocs && b.frees == a.frees + 1
  }

  /** A realloc that returns, with the state between its two halves. */
  ghost predicate Reallocates(a: State, mid: State, p: U32, size: U32, filename: string, line: U16, pp: U32, b: State) {
    && (if size == 0 then mid == a else Allocates(a, size, filename, line, pp, mid))
    && Frees(mid, p, b)
  }

  /** The limits: 300 blocks, 49 nodes, and one call less than the break. */
  lemma HoldsWithin(a: State, size: U32, filename: string, pp: U32)
    requires Loose(a.nodes) && StartsAt(a.nodes, a.root) && filename != ""
    ensures Holds(a, size, filename, pp) <==>
      && pp != 0 && Total(a.table, Blocks) <= 299 && a.allocs <= 0xffff_fffd
      && |WalkNodes(a.nodes, a.root, filename, size).0| <= 49
  {
  }

  /** What a malloc writes into the table: the lowest free entry gets the block with where it came from, the number of
      the call in 16 bits, and the leaf of its walk. */
  lemma BlockRecorded(a: State, size: U32, filename: string, line: U16, pp: U32, b: State) returns (i: nat)
    requires Allocates(a, size, filename, line, pp, b)
    ensures LowestFree(a.table, i) && |b.table| == |a.table|
    ensures forall j :: 0 <= j < |a.table| && j != i ==> b.table[j] == a.table[j]
    ensures b.table[i].filename == filename && b.table[i].line == line && b.table[i].size == size && b.table[i].p == pp
    ensures b.table[i].iter == b.allocs % 0x1_0000
    ensures b.table[i].node == WalkNodes(a.nodes, a.root, filename, size).1
  {
    hide WalkNodes;
    var s := Slot(filename, line, Low16(a.allocs + 1), size, pp, WalkNodes(a.nodes, a.root, filename, size).1);
    i :| LowestFree(a.table, i) && b.table == a.table[i := s];
  }

  /** What a free leaves of it: an entry without address and size. */
  lemma BlockForgotten(a: State, p: U32, b: State) returns (i: nat)
    requires Frees(a, p, b) && p != 0
    ensures i < |a.table| == |b.table| && a.table[i].p == p
    ensures forall j :: 0 <= j < |a.table| && j != i ==> b.table[j] == a.table[j]
    ensures b.table[i].p == 0 && b.table[i].size == 0 && b.table[i].filename == a.table[i].filename
  {
    i := EntryOf(a.table, p);
  }

  lemma LiveAfterMalloc(a: State, size: U32, filename: string, line: U16, pp: U32, b: State, p: U32)
    requires Allocates(a, size, filename, line, pp, b) && pp != 0 && p != 0
    ensures !NotLive(b.table, p) <==> (!NotLive(a.table, p) || pp == p)
  {
    hide Entered, NotLive, WalkNodes, Loose, StartsAt;
    var leaf := WalkNodes(a.nodes, a.root, filename, size).1;
    LiveAfter(a.table, b.table, Slot(filename, line, Low16(a.allocs + 1), size, pp, leaf), p);
  }

  class Allocator {
    const arena: Arena
    const infos: array<Slot>
    var current: U32
    var totalMax: U32
    var iteralloc: U32
    var iterfree: U32
    var maxAlive: U32
    var root: int
    /** The directories the nodes stand for, as long as all walks found their way. */
    ghost var v: View
    /** The names allocated from so far. */
    ghost var files: set<string>
    /** All states of the table so far. */
    ghost var past: seq<seq<Slot>>

    ghost function Table(): seq<Slot>
      reads infos
    {
      infos[..]
    }

    ghost function Now(): State
      requires arena.count <= arena.nodes.Length
      reads this, infos, arena, arena.nodes
    {
      State(arena.Live(), root, Table(), past, iteralloc, iterfree)
    }

    /** The links lead on and end, whatever the file names. */
    ghost predicate Links()
      reads `root, arena, arena.nodes
    {
      arena.Valid() && StartsAt(arena.Live(), root) && (root == NULL ==> arena.count == 0)
    }

    ghost predicate Entries()
      reads infos, arena
    {
      infos.Length == TABLE && Pointed(Table(), arena.count)
    }

    /** The counters agree with the table. */
    ghost predicate Totals()
      reads this, infos
    {
      Tally(Table(), past, current, totalMax, iteralloc - iterfree, maxAlive)
    }

    ghost predicate Counters()
      reads this, infos
    {
      Totals() && iteralloc < BREAK && |past| == 1 + iteralloc + iterfree
    }

    ghost predicate Untouched()
      reads this, infos, arena
    {
      iteralloc == 0 ==> Table() == Zeros() && past == [Zeros()] && arena.count == 0
    }

    /** What holds between calls whatever the file names. */
    ghost predicate Valid()
      reads this, infos, arena, arena.nodes
    {
      Links() && Entries() && Counters() && Untouched()
    }

    /** The tree agrees with the table. */
    ghost predicate Agrees()
      requires arena.count <= arena.nodes.Length
      reads `root, `v, `files, `past, arena, arena.nodes, infos
    {
      TreeAgrees(arena.Live(), v, root, files, Table(), past)
    }

    /** Every directory that was allocated from has its node, and every node tells the truth. */
    ghost predicate Exact()
      reads this, infos, arena, arena.nodes
    {
      Valid() && Agrees()
    }

    /** The walk for the file finds its way. */
    ghost predicate Finds(filename: string)
      reads this, infos, arena, arena.nodes
    {
      Valid() && OnWay(filename)
    }

    ghost predicate OnWay(filename: string)
      requires arena.count <= arena.nodes.Length
      reads this, arena, arena.nodes, infos
    {
      OnWayIn(Now(), v, files, filename)
    }

    /** The nodes after the walk for a file, and the leaf found. */
    ghost function Walk(filename: string, size: U32): (seq<Node>, int)
      requires Links() && filename != ""
      reads `root, arena, arena.nodes
    {
      WalkNodes(arena.Live(), root, filename, size)
    }

    /** The entry a call makes. */
    ghost function Block(size: U32, filename: string, line: U16, pp: U32): Slot
      requires Links() && filename != "" && iteralloc < BREAK
      reads `root, `iteralloc, arena, arena.nodes
    {
      Slot(filename, line, Low16(iteralloc + 1), size, pp, Walk(filename, size).1)
    }

    /** What a call needs to come back. */
    ghost predicate CanHold(size: U32, filename: string, pp: U32)
      requires Links() && filename != ""
      reads this, infos, arena, arena.nodes
    {
      Holds(Now(), size, filename, pp)
    }

    constructor ()
      ensures Exact() && fresh(infos) && fresh(arena) && fresh(arena.nodes)
      ensures files == {} && Table() == Zeros() && past == [Zeros()] && iteralloc == 0 && iterfree == 0
    {
      arena := new Arena();
      infos := new Slot[TABLE](_ => FREE_SLOT);
      current, totalMax, iteralloc, iterfree, maxAlive, root := 0, 0, 0, 0, 0, NULL;
      v, files := EMPTY, {};
      past := [Zeros()];
      new;
      hide Total, Peak, Split, Joined;
      StartBooks();
      assert Table() == Zeros();
    }

    /** The first call clears everything. */
    method Start()
      requires Valid() && iteralloc == 0
      modifies `current, `totalMax, `root, infos, arena, arena.nodes
      ensures Valid() && Table() == old(Table()) && arena.Live() == old(arena.Live()) && root == old(root)
    {
      forall i | 0 <= i < infos.Length {
        infos[i] := FREE_SLOT;
      }
      current, totalMax, root := 0, 0, NULL;
      arena.Reset();
      hide Total, Peak, Split, Joined;
      StartBooks();
      assert Table() == Zeros();
    }

    method FirstFree() returns (i: nat)
      requires infos.Length == TABLE
      ensures i <= TABLE && (i < TABLE ==> LowestFree(Table(), i))
      ensures i < TABLE <==> Total(Table(), Blocks) < TABLE
    {
      hide Total;
      FullTable(Table());
      i := 0;
      while i < TABLE && infos[i].p != 0
        invariant i <= TABLE && forall j :: 0 <= j < i ==> infos[j].p != 0
      {
        i := i + 1;
      }
    }

    /** Walks the tree for the file and makes sure the root is known. */
    method WalkTree(filename: string, size: U32) returns (ok: bool, leaf: int)
      requires Links() && filename != ""
      modifies `root, arena, arena.nodes
      ensures ok <==> |old(Walk(filename, size)).0| < MAX_NODE
      ensures ok ==> Links() && (arena.Live(), leaf) == old(Walk(filename, size))
      ensures ok ==> 0 <= leaf < arena.count && old(arena.count) <= arena.count
      ensures ok ==> root == TopOf(old(root)) && 0 <= root < arena.count
      ensures ok && old(root) == NULL ==> arena.nodes[root].up == NULL
    {
      ghost var ns := arena.Live();
      assert NULL <= root < arena.count;
      hide WalkNodes, Loose, First, Branch, Split, Ups, StartsAt;
      ok, leaf := arena.Walk(root, filename, size);
      if ok {
        if root == NULL {
          root := arena.FindTop(leaf);
          FirstTree(ns, arena.Live(), filename, size, root);
        } else {
          AnyRoot(ns, arena.Live(), root, filename, size);
        }
      }
    }

    /** Between the count of a call and its entry: all but the number of calls is as in `a`. */
    ghost predicate Counting(a: State)
      requires arena.count <= arena.nodes.Length
      reads this, infos, arena, arena.nodes
    {
      0 < iteralloc && a == Now().(allocs := iteralloc - 1)
    }

    /** Fills the free entry i for the new block and charges its directories. */
    method FillEntry(i: nat, filename: string, line: U16, size: U32, pp: U32, ghost a: State) returns (ok: bool)
      requires Links() && Entries() && Counting(a) && Current(a.table, a.past) && LowestFree(a.table, i)
      requires filename != "" && pp != 0 && HeapGives(a.table, pp, size) && a.allocs < BREAK
      modifies `root, `v, `files, `past, infos, arena, arena.nodes
      ensures ok <==> |WalkNodes(a.nodes, a.root, filename, size).0| < MAX_NODE
      ensures ok ==> Links() && Entries() && files == old(files) + {filename}
      ensures ok ==> Allocates(a, size, filename, line, pp, Now())
      ensures var s := Slot(filename, line, Low16(iteralloc), size, pp,
                            WalkNodes(a.nodes, a.root, filename, size).1);
        ok ==> Table() == a.table[i := s]
      ensures ok && OnWayIn(a, old(v), old(files), filename) ==> Agrees()
    {
      hide Split, WalkNodes, TreeAgrees, HeapGives, StartsAt, Routes, Loose;
      ghost var s := Slot(filename, line, Low16(iteralloc), size, pp,
                          WalkNodes(a.nodes, a.root, filename, size).1);
      infos[i] := Slot(filename, line, Low16(iteralloc), size, pp, infos[i].node);
      var leaf;
      ok, leaf := WalkTree(filename, size);
      if ok {
        infos[i] := infos[i].(node := leaf);
        assert Table() == a.table[i := s];
        EntryFilled(a.table, old(arena.count), arena.count, i, s);
        past, files := past + [Table()], files + {filename};
        if OnWayIn(a, v, old(files), filename) {
          v := AfterWalk(a.nodes, v, a.root, old(files), a.table, a.past, i, s);
        }
      }
    }

    method Enter(i: nat, filename: string, line: U16, size: U32, pp: U32, ghost a: State) returns (ok: bool)
      requires Links() && Entries() && Counting(a) && LowestFree(a.table, i) && a.allocs < BREAK
      requires Ahead(a.table, a.past, size, current, totalMax, iteralloc - iterfree, maxAlive)
      requires filename != "" && pp != 0 && HeapGives(a.table, pp, size)
      modifies `root, `v, `files, `past, infos, arena, arena.nodes
      ensures ok <==> |WalkNodes(a.nodes, a.root, filename, size).0| < MAX_NODE
      ensures ok ==> Links() && Entries() && Totals() && files == old(files) + {filename}
      ensures ok ==> Allocates(a, size, filename, line, pp, Now())
      ensures ok && OnWayIn(a, old(v), old(files), filename) ==> Agrees()
    {
      ghost var s := Slot(filename, line, Low16(iteralloc), size, pp,
                          WalkNodes(a.nodes, a.root, filename, size).1);
      EntryTally(a.table, a.past, i, s, current, totalMax, iteralloc - iterfree, maxAlive);
      hide Links, Entries, Agrees, OnWayIn, WalkNodes, LowestFree, HeapGives, Tally, Ahead, Low16;
      ok := FillEntry(i, filename, line, size, pp, a);
    }

    /** Looks for a free entry; the break is checked last. */
    method Insert(size: U32, filename: string, line: U16, pp: U32, ghost a: State) returns (ok: bool)
      requires Links() && Entries() && Counting(a) && a.allocs < BREAK
      requires filename != "" && pp != 0 && HeapGives(a.table, pp, size)
      requires Ahead(a.table, a.past, size, current, totalMax, iteralloc - iterfree,
                     Larger(maxAlive, iteralloc - iterfree))
      modifies `maxAlive, `root, `v, `files, `past, infos, arena, arena.nodes
      ensures ok <==> FitsIn(a, size, filename) && iteralloc < BREAK
      ensures ok ==> Links() && Entries() && Totals() && files == old(files) + {filename}
      ensures ok ==> Allocates(a, size, filename, line, pp, Now())
      ensures ok && OnWayIn(a, old(v), old(files), filename) ==> Agrees()
    {
      assert infos.Length == TABLE;
      hide Links, Entries, Agrees, OnWayIn, WalkNodes, LowestFree, HeapGives, Allocates, Totals, Ahead, Larger, Total,
          Current, Table;
      ok := false;
      CountAlive(size);
      var i := FirstFree();
      if i < TABLE {
        ok := Enter(i, filename, line, size, pp, a);
        ok := ok && iteralloc != BREAK;
      }
    }

    /** Keeps the largest number of live blocks. */
    method CountAlive(ghost size: U32)
      requires Ahead(Table(), past, size, current, totalMax, iteralloc - iterfree,
                     Larger(maxAlive, iteralloc - iterfree))
      modifies `maxAlive
      ensures Ahead(Table(), past, size, current, totalMax, iteralloc - iterfree, maxAlive)
    {
      hide Total, Peak, Current;
      NoWrap(iteralloc - iterfree);
      if Wrap32(iteralloc - iterfree) > maxAlive {
        maxAlive := Wrap32(iteralloc - iterfree);
      }
    }

    /** Counts the call and its bytes, before the heap is asked. */
    method CountCall(size: U32, ghost pp: U32)
      requires Totals() && iteralloc < BREAK && HeapGives(Table(), pp, size)
      modifies `iteralloc, `current, `totalMax
      ensures iteralloc == old(iteralloc) + 1
      ensures pp != 0 ==> Ahead(Table(), past, size, current, totalMax, iteralloc - iterfree,
                                Larger(maxAlive, iteralloc - iterfree))
    {
      hide Total, Peak, Current, NotLive, Wrap32;
      NoWrap(iteralloc + 1);
      if pp != 0 {
        NoWrap(current + size);
      }
      iteralloc := Wrap32(iteralloc + 1);
      current := Wrap32(current + size);
      if current > totalMax {
        totalMax := current;
      }
    }

    /** Records a new block at address `pp`, or hangs: without memory, without a free entry, without room for the
        tree's new nodes, or at the call number set as a break. The counters stay right for any file name, the
        tree for one whose walk finds its way. */
    method Malloc(size: U32, filename: string, line: U16, pp: U32) returns (ok: bool, p: U32)
      requires Valid() && filename != "" && HeapGives(Table(), pp, size)
      modifies this, infos, arena, arena.nodes
      ensures ok <==> old(CanHold(size, filename, pp))
      ensures ok ==> Valid() && p == pp && iteralloc == old(iteralloc) + 1 && iterfree == old(iterfree)
      ensures ok ==> Entered(old(Table()), Table(), old(Block(size, filename, line, pp)))
      ensures ok ==> arena.Live() == old(Walk(filename, size)).0
      ensures ok ==> past == old(past) + [Table()] && files == old(files) + {filename} && root == TopOf(old(root))
      ensures ok ==> Allocates(old(Now()), size, filename, line, pp, Now())
      ensures ok && old(Finds(filename)) ==> Exact()
    {
      hide Split, TreeAgrees, Routes, WalkNodes, Total, Peak, HeapGives, Entered, Zeros, StartsAt, Tally, Pointed,
          Loose;
      if iteralloc == 0 {
        Start();
      }
      hide Links, Entries, Counters;
      ok, p := Record(size, filename, line, pp);
    }

    /** A call after the first has cleared everything. */
    method Record(size: U32, filename: string, line: U16, pp: U32) returns (ok: bool, p: U32)
      requires Valid() && filename != "" && HeapGives(Table(), pp, size)
      modifies this, infos, arena, arena.nodes
      ensures ok <==> old(CanHold(size, filename, pp))
      ensures ok ==> Valid() && p == pp && files == old(files) + {filename}
      ensures ok ==> Allocates(old(Now()), size, filename, line, pp, Now())
      ensures ok && old(OnWay(filename)) ==> Agrees()
    {
      assert infos.Length == TABLE;
      assert iteralloc < BREAK && |past| == 1 + iteralloc + iterfree;
      ghost var a := Now();
      hide Total, Peak, Links, Entries, Agrees, OnWayIn, FitsIn, Zeros, Larger, Ahead, Totals, HeapGives;
      CountCall(size, pp);
      ok, p := false, pp;
      if pp != 0 {
        ok := Insert(size, filename, line, pp, a);
      }
    }

    method FindEntry(p: U32) returns (i: nat)
      requires infos.Length == TABLE
      ensures i <= TABLE && (i < TABLE ==> infos[i].p == p) && (i == TABLE <==> NotLive(Table(), p))
    {
      i := 0;
      while i < TABLE && infos[i].p != p
        invariant i <= TABLE && forall j :: 0 <= j < i ==> infos[j].p != p
      {
        i := i + 1;
      }
    }

    /** Empties entry i and takes its size off its directories. */
    method ClearEntry(i: nat)
      requires Links() && Entries() && Current(Table(), past) && i < TABLE && infos[i].p != 0
      modifies `past, infos, arena.nodes
      ensures Links() && Entries() && past == old(past) + [Table()]
      ensures Table() == old(Table())[i := Freed(old(infos[i]))]
      ensures TakenBack(old(arena.Live()), arena.Live(), old(infos[i]))
      ensures old(Agrees()) ==> Agrees()
    {
      assert infos.Length == TABLE && Pointed(Table(), arena.count);
      hide Loose, Ups, TreeAgrees, TakenOff, First, Split;
      ghost var ns, slots, right := arena.Live(), Table(), Agrees();
      assert 0 <= slots[i].node < |ns|;
      PointedFreed(slots, arena.count, i);
      hide Pointed;
      infos[i] := infos[i].(p := 0);
      arena.Credit(infos[i].node, infos[i].size);
      infos[i] := infos[i].(size := 0);
      assert Table() == slots[i := Freed(slots[i])];
      past := past + [Table()];
      CreditStarts(ns, arena.Live(), Ups(ns, slots[i].node), slots[i].size, root);
      if right {
        AfterCredit(ns, v, root, files, slots, old(past), i, arena.Live());
      }
    }

    /** Forgets the block at `p` and frees it; hangs when the table does not know it, or when `intact` says that the
        bytes behind it were overwritten. Freeing NULL does nothing. */
    method Free(p: U32, intact: bool) returns (ok: bool)
      requires Valid()
      modifies `current, `iterfree, `past, infos, arena.nodes
      ensures ok <==> p == 0 || (!NotLive(old(Table()), p) && intact)
      ensures ok ==> Valid() && (old(Exact()) ==> Exact())
      ensures p == 0 ==> Table() == old(Table()) && past == old(past) && iterfree == old(iterfree)
      ensures p == 0 ==> arena.Live() == old(arena.Live())
      ensures ok && p != 0 ==> Released(old(Table()), Table(), p)
      ensures ok && p != 0 ==> TakenBack(old(arena.Live()), arena.Live(), old(Table()[EntryOf(Table(), p)]))
      ensures ok && p != 0 ==> past == old(past) + [Table()] && iterfree == old(iterfree) + 1
      ensures ok ==> Frees(old(Now()), p, Now())
    {
      assert infos.Length == TABLE;
      hide Split, Links, Agrees, Zeros, Freed, Totals, NotLive, Wrap32, Pointed, TakenBack;
      ok := true;
      if p != 0 {
        NoWrap(iterfree + 1);
        var i := FindEntry(p);
        ok := false;
        if i < TABLE {
          EntryUnique(Table(), arena.count, i);
          ok := Release(i, intact);
        }
      }
    }

    method Release(i: nat, intact: bool) returns (ok: bool)
      requires Links() && Entries() && Totals() && i < TABLE && infos[i].p != 0
      modifies `current, `iterfree, `past, infos, arena.nodes
      ensures ok == intact && 0 < iteralloc
      ensures ok ==> Links() && Entries() && Totals() && past == old(past) + [Table()] && iterfree == old(iterfree) + 1
      ensures ok ==> Table() == old(Table())[i := Freed(old(infos[i]))]
      ensures ok ==> TakenBack(old(arena.Live()), arena.Live(), old(infos[i])) && (old(Agrees()) ==> Agrees())
    {
      assert infos.Length == TABLE;
      hide Split, Links, Pointed, Agrees, Freed, Wrap32, Tally, TakenBack;
      FreeCounters(Table(), past, current, totalMax, iteralloc - iterfree, maxAlive, i);
      NoWrap(iterfree + 1);
      NoWrap(current - infos[i].size);
      iterfree := Wrap32(iterfree + 1);
      current := Wrap32(current - infos[i].size);
      ok := intact;
      if intact {
        ClearEntry(i);
      }
    }

    /** A new block for the old one's content, or plain allocation and freeing at the ends. */
    method Realloc(p: U32, size: U32, filename: string, line: U16, pp: U32, intact: bool)
      returns (ok: bool, ret: U32, ghost mid: State)
      requires Valid() && filename != "" && (size != 0 ==> HeapGives(Table(), pp, size))
      modifies this, infos, arena, arena.nodes
      ensures ok <==>
        && (size != 0 ==> old(CanHold(size, filename, pp)))
        && (p != 0 ==> intact && (!NotLive(old(Table()), p) || (size != 0 && pp == p)))
      ensures ok ==> Valid() && ret == (if size == 0 then 0 else pp)
      ensures ok ==> Reallocates(old(Now()), mid, p, size, filename, line, pp, Now())
      ensures ok ==> past == old(past) + (if size == 0 then [] else [mid.table]) + (if p == 0 then [] else [Table()])
      ensures ok ==> iteralloc == old(iteralloc) + (if size == 0 then 0 else 1)
      ensures ok ==> iterfree == old(iterfree) + (if p == 0 then 0 else 1)
      ensures ok ==> files == old(files) + (if size == 0 then {} else {filename})
      ensures ok && old(Exact() && (size != 0 ==> Finds(filename))) ==> Exact()
    {
      assert Links();
      ghost var a := Now();
      hide Valid, Exact, Finds, Links, Entries, Counters, Untouched, Totals, Agrees, OnWay, HeapGives, Entered,
          Released, NotLive, Walk, Block, TakenBack, Allocates, Frees, CanHold;
      ok, ret, mid := true, 0, a;
      if size != 0 {
        ok, ret := Malloc(size, filename, line, pp);
        if ok {
          mid := Now();
        }
      }
      if ok && p != 0 {
        if size != 0 {
          LiveAfterMalloc(a, size, filename, line, pp, mid, p);
        }
        ok := Free(p, intact);
      }
    }

    /** Recounts the table: the result is what the counters say. */
    method Report() returns (blocks: U32, leak: U32)
      requires Valid()
      ensures blocks == iteralloc - iterfree && leak == current
    {
      assert infos.Length == TABLE;
      AsCounted();
      hide Links, Entries, Counters, Untouched, Total;
      blocks, leak := Recount();
    }

    method Recount() returns (blocks: U32, leak: U32)
      requires infos.Length == TABLE && Total(Table(), Blocks) < TWO32 && Total(Table(), Bytes([])) < TWO32
      ensures blocks == Total(Table(), Blocks) && leak == Total(Table(), Bytes([]))
    {
      hide Wrap32, Total;
      ghost var slots := Table();
      NothingCounted(slots);
      blocks, leak := 0, 0;
      var i := 0;
      while i < TABLE
        invariant 0 <= i <= TABLE
        invariant blocks == Total(slots[..i], Blocks) && leak == Total(slots[..i], Bytes([]))
      {
        ReportStep(slots, i);
        if infos[i].p != 0 {
          NoWrap(blocks + 1);
          NoWrap(leak + infos[i].size);
          blocks := Wrap32(blocks + 1);
          leak := Wrap32(leak + infos[i].size);
        }
        i := i + 1;
      }
      assert slots[..TABLE] == slots;
    }

    lemma AsCounted()
      requires Valid()
      ensures Total(Table(), Blocks) == iteralloc - iterfree && Total(Table(), Bytes([])) == current
    {
    }

    /** What the counters tell about the table and its past, whatever the file names; and the tree, while it is
        exact. */
    lemma CountersTell()
      requires Valid()
      ensures current == Total(Table(), Bytes([])) && totalMax == Peak(past, Bytes([]))
      ensures iteralloc - iterfree == Total(Table(), Blocks) && maxAlive == Peak(past, Blocks)
      ensures Exact() ==> |v.paths| == arena.count && forall i :: 0 <= i < arena.count ==>
        && arena.nodes[i].cur == Total(Table(), Bytes(v.paths[i]))
        && arena.nodes[i].max == Peak(past, Bytes(v.paths[i]))
    {
      hide Total, Peak, Split;
      if Exact() {
        forall i | 0 <= i < arena.count ensures NodeBooks(arena.nodes[i], v.paths[i], Table(), past) {
          assert NodeBooks(arena.Live()[i], v.paths[i], Table(), past);
        }
      }
    }

    /** Every directory of every live block's file has its node, and the block points to the last of them. */
    lemma EveryDirectoryHasNode(i: nat, k: nat) returns (a: nat)
      requires Exact() && i < TABLE && infos[i].p != 0 && 0 < k <= |Split(infos[i].filename)|
      ensures a < arena.count && |v.paths| == arena.count && v.paths[a] == Split(infos[i].filename)[..k]
      ensures k == |Split(infos[i].filename)| ==> a == infos[i].node
    {
      hide Split, Total, Peak;
      var slots := Table();
      assert SlotOk(slots[i], v);
      if k == |Split(infos[i].filename)| {
        a := infos[i].node;
        assert v.paths[a][..k] == v.paths[a];
      } else {
        a := AncestorExists(arena.Live(), v, infos[i].node, k);
      }
    }

    /** Once everything is freed, no counter and, in an exact tree, no directory shows a leak. */
    lemma NothingLeft()
      requires Valid() && iteralloc == iterfree
      ensures current == 0 && (Exact() ==> forall i :: 0 <= i < arena.count ==> arena.nodes[i].cur == 0)
    {
      var slots, ns := Table(), arena.Live();
      hide Split;
      EmptyTable(slots);
      TotalNothing(slots, Bytes([]));
      if Exact() {
        forall i | 0 <= i < arena.count ensures arena.nodes[i].cur == 0 {
          TotalNothing(slots, Bytes(v.paths[i]));
          assert NodeBooks(ns[i], v.paths[i], slots, past);
        }
      }
    }

    /** Names that do not clash with each other all find their way. */
    lemma FindsWhenOrderly(names: set<string>, filename: string)
      requires Exact() && files <= names && Orderly(names) && filename in names
      ensures Finds(filename)
    {
      assert Split(filename)[0..] == Split(filename);
      hide Split, Orderly, Routes, Total, Peak, MadeFor, TreeBooks, Unseen, SlotsOk, NodesOk, ChainsOk, PathsDistinct;
      MadeForMore(arena.Live(), v, files, names);
      OrderlyRoutes(arena.Live(), v, NULL, names, filename, 0);
    }

    /** When one file alone was allocated from, whether another one finds its way depends on the two names. */
    lemma OneFileFinds(f: string, g: string, i: nat)
      requires Exact() && files == {g} && g != "" && i < TABLE && infos[i].p != 0 && infos[i].filename == g
      ensures Finds(f) <==> NoClash(Split(f), Split(g))
    {
      var slots := Table();
      assert SlotOk(slots[i], v);
      OneFileRoutes(arena.Live(), v, f, g, infos[i].node);
    }

    /** Allocates and frees again: every directory shows its live bytes at both ends if and only if the walk for the
        file finds its way. */
    method MallocThenFree(size: U32, filename: string, line: U16, pp: U32)
      returns (ok: bool, ghost held: seq<Slot>, ghost charged: seq<Node>)
      requires Exact() && filename != "" && size > 0 && HeapGives(Table(), pp, size)
      modifies this, infos, arena, arena.nodes
      ensures ok <==> old(CanHold(size, filename, pp))
      ensures ok ==> Valid() && Entered(old(Table()), held, old(Block(size, filename, line, pp)))
      ensures ok ==> charged == old(Walk(filename, size)).0
      ensures ok ==>
        Released(held, Table(), pp) && TakenBack(charged, arena.Live(), old(Block(size, filename, line, pp)))
      ensures ok ==>
        (old(Finds(filename)) <==> CountsAgree(charged, old(v), held) && CountsAgree(arena.Live(), old(v), Table()))
    {
      assert iteralloc < BREAK && StartsAt(arena.Live(), root) && Current(Table(), past);
      ghost var s := Block(size, filename, line, pp);
      charged := Walk(filename, size).0;
      hide TreeAgrees, StartsAt, Routes, WalkNodes, TakenOff, Ups, Total, Peak, Tally, Loose, CountsAgree, Entered,
          Released, HeapGives, NotLive, Zeros;
      var p;
      ok, p := Malloc(size, filename, line, pp);
      held := Table();
      if ok {
        FoundAgain(old(Table()), held, s, arena.count);
        ok := Free(p, true);
        InThenOut(old(arena.Live()), old(v), old(root), old(files), old(Table()), old(past), s, held, Table(),
                  arena.Live());
      }
    }
  }
}
