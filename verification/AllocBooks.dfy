/** What the counters of core/net_os.c count: sums over the table of live blocks, and their running maxima over
    all the states the table has been in. */
module AllocBooks {
  import opened Words
  import opened AllocPaths
  import opened AllocTree

  /** A table entry; address 0 marks a free one. */
  datatype Slot = Slot(filename: string, line: U16, iter: U16, size: U32, p: U32, node: int)

  const FREE_SLOT := Slot("", 0, 0, 0, 0, NULL)

  datatype Measure = Bytes(path: Path) | Blocks

  /** What an entry adds: one block, or its size when its file lies under the directory. */
  function Weight(m: Measure, s: Slot): nat {
    if s.p == 0 then 0
    else match m
      case Blocks => 1
      case Bytes(path) => if Under(path, Split(s.filename)) then s.size else 0
  }

  ghost function Total(slots: seq<Slot>, m: Measure): nat {
    if slots == [] then 0 else Total(slots[..|slots| - 1], m) + Weight(m, slots[|slots| - 1])
  }

  /** The largest total over a history of table states. */
  ghost function Peak(past: seq<seq<Slot>>, m: Measure): nat {
    if past == [] then 0
    else
      var before, now := Peak(past[..|past| - 1], m), Total(past[|past| - 1], m);
      if now > before then now else before
  }

  lemma {:induction false} TotalUpdate(slots: seq<Slot>, i: nat, s: Slot, m: Measure)
    requires i < |slots|
    ensures Total(slots[i := s], m) == Total(slots, m) - Weight(m, slots[i]) + Weight(m, s)
  {
    hide Weight;
    var last := |slots| - 1;
    if i == last {
      assert slots[i := s][..last] == slots[..last];
    } else {
      assert slots[i := s][..last] == slots[..last][i := s];
      TotalUpdate(slots[..last], i, s, m);
    }
  }

  lemma {:induction false} TotalNothing(slots: seq<Slot>, m: Measure)
    requires forall i :: 0 <= i < |slots| ==> slots[i].p == 0
    ensures Total(slots, m) == 0
  {
    if slots != [] {
      TotalNothing(slots[..|slots| - 1], m);
    }
  }

  /** The block count is the number of entries exactly when no entry is free. */
  lemma {:induction false} FullTable(slots: seq<Slot>)
    ensures Total(slots, Blocks) <= |slots|
    ensures Total(slots, Blocks) == |slots| <==> forall i :: 0 <= i < |slots| ==> slots[i].p != 0
  {
    if slots != [] {
      FullTable(slots[..|slots| - 1]);
    }
  }

  lemma {:induction false} EmptyTable(slots: seq<Slot>)
    ensures Total(slots, Blocks) == 0 <==> forall i :: 0 <= i < |slots| ==> slots[i].p == 0
  {
    if slots != [] {
      EmptyTable(slots[..|slots| - 1]);
    }
  }

  lemma {:induction false} DirectoryWithinAll(slots: seq<Slot>, path: Path)
    ensures Total(slots, Bytes(path)) <= Total(slots, Bytes([]))
  {
    hide Split;
    if slots != [] {
      DirectoryWithinAll(slots[..|slots| - 1], path);
    }
  }

  lemma {:induction false} EntryWithin(slots: seq<Slot>, i: nat, m: Measure)
    requires i < |slots|
    ensures Weight(m, slots[i]) <= Total(slots, m)
  {
    hide Weight;
    var last := |slots| - 1;
    if i < last {
      EntryWithin(slots[..last], i, m);
    }
  }

  lemma PeakStep(past: seq<seq<Slot>>, slots: seq<Slot>, m: Measure)
    ensures Peak(past + [slots], m) == if Total(slots, m) > Peak(past, m) then Total(slots, m) else Peak(past, m)
  {
    hide Total;
    assert (past + [slots])[..|past|] == past;
  }

  lemma NowWithinPeak(past: seq<seq<Slot>>, m: Measure)
    requires past != []
    ensures Total(past[|past| - 1], m) <= Peak(past, m)
  {
    hide Total;
  }

  // ----- The tree's counters

  /** Every node counts the live bytes under its directory, and has seen their maximum. */
  ghost predicate TreeBooks(ns: seq<Node>, v: View, slots: seq<Slot>, past: seq<seq<Slot>>)
    requires Sized(ns, v)
  {
    forall i :: 0 <= i < |ns| ==> NodeBooks(ns[i], v.paths[i], slots, past)
  }

  ghost predicate NodeBooks(node: Node, path: Path, slots: seq<Slot>, past: seq<seq<Slot>>) {
    node.cur == Total(slots, Bytes(path)) && node.max == Peak(past, Bytes(path))
  }

  /** A directory without a node never held a live byte. */
  ghost predicate Unseen(v: View, past: seq<seq<Slot>>) {
    forall path :: path != [] && NoSuchPath(v, path) ==> Peak(past, Bytes(path)) == 0
  }

  ghost predicate Current(slots: seq<Slot>, past: seq<seq<Slot>>) {
    past != [] && past[|past| - 1] == slots
  }

  /** Live entries have distinct addresses and point to the node of their file. */
  ghost predicate SlotsOk(slots: seq<Slot>, v: View) {
    && (forall i :: 0 <= i < |slots| && slots[i].p != 0 ==> SlotOk(slots[i], v))
    && forall i, j :: 0 <= i < j < |slots| && slots[i].p != 0 ==> slots[i].p != slots[j].p
  }

  ghost predicate SlotOk(s: Slot, v: View) {
    0 <= s.node < |v.paths| && v.paths[s.node] == Split(s.filename)
  }

  lemma ChargedNodeBooks(before: Node, after: Node, path: Path, slots: seq<Slot>, past: seq<seq<Slot>>, i: nat, s: Slot)
    requires NodeBooks(before, path, slots, past) && Current(slots, past)
    requires i < |slots| && slots[i].p == 0 && s.p != 0 && Total(slots, Bytes([])) + s.size < TWO32
    requires Counters(before, after, Under(path, Split(s.filename)), s.size)
    ensures NodeBooks(after, path, slots[i := s], past + [slots[i := s]])
  {
    hide Total, Peak, Split;
    TotalUpdate(slots, i, s, Bytes(path));
    DirectoryWithinAll(slots, path);
    PeakStep(past, slots[i := s], Bytes(path));
    NowWithinPeak(past, Bytes(path));
  }

  lemma NewNodeBooks(node: Node, path: Path, slots: seq<Slot>, past: seq<seq<Slot>>, i: nat, s: Slot)
    requires Peak(past, Bytes(path)) == 0 && Current(slots, past)
    requires i < |slots| && slots[i].p == 0 && s.p != 0 && Under(path, Split(s.filename))
    requires node.cur == node.max == s.size
    ensures NodeBooks(node, path, slots[i := s], past + [slots[i := s]])
  {
    hide Total, Peak, Split;
    TotalUpdate(slots, i, s, Bytes(path));
    PeakStep(past, slots[i := s], Bytes(path));
    NowWithinPeak(past, Bytes(path));
  }

  /** What a walk did to one node. */
  lemma WalkedNode(ns: seq<Node>, v: View, ms: seq<Node>, w: View, filename: string, n: U32, leaf: int, k: nat)
    requires Sized(ns, v) && Sized(ms, w) && PathsDistinct(w) && k < |ms| && w.paths[k] != []
    requires WalkDone(ns, v, ms, w, NULL, filename, n, leaf)
    ensures |ns| <= |ms|
    ensures k < |ns| ==> w.paths[k] == v.paths[k] && Counters(ns[k], ms[k], Under(v.paths[k], Split(filename)), n)
    ensures k >= |ns| ==> NoSuchPath(v, w.paths[k]) && ms[k].cur == ms[k].max == n && Under(w.paths[k], Split(filename))
  {
    hide Split, Grown;
    assert PathOf(v, NULL) + Split(filename) == Split(filename);
  }

  /** The charging walk keeps the books when the block enters the table. */
  lemma ChargeBooks(ns: seq<Node>, v: View, ms: seq<Node>, w: View, slots: seq<Slot>, past: seq<seq<Slot>>, i: nat,
      s: Slot, leaf: int)
    requires Sized(ns, v) && Sized(ms, w) && PathsDistinct(w) && forall k :: 0 <= k < |ms| ==> w.paths[k] != []
    requires TreeBooks(ns, v, slots, past) && Unseen(v, past) && Current(slots, past)
    requires i < |slots| && slots[i].p == 0 && s.p != 0 && Total(slots, Bytes([])) + s.size < TWO32
    requires WalkDone(ns, v, ms, w, NULL, s.filename, s.size, leaf)
    ensures TreeBooks(ms, w, slots[i := s], past + [slots[i := s]])
  {
    forall k | 0 <= k < |ms| ensures NodeBooks(ms[k], w.paths[k], slots[i := s], past + [slots[i := s]]) {
      hide *;
      WalkedNode(ns, v, ms, w, s.filename, s.size, leaf, k);
      if k < |ns| {
        NodeOfBooks(ns, v, slots, past, k);
        ChargedNodeBooks(ns[k], ms[k], v.paths[k], slots, past, i, s);
      } else {
        UnseenPath(v, past, w.paths[k]);
        NewNodeBooks(ms[k], w.paths[k], slots, past, i, s);
      }
    }
  }

  lemma NodeOfBooks(ns: seq<Node>, v: View, slots: seq<Slot>, past: seq<seq<Slot>>, k: nat)
    requires Sized(ns, v) && TreeBooks(ns, v, slots, past) && k < |ns|
    ensures NodeBooks(ns[k], v.paths[k], slots, past)
  {
  }

  lemma UnseenPath(v: View, past: seq<seq<Slot>>, path: Path)
    requires Unseen(v, past) && path != [] && NoSuchPath(v, path)
    ensures Peak(past, Bytes(path)) == 0
  {
  }

  /** A directory without a node after the walk is not on the way of the file. */
  lemma NotOnWay(ms: seq<Node>, w: View, full: Path, leaf: nat, path: Path)
    requires Sized(ms, w) && NodesOk(ms, w) && leaf < |ms| && w.paths[leaf] == full
    requires path != [] && NoSuchPath(w, path)
    ensures !Under(path, full)
  {
    if Under(path, full) {
      var a := AncestorExists(ms, w, leaf, |path|);
    }
  }

  lemma UnseenKept(v: View, ms: seq<Node>, w: View, slots: seq<Slot>, past: seq<seq<Slot>>, i: nat, s: Slot, leaf: nat)
    requires Unseen(v, past) && Current(slots, past) && v.paths <= w.paths
    requires Sized(ms, w) && NodesOk(ms, w) && leaf < |ms| && w.paths[leaf] == Split(s.filename)
    requires i < |slots| && slots[i].p == 0
    ensures Unseen(w, past + [slots[i := s]])
  {
    forall path | path != [] && NoSuchPath(w, path) ensures Peak(past + [slots[i := s]], Bytes(path)) == 0 {
      NotOnWay(ms, w, Split(s.filename), leaf, path);
      hide Total, Peak, Split, NodesOk;
      assert NoSuchPath(v, path);
      NothingNew(slots, past, i, s, path);
    }
  }

  lemma NothingNew(slots: seq<Slot>, past: seq<seq<Slot>>, i: nat, s: Slot, path: Path)
    requires Current(slots, past) && Peak(past, Bytes(path)) == 0
    requires i < |slots| && slots[i].p == 0 && !Under(path, Split(s.filename))
    ensures Peak(past + [slots[i := s]], Bytes(path)) == 0
  {
    hide Total, Peak, Split;
    TotalUpdate(slots, i, s, Bytes(path));
    PeakStep(past, slots[i := s], Bytes(path));
    NowWithinPeak(past, Bytes(path));
  }

  // ----- Freeing

  function Freed(s: Slot): Slot {
    s.(p := 0, size := 0)
  }

  lemma FreedTotals(slots: seq<Slot>, past: seq<seq<Slot>>, i: nat, m: Measure)
    requires Current(slots, past) && i < |slots|
    ensures Weight(m, slots[i]) <= Total(slots, m)
    ensures Total(slots[i := Freed(slots[i])], m) == Total(slots, m) - Weight(m, slots[i])
    ensures Peak(past + [slots[i := Freed(slots[i])]], m) == Peak(past, m)
  {
    hide Total, Peak, Split;
    EntryWithin(slots, i, m);
    TotalUpdate(slots, i, Freed(slots[i]), m);
    PeakStep(past, slots[i := Freed(slots[i])], m);
    NowWithinPeak(past, m);
  }

  /** The crediting walk keeps the books when the block leaves the table. */
  lemma CreditBooks(ns: seq<Node>, v: View, ms: seq<Node>, slots: seq<Slot>, past: seq<seq<Slot>>, i: nat)
    requires Sized(ns, v) && |ms| == |ns| && forall k :: 0 <= k < |ns| ==> v.paths[k] != []
    requires TreeBooks(ns, v, slots, past) && Unseen(v, past) && Current(slots, past)
    requires i < |slots| && slots[i].p != 0
    requires Credited(ns, v, ms, Split(slots[i].filename), 0, slots[i].size)
    ensures TreeBooks(ms, v, slots[i := Freed(slots[i])], past + [slots[i := Freed(slots[i])]])
    ensures Unseen(v, past + [slots[i := Freed(slots[i])]])
  {
    hide Total, Peak, Split;
    forall k | 0 <= k < |ms|
      ensures NodeBooks(ms[k], v.paths[k], slots[i := Freed(slots[i])], past + [slots[i := Freed(slots[i])]])
    {
      FreedTotals(slots, past, i, Bytes(v.paths[k]));
      assert NodeBooks(ns[k], v.paths[k], slots, past);
    }
    forall path | path != [] && NoSuchPath(v, path)
      ensures Peak(past + [slots[i := Freed(slots[i])]], Bytes(path)) == 0
    {
      FreedTotals(slots, past, i, Bytes(path));
    }
  }

  lemma SlotsKept(slots: seq<Slot>, v: View, w: View, i: nat, s: Slot)
    requires SlotsOk(slots, v) && v.paths <= w.paths && i < |slots| && SlotOk(s, w)
    requires forall j :: 0 <= j < |slots| && slots[j].p != 0 ==> slots[j].p != s.p
    ensures SlotsOk(slots[i := s], w)
  {
    hide Split;
  }

  lemma SlotsFreed(slots: seq<Slot>, v: View, i: nat)
    requires SlotsOk(slots, v) && i < |slots|
    ensures SlotsOk(slots[i := Freed(slots[i])], v)
  {
    hide Split;
  }
}
