/** When the tree of core/net_os.c tells the truth about the table of live blocks: what keeps it true, and that an
    allocation keeps it true exactly when the walk finds its way. */
module AllocExact {
  import opened Words
  import opened AllocPaths
  import opened AllocTree
  import opened AllocWalk
  import opened AllocMisled
  import opened AllocRoutes
  import opened AllocBooks

  ghost predicate NotLive(slots: seq<Slot>, p: U32) {
    forall i :: 0 <= i < |slots| ==> slots[i].p != p
  }

  /** What malloc promises: a new block overlaps no live one, so all blocks fit the address space. */
  ghost predicate HeapGives(slots: seq<Slot>, p: U32, size: U32) {
    p != 0 ==> NotLive(slots, p) && Total(slots, Bytes([])) + size < TWO32
  }

  /** The tree stands for directories of the files, and agrees with the table and its past. */
  ghost predicate TreeAgrees(ns: seq<Node>, v: View, root: int, files: set<string>, slots: seq<Slot>,
      past: seq<seq<Slot>>)
  {
    && ShapeOk(ns, v, root) && MadeFor(ns, v, files)
    && TreeBooks(ns, v, slots, past) && Unseen(v, past) && SlotsOk(slots, v)
  }

  lemma MadeForMore(ns: seq<Node>, v: View, files: set<string>, more: set<string>)
    requires Sized(ns, v) && MadeFor(ns, v, files) && files <= more
    ensures MadeFor(ns, v, more)
  {
    hide Carries;
    forall i | 0 <= i < |ns| ensures NodeMadeFor(ns[i], v.paths[i], v.kids[i] == [], more) {
      assert NodeMadeFor(ns[i], v.paths[i], v.kids[i] == [], files);
    }
  }

  lemma NoTopNoNodes(ns: seq<Node>, v: View)
    requires Sized(ns, v) && NodesOk(ns, v)
    ensures Head(v.top) == NULL ==> ns == []
  {
    if ns != [] {
      assert NodeOk(ns, v, 0);
    }
  }

  /** After a walk the top of the tree is where it was, unless there was no tree. */
  lemma TopAfterWalk(ns: seq<Node>, v: View, ms: seq<Node>, w: View, filename: string, n: U32, leaf: int)
    requires ShapeOk(ns, v, Head(v.top)) && ShapeOk(ms, w, Head(w.top)) && filename != ""
    requires WalkDone(ns, v, ms, w, NULL, filename, n, leaf)
    ensures 0 <= leaf < |ms|
    ensures Head(v.top) != NULL ==> Head(w.top) == Head(v.top)
    ensures Head(v.top) == NULL ==> forall r :: 0 <= r < |ms| && ms[r].up == NULL ==> r == Head(w.top)
  {
    hide Split, Carries, PathsDistinct;
    assert PathOf(v, NULL) + Split(filename) == Split(filename);
    NoTopNoNodes(ns, v);
    if Head(v.top) == NULL {
      assert forall i :: 0 <= i < |ms| ==> Under(w.paths[i], Split(filename));
      forall r | 0 <= r < |ms| && ms[r].up == NULL ensures r == Head(w.top) {
        hide *;
        TopIsHead(ms, w, r, Split(filename));
      }
    }
  }

  /** The tree's invariants around a walk that entered block `s` in entry i. */
  lemma BooksAfterEntry(ns: seq<Node>, v: View, ms: seq<Node>, w: View, slots: seq<Slot>, past: seq<seq<Slot>>,
      i: nat, s: Slot, leaf: int)
    requires ShapeOk(ns, v, Head(v.top)) && ShapeOk(ms, w, Head(w.top))
    requires TreeBooks(ns, v, slots, past) && Unseen(v, past) && Current(slots, past) && SlotsOk(slots, v)
    requires i < |slots| && slots[i].p == 0 && s.p != 0 && HeapGives(slots, s.p, s.size)
    requires WalkDone(ns, v, ms, w, NULL, s.filename, s.size, leaf) && s.node == leaf
    ensures var t := slots[i := s];
      TreeBooks(ms, w, t, past + [t]) && Unseen(w, past + [t]) && SlotsOk(t, w)
  {
    hide Split, Total, Peak, TreeBooks, Unseen, SlotsOk, ChainsOk, Grown, Current;
    PathsNotEmpty(ms, w);
    hide NodesOk;
    assert PathOf(v, NULL) + Split(s.filename) == Split(s.filename);
    ChargeBooks(ns, v, ms, w, slots, past, i, s, leaf);
    hide PathsDistinct;
    UnseenKept(v, ms, w, slots, past, i, s, leaf);
    SlotsKept(slots, v, w, i, s);
  }

  /** A walk that finds its way for the new block keeps the tree in agreement. */
  lemma AfterWalk(ns: seq<Node>, v: View, root: int, files: set<string>, slots: seq<Slot>, past: seq<seq<Slot>>,
      i: nat, s: Slot) returns (w: View)
    requires TreeAgrees(ns, v, root, files, slots, past) && Loose(ns) && StartsAt(ns, root) && Current(slots, past)
    requires i < |slots| && slots[i].p == 0 && s.p != 0 && s.filename != "" && HeapGives(slots, s.p, s.size)
    requires Routes(ns, v, NULL, Split(s.filename)) && s.node == WalkNodes(ns, root, s.filename, s.size).1
    ensures var ms, t := WalkNodes(ns, root, s.filename, s.size).0, slots[i := s];
      && TreeAgrees(ms, w, Head(w.top), files + {s.filename}, t, past + [t]) && v.paths <= w.paths
      && (root != NULL ==> Head(w.top) == root)
      && (root == NULL ==> forall r :: 0 <= r < |ms| && ms[r].up == NULL ==> r == Head(w.top))
  {
    var (ms, leaf) := WalkNodes(ns, root, s.filename, s.size);
    assert root == Head(v.top) && |v.paths| == |v.kids| == |ns|;
    assert KidsOf(v, NULL) == v.top;
    w := WalkRouted(ns, v, NULL, s.filename, s.size);
    assert v.paths <= w.paths && |w.paths| == |w.kids| == |ms|;
    hide *;
    TopAfterWalk(ns, v, ms, w, s.filename, s.size, leaf);
    BooksAfterEntry(ns, v, ms, w, slots, past, i, s, leaf);
    MadeForMore(ns, v, files, files + {s.filename});
    MadeForKept(ns, v, ms, w, s.filename, s.size, leaf, files + {s.filename});
  }

  lemma CreditedKeepsMaking(ns: seq<Node>, v: View, ms: seq<Node>, path: Path, n: U32, files: set<string>)
    requires Sized(ns, v) && MadeFor(ns, v, files) && Credited(ns, v, ms, path, 0, n)
    ensures MadeFor(ms, v, files)
  {
    hide NodeMadeFor;
    forall i | 0 <= i < |ms| ensures NodeMadeFor(ms[i], v.paths[i], v.kids[i] == [], files) {
      SameNameMadeFor(ns[i], ms[i], v.paths[i], v.kids[i] == [], v.kids[i] == [], files);
    }
  }

  /** Freeing a block keeps the tree in agreement. */
  lemma AfterCredit(ns: seq<Node>, v: View, root: int, files: set<string>, slots: seq<Slot>, past: seq<seq<Slot>>,
      i: nat, ms: seq<Node>)
    requires TreeAgrees(ns, v, root, files, slots, past) && Loose(ns) && Current(slots, past)
    requires i < |slots| && slots[i].p != 0 && NULL <= slots[i].node < |ns|
    requires TakenOff(ns, ms, Ups(ns, slots[i].node), slots[i].size)
    ensures var t := slots[i := Freed(slots[i])]; TreeAgrees(ms, v, root, files, t, past + [t])
  {
    var s := slots[i];
    assert SlotOk(s, v);
    assert root == Head(v.top) && |ms| == |ns| == |v.paths|;
    hide *;
    PathsNotEmpty(ns, v);
    TakenOffIsCredited(ns, v, ms, s.node, s.size);
    TakenOffLinks(ns, ms, Ups(ns, s.node), s.size);
    SameLinksShape(ns, ms, v, root);
    CreditBooks(ns, v, ms, slots, past, i);
    SlotsFreed(slots, v, i);
    CreditedKeepsMaking(ns, v, ms, Split(s.filename), s.size, files);
  }

  // ----- The exact condition

  /** Every directory shows the live bytes under it. */
  ghost predicate CountsAgree(ns: seq<Node>, v: View, slots: seq<Slot>) {
    |v.paths| <= |ns| && forall k :: 0 <= k < |v.paths| ==> ns[k].cur == Total(slots, Bytes(v.paths[k]))
  }

  lemma ChargeShows(count: U32, n: U32)
    requires n > 0
    ensures Wrap32(count + n) != count
  {
  }

  /** Node x counts n too much: already while the block is live, or still when it was freed again. */
  ghost predicate Overcount(ms: seq<Node>, os: seq<Node>, v: View, slots: seq<Slot>, t: seq<Slot>, n: U32, x: int,
      orphan: bool)
  {
    && 0 <= x < |v.paths| <= |ms| && |ms| == |os|
    && (!orphan ==> ms[x].cur == Wrap32(Total(t, Bytes(v.paths[x])) + n))
    && (orphan ==> os[x].cur == Wrap32(Total(slots, Bytes(v.paths[x])) + n))
  }

  /** A misled walk leaves a count too high by the size: that of a directory off the way while the block is live,
      or of one on the way once the block is freed again. */
  lemma MisledShows(ns: seq<Node>, v: View, slots: seq<Slot>, i: nat, s: Slot, ms: seq<Node>, os: seq<Node>,
      leaf: int, x: int, orphan: bool)
    requires Sized(ns, v) && CountsAgree(ns, v, slots) && i < |slots| && slots[i].p == 0 && s.p != 0 && s.size > 0
    requires WrongedBy(ns, v, NULL, Split(s.filename), s.size, x, orphan, ms, leaf)
    requires TakenOff(ms, os, Ups(ms, leaf), s.size)
    ensures Overcount(ms, os, v, slots, slots[i := s], s.size, x, orphan)
  {
    hide Total, Split, Under, Ups, Loose, Wrap32;
    assert 0 <= x < |ns| && ns[x].cur == Total(slots, Bytes(v.paths[x]));
    TotalUpdate(slots, i, s, Bytes(v.paths[x]));
  }

  lemma BooksAgree(ns: seq<Node>, v: View, slots: seq<Slot>, past: seq<seq<Slot>>, u: View)
    requires Sized(ns, v) && TreeBooks(ns, v, slots, past) && u.paths <= v.paths
    ensures CountsAgree(ns, u, slots)
  {
    hide Total, Peak;
    forall k | 0 <= k < |u.paths| ensures ns[k].cur == Total(slots, Bytes(u.paths[k])) {
      assert NodeBooks(ns[k], v.paths[k], slots, past);
    }
  }

  /** Taking a block in and out again is as if nothing had been. */
  lemma InAndOut(ns: seq<Node>, v: View, slots: seq<Slot>, i: nat, s: Slot)
    requires i < |slots| && slots[i].p == 0
    ensures CountsAgree(ns, v, slots[i := s][i := Freed(s)]) <==> CountsAgree(ns, v, slots)
  {
    var t := slots[i := s][i := Freed(s)];
    forall m ensures Total(t, m) == Total(slots, m) {
      hide Total, Split;
      TotalUpdate(slots, i, Freed(s), m);
      assert t == slots[i := Freed(s)];
    }
    hide Total;
  }

  /** Block s belongs to the leaf of its walk, and is freed again, which leaves the nodes `os`. */
  ghost predicate Cycled(ns: seq<Node>, root: int, s: Slot, os: seq<Node>)
    requires Loose(ns) && StartsAt(ns, root) && s.filename != ""
  {
    var (ms, leaf) := WalkNodes(ns, root, s.filename, s.size);
    s.node == leaf && Loose(ms) && TakenOff(ms, os, Ups(ms, leaf), s.size)
  }

  /** An allocation and the free of its block leave every directory showing its live bytes, at both ends, if and
      only if the walk for the file finds its way. */
  lemma FindsExactly(ns: seq<Node>, v: View, root: int, files: set<string>, slots: seq<Slot>, past: seq<seq<Slot>>,
      i: nat, s: Slot, os: seq<Node>)
    requires TreeAgrees(ns, v, root, files, slots, past) && Loose(ns) && StartsAt(ns, root) && Current(slots, past)
    requires i < |slots| && slots[i].p == 0 && s.p != 0 && HeapGives(slots, s.p, s.size)
    requires s.filename != "" && s.size > 0
    ensures Cycled(ns, root, s, os) ==>
      (Routes(ns, v, NULL, Split(s.filename)) <==>
        CountsAgree(WalkNodes(ns, root, s.filename, s.size).0, v, slots[i := s]) && CountsAgree(os, v, slots))
  {
    assert Sized(ns, v) && NodesOk(ns, v) && ChainsOk(ns, v);
    if Cycled(ns, root, s, os) {
      if Routes(ns, v, NULL, Split(s.filename)) {
        hide *;
        RightShows(ns, v, root, files, slots, past, i, s, os);
      } else {
        hide *;
        WrongShows(ns, v, root, files, slots, past, i, s, os);
      }
    }
  }

  lemma WrongShows(ns: seq<Node>, v: View, root: int, files: set<string>, slots: seq<Slot>, past: seq<seq<Slot>>,
      i: nat, s: Slot, os: seq<Node>)
    requires TreeAgrees(ns, v, root, files, slots, past) && Loose(ns) && StartsAt(ns, root)
    requires i < |slots| && slots[i].p == 0 && s.p != 0 && s.filename != "" && s.size > 0
    requires Cycled(ns, root, s, os)
    requires !Routes(ns, v, NULL, Split(s.filename))
    ensures !(CountsAgree(WalkNodes(ns, root, s.filename, s.size).0, v, slots[i := s]) && CountsAgree(os, v, slots))
  {
    hide *;
    var x, orphan := Miscounted(ns, v, root, files, slots, past, i, s, os);
    WrongCount(WalkNodes(ns, root, s.filename, s.size).0, v, slots[i := s], os, slots, s.size, x, orphan);
  }

  /** A walk that does not find its way makes a directory count the size too much: one off its way while the block is
      live, or one on its way for ever. */
  lemma MisledCounts(ns: seq<Node>, v: View, root: int, files: set<string>, slots: seq<Slot>, past: seq<seq<Slot>>,
      i: nat, s: Slot, os: seq<Node>) returns (x: int, orphan: bool)
    requires TreeAgrees(ns, v, root, files, slots, past) && Loose(ns) && StartsAt(ns, root)
    requires i < |slots| && slots[i].p == 0 && s.p != 0 && s.filename != "" && s.size > 0
    ensures Cycled(ns, root, s, os) && !Routes(ns, v, NULL, Split(s.filename)) ==>
      Overcount(WalkNodes(ns, root, s.filename, s.size).0, os, v, slots, slots[i := s], s.size, x, orphan)
  {
    if Cycled(ns, root, s, os) && !Routes(ns, v, NULL, Split(s.filename)) {
      hide *;
      x, orphan := Miscounted(ns, v, root, files, slots, past, i, s, os);
    } else {
      hide *;
      x, orphan := 0, false;
    }
  }

  lemma Miscounted(ns: seq<Node>, v: View, root: int, files: set<string>, slots: seq<Slot>, past: seq<seq<Slot>>,
      i: nat, s: Slot, os: seq<Node>) returns (x: int, orphan: bool)
    requires TreeAgrees(ns, v, root, files, slots, past) && Loose(ns) && StartsAt(ns, root)
    requires i < |slots| && slots[i].p == 0 && s.p != 0 && s.filename != "" && s.size > 0
    requires Cycled(ns, root, s, os)
    requires !Routes(ns, v, NULL, Split(s.filename))
    ensures Overcount(WalkNodes(ns, root, s.filename, s.size).0, os, v, slots, slots[i := s], s.size, x, orphan)
  {
    var ms := WalkNodes(ns, root, s.filename, s.size).0;
    assert root == Head(v.top) == Head(KidsOf(v, NULL)) && |v.paths| == |v.kids| == |ns|;
    assert PathOf(v, NULL) == [] && [] + Split(s.filename) == Split(s.filename);
    assert |os| == |ms|;
    hide *;
    TreeCounts(ns, v, root, files, slots, past, v);
    x, orphan := MisledTree(ns, v, root, files, slots, past, s.filename, s.size);
    MisledShows(ns, v, slots, i, s, ms, os, s.node, x, orphan);
  }

  lemma MisledTree(ns: seq<Node>, v: View, root: int, files: set<string>, slots: seq<Slot>, past: seq<seq<Slot>>,
      filename: string, n: U32) returns (x: int, orphan: bool)
    requires TreeAgrees(ns, v, root, files, slots, past) && Loose(ns) && StartsAt(ns, root) && filename != ""
    requires !Routes(ns, v, NULL, Split(filename))
    ensures Sized(ns, v)
    ensures var (ms, leaf) := WalkNodes(ns, root, filename, n);
      WrongedBy(ns, v, NULL, Split(filename), n, x, orphan, ms, leaf)
  {
    assert ShapeOk(ns, v, Head(v.top)) && root == Head(v.top) == Head(KidsOf(v, NULL)) && Sized(ns, v);
    assert PathOf(v, NULL) == [] && [] + Split(filename) == Split(filename);
    hide *;
    x, orphan := Misled(ns, v, NULL, filename, n);
  }

  lemma WrongCount(ms: seq<Node>, v: View, t: seq<Slot>, os: seq<Node>, slots: seq<Slot>, n: U32, x: int,
      orphan: bool)
    requires Overcount(ms, os, v, slots, t, n, x, orphan) && n > 0
    ensures !(CountsAgree(ms, v, t) && CountsAgree(os, v, slots))
  {
    hide Total, Wrap32;
    ChargeShows(ms[x].cur, n);
    ChargeShows(os[x].cur, n);
  }

  lemma RightShows(ns: seq<Node>, v: View, root: int, files: set<string>, slots: seq<Slot>, past: seq<seq<Slot>>,
      i: nat, s: Slot, os: seq<Node>)
    requires TreeAgrees(ns, v, root, files, slots, past) && Loose(ns) && StartsAt(ns, root) && Current(slots, past)
    requires i < |slots| && slots[i].p == 0 && s.p != 0 && HeapGives(slots, s.p, s.size)
    requires s.filename != "" && Cycled(ns, root, s, os) && Routes(ns, v, NULL, Split(s.filename))
    ensures CountsAgree(WalkNodes(ns, root, s.filename, s.size).0, v, slots[i := s]) && CountsAgree(os, v, slots)
  {
    var ms, t := WalkNodes(ns, root, s.filename, s.size).0, slots[i := s];
    hide *;
    var w := AfterWalk(ns, v, root, files, slots, past, i, s);
    TreeCounts(ms, w, Head(w.top), files + {s.filename}, t, past + [t], v);
    NowCurrent(past, t);
    assert t[i] == s;
    AfterCredit(ms, w, Head(w.top), files + {s.filename}, t, past + [t], i, os);
    TreeCounts(os, w, Head(w.top), files + {s.filename}, t[i := Freed(s)], past + [t] + [t[i := Freed(s)]], v);
    InAndOut(os, v, slots, i, s);
  }

  lemma NowCurrent(past: seq<seq<Slot>>, t: seq<Slot>)
    ensures Current(t, past + [t])
  {
  }

  lemma TreeCounts(ns: seq<Node>, v: View, root: int, files: set<string>, slots: seq<Slot>, past: seq<seq<Slot>>,
      u: View)
    requires TreeAgrees(ns, v, root, files, slots, past) && u.paths <= v.paths
    ensures CountsAgree(ns, u, slots)
  {
    BooksAgree(ns, v, slots, past, u);
  }
}
