/** The tree of per-directory totals of core/net_os.c: nodes in an arena, linked by down, up and neighbour. */
module AllocTree {
  import opened Words
  import opened AllocPaths

  const NULL := -1
  const MAX_NODE := 50

  /** `name` is the file name from this component on; indices stand for pointers. */
  datatype Node = Node(name: string, namelen: nat, down: int, up: int, neighbour: int, cur: U32, max: U32)

  const ZERO := Node("", 0, NULL, NULL, NULL, 0, 0)

  /** The ghost view of the arena: each node's component path and its children in neighbour order. */
  datatype View = View(paths: seq<Path>, kids: seq<seq<nat>>, top: seq<nat>)

  ghost predicate Sized(ns: seq<Node>, v: View) {
    |v.paths| == |v.kids| == |ns|
  }

  ghost function PathOf(v: View, p: int): Path
    requires -1 <= p < |v.paths|
  {
    if p == NULL then [] else v.paths[p]
  }

  ghost function KidsOf(v: View, p: int): seq<nat>
    requires -1 <= p < |v.kids|
  {
    if p == NULL then v.top else v.kids[p]
  }

  function Head(chain: seq<nat>): int {
    if chain == [] then NULL else chain[0]
  }

  function Following(chain: seq<nat>, k: nat): int
    requires k < |chain|
  {
    if k + 1 == |chain| then NULL else chain[k + 1]
  }

  /** The chain is linked by neighbour, and its nodes are the children of p. */
  ghost predicate ChainOk(ns: seq<Node>, chain: seq<nat>, p: int) {
    forall k {:trigger chain[k]} :: 0 <= k < |chain| ==>
      chain[k] < |ns| && ns[chain[k]].up == p && ns[chain[k]].neighbour == Following(chain, k)
  }

  ghost predicate ChainsOk(ns: seq<Node>, v: View)
    requires Sized(ns, v)
  {
    forall p :: -1 <= p < |ns| ==> ChainOk(ns, KidsOf(v, p), p)
  }

  function Component(n: Node): string
    requires n.namelen <= |n.name|
  {
    n.name[..n.namelen]
  }

  /** A node's own links and name. */
  ghost predicate NodeOk(ns: seq<Node>, v: View, i: nat)
    requires Sized(ns, v) && i < |ns|
  {
    var n := ns[i];
    && -1 <= n.up < i
    && n.namelen <= |n.name|
    && n.down == Head(v.kids[i])
    && v.paths[i] == PathOf(v, n.up) + [Component(n)]
    && i in KidsOf(v, n.up)
  }

  ghost predicate NodesOk(ns: seq<Node>, v: View)
    requires Sized(ns, v)
  {
    forall i :: 0 <= i < |ns| ==> NodeOk(ns, v, i)
  }

  /** No two nodes stand for the same directory. */
  ghost predicate PathsDistinct(v: View) {
    forall i, j :: 0 <= i < j < |v.paths| ==> v.paths[i] != v.paths[j]
  }

  ghost predicate ShapeOk(ns: seq<Node>, v: View, root: int) {
    && Sized(ns, v) && root == Head(v.top)
    && NodesOk(ns, v) && ChainsOk(ns, v) && PathsDistinct(v)
  }

  /** `q` lies on or under the directory `p`. */
  predicate Under(p: Path, q: Path) {
    p <= q
  }

  // ----- What a walk down the tree does, and when it goes right

  /** strncmp of the node's name with a component of that length. */
  predicate Matches(n: Node, c: string) {
    c <= n.name
  }

  /** Position of the first node of the chain that matches, or the chain's length. */
  ghost function FirstMatch(ns: seq<Node>, chain: seq<nat>, c: string, k: nat): (r: nat)
    requires k <= |chain| && forall i :: 0 <= i < |chain| ==> chain[i] < |ns|
    ensures k <= r <= |chain|
    ensures r < |chain| ==> Matches(ns[chain[r]], c)
    ensures forall i :: k <= i < r ==> !Matches(ns[chain[i]], c)
    decreases |chain| - k
  {
    if k == |chain| || Matches(ns[chain[k]], c) then k else FirstMatch(ns, chain, c, k + 1)
  }

  /** From parent p on, the first match of each component is the node of that very component, and only
      nodes with children are descended into. */
  ghost predicate Routes(ns: seq<Node>, v: View, p: int, rest: Path)
    requires Sized(ns, v) && NodesOk(ns, v) && ChainsOk(ns, v)
    requires -1 <= p < |ns|
    decreases |rest|
  {
    rest != [] ==>
      var chain := KidsOf(v, p);
      assert ChainOk(ns, chain, p);
      var k := FirstMatch(ns, chain, rest[0], 0);
      if k < |chain| then
        var x := chain[k];
        assert NodeOk(ns, v, x);
        Component(ns[x]) == rest[0] && Routes(ns, v, x, rest[1..])
      else
        chain != [] || p == NULL
  }

  // ----- Adding one node

  function FreshNode(filename: string, up: int, neighbour: int, n: U32): Node {
    Node(filename, DirLen(filename), NULL, up, neighbour, n, n)
  }

  /** A chain with a new node after its first. */
  function Inserted(chain: seq<nat>, c: nat): seq<nat> {
    if chain == [] then [c] else [chain[0], c] + chain[1..]
  }

  /** A new node for the first component of `filename`, as a child of p. */
  ghost function LeafNodes(ns: seq<Node>, v: View, p: int, filename: string, n: U32): (r: seq<Node>)
    requires Sized(ns, v) && -1 <= p < |ns|
    requires KidsOf(v, p) != [] ==> KidsOf(v, p)[0] < |ns|
    ensures |r| == |ns| + 1
  {
    var chain := KidsOf(v, p);
    if chain != [] then
      var first := chain[0];
      ns[first := ns[first].(neighbour := |ns|)] + [FreshNode(filename, p, ns[first].neighbour, n)]
    else if p == NULL then ns + [FreshNode(filename, p, NULL, n)]
    else ns[p := ns[p].(down := |ns|)] + [FreshNode(filename, p, NULL, n)]
  }

  ghost function LeafView(ns: seq<Node>, v: View, p: int, filename: string): (r: View)
    requires Sized(ns, v) && -1 <= p < |ns|
    ensures |r.paths| == |r.kids| == |ns| + 1
  {
    var chain := Inserted(KidsOf(v, p), |ns|);
    View(v.paths + [PathOf(v, p) + [filename[..DirLen(filename)]]],
         (if p == NULL then v.kids else v.kids[p := chain]) + [[]],
         if p == NULL then chain else v.top)
  }

  ghost predicate NoSuchPath(v: View, path: Path) {
    forall i :: 0 <= i < |v.paths| ==> v.paths[i] != path
  }

  lemma LeafPaths(ns: seq<Node>, v: View, p: int, filename: string)
    requires Sized(ns, v) && -1 <= p < |ns| && filename != ""
    requires PathsDistinct(v) && NoSuchPath(v, PathOf(v, p) + [filename[..DirLen(filename)]])
    ensures PathsDistinct(LeafView(ns, v, p, filename))
    ensures forall q :: -1 <= q < |ns| ==> PathOf(LeafView(ns, v, p, filename), q) == PathOf(v, q)
  {
    hide DirLen;
  }

  lemma LeafKids(ns: seq<Node>, v: View, p: int, filename: string)
    requires Sized(ns, v) && -1 <= p < |ns|
    ensures var w := LeafView(ns, v, p, filename);
      && (forall q :: -1 <= q < |ns| ==> KidsOf(w, q) == if q == p then Inserted(KidsOf(v, p), |ns|) else KidsOf(v, q))
      && w.kids[|ns|] == []
  {
    hide DirLen;
  }

  lemma LeafChain(ns: seq<Node>, v: View, p: int, filename: string, n: U32)
    requires Sized(ns, v) && ChainsOk(ns, v) && -1 <= p < |ns|
    requires KidsOf(v, p) != [] ==> KidsOf(v, p)[0] < |ns|
    ensures ChainOk(LeafNodes(ns, v, p, filename, n), Inserted(KidsOf(v, p), |ns|), p)
  {
    hide DirLen;
    var chain := KidsOf(v, p);
    assert ChainOk(ns, chain, p);
    var ms, chain' := LeafNodes(ns, v, p, filename, n), Inserted(chain, |ns|);
    forall k {:trigger chain'[k]} | 0 <= k < |chain'|
      ensures chain'[k] < |ms| && ms[chain'[k]].up == p && ms[chain'[k]].neighbour == Following(chain', k)
    {
      if k >= 2 {
        assert chain'[k] == chain[k - 1];
        assert chain[k - 1] != chain[0] by { ChainDistinct(ns, chain, p, 0, k - 1); }
        assert Following(chain', k) == Following(chain, k - 1);
      } else if chain != [] {
        assert Following(chain, 0) == if |chain| == 1 then NULL else chain[1];
      }
    }
  }

  /** A linked chain visits no node twice: later positions are closer to the end. */
  lemma {:induction false} ChainDistinct(ns: seq<Node>, chain: seq<nat>, p: int, i: nat, j: nat)
    requires ChainOk(ns, chain, p) && i < j < |chain|
    ensures chain[i] != chain[j]
    decreases |chain| - j
  {
    if chain[i] == chain[j] {
      assert Following(chain, i) == Following(chain, j);
      if j + 1 < |chain| {
        ChainDistinct(ns, chain, p, i + 1, j + 1);
      }
    }
  }

  lemma LeafOtherChain(ns: seq<Node>, v: View, p: int, filename: string, n: U32, q: int)
    requires Sized(ns, v) && ChainsOk(ns, v) && -1 <= p < |ns| && -1 <= q < |ns| && q != p
    requires KidsOf(v, p) != [] ==> KidsOf(v, p)[0] < |ns|
    ensures ChainOk(LeafNodes(ns, v, p, filename, n), KidsOf(v, q), q)
  {
    hide DirLen;
    var chain := KidsOf(v, q);
    assert ChainOk(ns, chain, q) && ChainOk(ns, KidsOf(v, p), p);
    var ms := LeafNodes(ns, v, p, filename, n);
    forall k {:trigger chain[k]} | 0 <= k < |chain|
      ensures chain[k] < |ms| && ms[chain[k]].up == q && ms[chain[k]].neighbour == Following(chain, k)
    {
      assert ns[chain[k]].up == q;
      if KidsOf(v, p) != [] {
        assert ns[KidsOf(v, p)[0]].up == p;
      }
    }
  }

  lemma LeafNodeOk(ns: seq<Node>, v: View, p: int, filename: string, n: U32, i: nat)
    requires Sized(ns, v) && NodesOk(ns, v) && ChainsOk(ns, v) && -1 <= p < |ns| && i < |ns|
    requires KidsOf(v, p) != [] ==> KidsOf(v, p)[0] < |ns|
    ensures NodeOk(LeafNodes(ns, v, p, filename, n), LeafView(ns, v, p, filename), i)
  {
    hide DirLen;
    LeafKids(ns, v, p, filename);
    assert NodeOk(ns, v, i);
    var ms, w := LeafNodes(ns, v, p, filename, n), LeafView(ns, v, p, filename);
    var up := ns[i].up;
    assert w.kids[i] == KidsOf(w, i) && v.kids[i] == KidsOf(v, i);
    assert PathOf(w, up) == PathOf(v, up);
    assert i in KidsOf(w, up);
  }

  /** Adding a node for a directory that has none keeps the tree well-formed. */
  lemma LeafKeeps(ns: seq<Node>, v: View, p: int, filename: string, n: U32)
    requires ShapeOk(ns, v, Head(v.top)) && -1 <= p < |ns| && filename != ""
    requires NoSuchPath(v, PathOf(v, p) + [filename[..DirLen(filename)]])
    ensures KidsOf(v, p) != [] ==> KidsOf(v, p)[0] < |ns|
    ensures var w := LeafView(ns, v, p, filename); ShapeOk(LeafNodes(ns, v, p, filename, n), w, Head(w.top))
  {
    hide DirLen;
    assert ChainOk(ns, KidsOf(v, p), p);
    var ms, w := LeafNodes(ns, v, p, filename, n), LeafView(ns, v, p, filename);
    LeafPaths(ns, v, p, filename);
    LeafKids(ns, v, p, filename);
    forall i | 0 <= i < |ms| ensures NodeOk(ms, w, i) {
      if i < |ns| {
        LeafNodeOk(ns, v, p, filename, n, i);
      } else {
        assert w.kids[i] == [];
        assert i in KidsOf(w, p);
      }
    }
    forall q | -1 <= q < |ms| ensures ChainOk(ms, KidsOf(w, q), q) {
      if q == |ns| {
        assert KidsOf(w, q) == [];
      } else if q == p {
        LeafChain(ns, v, p, filename, n);
      } else {
        LeafOtherChain(ns, v, p, filename, n, q);
      }
    }
  }

  // ----- Adding a branch: the nodes for all components of a file name

  lemma SamePathSameNode(v: View, p: int, q: int)
    requires PathsDistinct(v) && -1 <= p < |v.paths| && -1 <= q < |v.paths|
    requires forall i :: 0 <= i < |v.paths| ==> v.paths[i] != []
    requires PathOf(v, p) == PathOf(v, q)
    ensures p == q
  {
  }

  lemma PathsNotEmpty(ns: seq<Node>, v: View)
    requires Sized(ns, v) && NodesOk(ns, v)
    ensures forall i :: 0 <= i < |v.paths| ==> v.paths[i] != []
  {
    forall i | 0 <= i < |v.paths| ensures v.paths[i] != [] {
      assert NodeOk(ns, v, i);
    }
  }

  /** A node for a directory is a child of the node for its parent directory. */
  lemma PathIsChild(ns: seq<Node>, v: View, p: int, c: string, i: nat)
    requires ShapeOk(ns, v, Head(v.top)) && -1 <= p < |ns| && i < |ns|
    requires v.paths[i] == PathOf(v, p) + [c]
    ensures i in KidsOf(v, p) && Matches(ns[i], c)
    ensures ns[i].namelen <= |ns[i].name| && Component(ns[i]) == c
  {
    assert NodeOk(ns, v, i);
    var up := ns[i].up;
    PathsNotEmpty(ns, v);
    assert PathOf(v, up) == v.paths[i][..|v.paths[i]| - 1] == PathOf(v, p);
    SamePathSameNode(v, up, p);
    assert v.paths[i][|v.paths[i]| - 1] == c;
  }

  lemma NoMatchNoPath(ns: seq<Node>, v: View, p: int, c: string)
    requires ShapeOk(ns, v, Head(v.top)) && -1 <= p < |ns|
    requires forall k :: 0 <= k < |KidsOf(v, p)| ==>
      KidsOf(v, p)[k] < |ns| && !Matches(ns[KidsOf(v, p)[k]], c)
    ensures NoSuchPath(v, PathOf(v, p) + [c])
  {
    forall i | 0 <= i < |v.paths| ensures v.paths[i] != PathOf(v, p) + [c] {
      if v.paths[i] == PathOf(v, p) + [c] {
        PathIsChild(ns, v, p, c, i);
      }
    }
  }

  /** One node under the other, down to the end of the name. */
  ghost function BranchNodes(ns: seq<Node>, v: View, p: int, filename: string, n: U32): (r: (seq<Node>, View))
    requires ShapeOk(ns, v, Head(v.top)) && -1 <= p < |ns|
    requires filename != "" ==> NoSuchPath(v, PathOf(v, p) + [filename[..DirLen(filename)]])
    ensures ShapeOk(r.0, r.1, Head(r.1.top))
    decreases |filename|
  {
    if filename == "" then (ns, v)
    else
      LeafKeeps(ns, v, p, filename, n);
      var ms, w := LeafNodes(ns, v, p, filename, n), LeafView(ns, v, p, filename);
      var rest := filename[DirLen(filename)..];
      if rest == "" then (ms, w)
      else
        LeafKids(ns, v, p, filename);
        NoMatchNoPath(ms, w, |ns|, rest[..DirLen(rest)]);
        BranchNodes(ms, w, |ns|, rest, n)
  }

  /** The nodes before a walk, and after: `level` is the depth the walk starts at. Directories on the way
      below that depth are charged, new ones start with the charge, and nothing else changes. */
  ghost predicate Walked(ns: seq<Node>, v: View, ms: seq<Node>, w: View, level: nat, full: Path, n: U32) {
    && Sized(ns, v) && Sized(ms, w) && v.paths <= w.paths
    && (forall i :: 0 <= i < |ns| ==>
          && ms[i].name == ns[i].name && ms[i].namelen == ns[i].namelen && ms[i].up == ns[i].up
          && Counters(ns[i], ms[i], level < |v.paths[i]| && Under(v.paths[i], full), n))
    && (forall i :: |ns| <= i < |ms| ==>
          ms[i].cur == n && ms[i].max == n && level < |w.paths[i]| && Under(w.paths[i], full))
  }

  predicate Counters(before: Node, after: Node, charged: bool, n: U32) {
    if charged
    then after.cur == Wrap32(before.cur + n) && after.max == (if after.cur > before.max then after.cur else before.max)
    else after.cur == before.cur && after.max == before.max
  }

  lemma LeafWalked(ns: seq<Node>, v: View, p: int, filename: string, n: U32, full: Path)
    requires Sized(ns, v) && -1 <= p < |ns| && filename != ""
    requires KidsOf(v, p) != [] ==> KidsOf(v, p)[0] < |ns|
    requires PathOf(v, p) + [filename[..DirLen(filename)]] <= full
    requires forall i :: 0 <= i < |ns| && |PathOf(v, p)| < |v.paths[i]| ==> !Under(v.paths[i], full)
    ensures Walked(ns, v, LeafNodes(ns, v, p, filename, n), LeafView(ns, v, p, filename), |PathOf(v, p)|, full, n)
  {
    hide DirLen;
  }

  /** Every leading part of a node's path has a node. */
  lemma {:induction false} AncestorExists(ns: seq<Node>, v: View, i: nat, len: nat) returns (a: nat)
    requires Sized(ns, v) && NodesOk(ns, v) && i < |ns| && 0 < len <= |v.paths[i]|
    ensures a < |ns| && v.paths[a] == v.paths[i][..len]
    decreases i
  {
    assert NodeOk(ns, v, i);
    if len == |v.paths[i]| {
      a := i;
      assert v.paths[i][..len] == v.paths[i];
    } else {
      var up := ns[i].up;
      assert v.paths[i][..|v.paths[i]| - 1] == PathOf(v, up);
      a := AncestorExists(ns, v, up, len);
      assert v.paths[i][..len] == PathOf(v, up)[..len];
    }
  }

  /** Nothing lies under a directory that has no node. */
  lemma NothingUnder(ns: seq<Node>, v: View, path: Path, full: Path)
    requires Sized(ns, v) && NodesOk(ns, v) && path != [] && NoSuchPath(v, path) && path <= full
    ensures forall i :: 0 <= i < |ns| && |path| <= |v.paths[i]| ==> !Under(v.paths[i], full)
  {
    forall i | 0 <= i < |ns| && |path| <= |v.paths[i]| ensures !Under(v.paths[i], full) {
      if Under(v.paths[i], full) {
        assert v.paths[i][..|path|] == full[..|path|] == path;
        var a := AncestorExists(ns, v, i, |path|);
      }
    }
  }

  lemma WalkedTwice(ns: seq<Node>, v: View, ms: seq<Node>, w: View, os: seq<Node>, x: View, level: nat, full: Path,
      n: U32)
    requires Walked(ns, v, ms, w, level, full, n)
    requires Walked(ms, w, os, x, level + 1, full, n)
    requires forall i :: 0 <= i < |ns| && level < |v.paths[i]| ==> !Under(v.paths[i], full)
    requires forall i :: |ns| <= i < |ms| ==> |w.paths[i]| == level + 1
    ensures Walked(ns, v, os, x, level, full, n)
  {
  }

  /** A branch charges nothing that was there, and its last node stands for the whole file name. */
  lemma {:induction false} BranchWalked(ns: seq<Node>, v: View, p: int, filename: string, n: U32)
    requires ShapeOk(ns, v, Head(v.top)) && -1 <= p < |ns| && filename != ""
    requires NoSuchPath(v, PathOf(v, p) + [filename[..DirLen(filename)]])
    ensures var (ms, w) := BranchNodes(ns, v, p, filename, n);
      var full := PathOf(v, p) + Split(filename);
      && Walked(ns, v, ms, w, |PathOf(v, p)|, full, n)
      && |ms| == |ns| + |Split(filename)|
      && w.paths[|ms| - 1] == full
    decreases |filename|
  {
    hide DirLen, Walked, NodesOk, ChainsOk, PathsDistinct, LeafNodes;
    var c := filename[..DirLen(filename)];
    var path := PathOf(v, p) + [c];
    var full := PathOf(v, p) + Split(filename);
    var rest := filename[DirLen(filename)..];
    SplitStep(filename);
    assert full == path + Split(rest);
    LeafKeeps(ns, v, p, filename, n);
    NothingUnder(ns, v, path, full);
    LeafWalked(ns, v, p, filename, n, full);
    var ms, w := LeafNodes(ns, v, p, filename, n), LeafView(ns, v, p, filename);
    if rest == "" {
      assert full == path;
    } else {
      LeafKids(ns, v, p, filename);
      NoMatchNoPath(ms, w, |ns|, rest[..DirLen(rest)]);
      BranchWalked(ms, w, |ns|, rest, n);
      var (os, x) := BranchNodes(ms, w, |ns|, rest, n);
      WalkedTwice(ns, v, ms, w, os, x, |PathOf(v, p)|, full, n);
    }
  }

  // ----- The branch as the arena holds it

  /** Consecutive nodes, each the only child of the one before. */
  function Branch(c: nat, up: int, filename: string, n: U32): (r: seq<Node>)
    ensures |r| == |Split(filename)|
    decreases |filename|
  {
    if filename == "" then []
    else
      var rest := filename[DirLen(filename)..];
      [FreshNode(filename, up, NULL, n).(down := if rest == "" then NULL else c + 1)] + Branch(c + 1, c, rest, n)
  }

  function WithTail(ms: seq<Node>, c: nat, rest: string, n: U32): seq<Node>
    requires c < |ms|
  {
    ms[c := ms[c].(down := if rest == "" then NULL else c + 1)] + Branch(c + 1, c, rest, n)
  }

  lemma {:induction false} BranchLayout(ns: seq<Node>, v: View, p: int, filename: string, n: U32)
    requires ShapeOk(ns, v, Head(v.top)) && -1 <= p < |ns| && filename != ""
    requires NoSuchPath(v, PathOf(v, p) + [filename[..DirLen(filename)]])
    requires KidsOf(v, p) != [] ==> KidsOf(v, p)[0] < |ns|
    ensures BranchNodes(ns, v, p, filename, n).0 ==
      WithTail(LeafNodes(ns, v, p, filename, n), |ns|, filename[DirLen(filename)..], n)
    decreases |filename|
  {
    hide DirLen, NodesOk, ChainsOk, PathsDistinct;
    var c := |ns|;
    var rest := filename[DirLen(filename)..];
    LeafKeeps(ns, v, p, filename, n);
    var ms, w := LeafNodes(ns, v, p, filename, n), LeafView(ns, v, p, filename);
    if rest == "" {
      assert ms[c := ms[c].(down := NULL)] == ms;
    } else {
      LeafKids(ns, v, p, filename);
      NoMatchNoPath(ms, w, c, rest[..DirLen(rest)]);
      BranchLayout(ms, w, c, rest, n);
      LeafOnly(ms, w, c, rest, n);
    }
  }

  /** Adding a leaf under the last, childless node. */
  lemma LeafOnly(ms: seq<Node>, w: View, c: nat, rest: string, n: U32)
    requires Sized(ms, w) && |ms| == c + 1 && w.kids[c] == [] && rest != ""
    ensures WithTail(LeafNodes(ms, w, c, rest, n), c + 1, rest[DirLen(rest)..], n) == WithTail(ms, c, rest, n)
  {
    hide DirLen;
    var rest' := rest[DirLen(rest)..];
    var down := if rest' == "" then NULL else c + 2;
    var os := LeafNodes(ms, w, c, rest, n);
    var leaf := FreshNode(rest, c, NULL, n);
    var linked := ms[c := ms[c].(down := c + 1)];
    assert os == linked + [leaf];
    assert os[c + 1 := leaf.(down := down)] == linked + [leaf.(down := down)];
    assert Branch(c + 1, c, rest, n) == [leaf.(down := down)] + Branch(c + 2, c + 1, rest', n);
  }

  // ----- Charging one node

  predicate SameLinks(a: Node, b: Node) {
    && a.name == b.name && a.namelen == b.namelen
    && a.down == b.down && a.up == b.up && a.neighbour == b.neighbour
  }

  ghost predicate AllSameLinks(ns: seq<Node>, ms: seq<Node>) {
    |ns| == |ms| && forall i :: 0 <= i < |ns| ==> SameLinks(ns[i], ms[i])
  }

  lemma SameLinksShape(ns: seq<Node>, ms: seq<Node>, v: View, root: int)
    requires ShapeOk(ns, v, root) && AllSameLinks(ns, ms)
    ensures ShapeOk(ms, v, root)
  {
    forall i | 0 <= i < |ms| ensures NodeOk(ms, v, i) {
      assert NodeOk(ns, v, i);
    }
    forall p | -1 <= p < |ms| ensures ChainOk(ms, KidsOf(v, p), p) {
      assert ChainOk(ns, KidsOf(v, p), p);
    }
  }

  lemma {:induction false} SameFirstMatch(ns: seq<Node>, ms: seq<Node>, chain: seq<nat>, c: string, k: nat)
    requires AllSameLinks(ns, ms) && k <= |chain| && forall i :: 0 <= i < |chain| ==> chain[i] < |ns|
    ensures FirstMatch(ns, chain, c, k) == FirstMatch(ms, chain, c, k)
    decreases |chain| - k
  {
    if k < |chain| && !Matches(ns[chain[k]], c) {
      SameFirstMatch(ns, ms, chain, c, k + 1);
    }
  }

  lemma {:induction false} SameRoutes(ns: seq<Node>, ms: seq<Node>, v: View, p: int, rest: Path)
    requires ShapeOk(ns, v, Head(v.top)) && ShapeOk(ms, v, Head(v.top)) && AllSameLinks(ns, ms) && -1 <= p < |ns|
    requires Routes(ns, v, p, rest)
    ensures Routes(ms, v, p, rest)
    decreases |rest|
  {
    if rest != [] {
      var chain := KidsOf(v, p);
      assert ChainOk(ns, chain, p);
      SameFirstMatch(ns, ms, chain, rest[0], 0);
      var k := FirstMatch(ns, chain, rest[0], 0);
      if k < |chain| {
        assert NodeOk(ns, v, chain[k]) && NodeOk(ms, v, chain[k]);
        SameRoutes(ns, ms, v, chain[k], rest[1..]);
      }
    }
  }

  function ChargedNode(node: Node, n: U32): Node {
    var cur := Wrap32(node.cur + n);
    node.(cur := cur, max := if cur > node.max then cur else node.max)
  }

  /** Charging the node on the way and walking on below it is the walk from its level. */
  lemma ChargeThenWalk(ns: seq<Node>, v: View, x: nat, ms: seq<Node>, w: View, level: nat, full: Path, n: U32)
    requires Sized(ns, v) && PathsDistinct(v) && x < |ns|
    requires v.paths[x] <= full && |v.paths[x]| == level + 1
    requires Walked(ns[x := ChargedNode(ns[x], n)], v, ms, w, level + 1, full, n)
    ensures Walked(ns, v, ms, w, level, full, n)
  {
    forall i | 0 <= i < |ns| && i != x && level < |v.paths[i]| && Under(v.paths[i], full)
      ensures level + 1 < |v.paths[i]|
    {
    }
  }

  lemma ChargeLast(ns: seq<Node>, v: View, x: nat, level: nat, full: Path, n: U32)
    requires Sized(ns, v) && PathsDistinct(v) && x < |ns|
    requires v.paths[x] == full && |full| == level + 1
    ensures Walked(ns, v, ns[x := ChargedNode(ns[x], n)], v, level, full, n)
  {
    forall i | 0 <= i < |ns| && level < |v.paths[i]| && Under(v.paths[i], full) ensures i == x {
      assert v.paths[i] == full;
    }
  }

  // ----- A whole walk

  /** The top of the tree stays, and nodes keep having children; a new node carries the rest of the name from
      its component on, and only the node of the whole name is without children. */
  ghost predicate Grown(v: View, ms: seq<Node>, w: View, full: Path)
    requires |v.kids| <= |w.kids| && Sized(ms, w)
  {
    && (v.top != [] ==> w.top != [] && w.top[0] == v.top[0])
    && (forall i :: 0 <= i < |v.kids| && v.kids[i] != [] ==> w.kids[i] != [])
    && (forall i :: |v.kids| <= i < |w.kids| ==> Carries(ms[i], w.paths[i], w.kids[i] == [], full))
  }

  /** The node for directory `path` of the file `full`. */
  ghost predicate Carries(node: Node, path: Path, childless: bool, full: Path) {
    path != [] && path <= full && node.name == Joined(full[|path| - 1..]) && (childless ==> path == full)
  }

  lemma LeafCarries(path: Path, filename: string, full: Path)
    requires filename != "" && full == path + Split(filename)
    ensures var own := path + [filename[..DirLen(filename)]];
      && own <= full && full[|own| - 1..] == Split(filename) && Joined(full[|own| - 1..]) == filename
      && (DirLen(filename) == |filename| ==> own == full)
  {
    SplitStep(filename);
    SplitJoins(filename);
    hide Split, DirLen, Joined;
    assert full[|path|..] == Split(filename);
  }

  lemma LeafStays(ns: seq<Node>, v: View, p: int, filename: string)
    requires Sized(ns, v) && -1 <= p < |ns|
    ensures var w := LeafView(ns, v, p, filename);
      && (forall i :: 0 <= i < |ns| && v.kids[i] != [] ==> w.kids[i] != []) && (p != NULL ==> w.kids[p] != [])
      && (v.top != [] ==> w.top != [] && w.top[0] == v.top[0])
  {
    hide DirLen;
  }

  lemma LeafNew(ns: seq<Node>, v: View, p: int, filename: string, n: U32)
    requires Sized(ns, v) && -1 <= p < |ns|
    requires KidsOf(v, p) != [] ==> KidsOf(v, p)[0] < |ns|
    ensures LeafNodes(ns, v, p, filename, n)[|ns|].name == filename
    ensures LeafView(ns, v, p, filename).paths[|ns|] == PathOf(v, p) + [filename[..DirLen(filename)]]
  {
    hide DirLen;
  }

  lemma LeafGrown(ns: seq<Node>, v: View, p: int, filename: string, n: U32, full: Path)
    requires Sized(ns, v) && -1 <= p < |ns| && filename != "" && full == PathOf(v, p) + Split(filename)
    requires KidsOf(v, p) != [] ==> KidsOf(v, p)[0] < |ns|
    ensures var ms, w := LeafNodes(ns, v, p, filename, n), LeafView(ns, v, p, filename);
      Carries(ms[|ns|], w.paths[|ns|], DirLen(filename) == |filename|, full)
  {
    hide Split, DirLen, Joined, LeafNodes, LeafView;
    LeafCarries(PathOf(v, p), filename, full);
    LeafNew(ns, v, p, filename, n);
  }

  lemma {:induction false} BranchGrown(ns: seq<Node>, v: View, p: int, filename: string, n: U32)
    requires ShapeOk(ns, v, Head(v.top)) && -1 <= p < |ns| && filename != ""
    requires NoSuchPath(v, PathOf(v, p) + [filename[..DirLen(filename)]])
    ensures var (ms, w) := BranchNodes(ns, v, p, filename, n);
      |v.kids| <= |w.kids| && Grown(v, ms, w, PathOf(v, p) + Split(filename)) && (p != NULL ==> w.kids[p] != [])
    decreases |filename|
  {
    hide DirLen, Walked, NodesOk, ChainsOk, PathsDistinct, Split, Joined, LeafNodes;
    var full := PathOf(v, p) + Split(filename);
    var rest := filename[DirLen(filename)..];
    LeafKeeps(ns, v, p, filename, n);
    LeafGrown(ns, v, p, filename, n, full);
    LeafStays(ns, v, p, filename);
    var ms, w := LeafNodes(ns, v, p, filename, n), LeafView(ns, v, p, filename);
    if rest != "" {
      LeafKids(ns, v, p, filename);
      NoMatchNoPath(ms, w, |ns|, rest[..DirLen(rest)]);
      BranchGrown(ms, w, |ns|, rest, n);
      BranchWalked(ms, w, |ns|, rest, n);
      var (os, x) := BranchNodes(ms, w, |ns|, rest, n);
      SplitStep(filename);
      assert w.paths[|ns|] + Split(rest) == full;
      BranchKeeps(ms, w, os, x, |ns|, full, n);
      hide Grown, Carries, NoSuchPath;
      GrownOnward(v, ms, w, os, x, p, full);
    }
  }

  lemma GrownOnward(v: View, ms: seq<Node>, w: View, os: seq<Node>, x: View, p: int, full: Path)
    requires |w.kids| == |v.kids| + 1 && |w.kids| <= |x.kids| && Sized(ms, w) && Sized(os, x) && w.paths <= x.paths
    requires forall i :: 0 <= i < |v.kids| && v.kids[i] != [] ==> w.kids[i] != []
    requires -1 <= p < |v.kids| && (p != NULL ==> w.kids[p] != [])
    requires v.top != [] ==> w.top != [] && w.top[0] == v.top[0]
    requires Carries(ms[|v.kids|], w.paths[|v.kids|], false, full) && os[|v.kids|].name == ms[|v.kids|].name
    requires x.kids[|v.kids|] != [] && Grown(w, os, x, full)
    ensures Grown(v, os, x, full) && (p != NULL ==> x.kids[p] != [])
  {
    hide Joined;
  }

  lemma BranchKeeps(ms: seq<Node>, w: View, os: seq<Node>, x: View, i: nat, full: Path, n: U32)
    requires Sized(ms, w) && i < |ms| && Walked(ms, w, os, x, |w.paths[i]|, full, n)
    ensures |ms| <= |os| && w.paths <= x.paths && Sized(os, x) && os[i].name == ms[i].name
  {
  }

  /** The walk for `filename` from parent p charged exactly the directories of the name, and found its node. */
  ghost predicate WalkDone(ns: seq<Node>, v: View, ms: seq<Node>, w: View, p: int, filename: string, n: U32, leaf: int)
    requires Sized(ns, v) && -1 <= p < |ns|
  {
    var full := PathOf(v, p) + Split(filename);
    && Walked(ns, v, ms, w, |PathOf(v, p)|, full, n)
    && 0 <= leaf < |ms| && w.paths[leaf] == full
    && |v.kids| <= |w.kids| && Grown(v, ms, w, full)
  }

  lemma MissingPath(ns: seq<Node>, v: View, p: int, c: string)
    requires ShapeOk(ns, v, Head(v.top)) && -1 <= p < |ns| && ChainOk(ns, KidsOf(v, p), p)
    requires FirstMatch(ns, KidsOf(v, p), c, 0) == |KidsOf(v, p)|
    ensures NoSuchPath(v, PathOf(v, p) + [c])
  {
    NoMatchNoPath(ns, v, p, c);
  }

  /** A walk that finds no child for the first component is done once the branch is in place. */
  lemma MissingDone(ns: seq<Node>, v: View, p: int, filename: string, n: U32)
    requires ShapeOk(ns, v, Head(v.top)) && -1 <= p < |ns| && filename != ""
    requires NoSuchPath(v, PathOf(v, p) + [filename[..DirLen(filename)]])
    ensures var (ms, w) := BranchNodes(ns, v, p, filename, n);
      WalkDone(ns, v, ms, w, p, filename, n, |ms| - 1) && |ms| == |ns| + |Split(filename)|
  {
    hide BranchNodes, NodesOk, ChainsOk, PathsDistinct, Walked, DirLen, Split, NoSuchPath, Grown;
    BranchWalked(ns, v, p, filename, n);
    BranchGrown(ns, v, p, filename, n);
  }

  /** Nodes a walk from the directory `base` has to create. */
  ghost function Missing(v: View, base: Path, rest: Path): nat
    decreases |rest|
  {
    if rest == [] then 0
    else if NoSuchPath(v, base + [rest[0]]) then |rest|
    else Missing(v, base + [rest[0]], rest[1..])
  }

  lemma MissingAll(v: View, base: Path, filename: string)
    requires filename != "" && NoSuchPath(v, base + [filename[..DirLen(filename)]])
    ensures Missing(v, base, Split(filename)) == |Split(filename)|
  {
    SplitStep(filename);
    hide DirLen;
  }

  lemma MissingBelow(v: View, base: Path, filename: string, x: nat)
    requires filename != "" && x < |v.paths| && v.paths[x] == base + [filename[..DirLen(filename)]]
    ensures Missing(v, base, Split(filename)) == Missing(v, v.paths[x], Split(filename[DirLen(filename)..]))
  {
    SplitStep(filename);
    var path := Split(filename);
    assert path[0] == filename[..DirLen(filename)] && path[1..] == Split(filename[DirLen(filename)..]);
    hide DirLen, Split;
    assert !NoSuchPath(v, base + [path[0]]);
  }

  // ----- Crediting: the walk back up

  /** Every directory on the way to the root of `path` deeper than `depth` is credited; nothing else changes. */
  ghost predicate Credited(ns: seq<Node>, v: View, ms: seq<Node>, path: Path, depth: nat, n: U32)
    requires Sized(ns, v)
  {
    && |ms| == |ns|
    && forall i :: 0 <= i < |ns| ==>
      ms[i] == if depth < |v.paths[i]| && Under(v.paths[i], path) then ns[i].(cur := Wrap32(ns[i].cur - n)) else ns[i]
  }

  /** In a tree of one file, the only node without a parent is the head of the top chain. */
  lemma TopIsHead(ns: seq<Node>, v: View, r: nat, full: Path)
    requires ShapeOk(ns, v, Head(v.top)) && r < |ns| && ns[r].up == NULL
    requires forall i :: 0 <= i < |ns| ==> Under(v.paths[i], full)
    ensures r == Head(v.top)
  {
    assert NodeOk(ns, v, r) && ChainOk(ns, v.top, NULL) by {
      assert KidsOf(v, NULL) == v.top;
    }
    assert r in KidsOf(v, NULL);
    var h := v.top[0];
    assert NodeOk(ns, v, h);
    assert |v.paths[h]| == 1 == |v.paths[r]|;
    assert v.paths[h] == full[..1] == v.paths[r];
  }

  lemma RouteStep(ns: seq<Node>, v: View, p: int, filename: string)
    requires Sized(ns, v) && NodesOk(ns, v) && ChainsOk(ns, v) && -1 <= p < |ns| && filename != ""
    requires Routes(ns, v, p, Split(filename))
    ensures ChainOk(ns, KidsOf(v, p), p)
    ensures var chain, len := KidsOf(v, p), DirLen(filename);
      var k := FirstMatch(ns, chain, filename[..len], 0);
      if k < |chain| then
        v.paths[chain[k]] == PathOf(v, p) + [filename[..len]] && Routes(ns, v, chain[k], Split(filename[len..]))
      else chain != [] || p == NULL
  {
    var chain, len := KidsOf(v, p), DirLen(filename);
    assert ChainOk(ns, chain, p);
    SplitStep(filename);
    var path := Split(filename);
    assert path[0] == filename[..len] && path[1..] == Split(filename[len..]);
    hide Split, DirLen;
    var k := FirstMatch(ns, chain, filename[..len], 0);
    if k < |chain| {
      assert NodeOk(ns, v, chain[k]);
    }
  }

  lemma WalkedLast(ns: seq<Node>, v: View, x: nat, p: int, filename: string, n: U32)
    requires Sized(ns, v) && PathsDistinct(v) && -1 <= p < |ns| && x < |ns| && filename != ""
        && DirLen(filename) == |filename|
    requires v.paths[x] == PathOf(v, p) + [filename[..DirLen(filename)]]
    ensures WalkDone(ns, v, ns[x := ChargedNode(ns[x], n)], v, p, filename, n, x)
  {
    SplitStep(filename);
    hide Split, DirLen, Walked, Carries, PathsDistinct;
    assert v.paths[x] == PathOf(v, p) + Split(filename);
    ChargeLast(ns, v, x, |PathOf(v, p)|, PathOf(v, p) + Split(filename), n);
  }

  lemma Onto(base: Path, c: string, more: Path)
    ensures base + [c] + more == base + ([c] + more)
  {
  }

  lemma WalkedOn(ns: seq<Node>, v: View, x: nat, ms: seq<Node>, w: View, p: int, filename: string, n: U32, leaf: int)
    requires Sized(ns, v) && PathsDistinct(v) && -1 <= p < |ns| && x < |ns| && filename != ""
    requires v.paths[x] == PathOf(v, p) + [filename[..DirLen(filename)]]
    requires WalkDone(ns[x := ChargedNode(ns[x], n)], v, ms, w, x, filename[DirLen(filename)..], n, leaf)
    ensures WalkDone(ns, v, ms, w, p, filename, n, leaf)
  {
    hide Split, DirLen, Walked, PathsDistinct, Grown;
    SplitStep(filename);
    var full := PathOf(v, p) + Split(filename);
    Onto(PathOf(v, p), filename[..DirLen(filename)], Split(filename[DirLen(filename)..]));
    ChargeThenWalk(ns, v, x, ms, w, |PathOf(v, p)|, full, n);
  }
}
