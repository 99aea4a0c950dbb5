/** Attaching the branch of a new file to the tree of core/net_os.c. */
module AllocBranch {
  import opened Words
  import opened AllocPaths
  import opened AllocTree

  lemma BranchStep(c: nat, filename: string, n: U32)
    requires filename != ""
    ensures var rest := filename[DirLen(filename)..];
      var first := FreshNode(filename, NULL, NULL, n);
      if rest == "" then Branch(c, NULL, filename, n) == [first]
      else
        var more := Branch(c + 1, NULL, rest, n);
        more != [] && Branch(c, NULL, filename, n) == [first.(down := c + 1)] + more[0 := more[0].(up := c)]
  {
    hide DirLen;
    var rest := filename[DirLen(filename)..];
    if rest != "" {
      var more := Branch(c + 1, NULL, rest, n);
      assert Branch(c + 1, c, rest, n) == more[0 := more[0].(up := c)];
    }
  }

  /** The branch, attached after `first` among the children of p; a first branch of all is not attached. */
  function Attached(ns: seq<Node>, branch: seq<Node>, first: int, p: int): (r: seq<Node>)
    requires NULL <= first < |ns| && branch != []
    ensures |r| == |ns| + |branch|
  {
    var all := ns + branch;
    var c := |ns|;
    if first == NULL then all
    else all[c := all[c].(up := p, neighbour := ns[first].neighbour)][first := ns[first].(neighbour := c)]
  }

  lemma AttachedNowhere(ns: seq<Node>, branch: seq<Node>, p: int)
    requires branch != []
    ensures Attached(ns, branch, NULL, p) == ns + branch
  {
  }

  lemma AttachedParts(ns: seq<Node>, node: Node, tail: seq<Node>, first: int, p: int)
    requires NULL < first < |ns|
    ensures Attached(ns, [node] + tail, first, p) ==
      ns[first := ns[first].(neighbour := |ns|)] + [node.(up := p, neighbour := ns[first].neighbour)] + tail
  {
  }

  lemma TailParts(linked: seq<Node>, leaf: Node, rest: string, n: U32)
    ensures var c := |linked|;
      WithTail(linked + [leaf], c, rest, n) ==
      linked + [leaf.(down := if rest == "" then NULL else c + 1)] + Branch(c + 1, c, rest, n)
  {
    hide Branch;
  }

  lemma LeafParts(ns: seq<Node>, v: View, p: int, filename: string, n: U32)
    requires Sized(ns, v) && -1 <= p < |ns|
    requires KidsOf(v, p) != [] ==> KidsOf(v, p)[0] < |ns|
    requires KidsOf(v, p) != [] || p == NULL
    ensures LeafNodes(ns, v, p, filename, n) ==
      if KidsOf(v, p) == [] then ns + [FreshNode(filename, p, NULL, n)]
      else
        var first := KidsOf(v, p)[0];
        ns[first := ns[first].(neighbour := |ns|)] + [FreshNode(filename, p, ns[first].neighbour, n)]
  {
    hide DirLen;
  }

  lemma BranchParts(c: nat, filename: string, n: U32)
    requires filename != ""
    ensures var rest := filename[DirLen(filename)..];
      Branch(c, NULL, filename, n) ==
      [FreshNode(filename, NULL, NULL, n).(down := if rest == "" then NULL else c + 1)] + Branch(c + 1, c, rest, n)
  {
    hide DirLen;
  }

  lemma AttachedRoot(ns: seq<Node>, filename: string, n: U32)
    requires filename != ""
    ensures WithTail(ns + [FreshNode(filename, NULL, NULL, n)], |ns|, filename[DirLen(filename)..], n) ==
      ns + Branch(|ns|, NULL, filename, n)
  {
    hide DirLen, Branch, WithTail;
    var c, rest := |ns|, filename[DirLen(filename)..];
    TailParts(ns, FreshNode(filename, NULL, NULL, n), rest, n);
    BranchParts(c, filename, n);
    var node := FreshNode(filename, NULL, NULL, n).(down := if rest == "" then NULL else c + 1);
    AppendTwice(ns, node, Branch(c + 1, c, rest, n));
  }

  lemma AppendTwice(ns: seq<Node>, node: Node, more: seq<Node>)
    ensures ns + [node] + more == ns + ([node] + more)
  {
  }

  lemma AttachedBeside(ns: seq<Node>, first: nat, p: int, filename: string, n: U32)
    requires filename != "" && first < |ns|
    ensures Branch(|ns|, NULL, filename, n) != []
    ensures WithTail(ns[first := ns[first].(neighbour := |ns|)] + [FreshNode(filename, p, ns[first].neighbour, n)],
                     |ns|, filename[DirLen(filename)..], n) ==
      Attached(ns, Branch(|ns|, NULL, filename, n), first, p)
  {
    hide DirLen, Branch, WithTail, Attached;
    var c, rest := |ns|, filename[DirLen(filename)..];
    var node := FreshNode(filename, NULL, NULL, n).(down := if rest == "" then NULL else c + 1);
    TailParts(ns[first := ns[first].(neighbour := c)], FreshNode(filename, p, ns[first].neighbour, n), rest, n);
    BranchParts(c, filename, n);
    AttachedParts(ns, node, Branch(c + 1, c, rest, n), first, p);
  }

  /** Attaching a finished branch gives the tree with that branch. */
  lemma AttachLayout(ns: seq<Node>, v: View, p: int, filename: string, n: U32, branch: seq<Node>)
    requires ShapeOk(ns, v, Head(v.top)) && -1 <= p < |ns| && filename != ""
    requires NoSuchPath(v, PathOf(v, p) + [filename[..DirLen(filename)]])
    requires KidsOf(v, p) != [] ==> KidsOf(v, p)[0] < |ns|
    requires KidsOf(v, p) != [] || p == NULL
    requires branch == Branch(|ns|, NULL, filename, n)
    ensures branch != [] && BranchNodes(ns, v, p, filename, n).0 == Attached(ns, branch, Head(KidsOf(v, p)), p)
  {
    hide Branch, WithTail, DirLen, BranchNodes, Split, Attached, LeafNodes, NodesOk, ChainsOk, PathsDistinct,
        NoSuchPath;
    BranchLayout(ns, v, p, filename, n);
    LeafParts(ns, v, p, filename, n);
    BranchParts(|ns|, filename, n);
    if KidsOf(v, p) != [] {
      AttachedBeside(ns, KidsOf(v, p)[0], p, filename, n);
    } else {
      AttachedRoot(ns, filename, n);
      AttachedNowhere(ns, branch, p);
    }
  }

  /** The finished and attached branch is a well-formed tree, and completes the walk. */
  lemma BranchPlan(ns: seq<Node>, v: View, p: int, filename: string, n: U32, branch: seq<Node>) returns (w: View)
    requires ShapeOk(ns, v, Head(v.top)) && -1 <= p < |ns| && filename != ""
    requires NoSuchPath(v, PathOf(v, p) + [filename[..DirLen(filename)]])
    requires KidsOf(v, p) != [] || p == NULL
    requires branch == Branch(|ns|, NULL, filename, n)
    ensures branch != [] && NULL <= Head(KidsOf(v, p)) < |ns|
    ensures var ms := Attached(ns, branch, Head(KidsOf(v, p)), p);
      && ShapeOk(ms, w, Head(w.top)) && WalkDone(ns, v, ms, w, p, filename, n, |ms| - 1)
  {
    hide Branch, BranchNodes, DirLen, Split, NoSuchPath, Attached, WalkDone, NodesOk, PathsDistinct;
    assert ChainOk(ns, KidsOf(v, p), p);
    AttachLayout(ns, v, p, filename, n, branch);
    MissingDone(ns, v, p, filename, n);
    w := BranchNodes(ns, v, p, filename, n).1;
  }

  lemma LinkTwo(before: seq<Node>, first: Node, more: seq<Node>, c: nat)
    requires c == |before| && more != []
    ensures var all := before + [first] + more;
      all[c := first.(down := c + 1)][c + 1 := more[0].(up := c)] ==
      before + ([first.(down := c + 1)] + more[0 := more[0].(up := c)])
  {
  }

  /** Consecutive nodes from index c on, each the parent of the next, all with the same charge. */
  predicate LinkedBranch(b: seq<Node>, c: nat, up: int, n: U32) {
    forall j :: 0 <= j < |b| ==>
      && b[j].up == (if j == 0 then up else c + j - 1) && b[j].neighbour == NULL
      && b[j].down == (if j + 1 == |b| then NULL else c + j + 1)
      && b[j].cur == n && b[j].max == n
  }

  lemma LinkedBranchCons(first: Node, more: seq<Node>, c: nat, up: int, n: U32)
    requires LinkedBranch(more, c + 1, c, n) && first.up == up && first.neighbour == NULL
    requires first.down == (if more == [] then NULL else c + 1) && first.cur == first.max == n
    ensures LinkedBranch([first] + more, c, up, n)
  {
    var b := [first] + more;
    assert forall j :: 0 < j < |b| ==> b[j] == more[j - 1];
  }

  lemma {:induction false} BranchLinks(b: seq<Node>, c: nat, up: int, filename: string, n: U32)
    requires b == Branch(c, up, filename, n)
    ensures LinkedBranch(b, c, up, n)
    decreases |filename|
  {
    if filename != "" {
      hide LinkedBranch, DirLen;
      var rest := filename[DirLen(filename)..];
      var more := Branch(c + 1, c, rest, n);
      BranchLinks(more, c + 1, c, rest, n);
      assert |more| == 0 <==> rest == "";
      var first := FreshNode(filename, up, NULL, n).(down := if rest == "" then NULL else c + 1);
      assert b == [first] + more;
      LinkedBranchCons(first, more, c, up, n);
    } else {
      assert b == [];
    }
  }
}
