/** The walks of core/net_os.c on any arena a program can reach, whatever its file names: what a walk down does to
    the nodes, what a walk up takes back, and that the links always lead somewhere and end. */
module AllocWalk {
  import opened Words
  import opened AllocPaths
  import opened AllocTree
  import opened AllocBranch

  // ----- Links that always end

  /** Parents come before their children; behind the first child the chain runs towards older nodes, all with the
      same parent. */
  predicate LooseNode(ns: seq<Node>, i: nat)
    requires i < |ns|
  {
    var n := ns[i];
    && -1 <= n.up < i
    && (n.down == NULL || (i < n.down < |ns| && ns[n.down].up == i))
    && (n.neighbour == NULL ||
        (0 <= n.neighbour < |ns| && ns[n.neighbour].neighbour < n.neighbour && ns[n.neighbour].up == n.up))
  }

  /** No chain leads to x. */
  ghost predicate First(ns: seq<Node>, x: int) {
    forall j :: 0 <= j < |ns| ==> ns[j].neighbour != x
  }

  ghost predicate Loose(ns: seq<Node>) {
    && (forall i :: 0 <= i < |ns| ==> LooseNode(ns, i))
    && (forall i :: 0 <= i < |ns| && ns[i].down != NULL ==> First(ns, ns[i].down))
  }

  ghost predicate StartsAt(ns: seq<Node>, root: int) {
    NULL <= root < |ns| && (root != NULL ==> First(ns, root))
  }

  /** From a node behind the first of its chain: the first match further on. */
  ghost function MatchLink(ns: seq<Node>, x: int, c: string): (r: int)
    requires Loose(ns) && NULL <= x < |ns| && (x != NULL ==> ns[x].neighbour < x)
    ensures NULL <= r < |ns| && (r != NULL ==> Matches(ns[r], c) && x != NULL && ns[r].up == ns[x].up)
    decreases x + 1
  {
    if x == NULL || Matches(ns[x], c) then x
    else
      assert LooseNode(ns, x);
      MatchLink(ns, ns[x].neighbour, c)
  }

  /** The first node from `root` on, along the chain, whose name starts with the component. */
  ghost function MatchFrom(ns: seq<Node>, root: int, c: string): (r: int)
    requires Loose(ns) && NULL <= root < |ns|
    ensures NULL <= r < |ns| && (r != NULL ==> Matches(ns[r], c) && root != NULL && ns[r].up == ns[root].up)
  {
    if root == NULL || Matches(ns[root], c) then root
    else
      assert LooseNode(ns, root);
      MatchLink(ns, ns[root].neighbour, c)
  }

  lemma SameLinksLoose(ns: seq<Node>, ms: seq<Node>)
    requires Loose(ns) && AllSameLinks(ns, ms)
    ensures Loose(ms)
    ensures forall x :: First(ns, x) ==> First(ms, x)
  {
    forall i | 0 <= i < |ms| ensures LooseNode(ms, i) {
      assert LooseNode(ns, i);
    }
    forall i | 0 <= i < |ms| && ms[i].down != NULL ensures First(ms, ms[i].down) {
      assert First(ns, ns[i].down);
    }
  }

  lemma ChargeLinks(ns: seq<Node>, x: nat, n: U32)
    requires x < |ns|
    ensures AllSameLinks(ns, ns[x := ChargedNode(ns[x], n)])
  {
  }

  function UpOf(ns: seq<Node>, root: int): int
    requires NULL <= root < |ns|
  {
    if root == NULL then NULL else ns[root].up
  }

  // ----- The walk down

  /** The nodes after the charging walk for `filename` from `root`, and the leaf it returns. */
  ghost function WalkNodes(ns: seq<Node>, root: int, filename: string, n: U32): (r: (seq<Node>, int))
    requires Loose(ns) && StartsAt(ns, root) && filename != ""
    ensures |r.0| >= |ns| && 0 <= r.1 < |r.0|
    decreases |filename|
  {
    var x := MatchFrom(ns, root, filename[..DirLen(filename)]);
    if x == NULL then
      var branch := Branch(|ns|, NULL, filename, n);
      (Attached(ns, branch, root, UpOf(ns, root)), |ns| + |branch| - 1)
    else
      var rest := filename[DirLen(filename)..];
      var ms := ns[x := ChargedNode(ns[x], n)];
      if rest == "" then (ms, x)
      else
        ChargeLinks(ns, x, n);
        SameLinksLoose(ns, ms);
        assert LooseNode(ms, x);
        WalkNodes(ms, ms[x].down, rest, n)
  }

  /** Attaching a branch keeps the links in order, and first nodes first. */
  lemma AttachLoose(ns: seq<Node>, branch: seq<Node>, root: int, n: U32)
    requires Loose(ns) && StartsAt(ns, root) && branch != [] && LinkedBranch(branch, |ns|, NULL, n)
    ensures var ms := Attached(ns, branch, root, UpOf(ns, root));
      Loose(ms) && forall x :: x < |ns| && First(ns, x) && x != NULL ==> First(ms, x)
  {
    var ms := Attached(ns, branch, root, UpOf(ns, root));
    var c := |ns|;
    if root != NULL {
      assert LooseNode(ns, root);
    }
    forall i | 0 <= i < |ms| ensures LooseNode(ms, i) {
      if i < c {
        assert LooseNode(ns, i);
        assert root != NULL ==> ns[i].neighbour != root;
      }
    }
    forall x | x < |ns| && First(ns, x) && x != NULL ensures First(ms, x) {
    }
    forall j | 0 <= j < |ms| ensures ms[j].neighbour <= c {
      if j < c {
        assert LooseNode(ns, j);
      }
    }
    forall i | 0 <= i < |ms| && ms[i].down != NULL ensures First(ms, ms[i].down) {
      if i < c {
        assert LooseNode(ns, i);
        assert First(ns, ns[i].down);
      } else {
        assert ms[i].down == branch[i - c].down > c;
      }
    }
  }

  /** Every walk keeps the links in order. */
  lemma {:induction false} WalkLoose(ns: seq<Node>, root: int, filename: string, n: U32)
    requires Loose(ns) && StartsAt(ns, root) && filename != ""
    ensures var ms := WalkNodes(ns, root, filename, n).0;
      Loose(ms) && forall x :: x < |ns| && First(ns, x) && x != NULL ==> First(ms, x)
    decreases |filename|
  {
    hide DirLen, Attached, LinkedBranch;
    var x := MatchFrom(ns, root, filename[..DirLen(filename)]);
    if x == NULL {
      BranchLinks(Branch(|ns|, NULL, filename, n), |ns|, NULL, filename, n);
      AttachLoose(ns, Branch(|ns|, NULL, filename, n), root, n);
    } else {
      var rest := filename[DirLen(filename)..];
      var ms := ns[x := ChargedNode(ns[x], n)];
      ChargeLinks(ns, x, n);
      SameLinksLoose(ns, ms);
      if rest != "" {
        assert LooseNode(ms, x);
        WalkLoose(ms, ms[x].down, rest, n);
      }
    }
  }

  /** A walk below a node leaves the counts of that node and of all older ones alone. */
  lemma {:induction false} WalkUntouched(ns: seq<Node>, root: int, filename: string, n: U32, i: nat)
    requires Loose(ns) && StartsAt(ns, root) && filename != "" && i < |ns| && (root == NULL || i <= ns[root].up)
    ensures var ms := WalkNodes(ns, root, filename, n).0;
      ms[i].cur == ns[i].cur && ms[i].max == ns[i].max
    decreases |filename|
  {
    hide DirLen;
    var x := MatchFrom(ns, root, filename[..DirLen(filename)]);
    if x != NULL {
      assert LooseNode(ns, x);
      var rest := filename[DirLen(filename)..];
      var ms := ns[x := ChargedNode(ns[x], n)];
      ChargeLinks(ns, x, n);
      SameLinksLoose(ns, ms);
      if rest != "" {
        assert LooseNode(ms, x);
        WalkUntouched(ms, ms[x].down, rest, n, i);
      }
    }
  }

  // ----- The walk up

  /** The node and all its parents. */
  ghost function Ups(ns: seq<Node>, x: int): (r: set<int>)
    requires Loose(ns) && NULL <= x < |ns|
    ensures forall u :: u in r ==> 0 <= u <= x
    decreases x + 1
  {
    if x == NULL then {}
    else
      assert LooseNode(ns, x);
      {x} + Ups(ns, ns[x].up)
  }

  /** The size is taken off the node and all its parents, and nothing else changes. */
  ghost predicate TakenOff(ns: seq<Node>, ms: seq<Node>, ups: set<int>, n: U32) {
    && |ms| == |ns|
    && forall i :: 0 <= i < |ns| ==> ms[i] == if i in ups then ns[i].(cur := Wrap32(ns[i].cur - n)) else ns[i]
  }

  /** In a tree that stands for directories, the parents of a node are the directories it lies in. */
  lemma {:induction false} UpsAreDirectories(ns: seq<Node>, v: View, leaf: nat, i: nat)
    requires ShapeOk(ns, v, Head(v.top)) && Loose(ns) && leaf < |ns| && i < |ns|
    ensures i in Ups(ns, leaf) <==> Under(v.paths[i], v.paths[leaf])
    decreases leaf
  {
    assert NodeOk(ns, v, leaf) && NodeOk(ns, v, i);
    var up := ns[leaf].up;
    assert v.paths[leaf][..|v.paths[leaf]| - 1] == PathOf(v, up);
    assert i in Ups(ns, leaf) <==> i == leaf || i in Ups(ns, up);
    if up != NULL {
      UpsAreDirectories(ns, v, up, i);
    }
    if Under(v.paths[i], v.paths[leaf]) && i != leaf {
      assert |v.paths[i]| < |v.paths[leaf]|;
      assert v.paths[i] == v.paths[leaf][..|v.paths[i]|] == PathOf(v, up)[..|v.paths[i]|];
    }
  }

  lemma TakenOffIsCredited(ns: seq<Node>, v: View, ms: seq<Node>, leaf: nat, n: U32)
    requires ShapeOk(ns, v, Head(v.top)) && Loose(ns) && leaf < |ns| && TakenOff(ns, ms, Ups(ns, leaf), n)
    ensures Credited(ns, v, ms, v.paths[leaf], 0, n)
  {
    forall i | 0 <= i < |ns|
      ensures i in Ups(ns, leaf) <==> 0 < |v.paths[i]| && Under(v.paths[i], v.paths[leaf])
    {
      assert NodeOk(ns, v, i);
      UpsAreDirectories(ns, v, leaf, i);
    }
    hide NodesOk, ChainsOk, PathsDistinct, Ups;
  }

  lemma TakenOffLinks(ns: seq<Node>, ms: seq<Node>, ups: set<int>, n: U32)
    requires TakenOff(ns, ms, ups, n)
    ensures AllSameLinks(ns, ms)
  {
  }

  // ----- A walk that finds its way

  lemma {:induction false} LinkIsFirst(ns: seq<Node>, chain: seq<nat>, p: int, c: string, k: nat)
    requires Loose(ns) && ChainOk(ns, chain, p) && 0 < k <= |chain|
    ensures var x := Following(chain, k - 1);
      NULL <= x < |ns| && (x != NULL ==> ns[x].neighbour < x) &&
      MatchLink(ns, x, c) == var j := FirstMatch(ns, chain, c, k); if j < |chain| then chain[j] else NULL
    decreases |chain| - k
  {
    assert LooseNode(ns, chain[k - 1]);
    if k < |chain| {
      LinkIsFirst(ns, chain, p, c, k + 1);
    }
  }

  /** In a well-formed tree the match along the links is the first match among the children. */
  lemma MatchIsFirst(ns: seq<Node>, chain: seq<nat>, p: int, c: string)
    requires Loose(ns) && ChainOk(ns, chain, p)
    ensures NULL <= Head(chain) < |ns|
    ensures MatchFrom(ns, Head(chain), c) ==
      var j := FirstMatch(ns, chain, c, 0); if j < |chain| then chain[j] else NULL
  {
    if chain != [] {
      assert LooseNode(ns, chain[0]);
      LinkIsFirst(ns, chain, p, c, 1);
    }
  }

  lemma StepInto(ns: seq<Node>, x: nat, filename: string, n: U32)
    requires Loose(ns) && x < |ns| && filename != ""
    ensures var ms := ns[x := ChargedNode(ns[x], n)];
      && Loose(ms) && AllSameLinks(ns, ms) && ms[x].down == ns[x].down && StartsAt(ms, ms[x].down)
      && (ms[x].down != NULL ==> ms[ms[x].down].up == x)
  {
    ChargeLinks(ns, x, n);
    SameLinksLoose(ns, ns[x := ChargedNode(ns[x], n)]);
    assert LooseNode(ns, x);
  }

  lemma WalkMissing(ns: seq<Node>, root: int, filename: string, n: U32)
    requires Loose(ns) && StartsAt(ns, root) && filename != ""
    requires MatchFrom(ns, root, filename[..DirLen(filename)]) == NULL
    ensures var branch := Branch(|ns|, NULL, filename, n);
      && branch != []
      && WalkNodes(ns, root, filename, n) == (Attached(ns, branch, root, UpOf(ns, root)), |ns| + |branch| - 1)
  {
    hide DirLen, Attached;
  }

  lemma WalkMatch(ns: seq<Node>, root: int, filename: string, n: U32, x: nat)
    requires Loose(ns) && StartsAt(ns, root) && filename != "" && x < |ns|
    requires MatchFrom(ns, root, filename[..DirLen(filename)]) == x
    ensures var rest, ms := filename[DirLen(filename)..], ns[x := ChargedNode(ns[x], n)];
      && Loose(ms) && StartsAt(ms, ms[x].down)
      && WalkNodes(ns, root, filename, n) == if rest == "" then (ms, x) else WalkNodes(ms, ms[x].down, rest, n)
  {
    StepInto(ns, x, filename, n);
    hide DirLen, Attached;
  }

  lemma HeadStarts(ns: seq<Node>, v: View, p: int)
    requires ShapeOk(ns, v, Head(v.top)) && Loose(ns) && -1 <= p < |ns|
    requires p == NULL ==> StartsAt(ns, Head(v.top))
    ensures StartsAt(ns, Head(KidsOf(v, p)))
    ensures Head(KidsOf(v, p)) != NULL ==> UpOf(ns, Head(KidsOf(v, p))) == p
  {
    assert ChainOk(ns, KidsOf(v, p), p);
    if p != NULL {
      assert NodeOk(ns, v, p) && LooseNode(ns, p);
    }
  }

  /** A walk that finds its way charges exactly the directories of the name, in a tree that is well-formed again,
      and needs exactly the missing nodes. */
  lemma {:induction false} WalkRouted(ns: seq<Node>, v: View, p: int, filename: string, n: U32) returns (w: View)
    requires ShapeOk(ns, v, Head(v.top)) && Loose(ns) && StartsAt(ns, Head(v.top)) && -1 <= p < |ns| && filename != ""
    requires Routes(ns, v, p, Split(filename))
    ensures StartsAt(ns, Head(KidsOf(v, p)))
    ensures var (ms, leaf) := WalkNodes(ns, Head(KidsOf(v, p)), filename, n);
      && ShapeOk(ms, w, Head(w.top)) && WalkDone(ns, v, ms, w, p, filename, n, leaf)
      && |ms| == |ns| + Missing(v, PathOf(v, p), Split(filename))
    decreases |filename|
  {
    HeadStarts(ns, v, p);
    var x := RoutedMatch(ns, v, p, filename);
    hide *;
    if x == NULL {
      w := WalkRoutedMissing(ns, v, p, filename, n);
    } else {
      WalkMatch(ns, Head(KidsOf(v, p)), filename, n, x);
      MissingBelow(v, PathOf(v, p), filename, x);
      w := WalkRoutedInto(ns, v, p, x, filename, n);
    }
  }

  /** Where a walk that finds its way goes from p. */
  lemma RoutedMatch(ns: seq<Node>, v: View, p: int, filename: string) returns (x: int)
    requires ShapeOk(ns, v, Head(v.top)) && Loose(ns) && -1 <= p < |ns| && filename != ""
    requires Routes(ns, v, p, Split(filename))
    ensures NULL <= Head(KidsOf(v, p)) < |ns| && x == MatchFrom(ns, Head(KidsOf(v, p)), filename[..DirLen(filename)])
    ensures NULL <= x < |ns|
    ensures x == NULL ==>
      (KidsOf(v, p) != [] || p == NULL) && NoSuchPath(v, PathOf(v, p) + [filename[..DirLen(filename)]])
    ensures x != NULL ==>
      && v.paths[x] == PathOf(v, p) + [filename[..DirLen(filename)]]
      && Routes(ns, v, x, Split(filename[DirLen(filename)..]))
  {
    var c := filename[..DirLen(filename)];
    RouteStep(ns, v, p, filename);
    MatchIsFirst(ns, KidsOf(v, p), p, c);
    x := MatchFrom(ns, Head(KidsOf(v, p)), c);
    hide Routes, Split, DirLen, MatchFrom, NodesOk, ChainsOk, PathsDistinct, NoSuchPath;
    if x == NULL {
      MissingPath(ns, v, p, c);
    }
  }

  lemma WalkRoutedMissing(ns: seq<Node>, v: View, p: int, filename: string, n: U32) returns (w: View)
    requires ShapeOk(ns, v, Head(v.top)) && Loose(ns) && -1 <= p < |ns| && filename != ""
    requires StartsAt(ns, Head(KidsOf(v, p))) && (Head(KidsOf(v, p)) != NULL ==> UpOf(ns, Head(KidsOf(v, p))) == p)
    requires MatchFrom(ns, Head(KidsOf(v, p)), filename[..DirLen(filename)]) == NULL
    requires KidsOf(v, p) != [] || p == NULL
    requires NoSuchPath(v, PathOf(v, p) + [filename[..DirLen(filename)]])
    ensures var (ms, leaf) := WalkNodes(ns, Head(KidsOf(v, p)), filename, n);
      && ShapeOk(ms, w, Head(w.top)) && WalkDone(ns, v, ms, w, p, filename, n, leaf)
      && |ms| == |ns| + Missing(v, PathOf(v, p), Split(filename))
  {
    hide Routes, Split, DirLen, Missing, WalkDone, WalkNodes, MatchFrom, Attached, NodesOk, ChainsOk, PathsDistinct,
        NoSuchPath, Branch, Loose;
    WalkMissing(ns, Head(KidsOf(v, p)), filename, n);
    MissingAll(v, PathOf(v, p), filename);
    w := BranchPlan(ns, v, p, filename, n, Branch(|ns|, NULL, filename, n));
  }

  lemma {:induction false} WalkRoutedInto(ns: seq<Node>, v: View, p: int, x: nat, filename: string, n: U32)
    returns (w: View)
    requires ShapeOk(ns, v, Head(v.top)) && Loose(ns) && StartsAt(ns, Head(v.top)) && -1 <= p < |ns| && filename != ""
    requires x < |ns| && v.paths[x] == PathOf(v, p) + [filename[..DirLen(filename)]]
    requires Routes(ns, v, x, Split(filename[DirLen(filename)..]))
    ensures var rest, ms := filename[DirLen(filename)..], ns[x := ChargedNode(ns[x], n)];
      && Loose(ms) && StartsAt(ms, ms[x].down)
      && var (os, leaf) := if rest == "" then (ms, x) else WalkNodes(ms, ms[x].down, rest, n);
        && ShapeOk(os, w, Head(w.top)) && WalkDone(ns, v, os, w, p, filename, n, leaf)
        && |os| == |ns| + Missing(v, v.paths[x], Split(rest))
    decreases |filename|, 0
  {
    var rest, ms := filename[DirLen(filename)..], ns[x := ChargedNode(ns[x], n)];
    StepInto(ns, x, filename, n);
    SameLinksShape(ns, ms, v, Head(v.top));
    SameLinksLoose(ns, ms);
    if rest == "" {
      hide Routes, WalkDone, WalkNodes, ChainsOk, NodesOk;
      assert Split(rest) == [];
      WalkedLast(ns, v, x, p, filename, n);
      w := v;
    } else {
      SameRoutes(ns, ms, v, x, Split(rest));
      assert NodeOk(ms, v, x);
      hide Routes, Split, DirLen, Missing, WalkDone, WalkNodes, NodesOk, ChainsOk, NodeOk;
      w := WalkRouted(ms, v, x, rest, n);
      var (os, leaf) := WalkNodes(ms, ms[x].down, rest, n);
      WalkedOn(ns, v, x, os, w, p, filename, n, leaf);
    }
  }
}
