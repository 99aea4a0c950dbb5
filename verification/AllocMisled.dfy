/** What the walk of core/net_os.c does when strncmp leads it astray: it charges a directory that is not on the
    file's way, or starts a branch that nothing links up, so that a later walk up stops short. */
module AllocMisled {
  import opened Words
  import opened AllocPaths
  import opened AllocTree
  import opened AllocBranch
  import opened AllocWalk

  /** The parents of a branch that was not attached are in the branch. */
  lemma {:induction false} BranchUps(ns: seq<Node>, branch: seq<Node>, ms: seq<Node>, n: U32, leaf: nat)
    requires ms == ns + branch && Loose(ms) && LinkedBranch(branch, |ns|, NULL, n) && |ns| <= leaf < |ms|
    ensures forall u :: u in Ups(ms, leaf) ==> u >= |ns|
    decreases leaf
  {
    assert LooseNode(ms, leaf);
    assert ms[leaf] == branch[leaf - |ns|];
    if leaf > |ns| {
      BranchUps(ns, branch, ms, n, leaf - 1);
    }
  }

  lemma OrphanNodes(ns: seq<Node>, filename: string, n: U32)
    requires Loose(ns) && filename != ""
    ensures StartsAt(ns, NULL)
    ensures var branch := Branch(|ns|, NULL, filename, n);
      branch != [] && WalkNodes(ns, NULL, filename, n) == (ns + branch, |ns| + |branch| - 1)
  {
    WalkMissing(ns, NULL, filename, n);
    AttachedNowhere(ns, Branch(|ns|, NULL, filename, n), NULL);
  }

  /** A walk that has to go on below a childless node leaves an orphaned branch. */
  lemma OrphanBranch(ns: seq<Node>, filename: string, n: U32)
    requires Loose(ns) && filename != ""
    ensures StartsAt(ns, NULL)
    ensures var (ms, leaf) := WalkNodes(ns, NULL, filename, n);
      Loose(ms) && forall u :: u in Ups(ms, leaf) ==> u >= |ns|
  {
    OrphanNodes(ns, filename, n);
    hide *;
    WalkLoose(ns, NULL, filename, n);
    var branch := Branch(|ns|, NULL, filename, n);
    BranchLinks(branch, |ns|, NULL, filename, n);
    BranchUps(ns, branch, ns + branch, n, |ns| + |branch| - 1);
  }

  /** Where a walk that does not find its way goes from p: to a directory not on the way, to the right one with the
      error further on, or nowhere below a node without children. */
  lemma MisledMatch(ns: seq<Node>, v: View, p: int, filename: string) returns (x: int, right: bool)
    requires ShapeOk(ns, v, Head(v.top)) && Loose(ns) && -1 <= p < |ns| && filename != ""
    requires !Routes(ns, v, p, Split(filename))
    ensures NULL <= Head(KidsOf(v, p)) < |ns| && x == MatchFrom(ns, Head(KidsOf(v, p)), filename[..DirLen(filename)])
    ensures NULL <= x < |ns|
    ensures x == NULL ==> Head(KidsOf(v, p)) == NULL && p != NULL
    ensures x != NULL && right ==>
      && v.paths[x] == PathOf(v, p) + [filename[..DirLen(filename)]]
      && !Routes(ns, v, x, Split(filename[DirLen(filename)..]))
    ensures x != NULL && !right ==> !Under(v.paths[x], PathOf(v, p) + Split(filename))
  {
    var chain, c := KidsOf(v, p), filename[..DirLen(filename)];
    SplitStep(filename);
    var path := Split(filename);
    assert path[0] == c && path[1..] == Split(filename[DirLen(filename)..]);
    hide Split, DirLen;
    assert ChainOk(ns, chain, p);
    MatchIsFirst(ns, chain, p, c);
    x := MatchFrom(ns, Head(chain), c);
    right := x != NULL && ns[x].namelen <= |ns[x].name| && Component(ns[x]) == c;
    if x != NULL {
      assert NodeOk(ns, v, x);
      OneStepUnder(PathOf(v, p), Component(ns[x]), path);
    }
  }

  lemma OneStepUnder(base: Path, c: string, path: Path)
    requires path != []
    ensures Under(base + [c], base + path) <==> c == path[0]
  {
    assert (base + path)[..|base| + 1] == base + [path[0]];
    assert (base + [c])[|base|] == c && (base + [path[0]])[|base|] == path[0];
  }

  /** What a misled walk from p for the directories `full` did: an off-way directory has the charge, or the leaf is
      cut off from all nodes that were there, though one of them on the way, at least if p is the top, has the
      charge. */
  ghost predicate WrongedBy(ns: seq<Node>, v: View, p: int, full: Path, n: U32, x: int, orphan: bool,
      ms: seq<Node>, leaf: int)
    requires Sized(ns, v)
  {
    && Loose(ms) && |ns| <= |ms| && 0 <= leaf < |ms| && NULL <= x < |ns|
    && (x != NULL ==> ms[x].cur == Wrap32(ns[x].cur + n))
    && (orphan ==> forall u :: u in Ups(ms, leaf) ==> u >= |ns|)
    && (x == NULL ==> orphan && p != NULL)
    && (x != NULL ==> (orphan <==> Under(v.paths[x], full)))
  }

  lemma {:induction false} Misled(ns: seq<Node>, v: View, p: int, filename: string, n: U32)
    returns (x: int, orphan: bool)
    requires ShapeOk(ns, v, Head(v.top)) && Loose(ns) && StartsAt(ns, Head(v.top)) && -1 <= p < |ns| && filename != ""
    requires !Routes(ns, v, p, Split(filename))
    ensures StartsAt(ns, Head(KidsOf(v, p)))
    ensures var (ms, leaf) := WalkNodes(ns, Head(KidsOf(v, p)), filename, n);
      WrongedBy(ns, v, p, PathOf(v, p) + Split(filename), n, x, orphan, ms, leaf)
    decreases |filename|
  {
    assert Sized(ns, v) && NodesOk(ns, v) && ChainsOk(ns, v);
    hide WalkNodes, Split, DirLen, Loose, Routes, NodesOk, ChainsOk, PathsDistinct, Under, MatchFrom, Ups, StartsAt,
        Sized, ShapeOk;
    HeadStarts(ns, v, p);
    var right;
    x, right := MisledMatch(ns, v, p, filename);
    WalkLoose(ns, Head(KidsOf(v, p)), filename, n);
    if x == NULL {
      OrphanBranch(ns, filename, n);
      orphan := true;
    } else {
      MatchUntouched(ns, Head(KidsOf(v, p)), filename, n, x);
      if right {
        x, orphan := MisledBelow(ns, v, p, x, filename, n);
      } else {
        orphan := false;
      }
    }
  }

  /** The node matched is charged once. */
  lemma MatchUntouched(ns: seq<Node>, root: int, filename: string, n: U32, x: nat)
    requires Loose(ns) && StartsAt(ns, root) && filename != "" && x < |ns|
    requires MatchFrom(ns, root, filename[..DirLen(filename)]) == x
    ensures WalkNodes(ns, root, filename, n).0[x].cur == Wrap32(ns[x].cur + n)
  {
    WalkMatch(ns, root, filename, n, x);
    StepInto(ns, x, filename, n);
    var rest, ms := filename[DirLen(filename)..], ns[x := ChargedNode(ns[x], n)];
    hide WalkNodes, DirLen, Loose, MatchFrom;
    if rest != "" {
      WalkUntouched(ms, ms[x].down, rest, n, x);
    }
  }

  lemma {:induction false} MisledBelow(ns: seq<Node>, v: View, p: int, x: nat, filename: string, n: U32)
    returns (y: int, orphan: bool)
    requires ShapeOk(ns, v, Head(v.top)) && Loose(ns) && StartsAt(ns, Head(v.top)) && -1 <= p < |ns| && filename != ""
    requires x < |ns| && StartsAt(ns, Head(KidsOf(v, p)))
    requires MatchFrom(ns, Head(KidsOf(v, p)), filename[..DirLen(filename)]) == x
    requires v.paths[x] == PathOf(v, p) + [filename[..DirLen(filename)]]
    requires !Routes(ns, v, x, Split(filename[DirLen(filename)..]))
    requires Loose(WalkNodes(ns, Head(KidsOf(v, p)), filename, n).0)
    requires WalkNodes(ns, Head(KidsOf(v, p)), filename, n).0[x].cur == Wrap32(ns[x].cur + n)
    ensures var (os, leaf) := WalkNodes(ns, Head(KidsOf(v, p)), filename, n);
      WrongedBy(ns, v, p, PathOf(v, p) + Split(filename), n, y, orphan, os, leaf)
    decreases |filename|, 0
  {
    var rest, ms := filename[DirLen(filename)..], ns[x := ChargedNode(ns[x], n)];
    StepInto(ns, x, filename, n);
    SameLinksShape(ns, ms, v, Head(v.top));
    SameLinksLoose(ns, ms);
    if Routes(ms, v, x, Split(rest)) {
      SameRoutes(ms, ns, v, x, Split(rest));
    }
    assert rest != "";
    assert NodeOk(ms, v, x);
    hide Routes, Split, DirLen, WalkNodes, WrongedBy, NodesOk, ChainsOk, Loose;
    y, orphan := Misled(ms, v, x, rest, n);
    WrongedAbove(ns, v, p, x, filename, n, y, orphan);
    if orphan {
      y := x;
    }
  }

  lemma WrongedAbove(ns: seq<Node>, v: View, p: int, x: nat, filename: string, n: U32, y: int, orphan: bool)
    requires Sized(ns, v) && Loose(ns) && -1 <= p < |ns| && filename != "" && x < |ns|
    requires StartsAt(ns, Head(KidsOf(v, p)))
    requires MatchFrom(ns, Head(KidsOf(v, p)), filename[..DirLen(filename)]) == x
    requires v.paths[x] == PathOf(v, p) + [filename[..DirLen(filename)]]
    requires WalkNodes(ns, Head(KidsOf(v, p)), filename, n).0[x].cur == Wrap32(ns[x].cur + n)
    requires var rest, ms := filename[DirLen(filename)..], ns[x := ChargedNode(ns[x], n)];
      && rest != "" && Loose(ms) && ms[x].down == Head(KidsOf(v, x)) && StartsAt(ms, ms[x].down)
      && var (os, leaf) := WalkNodes(ms, ms[x].down, rest, n);
        WrongedBy(ms, v, x, v.paths[x] + Split(rest), n, y, orphan, os, leaf)
    ensures var (os, leaf) := WalkNodes(ns, Head(KidsOf(v, p)), filename, n);
      WrongedBy(ns, v, p, PathOf(v, p) + Split(filename), n, if orphan then x else y, orphan, os, leaf)
  {
    assert |v.paths| == |v.kids| == |ns|;
    hide *;
    var rest, full := filename[DirLen(filename)..], PathOf(v, p) + Split(filename);
    WalkMatch(ns, Head(KidsOf(v, p)), filename, n, x);
    SplitStep(filename);
    Onto(PathOf(v, p), filename[..DirLen(filename)], Split(rest));
    UnderOwn(v.paths[x], Split(rest));
    var (os, leaf) := WalkNodes(ns, Head(KidsOf(v, p)), filename, n);
    WrongedValues(ns, v, p, x, full, n, y, orphan, os, leaf);
  }

  lemma WrongedValues(ns: seq<Node>, v: View, p: int, x: nat, full: Path, n: U32, y: int, orphan: bool,
      os: seq<Node>, leaf: int)
    requires Sized(ns, v) && x < |ns| && Under(v.paths[x], full)
    requires WrongedBy(ns[x := ChargedNode(ns[x], n)], v, x, full, n, y, orphan, os, leaf)
    requires os[x].cur == Wrap32(ns[x].cur + n)
    ensures WrongedBy(ns, v, p, full, n, if orphan then x else y, orphan, os, leaf)
  {
    hide Loose, Under, Ups;
  }

  lemma UnderOwn(base: Path, path: Path)
    ensures Under(base, base + path)
  {
  }
}
