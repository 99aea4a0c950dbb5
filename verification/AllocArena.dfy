/** The node arena of core/net_os.c: branches, the charging walk down and the crediting walk up. */
module AllocArena {
  import opened Words
  import opened AllocPaths
  import opened AllocTree
  import opened AllocBranch
  import opened AllocWalk

  /** One round of the walk up: the next node and its parents are still to come. */
  lemma CreditStep(ns: seq<Node>, ms: seq<Node>, all: set<int>, x: nat, n: U32)
    requires Loose(ns) && x < |ns| && Ups(ns, x) <= all && TakenOff(ns, ms, all - Ups(ns, x), n)
    ensures -1 <= ns[x].up < x && Ups(ns, ns[x].up) <= all && ms[x] == ns[x]
    ensures TakenOff(ns, ms[x := ms[x].(cur := Wrap32(ms[x].cur - n))], all - Ups(ns, ns[x].up), n)
  {
    UpsStep(ns, x);
    hide Loose, Ups, TakenOff;
    assert all - Ups(ns, ns[x].up) == all - Ups(ns, x) + {x};
    TakenOffMore(ns, ms, all - Ups(ns, x), x, n);
  }

  lemma UpsStep(ns: seq<Node>, x: nat)
    requires Loose(ns) && x < |ns|
    ensures -1 <= ns[x].up < x && Ups(ns, x) == {x} + Ups(ns, ns[x].up) && x !in Ups(ns, ns[x].up)
  {
    assert LooseNode(ns, x);
    hide Loose;
  }

  lemma TakenOffMore(ns: seq<Node>, ms: seq<Node>, ups: set<int>, x: nat, n: U32)
    requires TakenOff(ns, ms, ups, n) && x < |ns| && x !in ups
    ensures ms[x] == ns[x] && TakenOff(ns, ms[x := ms[x].(cur := Wrap32(ms[x].cur - n))], ups + {x}, n)
  {
  }

  class Arena {
    const nodes: array<Node>
    var count: nat

    ghost function Live(): seq<Node>
      requires count <= nodes.Length
      reads this, nodes
    {
      nodes[..count]
    }

    /** Node storage past `count` is still zeroed. */
    ghost predicate Room()
      reads this, nodes
    {
      && nodes.Length == MAX_NODE + 1 && count < MAX_NODE
      && forall i :: count <= i < nodes.Length ==> nodes[i] == ZERO
    }

    ghost predicate Valid()
      reads this, nodes
    {
      Room() && Loose(Live())
    }

    constructor ()
      ensures Valid() && fresh(nodes) && Live() == []
    {
      nodes := new Node[MAX_NODE + 1](_ => ZERO);
      count := 0;
    }

    /** Allocates the nodes for all components of the name, top down; the program hangs when the arena is
        full. */
    method NewBranch(filename: string, dirLen: nat, n: U32) returns (ok: bool, c: nat)
      requires Room() && filename != "" && dirLen == DirLen(filename)
      modifies this`count, nodes
      ensures ok <==> old(count) + |Split(filename)| < MAX_NODE
      ensures ok ==> Room() && c == old(count) && Live() == old(Live()) + Branch(c, NULL, filename, n)
      decreases |filename|
    {
      hide Branch, DirLen, Split;
      c := count;
      ghost var before, first := Live(), FreshNode(filename, NULL, NULL, n);
      BranchStep(c, filename, n);
      SplitStep(filename);
      var rest := filename[dirLen..];
      var nextLen := GetDirLen(rest);
      count := count + 1;
      nodes[c] := nodes[c].(cur := n, max := n, name := filename, namelen := dirLen);
      if count == MAX_NODE {
        return false, c;
      }
      ok := true;
      assert Live() == before + [first];
      if nextLen != 0 {
        var d;
        ok, d := NewBranch(rest, nextLen, n);
        if ok {
          ghost var more := Branch(c + 1, NULL, rest, n);
          LinkTwo(before, first, more, c);
          Link(c, d);
        }
      }
    }

    /** Makes d the first child of c. */
    method Link(c: nat, d: nat)
      requires Room() && c < count && d < count && c != d
      modifies nodes
      ensures Room()
      ensures Live() == old(Live())[c := old(nodes[c]).(down := d)][d := old(nodes[d]).(up := c)]
    {
      nodes[c] := nodes[c].(down := d);
      nodes[d] := nodes[d].(up := c);
    }

    /** The first node of the chain whose name starts with the component. */
    method FindMatch(root: int, filename: string, len: nat) returns (x: int)
      requires Valid() && NULL <= root < count && len <= |filename|
      ensures x == MatchFrom(Live(), root, filename[..len])
    {
      x := root;
      ghost var ns, c, first := Live(), filename[..len], true;
      while x != NULL && !Matches(nodes[x], filename[..len])
        invariant NULL <= x < count && (first ==> x == root)
        invariant !first ==> (x != NULL ==> ns[x].neighbour < x) && MatchLink(ns, x, c) == MatchFrom(ns, root, c)
        decreases if first then count + 1 else x + 1
      {
        assert LooseNode(ns, x);
        x := nodes[x].neighbour;
        first := false;
      }
    }

    method ChargeNode(x: nat, n: U32)
      requires Valid() && x < count
      modifies nodes
      ensures Valid() && Live() == old(Live())[x := ChargedNode(old(nodes[x]), n)]
    {
      ghost var before := Live();
      ChargeLinks(before, x, n);
      var cur := Wrap32(nodes[x].cur + n);
      nodes[x] := nodes[x].(cur := cur);
      if cur > nodes[x].max {
        nodes[x] := nodes[x].(max := cur);
      }
      assert Live() == before[x := ChargedNode(before[x], n)];
      SameLinksLoose(before, Live());
    }

    /** The branch for the name, linked beside the first node of the chain unless there is none; the result is its
        last node. */
    method Grow(root: int, filename: string, len: nat, n: U32) returns (ok: bool, leaf: int)
      requires Room() && filename != "" && len == DirLen(filename) && NULL <= root < count
      modifies this`count, nodes
      ensures ok <==> old(count) + |Split(filename)| < MAX_NODE
      ensures var branch := Branch(old(count), NULL, filename, n);
        && branch != []
        && (ok ==> Room() && Live() == Attached(old(Live()), branch, root, UpOf(old(Live()), root))
                   && leaf == count - 1)
    {
      ghost var ns := Live();
      ghost var branch := Branch(count, NULL, filename, n);
      BranchLinks(branch, count, NULL, filename, n);
      hide Branch, DirLen, LinkedBranch, Attached;
      var c;
      ok, c := NewBranch(filename, len, n);
      leaf := c;
      if ok {
        if root != NULL {
          Attach(c, root, ns, branch);
        } else {
          AttachedNowhere(ns, branch, NULL);
        }
        leaf := Descend(c, ns, branch, root, n);
      }
    }

    method Attach(c: nat, root: nat, ghost ns: seq<Node>, ghost branch: seq<Node>)
      requires Room() && root < |ns| == c < count && branch != [] && Live() == ns + branch
      modifies nodes
      ensures Room() && Live() == Attached(ns, branch, root, ns[root].up)
    {
      nodes[c] := nodes[c].(up := nodes[root].up);
      nodes[c] := nodes[c].(neighbour := nodes[root].neighbour);
      nodes[root] := nodes[root].(neighbour := c);
    }

    /** Follows the only children of a branch down to its last node. */
    method Descend(c: nat, ghost ns: seq<Node>, ghost branch: seq<Node>, ghost first: int, ghost n: U32)
      returns (leaf: int)
      requires Room() && branch != [] && c == |ns| && c + |branch| == count && LinkedBranch(branch, c, NULL, n)
      requires NULL <= first < |ns| && Live() == Attached(ns, branch, first, UpOf(ns, first))
      ensures leaf == count - 1
    {
      assert forall j :: 0 <= j < |branch| ==> Live()[c + j].down == branch[j].down;
      leaf := c;
      assert nodes[leaf].down == branch[0].down;
      while nodes[leaf].down != NULL
        invariant c <= leaf < count && nodes[leaf].down == branch[leaf - c].down
        decreases count - leaf
      {
        leaf := nodes[leaf].down;
        assert Live()[c + (leaf - c)].down == branch[leaf - c].down;
      }
    }

    /** Charges the first match of every component, from `root` down, and creates nodes from the first component
        without one; whatever the names, the links lead on and the walk ends. The program hangs exactly when the
        new nodes find no room. */
    method Walk(root: int, filename: string, n: U32) returns (ok: bool, leaf: int)
      requires Valid() && StartsAt(Live(), root) && filename != ""
      modifies this`count, nodes
      ensures ok <==> |WalkNodes(old(Live()), root, filename, n).0| < MAX_NODE
      ensures ok ==> Valid() && (Live(), leaf) == WalkNodes(old(Live()), root, filename, n)
      decreases |filename|, 1
    {
      var len := GetDirLen(filename);
      hide WalkNodes, Split, DirLen, Loose, Attached, Branch, First, MatchFrom, ChargedNode;
      assert NULL <= root < count;
      hide StartsAt;
      WalkLoose(Live(), root, filename, n);
      var x := FindMatch(root, filename, len);
      if x == NULL {
        WalkMissing(Live(), root, filename, n);
        ok, leaf := Grow(root, filename, len, n);
      } else {
        WalkMatch(Live(), root, filename, n, x);
        ok, leaf := WalkInto(x, filename, len, n);
      }
    }

    method WalkInto(x: nat, filename: string, len: nat, n: U32) returns (ok: bool, leaf: int)
      requires Valid() && x < count && filename != "" && len == DirLen(filename)
      modifies this`count, nodes
      ensures var rest, ms := filename[len..], old(Live())[x := ChargedNode(old(nodes[x]), n)];
        && Loose(ms) && StartsAt(ms, ms[x].down)
        && var r := if rest == "" then (ms, x) else WalkNodes(ms, ms[x].down, rest, n);
          && (ok <==> |r.0| < MAX_NODE)
          && (ok ==> Valid() && (Live(), leaf) == r)
      decreases |filename|, 0
    {
      StepInto(Live(), x, filename, n);
      hide WalkNodes, DirLen, Loose, First;
      ChargeNode(x, n);
      ok, leaf := true, x;
      if len < |filename| {
        ok, leaf := Walk(nodes[x].down, filename[len..], n);
      }
    }

    /** Takes the size off the leaf and all its parents. */
    method Credit(leaf: nat, n: U32)
      requires Valid() && leaf < count
      modifies nodes
      ensures Valid() && TakenOff(old(Live()), Live(), Ups(old(Live()), leaf), n)
    {
      ghost var ns, all := Live(), Ups(Live(), leaf);
      var node: int := leaf;
      hide Loose, Ups, TakenOff;
      CreditNothing(ns, leaf, n);
      while node != NULL
        invariant -1 <= node < count && Ups(ns, node) <= all
        invariant Room() && TakenOff(ns, Live(), all - Ups(ns, node), n)
        decreases node
      {
        ghost var ms := Live();
        CreditStep(ns, ms, all, node, n);
        nodes[node] := nodes[node].(cur := Wrap32(nodes[node].cur - n));
        assert Live() == ms[node := ms[node].(cur := Wrap32(ms[node].cur - n))];
        node := nodes[node].up;
      }
      NoUps(ns);
      TakenOffLinks(ns, Live(), all, n);
      SameLinksLoose(ns, Live());
    }

    /** The one of the leaf and its parents that has no parent. */
    method FindTop(leaf: nat) returns (root: int)
      requires Valid() && leaf < count
      ensures 0 <= root < count && nodes[root].up == NULL && root in Ups(Live(), leaf)
    {
      root := leaf;
      UpsStep(Live(), root);
      while nodes[root].up != NULL
        invariant 0 <= root < count && root in Ups(Live(), leaf) && Ups(Live(), root) <= Ups(Live(), leaf)
        decreases root
      {
        UpsStep(Live(), root);
        root := nodes[root].up;
        UpsStep(Live(), root);
      }
    }

    /** Zeroes the node storage. */
    method Reset()
      requires nodes.Length == MAX_NODE + 1
      modifies this`count, nodes
      ensures Valid() && Live() == []
    {
      count := 0;
      forall i | 0 <= i < nodes.Length {
        nodes[i] := ZERO;
      }
    }
  }

  lemma CreditNothing(ns: seq<Node>, leaf: nat, n: U32)
    requires Loose(ns) && leaf < |ns|
    ensures TakenOff(ns, ns, Ups(ns, leaf) - Ups(ns, leaf), n)
  {
  }

  lemma NoUps(ns: seq<Node>)
    requires Loose(ns)
    ensures forall all: set<int> :: all - Ups(ns, NULL) == all
  {
  }
}
