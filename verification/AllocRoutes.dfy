/** When the debug allocator's walk (core/net_os.c) finds its way: strncmp compares a component with the whole
    rest of the name a node was made from, so a component may match a directory it is not. */
module AllocRoutes {
  import opened Words
  import opened AllocPaths
  import opened AllocTree

  /** The walk for `f` goes wrong in the directories of `g` after k common components: either `g` ends there, or
      the next component of `f` is not that of `g` yet a prefix of what is left of its name. */
  predicate Clash(f: Path, g: Path, k: nat) {
    && k < |f| && k <= |g| && f[..k] == g[..k]
    && (k == |g| || (f[k] <= Joined(g[k..]) && f[k] != g[k]))
  }

  /** No file of the set leads the walk for another one astray. */
  predicate Orderly(files: set<string>) {
    forall f, g :: f in files && g in files && g != "" ==> NoClash(Split(f), Split(g))
  }

  predicate NoClash(f: Path, g: Path) {
    forall k: nat :: k < |f| ==> !Clash(f, g, k)
  }

  /** Every node was made for a directory of one of the files. */
  ghost predicate MadeFor(ns: seq<Node>, v: View, files: set<string>)
    requires Sized(ns, v)
  {
    forall i :: 0 <= i < |ns| ==> NodeMadeFor(ns[i], v.paths[i], v.kids[i] == [], files)
  }

  ghost predicate NodeMadeFor(node: Node, path: Path, childless: bool, files: set<string>) {
    exists g :: g in files && g != "" && Carries(node, path, childless, Split(g))
  }

  lemma PrefixOfPrefix(a: Path, b: Path, k: nat)
    requires a <= b && k < |a|
    ensures a[..k] == b[..k] && a[k] == b[k]
  {
  }

  /** The child the walk picks for component k is the directory of that component. */
  lemma PicksRight(node: Node, f: Path, g: Path, path: Path, k: nat, childless: bool)
    requires k < |f| && |path| == k + 1 && path[..k] == f[..k]
    requires Carries(node, path, childless, g) && NoClash(f, g) && Matches(node, f[k])
    ensures path[k] == f[k]
  {
    hide Joined;
    PrefixOfPrefix(path, g, k);
    assert !Clash(f, g, k);
  }

  lemma LeafNotPassed(node: Node, f: Path, g: Path, path: Path, childless: bool)
    requires |path| < |f| && path == f[..|path|]
    requires Carries(node, path, childless, g) && NoClash(f, g)
    ensures !childless
  {
    hide Joined;
    assert !Clash(f, g, |path|);
  }

  /** In a tree made for orderly files the walk for each of them finds its way, from every directory of its own. */
  lemma {:induction false} OrderlyRoutes(ns: seq<Node>, v: View, p: int, files: set<string>, f: string, k: nat)
    requires ShapeOk(ns, v, Head(v.top)) && MadeFor(ns, v, files) && Orderly(files) && f in files
    requires -1 <= p < |ns| && k <= |Split(f)| && PathOf(v, p) == Split(f)[..k]
    ensures Routes(ns, v, p, Split(f)[k..])
    decreases |Split(f)| - k
  {
    hide Split, Carries, NoClash, PathsDistinct;
    var full := Split(f);
    if k < |full| {
      var chain, rest := KidsOf(v, p), full[k..];
      assert rest[0] == full[k] && rest[1..] == full[k + 1..];
      assert ChainOk(ns, chain, p);
      var j := FirstMatch(ns, chain, full[k], 0);
      if j < |chain| {
        var x := chain[j];
        assert NodeOk(ns, v, x);
        assert NodeMadeFor(ns[x], v.paths[x], v.kids[x] == [], files);
        var g :| g in files && g != "" && Carries(ns[x], v.paths[x], v.kids[x] == [], Split(g));
        assert v.paths[x][..k] == full[..k];
        PicksRight(ns[x], full, Split(g), v.paths[x], k, v.kids[x] == []);
        assert full[..k + 1] == full[..k] + [full[k]];
        OrderlyRoutes(ns, v, x, files, f, k + 1);
      } else if p != NULL && chain == [] {
        assert NodeMadeFor(ns[p], v.paths[p], v.kids[p] == [], files);
        var g :| g in files && g != "" && Carries(ns[p], v.paths[p], v.kids[p] == [], Split(g));
        LeafNotPassed(ns[p], full, Split(g), v.paths[p], v.kids[p] == []);
      }
    }
  }

  // ----- The converse: in the tree of one file

  /** All nodes were made for the one file `full`. */
  ghost predicate OnlyFile(ns: seq<Node>, v: View, full: Path)
    requires Sized(ns, v)
  {
    forall i :: 0 <= i < |ns| ==> Carries(ns[i], v.paths[i], v.kids[i] == [], full)
  }

  /** The children of a directory of the only file: at most the next directory. */
  lemma OneChild(ns: seq<Node>, v: View, p: int, g: Path, k: nat, j: nat)
    requires ShapeOk(ns, v, Head(v.top)) && OnlyFile(ns, v, g)
    requires -1 <= p < |ns| && k <= |g| && PathOf(v, p) == g[..k] && j < |KidsOf(v, p)|
    ensures KidsOf(v, p)[j] < |ns| && k < |g| && v.paths[KidsOf(v, p)[j]] == g[..k + 1]
    ensures ns[KidsOf(v, p)[j]].name == Joined(g[k..])
  {
    hide Joined, PathsDistinct;
    assert ChainOk(ns, KidsOf(v, p), p);
    var x := KidsOf(v, p)[j];
    assert NodeOk(ns, v, x);
    assert Carries(ns[x], v.paths[x], v.kids[x] == [], g);
  }

  /** Where the file's own next directory lies among the children: it is all of them. */
  lemma NextChild(ns: seq<Node>, v: View, p: int, g: Path, k: nat, leaf: nat) returns (a: nat)
    requires ShapeOk(ns, v, Head(v.top)) && OnlyFile(ns, v, g) && leaf < |ns| && v.paths[leaf] == g
    requires -1 <= p < |ns| && k < |g| && PathOf(v, p) == g[..k]
    ensures a < |ns| && a in KidsOf(v, p) && forall j :: 0 <= j < |KidsOf(v, p)| ==> KidsOf(v, p)[j] == a
    ensures ns[a].name == Joined(g[k..]) && v.paths[a] == g[..k + 1]
    ensures ns[a].namelen <= |ns[a].name| && Component(ns[a]) == g[k] && Matches(ns[a], g[k])
  {
    a := AncestorExists(ns, v, leaf, k + 1);
    assert g[..k + 1] == g[..k] + [g[k]];
    PathIsChild(ns, v, p, g[k], a);
    hide OnlyFile, Joined, NodesOk, ChainsOk;
    forall j | 0 <= j < |KidsOf(v, p)| ensures KidsOf(v, p)[j] == a && ns[a].name == Joined(g[k..]) {
      OneChild(ns, v, p, g, k, j);
    }
  }

  lemma FirstMatchOfOne(ns: seq<Node>, chain: seq<nat>, c: string, a: nat)
    requires a < |ns| && a in chain && forall j :: 0 <= j < |chain| ==> chain[j] == a
    ensures FirstMatch(ns, chain, c, 0) < |chain| <==> Matches(ns[a], c)
  {
  }

  /** The walk for `f` in the tree of `g` finds its way exactly when the two do not clash from here on. */
  lemma {:induction false} RoutesInTreeOf(ns: seq<Node>, v: View, p: int, f: Path, g: Path, k: nat, leaf: nat)
    requires ShapeOk(ns, v, Head(v.top)) && OnlyFile(ns, v, g) && leaf < |ns| && v.paths[leaf] == g && g != []
    requires -1 <= p < |ns| && k <= |f| && k <= |g| && f[..k] == g[..k] && PathOf(v, p) == g[..k]
    ensures Routes(ns, v, p, f[k..]) <==> forall m: nat :: k <= m < |f| ==> !Clash(f, g, m)
    decreases |f| - k
  {
    hide Joined, PathsDistinct, OnlyFile, NodeOk, ChainOk;
    if k < |f| {
      var chain, rest := KidsOf(v, p), f[k..];
      assert rest[0] == f[k] && rest[1..] == f[k + 1..];
      assert ChainOk(ns, chain, p);
      if k == |g| {
        assert Clash(f, g, k);
        if chain != [] {
          OneChild(ns, v, p, g, k, 0);
        }
      } else {
        var a := NextChild(ns, v, p, g, k, leaf);
        var j := FirstMatch(ns, chain, f[k], 0);
        FirstMatchOfOne(ns, chain, f[k], a);
        ClashAt(f, g, k);
        if f[k] == g[k] {
          RoutesInTreeOf(ns, v, a, f, g, k + 1, leaf);
        }
      }
    }
  }

  lemma ClashAt(f: Path, g: Path, k: nat)
    requires k < |f| && k < |g| && f[..k] == g[..k]
    ensures f[k] == g[k] ==> f[..k + 1] == g[..k + 1] && !Clash(f, g, k)
    ensures f[k] != g[k] ==> (Clash(f, g, k) <==> f[k] <= Joined(g[k..]))
    ensures f[k] != g[k] ==> forall m: nat :: k < m < |f| ==> !Clash(f, g, m)
  {
    hide Joined;
    forall m: nat | k < m < |f| && f[k] != g[k] ensures !Clash(f, g, m) {
      if m <= |g| {
        assert f[..m][k] == f[k] && g[..m][k] == g[k];
      }
    }
  }

  const EMPTY := View([], [], [])

  /** Whether the first file of a program leads a later one astray depends on their names alone. */
  lemma FirstTreeRoutes(ns: seq<Node>, v: View, f: string, g: string, n: U32, leaf: int)
    requires ShapeOk(ns, v, Head(v.top)) && g != "" && WalkDone([], EMPTY, ns, v, NULL, g, n, leaf)
    ensures Routes(ns, v, NULL, Split(f)) <==> NoClash(Split(f), Split(g))
  {
    hide Split, Joined, NodesOk, ChainsOk, PathsDistinct;
    assert PathOf(EMPTY, NULL) + Split(g) == Split(g);
    assert Split(f)[0..] == Split(f);
    RoutesInTreeOf(ns, v, NULL, Split(f), Split(g), 0, leaf);
  }

  /** The same for every tree that one file was allocated from. */
  lemma OneFileRoutes(ns: seq<Node>, v: View, f: string, g: string, leaf: nat)
    requires ShapeOk(ns, v, Head(v.top)) && MadeFor(ns, v, {g}) && g != "" && leaf < |ns| && v.paths[leaf] == Split(g)
    ensures Routes(ns, v, NULL, Split(f)) <==> NoClash(Split(f), Split(g))
  {
    hide Split, Joined, NodesOk, ChainsOk, PathsDistinct, Carries;
    assert Split(f)[0..] == Split(f);
    forall i | 0 <= i < |ns| ensures Carries(ns[i], v.paths[i], v.kids[i] == [], Split(g)) {
      assert NodeMadeFor(ns[i], v.paths[i], v.kids[i] == [], {g});
    }
    RoutesInTreeOf(ns, v, NULL, Split(f), Split(g), 0, leaf);
  }

  /** A walk for one of the files keeps the tree made for the files. */
  lemma MadeForKept(ns: seq<Node>, v: View, ms: seq<Node>, w: View, filename: string, n: U32, leaf: int,
      files: set<string>)
    requires Sized(ns, v) && Sized(ms, w) && MadeFor(ns, v, files) && filename in files && filename != ""
    requires WalkDone(ns, v, ms, w, NULL, filename, n, leaf)
    ensures MadeFor(ms, w, files)
  {
    hide Split, Joined;
    assert PathOf(v, NULL) + Split(filename) == Split(filename);
    forall i | 0 <= i < |ms| ensures NodeMadeFor(ms[i], w.paths[i], w.kids[i] == [], files) {
      if i < |ns| {
        assert NodeMadeFor(ns[i], v.paths[i], v.kids[i] == [], files);
        SameNameMadeFor(ns[i], ms[i], v.paths[i], v.kids[i] == [], w.kids[i] == [], files);
      } else {
        assert Carries(ms[i], w.paths[i], w.kids[i] == [], Split(filename));
      }
    }
  }

  lemma SameNameMadeFor(before: Node, after: Node, path: Path, childless: bool, childless': bool, files: set<string>)
    requires NodeMadeFor(before, path, childless, files) && after.name == before.name && (childless' ==> childless)
    ensures NodeMadeFor(after, path, childless', files)
  {
    hide Split, Joined;
    var g :| g in files && g != "" && Carries(before, path, childless, Split(g));
    assert Carries(after, path, childless', Split(g));
  }

  // ----- What going astray does

  /** After k right components, at directory q, the walk for `full` charges a directory that is not on its way,
      or starts a branch that nothing links to the directory above. */
  ghost predicate Astray(ns: seq<Node>, v: View, full: Path, q: int, k: nat)
    requires Sized(ns, v) && ChainsOk(ns, v) && -1 <= q < |ns|
  {
    && k < |full| && PathOf(v, q) == full[..k]
    && var chain := KidsOf(v, q);
      assert ChainOk(ns, chain, q);
      var j := FirstMatch(ns, chain, full[k], 0);
      if j < |chain| then !Under(v.paths[chain[j]], full) else chain == [] && q != NULL
  }

  lemma ChildOnWay(ns: seq<Node>, v: View, p: int, full: Path, k: nat, x: nat)
    requires Sized(ns, v) && NodesOk(ns, v) && ChainsOk(ns, v) && -1 <= p < |ns| && x in KidsOf(v, p)
    requires k < |full| && PathOf(v, p) == full[..k]
    ensures x < |ns| && ns[x].namelen <= |ns[x].name| && v.paths[x] == full[..k] + [Component(ns[x])]
    ensures Component(ns[x]) == full[k] <==> Under(v.paths[x], full)
    ensures Component(ns[x]) == full[k] ==> v.paths[x] == full[..k + 1]
  {
    assert ChainOk(ns, KidsOf(v, p), p);
    assert NodeOk(ns, v, x);
  }

  /** A walk that does not find its way goes astray somewhere. */
  lemma {:induction false} AstraySomewhere(ns: seq<Node>, v: View, p: int, full: Path, k: nat) returns (q: int, m: nat)
    requires Sized(ns, v) && NodesOk(ns, v) && ChainsOk(ns, v) && -1 <= p < |ns|
    requires k <= |full| && PathOf(v, p) == full[..k] && !Routes(ns, v, p, full[k..])
    ensures -1 <= q < |ns| && Astray(ns, v, full, q, m)
    decreases |full| - k
  {
    q, m := p, k;
    var chain, rest := KidsOf(v, p), full[k..];
    assert rest[0] == full[k] && rest[1..] == full[k + 1..];
    assert ChainOk(ns, chain, p);
    var j := FirstMatch(ns, chain, full[k], 0);
    if j < |chain| {
      ChildOnWay(ns, v, p, full, k, chain[j]);
      if Under(v.paths[chain[j]], full) {
        q, m := AstraySomewhere(ns, v, chain[j], full, k + 1);
      }
    }
  }

  /** A walk that finds its way goes astray nowhere. */
  lemma {:induction false} AstrayNowhere(ns: seq<Node>, v: View, p: int, full: Path, k: nat, q: int, m: nat)
    requires ShapeOk(ns, v, Head(v.top)) && -1 <= p < |ns| && -1 <= q < |ns|
    requires k <= m < |full| && PathOf(v, p) == full[..k] && PathOf(v, q) == full[..m]
    ensures Routes(ns, v, p, full[k..]) ==> !Astray(ns, v, full, q, m)
    decreases |full| - k
  {
    var chain, rest := KidsOf(v, p), full[k..];
    assert rest[0] == full[k] && rest[1..] == full[k + 1..];
    assert ChainOk(ns, chain, p);
    var j := FirstMatch(ns, chain, full[k], 0);
    if j < |chain| {
      ChildOnWay(ns, v, p, full, k, chain[j]);
    }
    if m == k {
      PathsNotEmpty(ns, v);
      SamePathSameNode(v, p, q);
    } else {
      hide Astray;
      var a := AncestorExists(ns, v, q, k + 1);
      assert full[..m][..k + 1] == full[..k] + [full[k]];
      PathIsChild(ns, v, p, full[k], a);
      if Component(ns[chain[j]]) == full[k] {
        AstrayNowhere(ns, v, chain[j], full, k + 1, q, m);
      }
    }
  }

  // ----- The two families that clash

  /** The next directory on the way of one file has a name that goes on from that of the other's. */
  predicate NameGoesOn(f: Path, g: Path, k: nat) {
    k < |f| && k < |g| && f[..k] == g[..k] && f[k] <= g[k] && f[k] != g[k]
  }

  /** The other file is a directory on the way. */
  predicate FileIsDirectory(f: Path, g: Path) {
    |g| < |f| && f[..|g|] == g
  }

  lemma LongPrefix(c: string, first: string, more: string)
    requires c <= first + more && |c| > |first| > 0
    ensures more[0] in c[1..]
  {
    assert c[1..][|first| - 1] == c[|first|] == (first + more)[|first|] == more[0];
  }

  lemma PrefixWithin(c: string, first: string, more: string)
    requires CleanPart(c) && first != "" && (more == "" || more[0] == SEPARATOR)
    ensures c <= first + more <==> c <= first
  {
    if |c| <= |first| {
      assert (first + more)[..|c|] == first[..|c|];
    } else if c <= first + more {
      LongPrefix(c, first, more);
    }
  }

  lemma CleanClash(f: Path, g: Path, k: nat)
    requires Clean(f) && Clean(g)
    ensures Clash(f, g, k) <==> NameGoesOn(f, g, k) || (k == |g| && FileIsDirectory(f, g))
  {
    if k < |f| && k < |g| {
      var rest := g[k..];
      assert rest[0] == g[k] && rest[1..] == g[k + 1..];
      var more := Joined(rest[1..]);
      assert more == "" || more[0] == SEPARATOR by {
        if k + 1 < |g| {
          assert g[k + 1..][0] == g[k + 1];
        }
      }
      assert Joined(rest) == g[k] + more;
      hide Joined;
      PrefixWithin(f[k], g[k], more);
    } else if k == |g| {
      assert g[..k] == g;
    }
  }

  /** For names without a drive the walk goes wrong in these two cases alone: a directory whose name begins that of
      the other file's directory in its place, and a directory with the name of the other file. */
  lemma TwoFamilies(f: string, g: string)
    requires Driveless(f) && Driveless(g)
    ensures !NoClash(Split(f), Split(g)) <==>
      FileIsDirectory(Split(f), Split(g)) || exists k: nat :: NameGoesOn(Split(f), Split(g), k)
  {
    CleanSplit(f);
    CleanSplit(g);
    var p, q := Split(f), Split(g);
    hide Split, Clash, Clean, NameGoesOn, FileIsDirectory;
    forall k: nat ensures Clash(p, q, k) <==> NameGoesOn(p, q, k) || (k == |q| && FileIsDirectory(p, q)) {
      CleanClash(p, q, k);
    }
    CaseEnd(p, q);
  }

  lemma CaseEnd(p: Path, q: Path)
    requires forall k: nat :: Clash(p, q, k) <==> NameGoesOn(p, q, k) || (k == |q| && FileIsDirectory(p, q))
    ensures !NoClash(p, q) <==> FileIsDirectory(p, q) || exists k: nat :: NameGoesOn(p, q, k)
  {
    hide Clash;
    if FileIsDirectory(p, q) {
      assert Clash(p, q, |q|);
    }
    if k: nat :| NameGoesOn(p, q, k) {
      assert Clash(p, q, k);
    }
  }

  /** A directory name as it stands in a path. */
  predicate Part(a: string) {
    CleanPart(a) && !OpenDrive(a)
  }

  lemma PartSplits(a: string, rest: string)
    requires Part(a) && Onward(rest)
    ensures Split(a + rest) == [a] + Split(rest)
  {
    PlainAll(a[1..]);
    if a[0] == SEPARATOR {
      assert Skipped(a) == 1;
    } else {
      assert SEPARATOR !in a;
      PlainAll(a);
      assert a[0..] == a;
    }
    assert DirLen(a) == |a|;
    assert a[|a|..] == "" && a[..|a|] == a;
    assert Split(a) == [a];
    SplitAppend(a, rest);
  }

  /** A directory whose name begins that of a sibling is taken for the sibling, wherever the two lie. */
  lemma SiblingPrefixClashes(d: string, a: string, b: string, below: string, beside: string)
    requires Closed(d) && Part(a) && Part(b) && a <= b && a != b
    requires d != "" ==> a[0] == SEPARATOR == b[0]
    requires below != "" && Onward(below) && beside != "" && Onward(beside)
    ensures Clash(Split(d + a + below), Split(d + b + beside), |Split(d)|)
  {
    hide *;
    PartAfter(d, a, below);
    PartAfter(d, b, beside);
    SplitJoins(b + beside);
    PrefixMore(a, b, beside);
    ClashAfter(Split(d), Split(a + below), Split(b + beside));
  }

  lemma PrefixMore(a: string, b: string, more: string)
    requires a <= b
    ensures a <= b + more
  {
    assert (b + more)[..|a|] == b[..|a|];
  }

  lemma PartAfter(d: string, a: string, rest: string)
    requires Closed(d) && Part(a) && Onward(rest) && (d != "" ==> a[0] == SEPARATOR)
    ensures Split(d + a + rest) == Split(d) + Split(a + rest) && Split(a + rest) == [a] + Split(rest)
  {
    assert a != "";
    hide *;
    assert d + a + rest == d + (a + rest);
    PartSplits(a, rest);
    SplitAppendPart(d, a, rest);
  }

  lemma SplitAppendPart(d: string, a: string, rest: string)
    requires Closed(d) && a != "" && (d != "" ==> a[0] == SEPARATOR)
    ensures Split(d + (a + rest)) == Split(d) + Split(a + rest)
  {
    if d == "" {
      assert d + (a + rest) == a + rest;
    } else {
      hide Closed, Split;
      SplitAppend(d, a + rest);
    }
  }

  lemma ClashAfter(base: Path, f: Path, g: Path)
    requires f != [] && g != [] && f[0] <= Joined(g) && f[0] != g[0]
    ensures Clash(base + f, base + g, |base|)
  {
    hide Joined;
    assert (base + g)[|base|..] == g;
  }

  /** A directory with the name of another file hangs off nothing, wherever the file lies. */
  lemma FileAsDirectoryClashes(file: string, below: string)
    requires Closed(file) && file != "" && below != "" && Onward(below)
    ensures Clash(Split(file + below), Split(file), |Split(file)|)
  {
    SplitAppend(file, below);
    hide Split;
  }
}
