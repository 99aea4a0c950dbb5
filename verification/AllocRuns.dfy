/** Whole programs on the debug allocator of core/net_os.c: what any sequence of malloc, realloc and free does, and at
    which call it hangs. */
module AllocRuns {
  import opened Words
  import opened AllocPaths
  import opened AllocTree
  import opened AllocWalk
  import opened AllocRoutes
  import opened AllocBooks
  import opened AllocExact
  import opened AllocDebug

  /** One call of a program, with the heap's answer and whether the bytes behind the block freed are intact. */
  datatype Call =
    | Allocate(size: U32, filename: string, line: U16, pp: U32)
    | Resize(p: U32, size: U32, filename: string, line: U16, pp: U32, intact: bool)
    | Release(p: U32, intact: bool)

  predicate Named(c: Call) {
    c.Release? || c.filename != ""
  }

  predicate Among(c: Call, names: set<string>) {
    c.Release? || c.filename in names
  }

  /** The heap's answer to a call keeps what malloc promises. */
  ghost predicate Answered(slots: seq<Slot>, c: Call) {
    match c
    case Allocate(size, _, _, pp) => HeapGives(slots, pp, size)
    case Resize(_, size, _, _, pp, _) => size != 0 ==> HeapGives(slots, pp, size)
    case Release(_, _) => true
  }

  // ----- What one call does

  /** The guard: the call comes back. */
  ghost predicate Returns(a: State, c: Call)
    requires Loose(a.nodes) && StartsAt(a.nodes, a.root) && Named(c)
  {
    match c
    case Allocate(size, filename, _, pp) => Holds(a, size, filename, pp)
    case Resize(p, size, filename, _, pp, intact) =>
      && (size != 0 ==> Holds(a, size, filename, pp))
      && (p != 0 ==> intact && (!NotLive(a.table, p) || (size != 0 && pp == p)))
    case Release(p, intact) => p == 0 || (!NotLive(a.table, p) && intact)
  }

  ghost predicate Stepped(a: State, c: Call, b: State) {
    match c
    case Allocate(size, filename, line, pp) => pp != 0 && Allocates(a, size, filename, line, pp, b)
    case Resize(p, size, filename, line, pp, _) =>
      (size != 0 ==> pp != 0) && exists mid :: Reallocates(a, mid, p, size, filename, line, pp, b)
    case Release(p, _) => Frees(a, p, b)
  }

  // ----- The history of the table

  /** One more state of the table: a block was entered or emptied. */
  ghost predicate Next(before: seq<Slot>, after: seq<Slot>) {
    || (exists s: Slot :: s.p != 0 && Entered(before, after, s))
    || (exists p: U32 :: p != 0 && Released(before, after, p))
  }

  /** The history goes on from `before` to `after` by entering and emptying blocks one at a time. */
  ghost predicate History(before: seq<seq<Slot>>, after: seq<seq<Slot>>) {
    && 0 < |before| <= |after| && after[..|before|] == before
    && forall k :: |before| <= k < |after| ==> Next(after[k - 1], after[k])
  }

  lemma HistoryStays(past: seq<seq<Slot>>)
    requires past != []
    ensures History(past, past)
  {
  }

  lemma HistoryOn(start: seq<seq<Slot>>, past: seq<seq<Slot>>, before: seq<Slot>, after: seq<Slot>)
    requires History(start, past) && Current(before, past) && Next(before, after)
    ensures History(start, past + [after])
  {
    hide Next;
  }

  lemma HistoryJoins(a: seq<seq<Slot>>, b: seq<seq<Slot>>, c: seq<seq<Slot>>)
    requires History(a, b) && History(b, c)
    ensures History(a, c)
  {
    hide Next;
    forall k | |a| <= k < |c| ensures Next(c[k - 1], c[k]) {
      if k < |b| {
        assert c[k] == c[..|b|][k] == b[k] && c[k - 1] == c[..|b|][k - 1] == b[k - 1];
      }
    }
    assert c[..|a|] == c[..|b|][..|a|];
  }

  lemma AllocatesHistory(a: State, size: U32, filename: string, line: U16, pp: U32, b: State)
    requires Current(a.table, a.past) && pp != 0 && Allocates(a, size, filename, line, pp, b)
    ensures Current(b.table, b.past) && History(a.past, b.past)
  {
    hide Entered, WalkNodes, Loose, StartsAt;
    HistoryStays(a.past);
    HistoryOn(a.past, a.past, a.table, b.table);
  }

  lemma FreesHistory(a: State, p: U32, b: State)
    requires Current(a.table, a.past) && Frees(a, p, b)
    ensures Current(b.table, b.past) && History(a.past, b.past)
  {
    hide Released, TakenBack;
    HistoryStays(a.past);
    if p != 0 {
      HistoryOn(a.past, a.past, a.table, b.table);
    }
  }

  lemma SteppedHistory(a: State, c: Call, b: State)
    requires Current(a.table, a.past) && Stepped(a, c, b)
    ensures Current(b.table, b.past) && History(a.past, b.past)
  {
    hide Allocates, Frees, Current, History;
    match c
    case Allocate(size, filename, line, pp) => AllocatesHistory(a, size, filename, line, pp, b);
    case Resize(p, size, filename, line, pp, _) =>
      var mid :| Reallocates(a, mid, p, size, filename, line, pp, b);
      if size != 0 {
        AllocatesHistory(a, size, filename, line, pp, mid);
        FreesHistory(mid, p, b);
        HistoryJoins(a.past, mid.past, b.past);
      } else {
        FreesHistory(a, p, b);
      }
    case Release(p, _) => FreesHistory(a, p, b);
  }

  // ----- The calls on the object

  /** The tree agrees with the table, and the names used so far are among these. */
  ghost predicate Tidy(a: Allocator, names: set<string>)
    reads a, a.infos, a.arena, a.arena.nodes
  {
    a.Exact() && a.files <= names
  }

  /** Whether the heap can have answered so: a debugger's check that the program does not make. */
  method Promised(a: Allocator, pp: U32, size: U32) returns (b: bool)
    requires a.Valid()
    ensures b == HeapGives(a.Table(), pp, size)
  {
    b := true;
    a.AsCounted();
    if pp != 0 {
      hide Total, Allocator.Links, Allocator.Counters, Allocator.Untouched, Pointed, NotLive;
      var i := a.FindEntry(pp);
      b := i == TABLE && a.current + size < TWO32;
    }
  }

  method CanAnswer(a: Allocator, c: Call) returns (b: bool)
    requires a.Valid()
    ensures b == Answered(a.Table(), c)
  {
    match c
    case Allocate(size, _, _, pp) => b := Promised(a, pp, size);
    case Resize(_, size, _, _, pp, _) =>
      b := true;
      if size != 0 {
        b := Promised(a, pp, size);
      }
    case Release(_, _) => b := true;
  }

  lemma TidyFinds(a: Allocator, c: Call, names: set<string>)
    requires Named(c)
    ensures !c.Release? && Orderly(names) && Among(c, names) && Tidy(a, names) ==> a.Finds(c.filename)
  {
    hide Allocator.Finds, Orderly, Allocator.Valid, Allocator.Agrees;
    if !c.Release? && Orderly(names) && Among(c, names) && Tidy(a, names) {
      a.FindsWhenOrderly(names, c.filename);
    }
  }

  lemma ValidFacts(a: Allocator)
    requires a.Valid()
    ensures a.arena.count <= a.arena.nodes.Length
    ensures Loose(a.Now().nodes) && StartsAt(a.Now().nodes, a.Now().root) && Current(a.Now().table, a.Now().past)
  {
  }

  /** One call comes back exactly when its guard holds, and then has done its step. */
  method Do(a: Allocator, c: Call, ghost names: set<string>) returns (ok: bool)
    requires a.Valid() && Named(c) && Answered(a.Table(), c)
    modifies a, a.infos, a.arena, a.arena.nodes
    ensures ok <==> Returns(old(a.Now()), c)
    ensures ok ==> a.Valid() && Stepped(old(a.Now()), c, a.Now())
    ensures ok && Orderly(names) && Among(c, names) && old(Tidy(a, names)) ==> Tidy(a, names)
  {
    TidyFinds(a, c, names);
    match c
    case Allocate(size, filename, line, pp) => ok := DoAllocate(a, size, filename, line, pp, names);
    case Resize(p, size, filename, line, pp, intact) =>
      ok := DoResize(a, p, size, filename, line, pp, intact, names);
    case Release(p, intact) =>
      ok := a.Free(p, intact);
  }

  method DoAllocate(a: Allocator, size: U32, filename: string, line: U16, pp: U32, ghost names: set<string>)
    returns (ok: bool)
    requires a.Valid() && filename != "" && HeapGives(a.Table(), pp, size)
    modifies a, a.infos, a.arena, a.arena.nodes
    ensures ok <==> Returns(old(a.Now()), Allocate(size, filename, line, pp))
    ensures ok ==> a.Valid() && Stepped(old(a.Now()), Allocate(size, filename, line, pp), a.Now())
    ensures ok && filename in names && old(Tidy(a, names) && a.Finds(filename)) ==> Tidy(a, names)
  {
    ValidFacts(a);
    hide Allocator.Valid, Allocator.Finds, Allocator.Links, Allocator.Entries, Allocator.Counters, Allocator.Untouched,
        Allocator.Totals, Allocator.Agrees, Allocator.OnWay, HeapGives, NotLive, Allocates, Loose, StartsAt;
    var p;
    ok, p := a.Malloc(size, filename, line, pp);
  }

  method DoResize(a: Allocator, p: U32, size: U32, filename: string, line: U16, pp: U32, intact: bool,
      ghost names: set<string>) returns (ok: bool)
    requires a.Valid() && filename != "" && (size != 0 ==> HeapGives(a.Table(), pp, size))
    modifies a, a.infos, a.arena, a.arena.nodes
    ensures ok <==> Returns(old(a.Now()), Resize(p, size, filename, line, pp, intact))
    ensures ok ==> a.Valid() && Stepped(old(a.Now()), Resize(p, size, filename, line, pp, intact), a.Now())
    ensures ok && filename in names && old(Tidy(a, names) && a.Finds(filename)) ==> Tidy(a, names)
  {
    ValidFacts(a);
    hide Allocator.Valid, Allocator.Finds, Allocator.Links, Allocator.Entries, Allocator.Counters, Allocator.Untouched,
        Allocator.Totals, Allocator.Agrees, Allocator.OnWay, Holds, HeapGives, NotLive, Reallocates, Loose, StartsAt;
    var ret;
    ghost var mid;
    ok, ret, mid := a.Realloc(p, size, filename, line, pp, intact);
  }

  // ----- Programs

  /** Call k was answered by the heap, came back, and did its step. */
  ghost predicate StepAt(trace: seq<State>, calls: seq<Call>, k: nat)
    requires k < |calls| && k + 1 < |trace|
  {
    && Loose(trace[k].nodes) && StartsAt(trace[k].nodes, trace[k].root) && Named(calls[k])
    && Answered(trace[k].table, calls[k]) && Returns(trace[k], calls[k])
    && Stepped(trace[k], calls[k], trace[k + 1])
  }

  /** Call k was answered by the heap and does not come back. */
  ghost predicate HangsAt(state: State, c: Call) {
    && Loose(state.nodes) && StartsAt(state.nodes, state.root) && Named(c)
    && Answered(state.table, c) && !Returns(state, c)
  }

  ghost predicate Traced(trace: seq<State>, calls: seq<Call>) {
    0 < |trace| <= |calls| + 1 && forall k :: 0 <= k < |trace| - 1 ==> StepAt(trace, calls, k)
  }

  lemma TraceGrows(trace: seq<State>, calls: seq<Call>, b: State)
    requires Traced(trace, calls) && |trace| <= |calls|
    requires var a, c := trace[|trace| - 1], calls[|trace| - 1];
      && Loose(a.nodes) && StartsAt(a.nodes, a.root) && Named(c)
      && Answered(a.table, c) && Returns(a, c) && Stepped(a, c, b)
    ensures Traced(trace + [b], calls)
  {
    hide Loose, StartsAt, Named, Answered, Returns, Stepped;
    forall k | 0 <= k < |trace| ensures StepAt(trace + [b], calls, k) {
      if k < |trace| - 1 {
        assert StepAt(trace, calls, k);
      }
    }
  }

  /** Runs a program's calls, up to the first one that never returns or to an answer no heap gives. `trace` holds the
      states before and after each call. Whatever the file names, the counters are the sums over the table and the
      maxima over all its states; the tree stays exact for names that do not clash. */
  method RunProgram(a: Allocator, calls: seq<Call>, ghost names: set<string>)
    returns (n: nat, hung: bool, ghost trace: seq<State>)
    requires a.Valid() && forall i :: 0 <= i < |calls| ==> Named(calls[i])
    modifies a, a.infos, a.arena, a.arena.nodes
    ensures n <= |calls| && |trace| == n + 1 && trace[0] == old(a.Now()) && Traced(trace, calls)
    ensures hung ==> n < |calls| && HangsAt(trace[n], calls[n])
    ensures !hung ==> a.Valid() && a.Now() == trace[n] && (n < |calls| ==> !Answered(a.Table(), calls[n]))
    ensures History(old(a.past), trace[n].past)
    ensures !hung ==> a.current == Total(a.Table(), Bytes([])) && a.totalMax == Peak(a.past, Bytes([]))
    ensures !hung ==> a.iteralloc - a.iterfree == Total(a.Table(), Blocks) && a.maxAlive == Peak(a.past, Blocks)
    ensures var orderly := Orderly(names) && forall i :: 0 <= i < |calls| ==> Among(calls[i], names);
      !hung && orderly && old(Tidy(a, names)) ==> Tidy(a, names)
  {
    ghost var tidy := Tidy(a, names) && Orderly(names) && forall i :: 0 <= i < |calls| ==> Among(calls[i], names);
    ValidFacts(a);
    n, hung, trace := 0, false, [a.Now()];
    HistoryStays(a.past);
    hide Allocator.Entries, Allocator.Counters, Allocator.Untouched, Loose, StartsAt, Total, Peak, Answered, HangsAt,
        History, Traced, Tidy, Orderly, Named, Among;
    while n < |calls|
      invariant n <= |calls| && |trace| == n + 1 && trace[0] == old(a.Now()) && Traced(trace, calls)
      invariant a.Valid() && a.Now() == trace[n] && History(trace[0].past, trace[n].past)
      invariant tidy ==> Tidy(a, names)
    {
      var answered, ok := Advance(a, calls, n, names, trace);
      if !answered {
        break;
      }
      if !ok {
        return n, true, trace;
      }
      HistoryJoins(trace[0].past, trace[n].past, a.past);
      trace := trace + [a.Now()];
      n := n + 1;
    }
    a.CountersTell();
  }

  /** The next call, if the heap can have answered so. */
  method Advance(a: Allocator, calls: seq<Call>, n: nat, ghost names: set<string>, ghost trace: seq<State>)
    returns (answered: bool, ok: bool)
    requires a.Valid() && n < |calls| && Named(calls[n])
    requires |trace| == n + 1 && Traced(trace, calls) && trace[n] == a.Now()
    modifies a, a.infos, a.arena, a.arena.nodes
    ensures answered <==> Answered(old(a.Table()), calls[n])
    ensures !answered ==> a.Valid() && a.Now() == old(a.Now()) && (old(Tidy(a, names)) ==> Tidy(a, names))
    ensures answered && !ok ==> HangsAt(trace[n], calls[n])
    ensures answered && ok ==>
      a.Valid() && Traced(trace + [a.Now()], calls) && History(trace[n].past, a.past)
    ensures answered && ok && Orderly(names) && Among(calls[n], names) && old(Tidy(a, names)) ==> Tidy(a, names)
  {
    var c := calls[n];
    answered := CanAnswer(a, c);
    ok := true;
    if answered {
      ValidFacts(a);
      hide Allocator.Entries, Allocator.Counters, Allocator.Untouched, Loose, StartsAt, Total, Peak, Answered, Returns,
          Stepped, History, Traced, Tidy, Orderly, Current, Named, Among;
      ok := Do(a, c, names);
      if ok {
        SteppedHistory(trace[n], c, a.Now());
        TraceGrows(trace, calls, a.Now());
      }
    }
  }
}
