/** What the collector keeps over whole runs of the interpreter, and what repeated explicit collections do. */
module GcRuns {
  import opened GcModel

  /** The collector's view of the interpreter. `newest` is the value allocated last: until the next
      allocation the interpreter may hold it without having linked it anywhere. */
  datatype State = State(arena: Arena, roots: set<nat>, newest: Ref)

  datatype Step =
    | Alloc(init: Val)          // fh_malloc, then the constructor sets every field
    | Write(at: nat, val: Val)  // fields or properties of a value change
    | SetRoots(roots: set<nat>) // the callstack grows or shrinks
    | Explicit                  // gc.run(): a collection at any time

  function Used(a: Arena): set<nat> {
    set i | 0 <= i < |a.freelist| && a.freelist[i]
  }

  ghost function Reachable(st: State): set<nat> {
    Reach(GraphOf(st.arena.slots), {}, st.roots)
  }

  /** What the interpreter can get hold of. */
  ghost function Live(st: State): set<nat> {
    Reach(GraphOf(st.arena.slots), {}, st.roots + RefSet(st.newest))
  }

  /** Between collections: all marks clear, the count right, everything live in a used slot. */
  ghost predicate Inv(st: State) {
    && WellFormed(st.arena)
    && Marked(st.arena.slots) == {}
    && (forall r :: r in st.roots + RefSet(st.newest) ==> r < |st.arena.slots|)
    && Live(st) <= Used(st.arena)
  }

  /** No reachable slot lies behind a vacant one. */
  ghost predicate NoHoleBelow(st: State) {
    forall i :: i in Reachable(st) ==> i < FirstVacant(st.arena.freelist)
  }

  /** What a new value points at, and what is reached from there, is still in use once it has its slot. */
  ghost predicate PointersKept(st: State, init: Val)
    requires |st.arena.slots| == |st.arena.freelist|
  {
    var (a, r) := Malloc(st.arena, st.roots);
    r.Slot? ==>
      && (forall e :: e in Edges(init) ==> e < |st.arena.slots|)
      && Reach(GraphOf(st.arena.slots), {r.slot}, Edges(init)) <= Used(a)
  }

  /** The interpreter only handles values it can get hold of, and collects explicitly only without holes. */
  ghost predicate Enabled(st: State, step: Step) {
    match step
    case Alloc(init) => !init.marked && |st.arena.slots| == |st.arena.freelist| && PointersKept(st, init)
    case Write(at, val) => at in Live(st) && !val.marked && Edges(val) <= Live(st)
    case SetRoots(roots) => roots <= Live(st)
    case Explicit => NoHoleBelow(st)
  }

  /** The state after a step; none when the process ran out of memory. */
  ghost predicate Next(st: State, step: Step, st': State) {
    |st.arena.slots| == |st.arena.freelist| &&
    match step
    case Alloc(init) =>
      var (a, r) := Malloc(st.arena, st.roots);
      r.Slot? && r.slot < |a.slots| && st' == State(a.(slots := a.slots[r.slot := init]), st.roots, At(r.slot))
    case Write(at, val) =>
      at < |st.arena.slots| && st' == st.(arena := st.arena.(slots := st.arena.slots[at := val]))
    case SetRoots(roots) =>
      st' == st.(roots := roots)
    case Explicit =>
      st' == State(Collect(st.arena, st.roots), st.roots, Null)
  }

  /** Without roots nothing is live, so runs can start from a new heap. */
  lemma NothingLive(st: State)
    requires WellFormed(st.arena) && st.roots == {} && st.newest == Null
    requires forall i :: 0 <= i < |st.arena.slots| ==> !st.arena.slots[i].marked
    ensures Inv(st)
  {
  }

  // ---- collections ----

  lemma NoMarks(slots: seq<Val>, i: nat)
    requires i < |slots|
    ensures slots[i].marked <==> i in Marked(slots)
  {
  }

  lemma {:induction false} FullArena(freelist: seq<bool>)
    ensures FirstVacant(freelist) == |freelist| <==> forall i :: 0 <= i < |freelist| ==> freelist[i]
  {
  }

  /** What a mark phase leaves marked: what was marked, and what is reached without passing through it. */
  ghost function MarkedAfter(a: Arena, roots: set<nat>): set<nat> {
    Marked(a.slots) + Reach(GraphOf(a.slots), Marked(a.slots), roots)
  }

  lemma FromClearMarks(a: Arena, roots: set<nat>)
    requires Marked(a.slots) == {}
    ensures MarkedAfter(a, roots) == Reach(GraphOf(a.slots), {}, roots)
  {
  }

  /** A collection, whatever is marked before: below the first vacant slot exactly the slots left unmarked are
      vacated and no mark is left; from there on nothing is vacated and all marks stay. */
  lemma CollectExactly(a: Arena, roots: set<nat>, i: nat)
    requires |a.slots| == |a.freelist| && i < |a.slots|
    ensures var b, h := Collect(a, roots), FirstVacant(a.freelist);
      && b.freelist[i] == (if i < h then i in MarkedAfter(a, roots) else a.freelist[i])
      && b.slots[i] == a.slots[i].(marked := i >= h && i in MarkedAfter(a, roots))
  {
    NoMarks(a.slots, i);
  }

  /** A collection leaves no mark behind if and only if nothing at or past the first vacant slot is marked or reached. */
  lemma MarksClearedIff(a: Arena, roots: set<nat>)
    requires |a.slots| == |a.freelist|
    ensures Marked(Collect(a, roots).slots) == {} <==>
      forall i :: i in MarkedAfter(a, roots) ==> i < FirstVacant(a.freelist)
  {
    hide Collect, MarkedAfter, FirstVacant, Marked;
    var b, reached, h := Collect(a, roots), MarkedAfter(a, roots), FirstVacant(a.freelist);
    MarksInArena(a, roots);
    MarksInArena(b, roots);
    forall i: nat | i < |a.slots| ensures i in Marked(b.slots) <==> i >= h && i in reached {
      CollectExactly(a, roots, i);
      NoMarks(b.slots, i);
    }
    if Marked(b.slots) == {} {
      forall i | i in reached ensures i < h {
        assert i !in Marked(b.slots);
      }
    }
  }

  lemma MarksInArena(a: Arena, roots: set<nat>)
    ensures forall i :: i in MarkedAfter(a, roots) ==> i < |a.slots|
    ensures forall i :: i in Marked(a.slots) ==> i < |a.slots|
  {
  }

  /** A collection leaves exactly the reachable slots in use if and only if, before the first vacant slot,
      exactly they are marked at its end, and from there on exactly they were in use. */
  lemma CollectCompleteIff(a: Arena, roots: set<nat>)
    requires |a.slots| == |a.freelist|
    ensures Used(Collect(a, roots)) == Reach(GraphOf(a.slots), {}, roots) <==>
      forall i: nat :: i < |a.slots| ==>
        (i in Reach(GraphOf(a.slots), {}, roots) <==>
          if i < FirstVacant(a.freelist) then i in MarkedAfter(a, roots) else a.freelist[i])
  {
    hide Collect, MarkedAfter, FirstVacant, Marked;
    var b, live, h := Collect(a, roots), Reach(GraphOf(a.slots), {}, roots), FirstVacant(a.freelist);
    forall i: nat | i < |a.slots|
      ensures i in Used(b) <==> if i < h then i in MarkedAfter(a, roots) else a.freelist[i]
    {
      CollectExactly(a, roots, i);
    }
    if Used(b) == live {
      forall i: nat | i < |a.slots|
        ensures i in live <==> if i < h then i in MarkedAfter(a, roots) else a.freelist[i]
      {
        assert i in Used(b) <==> i in live;
      }
    }
  }

  /** The collection an allocation triggers sees a full arena: it vacates exactly the unreachable slots. */
  lemma TriggeredCollection(a: Arena, roots: set<nat>)
    requires |a.slots| == |a.freelist| && Marked(a.slots) == {}
    requires FirstVacant(a.freelist) == |a.freelist|
    ensures var b := Collect(a, roots);
      && Used(b) == Reach(GraphOf(a.slots), {}, roots)
      && b.slots == a.slots
  {
    FromClearMarks(a, roots);
    CollectCompleteIff(a, roots);
    var b := Collect(a, roots);
    forall i: nat | i < |a.slots| ensures b.slots[i] == a.slots[i] {
      CollectExactly(a, roots, i);
      NoMarks(a.slots, i);
    }
  }

  // ---- explicit collections ----

  /** With any marks: a collection keeps every reachable used slot if and only if every reachable unmarked
      slot below the first vacant one can be reached without passing through a slot that is already marked. */
  lemma KeepsReachableIff(a: Arena, roots: set<nat>)
    requires |a.slots| == |a.freelist|
    ensures var g, m := GraphOf(a.slots), Marked(a.slots);
      Reach(g, {}, roots) * Used(a) <= Used(Collect(a, roots))
      <==>
      forall i :: i in Reach(g, {}, roots) && i !in m && i < FirstVacant(a.freelist) ==> i in Reach(g, m, roots)
  {
    var g, m, h := GraphOf(a.slots), Marked(a.slots), FirstVacant(a.freelist);
    forall i: nat | i < |a.slots|
      ensures i in Used(Collect(a, roots)) <==> if i < h then i in m || i in Reach(g, m, roots) else i in Used(a)
    {
      CollectExactly(a, roots, i);
    }
    forall i: nat | i < h ensures i in Used(a) {}
  }

  /** An explicit collection keeps the invariant of runs if and only if no reachable slot lies behind a vacant one. */
  lemma ExplicitKeepsInvIff(st: State)
    requires Inv(st)
    ensures Inv(State(Collect(st.arena, st.roots), st.roots, Null)) <==> NoHoleBelow(st)
  {
    var a, b, g := st.arena, Collect(st.arena, st.roots), GraphOf(st.arena.slots);
    CollectWellFormed(a, st.roots);
    FromClearMarks(a, st.roots);
    MarksClearedIff(a, st.roots);
    assert GraphOf(b.slots) == g;
    ReachedLive(st);
    assert st.roots + RefSet(Null) == st.roots;
    forall i | i in Reachable(st) ensures i in Used(b) {
      CollectExactly(a, st.roots, i);
    }
  }

  lemma ExplicitAt(st: State, i: nat)
    requires Inv(st) && NoHoleBelow(st) && i < |st.arena.slots|
    ensures var b := Collect(st.arena, st.roots);
      && b.slots[i] == st.arena.slots[i]
      && (b.freelist[i] <==>
            if i < FirstVacant(st.arena.freelist) then i in Reachable(st) else st.arena.freelist[i])
  {
    hide *;
    InvParts(st);
    HoleFree(st, i);
    FromClearMarks(st.arena, st.roots);
    CollectExactly(st.arena, st.roots, i);
    NoMarks(st.arena.slots, i);
  }

  lemma InvParts(st: State)
    requires Inv(st)
    ensures WellFormed(st.arena) && Marked(st.arena.slots) == {} && |st.arena.slots| == |st.arena.freelist|
  {
  }

  lemma HoleFree(st: State, i: nat)
    ensures Reachable(st) == Reach(GraphOf(st.arena.slots), {}, st.roots)
    ensures NoHoleBelow(st) && i in Reachable(st) ==> i < FirstVacant(st.arena.freelist)
  {
  }

  /** What an explicit collection without holes does: it vacates exactly the unreachable slots in front of the
      first vacant one and changes no slot. */
  lemma ExplicitCollects(st: State)
    requires Inv(st) && NoHoleBelow(st)
    ensures var b := Collect(st.arena, st.roots);
      && b.slots == st.arena.slots
      && Used(b) == Reachable(st) + set i | i in Used(st.arena) && i >= FirstVacant(st.arena.freelist)
  {
    var b, h := Collect(st.arena, st.roots), FirstVacant(st.arena.freelist);
    forall i: nat | i < |st.arena.slots|
      ensures b.slots[i] == st.arena.slots[i]
      ensures b.freelist[i] <==> if i < h then i in Reachable(st) else st.arena.freelist[i]
    {
      ExplicitAt(st, i);
    }
    ReachableInArena(st);
    hide *;
    assert b.slots == st.arena.slots;
    UsedBelow(st.arena.freelist, b.freelist, Reachable(st), h, st.arena, b);
  }

  lemma ReachableInArena(st: State)
    ensures forall i :: i in Reachable(st) ==> i < |st.arena.slots|
  {
  }

  lemma UsedBelow(before: seq<bool>, after: seq<bool>, kept: set<nat>, h: nat, a: Arena, b: Arena)
    requires |before| == |after| && before == a.freelist && after == b.freelist
    requires forall i :: i in kept ==> i < |before| && i < h
    requires forall i :: 0 <= i < |before| ==> (after[i] <==> if i < h then i in kept else before[i])
    ensures Used(b) == kept + set i | i in Used(a) && i >= h
  {
  }

  /** A path stays in any set that holds its start and all successors it does not avoid. */
  lemma {:induction false} OnlyTo(g: Graph, m: set<nat>, s: set<nat>, p: seq<nat>, i: nat)
    requires PathAvoiding(g, m, p) && p[0] in s && i < |p|
    requires forall n :: n in s && n < |g| ==> g[n] - m <= s
    ensures p[i] in s
  {
    if i > 0 {
      OnlyTo(g, m, s, p, i - 1);
    }
  }

  // ---- circular properties ----

  /** A property's flag is set exactly when it points at its owner, as fh_set_prop sets it. */
  ghost predicate FlagsRight(slots: seq<Val>) {
    forall i, k :: 0 <= i < |slots| && 0 <= k < |slots[i].props| ==>
      (slots[i].props[k].circular <==> slots[i].props[k].ptr == At(i))
  }

  /** The slots a value points at, circular properties included. */
  function AllEdges(v: Val): set<nat> {
    Edges(v) + set j | 0 <= j < |v.props| && v.props[j].ptr.At? :: v.props[j].ptr.slot
  }

  ghost function WholeGraph(slots: seq<Val>): (g: Graph) {
    seq(|slots|, i requires 0 <= i < |slots| => AllEdges(slots[i]))
  }

  /** A circular property adds at most an edge of a slot to itself. */
  lemma OwnEdge(slots: seq<Val>, i: nat)
    requires FlagsRight(slots) && i < |slots|
    ensures Edges(slots[i]) <= AllEdges(slots[i]) <= Edges(slots[i]) + {i}
  {
    var ps := slots[i].props;
    forall j | 0 <= j < |ps| && ps[j].ptr.At? ensures ps[j].ptr.slot in Edges(slots[i]) + {i} {
      if !ps[j].circular {
        assert ps[j].ptr.slot in PropEdges(ps);
      }
    }
  }

  /** Skipping circular properties misses nothing. */
  lemma CircularSkipped(slots: seq<Val>, roots: set<nat>)
    requires FlagsRight(slots) && InArena(GraphOf(slots)) && forall r :: r in roots ==> r < |slots|
    ensures Reach(GraphOf(slots), {}, roots) == Reach(WholeGraph(slots), {}, roots)
  {
    hide Reach, Edges, AllEdges;
    var g, w := GraphOf(slots), WholeGraph(slots);
    forall i | 0 <= i < |g| ensures g[i] <= w[i] <= g[i] + {i} {
      OwnEdge(slots, i);
    }
    SameReach(g, w, roots);
  }

  lemma SameReach(g: Graph, w: Graph, roots: set<nat>)
    requires |g| == |w| && InArena(g) && forall i :: 0 <= i < |g| ==> g[i] <= w[i] <= g[i] + {i}
    requires forall r :: r in roots ==> r < |g|
    ensures Reach(g, {}, roots) == Reach(w, {}, roots)
  {
    hide Reach;
    forall i, j | 0 <= i < |w| && j in w[i] ensures j < |w| {
      assert j in g[i] || j == i;
    }
    ReachClosed(g, roots);
    ReachClosed(w, roots);
    NothingNew(g, w, roots, roots);
    NothingNew(w, g, roots, roots);
  }

  // ---- allocation ----

  /** What an allocation does: it fails exactly when every slot is reachable; otherwise the slot it hands
      out was not reachable, is the only one newly in use, and no reachable slot is vacated or altered. */
  lemma AllocationSafe(a: Arena, roots: set<nat>)
    requires WellFormed(a) && Marked(a.slots) == {} && Reach(GraphOf(a.slots), {}, roots) <= Used(a)
    ensures var (b, r) := Malloc(a, roots); var reached := Reach(GraphOf(a.slots), {}, roots);
      && (r.OutOfMemory? <==> forall i: nat :: i < |a.slots| ==> i in reached)
      && WellFormed(b) && b.slots == a.slots
      && (r.Slot? ==>
            && r.slot < |a.slots| && r.slot !in reached && r.slot in Used(b)
            && reached <= Used(b)
            && Used(b) - {r.slot} <= Used(a))
  {
    var reached := Reach(GraphOf(a.slots), {}, roots);
    var c := a;
    if FirstVacant(a.freelist) == |a.freelist| {
      TriggeredCollection(a, roots);
      c := Collect(a, roots);
      assert Used(c) <= Used(a) by {
        FullArena(a.freelist);
      }
    }
    TakeFromArena(c);
    FullArena(c.freelist);
  }

  lemma TakeFromArena(a: Arena)
    requires WellFormed(a)
    ensures var (b, r) := Take(a);
      && WellFormed(b) && b.slots == a.slots
      && (r.OutOfMemory? <==> FirstVacant(a.freelist) == |a.freelist|)
      && (r.Slot? ==> r.slot < |a.slots| && r.slot !in Used(a) && Used(b) == Used(a) + {r.slot})
  {
    var h := FirstVacant(a.freelist);
    if h < |a.freelist| {
      CountUpdate(a.freelist, h, true);
    }
  }

  // ---- every step ----

  lemma {:induction false} StayIn(g: Graph, g': Graph, from: set<nat>, from': set<nat>, p: seq<nat>, i: nat)
    requires PathAvoiding(g', {}, p) && p[0] in from' && i < |p| && |g| == |g'|
    requires forall r :: r in from' ==> r in Reach(g, {}, from)
    requires forall n :: n in Reach(g, {}, from) && n < |g| ==> g'[n] <= Reach(g, {}, from)
    ensures p[i] in Reach(g, {}, from)
  {
    if i > 0 {
      StayIn(g, g', from, from', p, i - 1);
    }
  }

  /** Edges and roots that stay among the reached slots reach nothing new. */
  lemma NothingNew(g: Graph, g': Graph, from: set<nat>, from': set<nat>)
    requires |g| == |g'|
    requires forall r :: r in from' ==> r in Reach(g, {}, from)
    requires forall n :: n in Reach(g, {}, from) && n < |g| ==> g'[n] <= Reach(g, {}, from)
    ensures Reach(g', {}, from') <= Reach(g, {}, from)
  {
    forall n | n in Reach(g', {}, from') ensures n in Reach(g, {}, from) {
      var p :| ReachedBy(g', {}, from', p, n);
      StayIn(g, g', from, from', p, |p| - 1);
    }
  }

  lemma ReachClosed(g: Graph, from: set<nat>)
    requires InArena(g)
    ensures forall n :: n in Reach(g, {}, from) && n < |g| ==> g[n] <= Reach(g, {}, from)
    ensures forall r :: r in from && r < |g| ==> r in Reach(g, {}, from)
  {
    forall n, k | n in Reach(g, {}, from) && n < |g| && k in g[n] ensures k in Reach(g, {}, from) {
      ReachStep(g, {}, from, n, k);
    }
    forall r | r in from && r < |g| ensures r in Reach(g, {}, from) {
      ReachStart(g, {}, from, r);
    }
  }

  lemma InvKept(st: State, step: Step, st': State)
    requires Inv(st) && Enabled(st, step) && Next(st, step, st')
    ensures Inv(st')
  {
    match step
    case Alloc(init) => AllocKeepsInvIff(st, init, st');
    case Write(at, val) => WriteKeeps(st, at, val, st');
    case SetRoots(roots) => RootsKeep(st, roots, st');
    case Explicit => ExplicitKeepsInvIff(st);
  }

  lemma RootsKeep(st: State, roots: set<nat>, st': State)
    requires Inv(st) && Enabled(st, SetRoots(roots)) && Next(st, SetRoots(roots), st')
    ensures Inv(st')
  {
    var g := GraphOf(st.arena.slots);
    ReachClosed(g, st.roots + RefSet(st.newest));
    NothingNew(g, g, st.roots + RefSet(st.newest), st'.roots + RefSet(st'.newest));
  }

  lemma GraphUpdate(slots: seq<Val>, i: nat, v: Val)
    requires i < |slots| && !v.marked && Marked(slots) == {}
    ensures GraphOf(slots[i := v]) == GraphOf(slots)[i := Edges(v)]
    ensures Marked(slots[i := v]) == {}
  {
    var t := slots[i := v];
    forall k | 0 <= k < |t| ensures !t[k].marked {
      NoMarks(slots, k);
    }
  }

  lemma WriteKeeps(st: State, at: nat, val: Val, st': State)
    requires Inv(st) && Enabled(st, Write(at, val)) && Next(st, Write(at, val), st')
    ensures Inv(st')
  {
    hide Reach, Edges, GraphOf, Marked, InArena, Count;
    var g, from := GraphOf(st.arena.slots), st.roots + RefSet(st.newest);
    GraphUpdate(st.arena.slots, at, val);
    ReachClosed(g, from);
    ReachWithin(g, from);
    InArenaUpdate(g, at, Edges(val));
    NothingNew(g, GraphOf(st'.arena.slots), from, from);
  }

  lemma ReachWithin(g: Graph, from: set<nat>)
    ensures forall n :: n in Reach(g, {}, from) ==> n < |g|
  {
  }

  lemma InArenaUpdate(g: Graph, i: nat, edges: set<nat>)
    requires InArena(g) && i < |g| && forall j :: j in edges ==> j < |g|
    ensures InArena(g[i := edges])
  {
  }

  /** What is live after an allocation: what was reachable, the new slot, and what is reached from its pointers. */
  lemma LiveAfterAlloc(g: Graph, g': Graph, from: set<nat>, k: nat, edges: set<nat>)
    requires InArena(g) && k < |g| && g' == g[k := edges] && k !in Reach(g, {}, from)
    requires (forall r :: r in from ==> r < |g|) && forall e :: e in edges ==> e < |g|
    ensures Reach(g', {}, from + {k}) == Reach(g, {}, from) + {k} + Reach(g, {k}, edges)
  {
    hide Reach, PathAvoiding;
    var old', new' := Reach(g, {}, from), Reach(g, {k}, edges);
    ReachClosed(g, from);
    forall e | e in edges ensures e in old' + {k} + new' {
      if e != k { ReachStart(g, {k}, edges, e); }
    }
    forall n, e | n in new' && n < |g| && e in g[n] ensures e in old' + {k} + new' {
      if e != k { ReachStep(g, {k}, edges, n, e); }
    }
    ReachWithinSet(g', {}, from + {k}, old' + {k} + new');
    OldReachKept(g, g', from, k);
    ReachStart(g', {}, from + {k}, k);
    NewReachKept(g, g', from, k, edges);
  }

  lemma OldReachKept(g: Graph, g': Graph, from: set<nat>, k: nat)
    requires |g| == |g'| && k < |g| && k !in Reach(g, {}, from) && g' == g[k := g'[k]]
    ensures Reach(g, {}, from) <= Reach(g', {}, from + {k})
  {
    forall n | n in Reach(g, {}, from) ensures n in Reach(g', {}, from + {k}) {
      var p :| ReachedBy(g, {}, from, p, n);
      ReachStart(g, {}, from, p[0]);
      ReachStart(g', {}, from + {k}, p[0]);
      AlongBoth(g, g', from, from + {k}, k, p, |p| - 1);
    }
  }

  lemma {:induction false} AlongBoth(g: Graph, g': Graph, from: set<nat>, from': set<nat>, k: nat, p: seq<nat>, i: nat)
    requires |g| == |g'| && k < |g| && g' == g[k := g'[k]] && k !in Reach(g, {}, from)
    requires PathAvoiding(g, {}, p) && p[0] in Reach(g, {}, from) && p[0] in Reach(g', {}, from') && i < |p|
    ensures p[i] in Reach(g, {}, from) && p[i] in Reach(g', {}, from')
  {
    hide Reach;
    if i > 0 {
      AlongBoth(g, g', from, from', k, p, i - 1);
      ReachStep(g, {}, from, p[i - 1], p[i]);
      ReachStep(g', {}, from', p[i - 1], p[i]);
    }
  }

  lemma NewReachKept(g: Graph, g': Graph, from: set<nat>, k: nat, edges: set<nat>)
    requires k < |g| && g' == g[k := edges] && k in Reach(g', {}, from + {k})
    ensures Reach(g, {k}, edges) <= Reach(g', {}, from + {k})
  {
    forall n | n in Reach(g, {k}, edges) ensures n in Reach(g', {}, from + {k}) {
      var p :| ReachedBy(g, {k}, edges, p, n);
      ReachStep(g', {}, from + {k}, k, p[0]);
      AlongNew(g, g', from + {k}, k, p, |p| - 1);
    }
  }

  lemma {:induction false} AlongNew(g: Graph, g': Graph, from: set<nat>, k: nat, p: seq<nat>, i: nat)
    requires k < |g| == |g'| && g' == g[k := g'[k]]
    requires PathAvoiding(g, {k}, p) && p[0] in Reach(g', {}, from) && i < |p|
    ensures p[i] in Reach(g', {}, from)
  {
    hide Reach;
    if i > 0 {
      AlongNew(g, g', from, k, p, i - 1);
      ReachStep(g', {}, from, p[i - 1], p[i]);
    }
  }

  /** An allocation keeps the invariant if and only if what the new value points at is still in use then. */
  lemma AllocKeepsInvIff(st: State, init: Val, st': State)
    requires Inv(st) && !init.marked && Next(st, Alloc(init), st')
    ensures Inv(st') <==> PointersKept(st, init)
  {
    hide Reach, Edges, GraphOf, Marked, InArena, Count, Malloc, Used;
    var g, k := GraphOf(st.arena.slots), st'.newest.slot;
    AllocatedParts(st, init, st');
    GraphUpdate(st.arena.slots, k, init);
    var g' := GraphOf(st'.arena.slots);
    assert st.roots + RefSet(st'.newest) == st.roots + {k};
    if forall e :: e in Edges(init) ==> e < |g| {
      InArenaUpdate(g, k, Edges(init));
      LiveAfterAlloc(g, g', st.roots, k, Edges(init));
    } else {
      OutOfArena(g, k, Edges(init));
    }
  }

  lemma OutOfArena(g: Graph, k: nat, edges: set<nat>)
    requires k < |g|
    ensures InArena(g[k := edges]) ==> forall e :: e in edges ==> e < |g|
  {
    assert g[k := edges][k] == edges;
  }

  /** The arena after an allocation, without the new value's fields. */
  lemma AllocatedParts(st: State, init: Val, st': State)
    requires Inv(st) && Next(st, Alloc(init), st')
    ensures var (a, r) := Malloc(st.arena, st.roots);
      && r.Slot? && st'.newest == At(r.slot) && st'.roots == st.roots && r.slot < |st.arena.slots|
      && a.slots == st.arena.slots && WellFormed(a)
      && st'.arena == a.(slots := st.arena.slots[r.slot := init])
      && Used(st'.arena) == Used(a) && r.slot in Used(a) && Reachable(st) <= Used(a)
      && r.slot !in Reachable(st) && Reachable(st) == Reach(GraphOf(st.arena.slots), {}, st.roots)
    ensures WellFormed(st.arena) && Marked(st.arena.slots) == {} && InArena(GraphOf(st.arena.slots))
    ensures |st'.arena.slots| == |st'.arena.freelist| && st'.arena.used == Count(st'.arena.freelist)
    ensures |GraphOf(st.arena.slots)| == |st.arena.slots| && forall r :: r in st.roots ==> r < |st.arena.slots|
  {
    hide Reach, Malloc;
    ReachedLive(st);
    AllocationSafe(st.arena, st.roots);
  }

  /** In the usual case a new value's pointers are reachable. */
  lemma ReachablePointersKept(st: State, init: Val)
    requires Inv(st) && Edges(init) <= Reachable(st)
    ensures PointersKept(st, init)
  {
    hide Malloc, Reach;
    ReachedLive(st);
    AllocationSafe(st.arena, st.roots);
    var g := GraphOf(st.arena.slots);
    var (a, r) := Malloc(st.arena, st.roots);
    if r.Slot? {
      ReachWithin(g, st.roots);
      ReachClosed(g, st.roots);
      ReachWithinSet(g, {r.slot}, Edges(init), Reachable(st));
    }
  }

  lemma ReachedLive(st: State)
    requires Inv(st)
    ensures Reachable(st) <= Live(st)
  {
    var g := GraphOf(st.arena.slots);
    ReachClosed(g, st.roots + RefSet(st.newest));
    NothingNew(g, g, st.roots + RefSet(st.newest), st.roots);
  }

  // ---- every run ----

  ghost predicate Run(states: seq<State>, steps: seq<Step>) {
    && |states| == |steps| + 1
    && Inv(states[0])
    && forall i :: 0 <= i < |steps| ==> Enabled(states[i], steps[i]) && Next(states[i], steps[i], states[i + 1])
  }

  /** In every run the invariant holds throughout. */
  lemma {:induction false} RunKeepsInv(states: seq<State>, steps: seq<Step>, i: nat)
    requires Run(states, steps) && i < |states|
    ensures Inv(states[i])
  {
    if i > 0 {
      RunKeepsInv(states, steps, i - 1);
      InvKept(states[i - 1], steps[i - 1], states[i]);
    }
  }

  /** In every run, a slot reachable from the roots is in use, no mark is set, and the count is the number
      of used slots; a slot that a step vacates was not reachable; an allocation never hands out nor
      alters a reachable slot; an explicit collection vacates the unreachable slots before the first vacant one. */
  lemma RunSafe(states: seq<State>, steps: seq<Step>, i: nat)
    requires Run(states, steps) && i < |steps|
    ensures var st, st' := states[i], states[i + 1];
      && Reachable(st) <= Used(st.arena)
      && Marked(st.arena.slots) == {} && st.arena.used == Count(st.arena.freelist)
      && (Used(st.arena) - Used(st'.arena)) * Reachable(st) == {}
      && (steps[i].Alloc? ==>
            && |st'.arena.slots| == |st.arena.slots|
            && st'.newest.At? && st'.newest.slot !in Reachable(st)
            && (FirstVacant(st.arena.freelist) == |st.arena.freelist| ==>
                  Used(st'.arena) == Reachable(st) + {st'.newest.slot})
            && forall n :: n in Reachable(st) ==> n < |st.arena.slots| && st'.arena.slots[n] == st.arena.slots[n])
      && (steps[i].Explicit? ==>
            && st'.arena.slots == st.arena.slots
            && Used(st'.arena) == Reachable(st) + set n | n in Used(st.arena) && n >= FirstVacant(st.arena.freelist))
  {
    RunKeepsInv(states, steps, i);
    ReachedLive(states[i]);
    if steps[i].Explicit? {
      ExplicitCollects(states[i]);
    }
    if steps[i].Alloc? {
      var a, roots := states[i].arena, states[i].roots;
      AllocationSafe(a, roots);
      if FirstVacant(a.freelist) == |a.freelist| {
        TriggeredCollection(a, roots);
        CollectWellFormed(a, roots);
        TakeFromArena(Collect(a, roots));
      }
    }
  }

  // ---- explicit collections lose a live slot ----

  const PLAIN := Val(true, Null, Null, Null, Null, Null, Null, [], false)

  /** The undefined value, which gc.run() returns in a slot of its own. */
  const UNDEFINED := PLAIN.(isObj := false)

  /** A value whose only pointer is its prototype. */
  function Pointing(r: Ref): Val {
    PLAIN.(proto := r)
  }

  /** Four new objects; the first is the global object and comes to point at the last. */
  const START := State(Arena([PLAIN, PLAIN, PLAIN, PLAIN], [false, false, false, false], 0), {}, Null)
  const ONE := State(Arena([PLAIN, PLAIN, PLAIN, PLAIN], [true, false, false, false], 1), {}, At(0))
  const ROOTED := State(Arena([PLAIN, PLAIN, PLAIN, PLAIN], [true, false, false, false], 1), {0}, At(0))
  const TWO := State(Arena([PLAIN, PLAIN, PLAIN, PLAIN], [true, true, false, false], 2), {0}, At(1))
  const THREE := State(Arena([PLAIN, PLAIN, PLAIN, PLAIN], [true, true, true, false], 3), {0}, At(2))
  const FOUR := State(Arena([PLAIN, PLAIN, PLAIN, PLAIN], [true, true, true, true], 4), {0}, At(3))
  const FULL := State(Arena([Pointing(At(3)), PLAIN, PLAIN, PLAIN], [true, true, true, true], 4), {0}, At(3))

  /** The first gc.run(): a collection, then its return value takes slot 1. Slot 2 stays vacant. */
  const COLLECTED := State(Arena([Pointing(At(3)), PLAIN, PLAIN, PLAIN], [true, false, false, true], 2), {0}, Null)
  const RETURNED := State(Arena([Pointing(At(3)), UNDEFINED, PLAIN, PLAIN], [true, true, false, true], 3), {0}, At(1))

  /** The second one: slot 3, behind the vacant slot 2, keeps its mark. */
  const MARKED :=
    State(Arena([Pointing(At(3)), UNDEFINED, PLAIN, PLAIN.(marked := true)], [true, false, false, true], 2), {0}, Null)
  const RETURNED_AGAIN :=
    State(Arena([Pointing(At(3)), UNDEFINED, PLAIN, PLAIN.(marked := true)], [true, true, false, true], 3), {0}, At(1))

  /** A new object in slot 2, to which slot 3 is made to point. */
  const REFILLED :=
    State(Arena([Pointing(At(3)), UNDEFINED, PLAIN, PLAIN.(marked := true)], [true, true, true, true], 4), {0}, At(2))
  const LINKED :=
    State(Arena([Pointing(At(3)), UNDEFINED, PLAIN, Pointing(At(2)).(marked := true)], [true, true, true, true], 4), {0}, At(2))

  /** The third one: marking stops at slot 3, so slot 2 is vacated. */
  const LOST := State(Arena([Pointing(At(3)), UNDEFINED, PLAIN, Pointing(At(2))], [true, false, false, true], 2), {0}, Null)
  const LOST_RETURNED :=
    State(Arena([Pointing(At(3)), UNDEFINED, PLAIN, Pointing(At(2))], [true, true, false, true], 3), {0}, At(1))

  lemma ValueEdges(r: Ref, b: bool)
    ensures Edges(Pointing(r)) == Edges(Pointing(r).(marked := b)) == RefSet(r)
    ensures Edges(PLAIN) == Edges(PLAIN.(marked := b)) == Edges(UNDEFINED) == {}
  {
    assert PropEdges([]) == {};
  }

  lemma VacantAt(freelist: seq<bool>, h: nat)
    requires h <= |freelist| && (forall i :: 0 <= i < h ==> freelist[i]) && (h < |freelist| ==> !freelist[h])
    ensures FirstVacant(freelist) == h
  {
  }

  lemma CountFour(a: bool, b: bool, c: bool, d: bool)
    ensures Count([a, b, c, d])
         == (if a then 1 else 0) + (if b then 1 else 0) + (if c then 1 else 0) + if d then 1 else 0
  {
    assert [a, b, c, d][1..] == [b, c, d] && [b, c, d][1..] == [c, d] && [c, d][1..] == [d] && [d][1..] == [];
    assert Count([d]) == if d then 1 else 0;
    assert Count([c, d]) == (if c then 1 else 0) + Count([d]);
    assert Count([b, c, d]) == (if b then 1 else 0) + Count([c, d]);
  }

  lemma GraphFour(a: Val, b: Val, c: Val, d: Val)
    ensures GraphOf([a, b, c, d]) == [Edges(a), Edges(b), Edges(c), Edges(d)]
  {
  }

  /** A set that holds the roots, and all successors of its elements that are not avoided, holds what is reached. */
  lemma ReachWithinSet(g: Graph, m: set<nat>, from: set<nat>, s: set<nat>)
    requires from <= s && forall n :: n in s && n < |g| ==> g[n] - m <= s
    ensures Reach(g, m, from) <= s
  {
    forall n | n in Reach(g, m, from) ensures n in s {
      var p :| ReachedBy(g, m, from, p, n);
      OnlyTo(g, m, s, p, |p| - 1);
    }
  }

  /** While slot 3 points nowhere. */
  lemma ReachesLast()
    ensures Reach([{3}, {}, {}, {}], {}, {0}) == {0, 3}
  {
    var g: Graph := [{3}, {}, {}, {}];
    ReachStart(g, {}, {0}, 0);
    ReachStep(g, {}, {0}, 0, 3);
    ReachWithinSet(g, {}, {0}, {0, 3});
  }

  /** Once slot 3 points at slot 2. */
  lemma ReachesLinked()
    ensures 2 in Reach([{3}, {}, {}, {2}], {}, {0}) && Reach([{3}, {}, {}, {2}], {3}, {0}) == {0}
  {
    var g: Graph := [{3}, {}, {}, {2}];
    ReachStart(g, {}, {0}, 0);
    ReachStep(g, {}, {0}, 0, 3);
    ReachStep(g, {}, {0}, 3, 2);
    ReachStart(g, {3}, {0}, 0);
    ReachWithinSet(g, {3}, {0}, {0});
  }

  /** A collection is known by what is marked at the end of its mark phase. */
  lemma CollectIs(a: Arena, roots: set<nat>, m: set<nat>, h: nat, b: Arena)
    requires |a.slots| == |a.freelist| == |b.slots| == |b.freelist| && b.used == Count(b.freelist)
    requires MarkedAfter(a, roots) == m && FirstVacant(a.freelist) == h
    requires forall i :: 0 <= i < |b.freelist| ==> b.freelist[i] == if i < h then i in m else a.freelist[i]
    requires forall i :: 0 <= i < |b.slots| ==> b.slots[i] == a.slots[i].(marked := i >= h && i in m)
    ensures Collect(a, roots) == b
  {
    var c := Collect(a, roots);
    CollectCounts(a, roots);
    hide *;
    forall i: nat | i < |a.slots| ensures c.slots[i] == b.slots[i] && c.freelist[i] == b.freelist[i] {
      CollectExactly(a, roots, i);
    }
    assert c.slots == b.slots && c.freelist == b.freelist;
  }

  lemma CollectCounts(a: Arena, roots: set<nat>)
    requires |a.slots| == |a.freelist|
    ensures Collect(a, roots).used == Count(Collect(a, roots).freelist)
  {
  }

  /** An allocation that finds a vacant slot. */
  lemma TakeAt(st: State, h: nat, used: seq<bool>, init: Val, st': State)
    requires |st.arena.slots| == |st.arena.freelist| && FirstVacant(st.arena.freelist) == h < |st.arena.slots|
    requires used == st.arena.freelist[h := true]
    requires st' == State(Arena(st.arena.slots[h := init], used, st.arena.used + 1), st.roots, At(h))
    ensures Next(st, Alloc(init), st')
  {
  }

  lemma NoPointers(st: State, init: Val)
    requires Edges(init) == {} && !init.marked && |st.arena.slots| == |st.arena.freelist|
    ensures Enabled(st, Alloc(init))
  {
    hide Malloc, Edges;
  }

  lemma StartInv()
    ensures Inv(START)
  {
    ValueEdges(Null, false);
    CountFour(false, false, false, false);
    GraphFour(PLAIN, PLAIN, PLAIN, PLAIN);
    NothingLive(START);
  }

  lemma FirstAllocations()
    ensures Next(START, Alloc(PLAIN), ONE) && Next(ROOTED, Alloc(PLAIN), TWO)
    ensures Next(TWO, Alloc(PLAIN), THREE) && Next(THREE, Alloc(PLAIN), FOUR)
  {
    hide FirstVacant, Next;
    VacantAt(START.arena.freelist, 0);
    VacantAt(ROOTED.arena.freelist, 1);
    VacantAt(TWO.arena.freelist, 2);
    VacantAt(THREE.arena.freelist, 3);
    TakeAt(START, 0, [true, false, false, false], PLAIN, ONE);
    TakeAt(ROOTED, 1, [true, true, false, false], PLAIN, TWO);
    TakeAt(TWO, 2, [true, true, true, false], PLAIN, THREE);
    TakeAt(THREE, 3, [true, true, true, true], PLAIN, FOUR);
  }

  lemma GlobalRooted()
    ensures Enabled(ONE, SetRoots({0})) && Next(ONE, SetRoots({0}), ROOTED)
  {
    ReachStart(GraphOf(ONE.arena.slots), {}, {0}, 0);
    assert ONE.roots + RefSet(ONE.newest) == {0};
  }

  lemma GlobalPoints()
    ensures Enabled(FOUR, Write(0, Pointing(At(3)))) && Next(FOUR, Write(0, Pointing(At(3))), FULL)
  {
    ValueEdges(At(3), false);
    assert FOUR.roots + RefSet(FOUR.newest) == {0, 3};
    ReachStart(GraphOf(FOUR.arena.slots), {}, {0, 3}, 0);
    ReachStart(GraphOf(FOUR.arena.slots), {}, {0, 3}, 3);
    assert FOUR.arena.slots[0 := Pointing(At(3))] == FULL.arena.slots;
  }

  lemma MarksNone(slots: seq<Val>)
    requires forall i :: 0 <= i < |slots| ==> !slots[i].marked
    ensures Marked(slots) == {}
  {
  }

  /** In FULL and in RETURNED, what is reached from the global object is itself and slot 3. */
  lemma ReachedBefore(b: Val)
    requires b == PLAIN || b == UNDEFINED
    ensures var slots := [Pointing(At(3)), b, PLAIN, PLAIN];
      Marked(slots) == {} && GraphOf(slots) == [{3}, {}, {}, {}] && Reach(GraphOf(slots), {}, {0}) == {0, 3}
  {
    hide Reach, Edges, GraphOf;
    ValueEdges(At(3), false);
    MarksNone([Pointing(At(3)), b, PLAIN, PLAIN]);
    GraphFour(Pointing(At(3)), b, PLAIN, PLAIN);
    ReachesLast();
  }

  lemma GuardHolds(st: State, reached: set<nat>, h: nat)
    requires FirstVacant(st.arena.freelist) == h && Reach(GraphOf(st.arena.slots), {}, st.roots) == reached
    requires forall i :: i in reached ==> i < h
    ensures Enabled(st, Explicit)
  {
    hide Reach, FirstVacant;
  }

  lemma FirstCollection()
    ensures Enabled(FULL, Explicit) && Next(FULL, Explicit, COLLECTED)
  {
    hide Collect, Reach, MarkedAfter, FirstVacant, Count, Marked, Enabled, GraphOf;
    VacantAt(FULL.arena.freelist, 4);
    ReachedBefore(PLAIN);
    FromClearMarks(FULL.arena, {0});
    CountFour(true, false, false, true);
    CollectIs(FULL.arena, {0}, {0, 3}, 4, COLLECTED.arena);
    GuardHolds(FULL, {0, 3}, 4);
  }

  lemma FirstReturn()
    ensures Next(COLLECTED, Alloc(UNDEFINED), RETURNED)
  {
    hide FirstVacant, Next;
    VacantAt(COLLECTED.arena.freelist, 1);
    TakeAt(COLLECTED, 1, [true, true, false, true], UNDEFINED, RETURNED);
  }

  /** A run from a new heap arrives behind a first gc.run(), with a vacant slot in front of a reachable one. */
  lemma HoleIsReached() returns (states: seq<State>, steps: seq<Step>)
    ensures Run(states, steps) && states[0] == START && states[|steps|] == RETURNED
    ensures !NoHoleBelow(RETURNED)
  {
    hide *;
    states := [START, ONE, ROOTED, TWO, THREE, FOUR, FULL, COLLECTED, RETURNED];
    steps := [Alloc(PLAIN), SetRoots({0}), Alloc(PLAIN), Alloc(PLAIN), Alloc(PLAIN), Write(0, Pointing(At(3))),
              Explicit, Alloc(UNDEFINED)];
    StartInv();
    PlainAllocations();
    FirstAllocations();
    GlobalRooted();
    GlobalPoints();
    FirstCollection();
    FirstReturn();
    StepsAreRun(states, steps);
    HoleBefore();
  }

  lemma PlainAllocations()
    ensures Enabled(START, Alloc(PLAIN)) && Enabled(ROOTED, Alloc(PLAIN)) && Enabled(TWO, Alloc(PLAIN))
    ensures Enabled(THREE, Alloc(PLAIN)) && Enabled(COLLECTED, Alloc(UNDEFINED))
  {
    hide Edges, Enabled;
    ValueEdges(Null, false);
    NoPointers(START, PLAIN);
    NoPointers(ROOTED, PLAIN);
    NoPointers(TWO, PLAIN);
    NoPointers(THREE, PLAIN);
    NoPointers(COLLECTED, UNDEFINED);
  }

  lemma HoleBefore()
    ensures !NoHoleBelow(RETURNED) && FirstVacant(RETURNED.arena.freelist) == 2
  {
    hide FirstVacant, Reach, GraphOf, Marked;
    VacantAt(RETURNED.arena.freelist, 2);
    ReachedBefore(UNDEFINED);
    assert 3 in Reachable(RETURNED);
  }

  lemma StepsAreRun(states: seq<State>, steps: seq<Step>)
    requires |states| == |steps| + 1 && Inv(states[0])
    requires forall i :: 0 <= i < |steps| ==> Enabled(states[i], steps[i]) && Next(states[i], steps[i], states[i + 1])
    ensures Run(states, steps)
  {
  }

  /** A second gc.run() there leaves slot 3 marked. */
  lemma SecondRunLeavesMark()
    ensures Next(RETURNED, Explicit, MARKED) && Next(MARKED, Alloc(UNDEFINED), RETURNED_AGAIN)
    ensures Marked(RETURNED_AGAIN.arena.slots) == {3}
  {
    MarksLast(PLAIN);
    hide Collect, Reach, MarkedAfter, FirstVacant, Count, Marked, GraphOf;
    HoleBefore();
    ReachedBefore(UNDEFINED);
    FromClearMarks(RETURNED.arena, {0});
    CountFour(true, false, false, true);
    CollectIs(RETURNED.arena, {0}, {0, 3}, 2, MARKED.arena);
    VacantAt(MARKED.arena.freelist, 1);
    TakeAt(MARKED, 1, [true, true, false, true], UNDEFINED, RETURNED_AGAIN);
  }

  lemma MarksLast(v: Val)
    requires !v.marked
    ensures Marked([Pointing(At(3)), UNDEFINED, PLAIN, v.(marked := true)]) == {3}
  {
    var slots := [Pointing(At(3)), UNDEFINED, PLAIN, v.(marked := true)];
    forall i: nat | i < 4 ensures slots[i].marked <==> i == 3 {}
    assert 3 in Marked(slots);
  }

  /** A new object is then linked behind the stale mark. */
  lemma LinkedBehindMark()
    ensures Next(RETURNED_AGAIN, Alloc(PLAIN), REFILLED)
    ensures Next(REFILLED, Write(3, Pointing(At(2)).(marked := true)), LINKED)
  {
    hide FirstVacant;
    VacantAt(RETURNED_AGAIN.arena.freelist, 2);
    TakeAt(RETURNED_AGAIN, 2, [true, true, true, true], PLAIN, REFILLED);
    assert REFILLED.arena.slots[3 := Pointing(At(2)).(marked := true)] == LINKED.arena.slots;
  }

  /** The third gc.run() vacates slot 2, which is reachable. */
  lemma ThirdRunLosesSlot()
    ensures 2 in Reachable(LINKED) && 2 in Used(LINKED.arena)
    ensures Next(LINKED, Explicit, LOST) && Next(LOST, Alloc(UNDEFINED), LOST_RETURNED)
    ensures 2 in Reachable(LOST_RETURNED) && 2 !in Used(LOST_RETURNED.arena)
  {
    MarksLast(Pointing(At(2)));
    hide Collect, Reach, FirstVacant, Count, Marked, GraphOf, Edges;
    ValueEdges(At(3), false);
    ValueEdges(At(2), true);
    ReachesLinked();
    GraphFour(Pointing(At(3)), UNDEFINED, PLAIN, Pointing(At(2)).(marked := true));
    GraphFour(Pointing(At(3)), UNDEFINED, PLAIN, Pointing(At(2)));
    VacantAt(LINKED.arena.freelist, 4);
    CountFour(true, false, false, true);
    assert MarkedAfter(LINKED.arena, {0}) == {0, 3};
    CollectIs(LINKED.arena, {0}, {0, 3}, 4, LOST.arena);
    VacantAt(LOST.arena.freelist, 1);
    TakeAt(LOST, 1, [true, true, false, true], UNDEFINED, LOST_RETURNED);
  }

  /** After the run of HoleIsReached, two more calls of gc.run() (src/runtime/lib/gc.c), each a collection and
      the allocation of its return value, lose a live slot: the first leaves slot 3 marked behind the vacant
      slot 2, so the second does not look at what slot 3 points to. */
  lemma ExplicitRunsLoseLiveSlot()
    ensures !NoHoleBelow(RETURNED)
    ensures Next(RETURNED, Explicit, MARKED) && Next(MARKED, Alloc(UNDEFINED), RETURNED_AGAIN)
    ensures Next(RETURNED_AGAIN, Alloc(PLAIN), REFILLED)
    ensures Next(REFILLED, Write(3, Pointing(At(2)).(marked := true)), LINKED)
    ensures Next(LINKED, Explicit, LOST) && Next(LOST, Alloc(UNDEFINED), LOST_RETURNED)
    ensures 2 in Reachable(LINKED) && 2 in Used(LINKED.arena)
    ensures 2 in Reachable(LOST_RETURNED) && 2 !in Used(LOST_RETURNED.arena)
  {
    hide *;
    HoleBefore();
    SecondRunLeavesMark();
    LinkedBehindMark();
    ThirdRunLosesSlot();
  }

  // ---- a prototype that is no longer reachable ----

  /** A full arena in which nothing but the global object is reachable; slot 2 is a prototype that the
      interpreter still remembers. */
  const FORGOTTEN := State(Arena([PLAIN, PLAIN, PLAIN, PLAIN], [true, true, true, true], 4), {0}, Null)

  /** The next object with that prototype points at a slot that was vacated on its behalf. */
  lemma ForgottenPrototype(st: State)
    requires Next(FORGOTTEN, Alloc(Pointing(At(2))), st)
    ensures Inv(FORGOTTEN) && !PointersKept(FORGOTTEN, Pointing(At(2))) && !Inv(st)
    ensures 2 !in Used(st.arena) && st.newest == At(1) && At(2) == st.arena.slots[1].proto
  {
    hide Collect, Reach, MarkedAfter, FirstVacant, Count, Marked, GraphOf, Edges;
    ForgottenInv();
    var a := FORGOTTEN.arena;
    var b := Arena(a.slots, [true, false, false, false], 1);
    VacantAt(a.freelist, 4);
    VacantAt(b.freelist, 1);
    CountFour(true, false, false, false);
    ForgottenReach();
    FromClearMarks(a, {0});
    CollectIs(a, {0}, {0}, 4, b);
    ValueEdges(At(2), false);
    ReachStart(GraphOf(a.slots), {1}, {2}, 2);
    assert Malloc(a, {0}) == Take(b);
    assert !PointersKept(FORGOTTEN, Pointing(At(2)));
    AllocKeepsInvIff(FORGOTTEN, Pointing(At(2)), st);
  }

  lemma ForgottenReach()
    ensures Marked(FORGOTTEN.arena.slots) == {} && GraphOf(FORGOTTEN.arena.slots) == [{}, {}, {}, {}]
    ensures Reach([{}, {}, {}, {}], {}, {0}) == {0}
  {
    hide Reach, Edges, GraphOf;
    ValueEdges(Null, false);
    MarksNone(FORGOTTEN.arena.slots);
    GraphFour(PLAIN, PLAIN, PLAIN, PLAIN);
    ReachStart([{}, {}, {}, {}], {}, {0}, 0);
    ReachWithinSet([{}, {}, {}, {}], {}, {0}, {0});
  }

  lemma ForgottenInv()
    ensures Inv(FORGOTTEN)
  {
    hide Reach, GraphOf;
    ForgottenReach();
    CountFour(true, true, true, true);
    assert FORGOTTEN.roots + RefSet(FORGOTTEN.newest) == {0};
  }
}
