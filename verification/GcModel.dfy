/** The arena of src/gc.c as a value: slots that point at slots, what a mark phase reaches, what a
    sweep vacates, and what an allocation hands out. A pointer to a js_val is the index of its slot. */
module GcModel {

  datatype Ref = Null | At(slot: nat)

  datatype Prop = Prop(ptr: Ref, circular: bool)

  /** The parts of a js_val that the collector looks at; a NULL map is an empty `props`. */
  datatype Val = Val(
    isObj: bool, proto: Ref,
    primitive: Ref, boundThis: Ref, scope: Ref, instance: Ref, parent: Ref,
    props: seq<Prop>,
    marked: bool)

  // ---- the graph of slots ----

  type Graph = seq<set<nat>>

  function RefSet(r: Ref): set<nat> {
    if r.Null? then {} else {r.slot}
  }

  function PropEdges(ps: seq<Prop>): set<nat> {
    set j | 0 <= j < |ps| && ps[j].ptr.At? && !ps[j].circular :: ps[j].ptr.slot
  }

  function ObjectEdges(v: Val): set<nat> {
    if v.isObj then
      RefSet(v.primitive) + RefSet(v.boundThis) + RefSet(v.scope) + RefSet(v.instance) + RefSet(v.parent)
    else {}
  }

  /** The slots the mark phase visits from a value. */
  function Edges(v: Val): set<nat> {
    RefSet(v.proto) + ObjectEdges(v) + PropEdges(v.props)
  }

  /** Field by field: the prototype of any value, the five references of an object, and every property whose
      value is not the object that holds it. */
  lemma EdgesAre(v: Val, k: nat)
    ensures k in Edges(v) <==>
      || v.proto == At(k)
      || (v.isObj && (v.primitive == At(k) || v.boundThis == At(k) || v.scope == At(k) || v.instance == At(k) || v.parent == At(k)))
      || Prop(At(k), false) in v.props
  {
    if Prop(At(k), false) in v.props {
      var j :| 0 <= j < |v.props| && v.props[j] == Prop(At(k), false);
      assert k in PropEdges(v.props);
    }
  }

  function GraphOf(slots: seq<Val>): (g: Graph)
    ensures |g| == |slots|
    ensures forall i :: 0 <= i < |g| ==> g[i] == Edges(slots[i])
  {
    seq(|slots|, i requires 0 <= i < |slots| => Edges(slots[i]))
  }

  /** No pointer leaves the arena. */
  ghost predicate InArena(g: Graph) {
    forall i, j :: 0 <= i < |g| && j in g[i] ==> j < |g|
  }

  function Marked(slots: seq<Val>): (m: set<nat>) {
    set i | 0 <= i < |slots| && slots[i].marked
  }

  ghost predicate PathAvoiding(g: Graph, m: set<nat>, p: seq<nat>) {
    && |p| > 0
    && (forall i :: 0 <= i < |p| ==> p[i] < |g| && p[i] !in m)
    && (forall i :: 0 <= i < |p| - 1 ==> p[i + 1] in g[p[i]])
  }

  ghost predicate ReachedBy(g: Graph, m: set<nat>, from: set<nat>, p: seq<nat>, n: nat) {
    PathAvoiding(g, m, p) && p[0] in from && p[|p| - 1] == n
  }

  ghost predicate Reaches(g: Graph, m: set<nat>, from: set<nat>, n: nat) {
    exists p :: ReachedBy(g, m, from, p, n)
  }

  /** The slots reachable from `from` along slots outside `m`. */
  ghost function Reach(g: Graph, m: set<nat>, from: set<nat>): set<nat> {
    set n | 0 <= n < |g| && Reaches(g, m, from, n)
  }

  lemma ReachStart(g: Graph, m: set<nat>, from: set<nat>, n: nat)
    requires n in from && n < |g| && n !in m
    ensures n in Reach(g, m, from)
  {
    assert ReachedBy(g, m, from, [n], n);
  }

  lemma ReachStep(g: Graph, m: set<nat>, from: set<nat>, a: nat, b: nat)
    requires a in Reach(g, m, from) && b in g[a] && b < |g| && b !in m
    ensures b in Reach(g, m, from)
  {
    var p :| ReachedBy(g, m, from, p, a);
    assert ReachedBy(g, m, from, p + [b], b);
  }

  /** What is reached from a slot that is itself reached is reached, however much the second search avoids. */
  lemma ReachVia(g: Graph, m: set<nat>, from: set<nat>, m': set<nat>, from': set<nat>, n: nat)
    requires m <= m' && n in Reach(g, m', from')
    requires forall a :: a in from' && a < |g| && a !in m' ==> a in Reach(g, m, from)
    ensures n in Reach(g, m, from)
  {
    var p :| ReachedBy(g, m', from', p, n);
    ReachAlong(g, m, from, p, |p| - 1);
  }

  lemma {:induction false} ReachAlong(g: Graph, m: set<nat>, from: set<nat>, p: seq<nat>, i: nat)
    requires PathAvoiding(g, m, p) && p[0] in Reach(g, m, from) && i < |p|
    ensures p[i] in Reach(g, m, from)
  {
    if i > 0 {
      ReachAlong(g, m, from, p, i - 1);
      ReachStep(g, m, from, p[i - 1], p[i]);
    }
  }

  lemma {:induction false} ClosedAlong(g: Graph, m: set<nat>, m': set<nat>, p: seq<nat>, i: nat)
    requires PathAvoiding(g, m, p) && p[0] in m' && i < |p|
    requires forall n :: n in m' && n !in m && n < |g| ==> g[n] <= m'
    ensures p[i] in m'
  {
    if i > 0 {
      ClosedAlong(g, m, m', p, i - 1);
    }
  }

  /** A set that grew from `m` by reached slots only, contains `from` and is closed where it grew, is everything reached. */
  lemma MarkedIsReached(g: Graph, m: set<nat>, from: set<nat>, m': set<nat>)
    requires m <= m' && from <= m'
    requires forall n :: n in m' && n !in m ==> n in Reach(g, m, from)
    requires forall n :: n in m' && n !in m ==> n < |g| && g[n] <= m'
    ensures m' == m + Reach(g, m, from)
  {
    forall n | n in Reach(g, m, from) ensures n in m' {
      var p :| ReachedBy(g, m, from, p, n);
      ClosedAlong(g, m, m', p, |p| - 1);
    }
  }

  // ---- collecting and allocating, as functions on the arena ----

  datatype Arena = Arena(slots: seq<Val>, freelist: seq<bool>, used: nat)

  datatype AllocResult = Slot(slot: nat) | OutOfMemory

  function Count(used: seq<bool>): nat {
    if used == [] then 0 else (if used[0] then 1 else 0) + Count(used[1..])
  }

  function FirstVacant(freelist: seq<bool>): (h: nat)
    ensures h <= |freelist|
    ensures forall i :: 0 <= i < h ==> freelist[i]
    ensures h < |freelist| ==> !freelist[h]
  {
    if freelist == [] || !freelist[0] then 0 else 1 + FirstVacant(freelist[1..])
  }

  ghost predicate WellFormed(a: Arena) {
    |a.slots| == |a.freelist| && InArena(GraphOf(a.slots)) && a.used == Count(a.freelist)
  }

  /** The slots marked by a mark phase from `roots`. */
  ghost function MarkPhase(slots: seq<Val>, roots: set<nat>): (t: seq<Val>)
    ensures |t| == |slots|
  {
    var reached := Reach(GraphOf(slots), Marked(slots), roots);
    seq(|slots|, i requires 0 <= i < |slots| => slots[i].(marked := slots[i].marked || i in reached))
  }

  /** Slots `0..h` swept: the unmarked ones are vacant and the marks are cleared. */
  function SweptTo(a: Arena, h: nat): (b: Arena)
    requires |a.slots| == |a.freelist|
    ensures |b.slots| == |b.freelist| == |a.slots|
  {
    var freelist := seq(|a.freelist|, i requires 0 <= i < |a.freelist| => if i < h then a.slots[i].marked else a.freelist[i]);
    Arena(
      seq(|a.slots|, i requires 0 <= i < |a.slots| => if i < h then a.slots[i].(marked := false) else a.slots[i]),
      freelist,
      Count(freelist))
  }

  /** The sweep stops at the first vacant slot. */
  function SweepPhase(a: Arena): (b: Arena)
    requires |a.slots| == |a.freelist|
    ensures |b.slots| == |b.freelist| == |a.slots|
  {
    SweptTo(a, FirstVacant(a.freelist))
  }

  ghost function Collect(a: Arena, roots: set<nat>): (b: Arena)
    requires |a.slots| == |a.freelist|
    ensures |b.slots| == |b.freelist| == |a.slots|
  {
    SweepPhase(a.(slots := MarkPhase(a.slots, roots)))
  }

  function Take(a: Arena): (Arena, AllocResult)
    requires |a.slots| == |a.freelist|
  {
    var h := FirstVacant(a.freelist);
    if h < |a.freelist| then (a.(freelist := a.freelist[h := true], used := a.used + 1), Slot(h))
    else (a, OutOfMemory)
  }

  /** First fit; when every slot is in use, one collection and a second try. */
  ghost function Malloc(a: Arena, roots: set<nat>): (Arena, AllocResult)
    requires |a.slots| == |a.freelist|
  {
    if FirstVacant(a.freelist) < |a.freelist| then Take(a) else Take(Collect(a, roots))
  }

  /** A vacant slot is handed out without a collection, the first one first; a full arena is collected, once. */
  lemma FirstFit(a: Arena, roots: set<nat>, h: nat)
    requires |a.slots| == |a.freelist| && h <= |a.freelist| && forall i :: 0 <= i < h ==> a.freelist[i]
    ensures h < |a.freelist| && !a.freelist[h] ==>
      Malloc(a, roots) == (Arena(a.slots, a.freelist[h := true], a.used + 1), Slot(h))
    ensures h == |a.freelist| ==> Malloc(a, roots) == Take(Collect(a, roots))
  {
    assert h < |a.freelist| && !a.freelist[h] ==> FirstVacant(a.freelist) == h;
  }

  lemma {:induction false} CountUpdate(used: seq<bool>, i: nat, b: bool)
    requires i < |used|
    ensures Count(used[i := b]) == Count(used) - (if used[i] then 1 else 0) + (if b then 1 else 0)
    ensures used[i] ==> Count(used) > 0
  {
    if i == 0 {
      assert used[i := b][1..] == used[1..];
    } else {
      assert used[i := b][1..] == used[1..][i - 1 := b];
      CountUpdate(used[1..], i - 1, b);
    }
  }

  lemma SweptNone(a: Arena)
    requires |a.slots| == |a.freelist| && a.used == Count(a.freelist)
    ensures SweptTo(a, 0) == a
  {
    var b := SweptTo(a, 0);
    assert b.slots == a.slots && b.freelist == a.freelist;
  }

  /** Sweeping one more slot. */
  lemma SweptNext(a: Arena, i: nat)
    requires |a.slots| == |a.freelist| && i < |a.slots| && a.freelist[i]
    ensures var b, c := SweptTo(a, i), SweptTo(a, i + 1);
      && b.freelist[i] && b.slots[i] == a.slots[i] && b.used > 0
      && c == if a.slots[i].marked then b.(slots := b.slots[i := a.slots[i].(marked := false)])
              else b.(freelist := b.freelist[i := false], used := b.used - 1)
  {
    var b, c := SweptTo(a, i), SweptTo(a, i + 1);
    CountUpdate(b.freelist, i, false);
    if a.slots[i].marked {
      assert c.freelist == b.freelist && c.slots == b.slots[i := a.slots[i].(marked := false)];
    } else {
      assert c.freelist == b.freelist[i := false] && c.slots == b.slots;
    }
  }

  lemma VacantAfter(a: Arena, i: nat)
    requires |a.slots| == |a.freelist| && i <= FirstVacant(a.freelist)
    ensures i < |a.slots| ==> SweptTo(a, i).freelist[i] == a.freelist[i]
    ensures i == |a.slots| || (i < |a.slots| && !a.freelist[i]) ==> i == FirstVacant(a.freelist)
    ensures i < |a.slots| && a.freelist[i] ==> i + 1 <= FirstVacant(a.freelist)
  {
  }

  lemma CollectWellFormed(a: Arena, roots: set<nat>)
    requires WellFormed(a)
    ensures WellFormed(Collect(a, roots))
  {
    assert GraphOf(Collect(a, roots).slots) == GraphOf(a.slots);
  }
}
