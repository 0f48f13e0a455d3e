/** The mark phase of src/gc.c: a recursive walk that sets the marks in place. */
module GcMark {
  import opened GcModel

  ghost predicate SameButMarks(s: seq<Val>, t: seq<Val>) {
    |s| == |t| && forall i :: 0 <= i < |s| ==> t[i] == s[i].(marked := t[i].marked)
  }

  ghost function Unmarked(slots: seq<Val>): set<nat> {
    set i | 0 <= i < |slots| && !slots[i].marked
  }

  lemma SameGraph(s: seq<Val>, t: seq<Val>)
    requires SameButMarks(s, t)
    ensures GraphOf(s) == GraphOf(t)
  {
  }

  /** Where the walk stands: `now` was `before`, the marks grew from `m` by slots reached from `from`,
      `done` is marked, and every new mark except `open` has all its successors marked. */
  ghost predicate Walk(before: seq<Val>, now: seq<Val>, m: set<nat>, from: set<nat>, done: set<nat>, open: set<nat>) {
    && SameButMarks(before, now)
    && m + done <= Marked(now)
    && (forall n :: n in Marked(now) && n !in m ==> n in Reach(GraphOf(before), m, from))
    && (forall n :: n in Marked(now) && n !in m && n !in open ==> GraphOf(before)[n] <= Marked(now))
  }

  /** fh_gc_mark: marks everything reached from `val` through slots that are not marked yet. */
  method Mark(slots: array<Val>, val: Ref)
    requires InArena(GraphOf(slots[..])) && (val.At? ==> val.slot < slots.Length)
    modifies slots
    ensures Walk(old(slots[..]), slots[..], old(Marked(slots[..])), RefSet(val), RefSet(val), {})
    decreases Unmarked(slots[..]), 0
  {
    hide *;
    if val.Null? || slots[val.slot].marked {
      NothingToDo(slots[..], val);
      return;
    }
    var i := val.slot;
    ghost var before, m := slots[..], Marked(slots[..]);
    slots[i] := slots[i].(marked := true);
    var v := slots[i];
    SelfMarked(before, slots[..], m, i);
    EdgesOf(before[i]);
    MarkChild(slots, v.proto, before, m, i, {i});
    ghost var done := {i} + RefSet(v.proto);
    if v.isObj {
      MarkChild(slots, v.primitive, before, m, i, done);
      done := done + RefSet(v.primitive);
      MarkChild(slots, v.boundThis, before, m, i, done);
      done := done + RefSet(v.boundThis);
      MarkChild(slots, v.scope, before, m, i, done);
      done := done + RefSet(v.scope);
      MarkChild(slots, v.instance, before, m, i, done);
      done := done + RefSet(v.instance);
      MarkChild(slots, v.parent, before, m, i, done);
      done := done + RefSet(v.parent);
    }
    MarkProps(slots, v.props, before, m, i, done);
    WalkDone(before, slots[..], m, i, done + PropEdges(v.props));
    SlotSet(val);
  }

  lemma SlotSet(r: Ref)
    requires r.At?
    ensures RefSet(r) == {r.slot}
  {
  }

  /** The loop of fh_gc_mark over the properties. */
  method MarkProps(slots: array<Val>, props: seq<Prop>,
                   ghost before: seq<Val>, ghost m: set<nat>, ghost i: nat, ghost done: set<nat>)
    requires InArena(GraphOf(before)) && i < |before| && props == before[i].props
    requires Walk(before, slots[..], m, {i}, done, {i}) && i in done && i !in m
    requires Unmarked(slots[..]) < Unmarked(before)
    modifies slots
    ensures Walk(before, slots[..], m, {i}, done + PropEdges(props), {i})
    decreases Unmarked(slots[..]), 2
  {
    hide *;
    ghost var start := Unmarked(slots[..]);
    var k := 0;
    NoProps(props);
    assert done + {} == done;
    while k < |props|
      invariant 0 <= k <= |props|
      invariant Walk(before, slots[..], m, {i}, done + PropEdges(props[..k]), {i})
      invariant Unmarked(slots[..]) <= start
    {
      OneMoreProp(before[i], k);
      if props[k].ptr.At? && !props[k].circular {
        MarkChild(slots, props[k].ptr, before, m, i, done + PropEdges(props[..k]));
        assert done + PropEdges(props[..k]) + RefSet(props[k].ptr) == done + PropEdges(props[..k + 1]);
      } else {
        assert PropEdges(props[..k + 1]) == PropEdges(props[..k]);
      }
      k := k + 1;
    }
    assert props[..k] == props;
  }

  lemma NothingToDo(slots: seq<Val>, val: Ref)
    requires val.At? ==> val.slot < |slots| && slots[val.slot].marked
    ensures Walk(slots, slots, Marked(slots), RefSet(val), RefSet(val), {})
  {
  }

  lemma EdgesOf(v: Val)
    ensures RefSet(v.proto) <= Edges(v)
    ensures v.isObj ==> RefSet(v.primitive) + RefSet(v.boundThis) + RefSet(v.scope) + RefSet(v.instance) + RefSet(v.parent) <= Edges(v)
    ensures Edges(v) == RefSet(v.proto) + PropEdges(v.props) +
      if v.isObj then RefSet(v.primitive) + RefSet(v.boundThis) + RefSet(v.scope) + RefSet(v.instance) + RefSet(v.parent) else {}
  {
  }

  lemma NoProps(ps: seq<Prop>)
    ensures PropEdges(ps[..0]) == {}
  {
  }

  lemma OneMoreProp(v: Val, k: nat)
    requires k < |v.props|
    ensures PropEdges(v.props[..k + 1]) == PropEdges(v.props[..k]) +
      if v.props[k].ptr.At? && !v.props[k].circular then RefSet(v.props[k].ptr) else {}
    ensures v.props[k].ptr.At? && !v.props[k].circular ==> RefSet(v.props[k].ptr) <= Edges(v)
  {
    var ps, qs := v.props[..k + 1], v.props[..k];
    assert ps[k] == v.props[k] && qs == ps[..k];
    forall j | 0 <= j < |qs| ensures ps[j] == qs[j] {}
    if v.props[k].ptr.At? && !v.props[k].circular {
      assert v.props[k].ptr.slot in PropEdges(v.props);
    }
  }

  lemma WalkDone(before: seq<Val>, now: seq<Val>, m: set<nat>, i: nat, done: set<nat>)
    requires i < |before| && i in done && Walk(before, now, m, {i}, done, {i}) && Edges(before[i]) <= done
    ensures Walk(before, now, m, {i}, {i}, {})
  {
  }

  lemma SelfMarked(before: seq<Val>, now: seq<Val>, m: set<nat>, i: nat)
    requires i < |before| && !before[i].marked && now == before[i := before[i].(marked := true)] && m == Marked(before)
    ensures Walk(before, now, m, {i}, {i}, {i})
    ensures Unmarked(now) < Unmarked(before) && i !in m
  {
    forall n | n in Marked(now) && n !in m ensures n == i {}
    ReachStart(GraphOf(before), m, {i}, i);
    assert i in Unmarked(before) && i !in Unmarked(now);
  }

  /** Marks one successor of slot `i` in the middle of its walk. */
  method MarkChild(slots: array<Val>, child: Ref,
                   ghost before: seq<Val>, ghost m: set<nat>, ghost i: nat, ghost done: set<nat>)
    requires InArena(GraphOf(before)) && i < |before|
    requires RefSet(child) <= Edges(before[i])
    requires Walk(before, slots[..], m, {i}, done, {i}) && i in done && i !in m
    requires Unmarked(slots[..]) < Unmarked(before)
    modifies slots
    ensures Walk(before, slots[..], m, {i}, done + RefSet(child), {i})
    ensures Unmarked(slots[..]) <= old(Unmarked(slots[..]))
    decreases Unmarked(slots[..]), 1
  {
    ghost var mid := slots[..];
    SameGraph(before, mid);
    Mark(slots, child);
    WalkThrough(before, mid, slots[..], m, i, done, child);
  }

  lemma WalkThrough(before: seq<Val>, mid: seq<Val>, now: seq<Val>, m: set<nat>, i: nat, done: set<nat>, child: Ref)
    requires i < |before| && RefSet(child) <= Edges(before[i]) && i in done && i !in m && InArena(GraphOf(before))
    requires Walk(before, mid, m, {i}, done, {i})
    requires Walk(mid, now, Marked(mid), RefSet(child), RefSet(child), {})
    requires Unmarked(mid) < Unmarked(before)
    ensures Walk(before, now, m, {i}, done + RefSet(child), {i})
    ensures Unmarked(now) <= Unmarked(mid)
  {
    var g := GraphOf(before);
    SameGraph(before, mid);
    assert i in Marked(mid);
    forall n | n in Marked(now) && n !in m ensures n in Reach(g, m, {i}) {
      if n !in Marked(mid) {
        forall a | a in RefSet(child) && a < |g| && a !in Marked(mid) ensures a in Reach(g, m, {i}) {
          ReachStep(g, m, {i}, i, a);
        }
        ReachVia(g, m, {i}, Marked(mid), RefSet(child), n);
      }
    }
    forall n | n in Marked(now) && n !in m && n !in {i} ensures g[n] <= Marked(now) {
      if n in Marked(mid) {
        assert g[n] <= Marked(mid);
      }
    }
    assert Unmarked(now) <= Unmarked(mid) by {
      forall n | n in Unmarked(now) ensures n in Unmarked(mid) {
        assert n !in Marked(now);
      }
    }
  }

  lemma MoreRoots(g: Graph, m: set<nat>, from: set<nat>, from': set<nat>, n: nat)
    requires from <= from' && n in Reach(g, m, from)
    ensures n in Reach(g, m, from')
  {
    var p :| ReachedBy(g, m, from, p, n);
    assert ReachedBy(g, m, from', p, n);
  }

  /** Marking from one root after others is marking from all of them. */
  lemma NextRoot(before: seq<Val>, mid: seq<Val>, now: seq<Val>, m: set<nat>, from: set<nat>, r: set<nat>)
    requires Walk(before, mid, m, from, from, {})
    requires Walk(mid, now, Marked(mid), r, r, {})
    ensures Walk(before, now, m, from + r, from + r, {})
  {
    var g := GraphOf(before);
    SameGraph(before, mid);
    forall n | n in Marked(now) && n !in m ensures n in Reach(g, m, from + r) {
      if n in Marked(mid) {
        MoreRoots(g, m, from, from + r, n);
      } else {
        forall a | a in r && a < |g| && a !in Marked(mid) ensures a in Reach(g, m, from + r) {
          ReachStart(g, m, from + r, a);
        }
        ReachVia(g, m, from + r, Marked(mid), r, n);
      }
    }
    forall n | n in Marked(now) && n !in m ensures g[n] <= Marked(now) {
      if n in Marked(mid) {
        assert g[n] <= Marked(mid);
      }
    }
  }

  /** A finished walk is the mark phase. */
  lemma WalkIsMarkPhase(before: seq<Val>, now: seq<Val>, roots: set<nat>)
    requires Walk(before, now, Marked(before), roots, roots, {})
    ensures now == MarkPhase(before, roots)
  {
    MarkedIsReached(GraphOf(before), Marked(before), roots, Marked(now));
    forall i | 0 <= i < |before|
      ensures now[i].marked == (before[i].marked || i in Reach(GraphOf(before), Marked(before), roots))
    {
      assert now[i].marked <==> i in Marked(now);
      assert before[i].marked <==> i in Marked(before);
    }
  }
}
