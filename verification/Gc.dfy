/** The arena of src/gc.c with its in-place sweep, collection and first-fit allocation. */
module Gc {
  import opened GcModel
  import opened GcMark
  import opened GcRuns

  datatype GcState = STARTING | MARK | SWEEP | NONE

  /** The interpreter state the collector works on: one arena, the global object, the callstack's scopes. */
  class Heap {
    const slots: array<Val>
    const freelist: array<bool>
    var usedSlots: nat
    var global: Ref
    var callstack: seq<Ref>   // the scope of every eval_state, innermost first
    var gcState: GcState

    ghost function Value(): Arena
      reads this, slots, freelist
    {
      Arena(slots[..], freelist[..], usedSlots)
    }

    ghost function Roots(): set<nat>
      reads `global, `callstack
    {
      RefSet(global) + RefSets(callstack)
    }

    ghost predicate Valid()
      reads this, slots, freelist
    {
      && WellFormed(Value())
      && gcState == NONE
      && forall r :: r in Roots() ==> r < slots.Length
    }

    /** fh_new_arena: all slots vacant. */
    constructor (n: nat, blank: Val)
      requires Edges(blank) == {} && !blank.marked
      ensures Valid() && fresh(slots) && fresh(freelist)
      ensures Inv(State(Value(), Roots(), Null))
      ensures slots.Length == n && global == Null && callstack == []
      ensures forall i :: 0 <= i < n ==> slots[i] == blank && !freelist[i]
    {
      slots := new Val[n](_ => blank);
      freelist := new bool[n](_ => false);
      usedSlots, global, callstack, gcState := 0, Null, [], NONE;
      new;
      NoneUsed(freelist[..]);
      NothingLive(State(Value(), Roots(), Null));
    }

    /** fh_gc_sweep. */
    method Sweep()
      requires WellFormed(Value())
      modifies `usedSlots, slots, freelist
      ensures Value() == SweepPhase(old(Value()))
    {
      hide *;
      ghost var a := Value();
      HeapParts(this);
      SweptNone(a);
      var i := 0;
      while i < slots.Length
        invariant 0 <= i <= slots.Length == freelist.Length == |a.slots| == |a.freelist|
        invariant i <= FirstVacant(a.freelist)
        invariant Arena(slots[..], freelist[..], usedSlots) == SweptTo(a, i)
      {
        VacantAfter(a, i);
        if !freelist[i] {
          break;
        }
        SweptNext(a, i);
        ghost var b := SweptTo(a, i);
        var val := slots[i];
        if !val.marked {
          freelist[i] := false;
          usedSlots := usedSlots - 1;
          assert freelist[..] == b.freelist[i := false];
        } else {
          slots[i] := slots[i].(marked := false);
          assert slots[..] == b.slots[i := val.(marked := false)];
        }
        i := i + 1;
      }
      VacantAfter(a, i);
      SweptAll(a);
      HeapIs(this);
    }

    /** The mark phase of fh_gc: the global object, then every scope on the callstack. */
    method MarkRoots()
      requires WellFormed(Value()) && forall r :: r in Roots() ==> r < slots.Length
      modifies slots
      ensures slots[..] == MarkPhase(old(slots[..]), Roots())
    {
      hide *;
      ghost var before, from := slots[..], RefSet(global);
      RootsInArena(this);
      Mark(slots, global);
      var top := 0;
      assert callstack[..0] == [];
      NoRefs();
      assert from + {} == from;
      while top < |callstack|
        invariant 0 <= top <= |callstack|
        invariant Walk(before, slots[..], Marked(before), from + RefSets(callstack[..top]), from + RefSets(callstack[..top]), {})
      {
        ghost var mid := slots[..];
        WalkGraph(before, mid, Marked(before), from + RefSets(callstack[..top]));
        Mark(slots, callstack[top]);
        NextRoot(before, mid, slots[..], Marked(before), from + RefSets(callstack[..top]), RefSet(callstack[top]));
        RefSetsSnoc(callstack, top);
        assert from + RefSets(callstack[..top]) + RefSet(callstack[top]) == from + RefSets(callstack[..top + 1]);
        top := top + 1;
      }
      assert callstack[..top] == callstack;
      RootsAre(this);
      WalkIsMarkPhase(before, slots[..], Roots());
    }

    /** fh_gc: one collection. */
    method Gc()
      requires Valid()
      modifies `usedSlots, `gcState, slots, freelist
      ensures Valid() && Value() == Collect(old(Value()), Roots())
    {
      ghost var a := Value();
      gcState := STARTING;
      gcState := MARK;
      MarkRoots();
      gcState := SWEEP;
      SameButMarksWellFormed(a, Value(), Roots());
      Sweep();
      gcState := NONE;
      CollectWellFormed(a, Roots());
    }

    /** fh_malloc: first fit, with one collection when no slot is vacant. */
    method Malloc(firstAttempt: bool) returns (r: AllocResult)
      requires Valid()
      modifies `usedSlots, `gcState, slots, freelist
      ensures Valid()
      ensures (Value(), r) == if firstAttempt then GcModel.Malloc(old(Value()), Roots()) else Take(old(Value()))
      decreases firstAttempt
    {
      var i := 0;
      while i < slots.Length
        invariant 0 <= i <= slots.Length
        invariant forall j :: 0 <= j < i ==> freelist[j]
      {
        if !freelist[i] {
          CountUpdate(freelist[..], i, true);
          ghost var before := freelist[..];
          freelist[i] := true;
          usedSlots := usedSlots + 1;
          assert freelist[..] == before[i := true];
          return Slot(i);
        }
        i := i + 1;
      }
      assert FirstVacant(freelist[..]) == |freelist[..]|;
      if firstAttempt {
        Gc();
        r := Malloc(false);
      } else {
        r := OutOfMemory;
      }
    }

    /** fh_new_object: an allocation, after which every field of the slot is set. It is the allocation
        step of a run. */
    method NewObject(init: Val, ghost newest: Ref) returns (r: AllocResult)
      requires Valid() && forall k :: k in Edges(init) ==> k < slots.Length
      modifies `usedSlots, `gcState, slots, freelist
      ensures Valid()
      ensures r == GcModel.Malloc(old(Value()), Roots()).1
      ensures r.Slot? ==>
        Next(State(old(Value()), Roots(), newest), Alloc(init), State(Value(), Roots(), At(r.slot)))
    {
      MallocResult(Value(), Roots());
      r := Malloc(true);
      if r.Slot? {
        ghost var a := Value();
        slots[r.slot] := init;
        assert Value() == a.(slots := a.slots[r.slot := init]);
        ChangedSlot(a.slots, r.slot, init);
      }
    }

    /** gc_run: a collection at the program's request, and then a slot for the undefined value it returns.
        These are an explicit step of a run and the allocation right behind it. */
    method GcRun(ghost newest: Ref) returns (r: AllocResult, ghost mid: State)
      requires Valid()
      modifies `usedSlots, `gcState, slots, freelist
      ensures Valid()
      ensures Next(State(old(Value()), Roots(), newest), Explicit, mid)
      ensures r == GcModel.Malloc(mid.arena, Roots()).1
      ensures r.Slot? ==> Next(mid, Alloc(UNDEFINED), State(Value(), Roots(), At(r.slot)))
    {
      ValueEdges(Null, false);
      Gc();
      mid := State(Value(), Roots(), Null);
      r := NewObject(UNDEFINED, Null);
    }
  }

  lemma HeapIs(h: Heap)
    ensures h.Value() == Arena(h.slots[..], h.freelist[..], h.usedSlots)
  {
  }

  lemma HeapParts(h: Heap)
    requires WellFormed(h.Value())
    ensures h.Value() == Arena(h.slots[..], h.freelist[..], h.usedSlots)
    ensures h.slots.Length == h.freelist.Length && h.usedSlots == Count(h.freelist[..])
  {
  }

  lemma SweptAll(a: Arena)
    requires |a.slots| == |a.freelist|
    ensures SweepPhase(a) == SweptTo(a, FirstVacant(a.freelist))
  {
  }

  lemma ChangedSlot(slots: seq<Val>, i: nat, v: Val)
    requires i < |slots| && InArena(GraphOf(slots)) && forall k :: k in Edges(v) ==> k < |slots|
    ensures InArena(GraphOf(slots[i := v]))
  {
    InArenaUpdate(GraphOf(slots), i, Edges(v));
    assert GraphOf(slots[i := v]) == GraphOf(slots)[i := Edges(v)];
  }

  lemma MallocResult(a: Arena, roots: set<nat>)
    requires WellFormed(a)
    ensures var (b, r) := GcModel.Malloc(a, roots);
      WellFormed(b) && |b.slots| == |a.slots| && (r.Slot? ==> r.slot < |b.slots|)
  {
    CollectWellFormed(a, roots);
    TakeFromArena(a);
    TakeFromArena(Collect(a, roots));
  }

  lemma RootsInArena(h: Heap)
    requires WellFormed(h.Value()) && forall r :: r in h.Roots() ==> r < h.slots.Length
    ensures InArena(GraphOf(h.slots[..])) && (h.global.At? ==> h.global.slot < h.slots.Length)
    ensures forall i :: 0 <= i < |h.callstack| ==> h.callstack[i].At? ==> h.callstack[i].slot < h.slots.Length
  {
    assert h.global.At? ==> h.global.slot in h.Roots();
    forall i | 0 <= i < |h.callstack| && h.callstack[i].At? ensures h.callstack[i].slot in h.Roots() {
      RootsExactly(h, h.callstack[i].slot);
    }
  }

  lemma RootsAre(h: Heap)
    ensures h.Roots() == RefSet(h.global) + RefSets(h.callstack)
  {
  }

  lemma WalkGraph(before: seq<Val>, now: seq<Val>, m: set<nat>, from: set<nat>)
    requires Walk(before, now, m, from, from, {}) && InArena(GraphOf(before))
    ensures InArena(GraphOf(now))
  {
    SameGraph(before, now);
  }

  /** The roots are the global object and the scopes on the callstack, no more and no less. */
  lemma RootsExactly(h: Heap, k: nat)
    ensures k in h.Roots() <==> h.global == At(k) || At(k) in h.callstack
  {
    InRefSetsIff(h.callstack, k);
  }

  lemma {:induction false} InRefSetsIff(rs: seq<Ref>, k: nat)
    ensures k in RefSets(rs) <==> At(k) in rs
  {
    if rs != [] {
      InRefSetsIff(rs[1..], k);
    }
  }

  lemma NoRefs()
    ensures RefSets([]) == {}
  {
  }

  lemma {:induction false} RefSetsSnoc(rs: seq<Ref>, i: nat)
    requires i < |rs|
    ensures RefSets(rs[..i + 1]) == RefSets(rs[..i]) + RefSet(rs[i])
  {
    if i > 0 {
      RefSetsSnoc(rs[1..], i - 1);
      assert rs[..i + 1][1..] == rs[1..][..i] && rs[..i][1..] == rs[1..][..i - 1];
    } else {
      assert rs[..1][1..] == [];
    }
  }

  lemma SameButMarksWellFormed(a: Arena, b: Arena, roots: set<nat>)
    requires WellFormed(a) && b == a.(slots := MarkPhase(a.slots, roots))
    ensures WellFormed(b)
  {
    SameGraph(a.slots, b.slots);
  }

  function RefSets(rs: seq<Ref>): set<nat> {
    if rs == [] then {} else RefSet(rs[0]) + RefSets(rs[1..])
  }

  lemma {:induction false} NoneUsed(used: seq<bool>)
    requires forall i :: 0 <= i < |used| ==> !used[i]
    ensures Count(used) == 0
  {
    if used != [] {
      NoneUsed(used[1..]);
    }
  }
}
