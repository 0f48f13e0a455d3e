/** HASH_SRT of ext/uthash.h: the bottom-up merge sort that relinks the insertion-order list in place. */
module UtHashSort {
  import opened UtHashTypes
  import opened ExpansionPolicy
  import opened UtHashChains
  import opened UtHash
  import opened StableSorting
  import opened RunMerging

  /** An element may precede another when the comparison does not order it strictly above. */
  ghost function CmpLe(cmp: (Handle, Handle) -> int): (Handle, Handle) -> bool {
    (a: Handle, b: Handle) => cmp(a, b) <= 0
  }

  /** The merged part: linked both ways, except that the last element's next is still stale. */
  ghost predicate Done(out: seq<Handle>, list: Handle?, tail: Handle?)
    reads out`next, out`prev
  {
    && list == At(out, 0) && tail == At(out, |out| - 1) && Distinct(out)
    && (forall i {:trigger out[i].next} :: 0 <= i < |out| - 1 ==> out[i].next == out[i + 1])
    && (forall i {:trigger out[i].prev} :: 0 <= i < |out| ==> out[i].prev == At(out, i - 1))
  }

  /** What is left of the left run: only its length says where it ends. */
  ghost predicate Run(ps: seq<Handle>, p: Handle?)
    reads ps`next
  {
    && (ps != [] ==> p == ps[0]) && Distinct(ps)
    && forall i {:trigger ps[i].next} :: 0 <= i < |ps| - 1 ==> ps[i].next == ps[i + 1]
  }

  /** What is left of the list behind the left run. */
  ghost predicate Rest(qs: seq<Handle>, q: Handle?)
    reads qs`next
  {
    && q == At(qs, 0) && Distinct(qs)
    && forall i {:trigger qs[i].next} :: 0 <= i < |qs| ==> qs[i].next == At(qs, i + 1)
  }

  ghost predicate Apart(s: seq<Handle>, t: seq<Handle>) {
    forall h :: h in s ==> h !in t
  }

  /** Appends `e` to the merged part; the parts still waiting keep their links. */
  method Emit(e: Handle, list: Handle?, tail: Handle?, p: Handle?, q: Handle?,
              ghost out: seq<Handle>, ghost ps: seq<Handle>, ghost qs: seq<Handle>, ghost nodes: set<Handle>)
    returns (list': Handle, tail': Handle)
    requires Done(out, list, tail) && Run(ps, p) && Rest(qs, q)
    requires e !in out && Apart(out, ps) && Apart(out, qs) && Within(out, nodes) && e in nodes
    modifies nodes`next, nodes`prev
    ensures Done(out + [e], list', tail') && Run(ps, p) && Rest(qs, q)
  {
    list' := e;
    if tail != null {
      assert tail in out;
      tail.next := e;
      list' := list;
    }
    e.prev := tail;
    tail' := e;
  }

  ghost predicate Within(s: seq<Handle>, nodes: set<Handle>) {
    forall h :: h in s ==> h in nodes
  }

  lemma Merge1<T>(le: (T, T) -> bool, p: seq<T>, q: seq<T>)
    ensures p != [] && (q == [] || le(p[0], q[0])) ==> Merged(le, p, q) == [p[0]] + Merged(le, p[1..], q)
    ensures q != [] && (p == [] || !le(p[0], q[0])) ==> Merged(le, p, q) == [q[0]] + Merged(le, p, q[1..])
  {
    if q == [] && p != [] {
      assert p == [p[0]] + p[1..];
    }
    if p == [] && q != [] {
      assert q == [q[0]] + q[1..];
    }
  }

  /** What the two parts merge to when `qsize` elements of the second may still be taken. */
  ghost function MergeOf(cmp: (Handle, Handle) -> int, ps: seq<Handle>, qs: seq<Handle>, qsize: nat): seq<Handle> {
    Merged(CmpLe(cmp), ps, qs[..Min(qsize, |qs|)])
  }

  ghost function Behind(qs: seq<Handle>, qsize: nat): seq<Handle> {
    qs[Min(qsize, |qs|)..]
  }

  /** `e` is taken from the front of one of the parts. */
  ghost predicate Taken(e: Handle, ps: seq<Handle>, qs: seq<Handle>, ps': seq<Handle>, qs': seq<Handle>) {
    || (ps' == ps && qs != [] && qs' == qs[1..] && e == qs[0])
    || (qs' == qs && ps != [] && ps' == ps[1..] && e == ps[0])
  }

  /** Chooses the element that goes out next and steps past it. */
  method PickNext(p: Handle?, psize: nat, q: Handle?, qsize: nat, cmp: (Handle, Handle) -> int,
                  ghost ps: seq<Handle>, ghost qs: seq<Handle>)
    returns (e: Handle, p': Handle?, psize': nat, q': Handle?, qsize': nat, ghost ps': seq<Handle>, ghost qs': seq<Handle>)
    requires |ps| == psize && Run(ps, p) && Rest(qs, q)
    requires psize > 0 || (qsize > 0 && q != null)
    ensures |ps'| == psize' && Run(ps', p') && Rest(qs', q') && psize' + qsize' < psize + qsize
    ensures MergeOf(cmp, ps, qs, qsize) == [e] + MergeOf(cmp, ps', qs', qsize') && Behind(qs', qsize') == Behind(qs, qsize)
    ensures Taken(e, ps, qs, ps', qs')
  {
    ghost var run := qs[..Min(qsize, |qs|)];
    Merge1(CmpLe(cmp), ps, run);
    p', psize', q', qsize', ps', qs' := p, psize, q, qsize, ps, qs;
    if psize == 0 {
      e := q;
      q', qsize', qs' := q.next, qsize - 1, qs[1..];
      assert run[1..] == qs'[..Min(qsize', |qs'|)];
    } else if qsize == 0 || q == null {
      e := p;
      p', psize', ps' := p.next, psize - 1, ps[1..];
    } else if cmp(p, q) <= 0 {
      e := p;
      p', psize', ps' := p.next, psize - 1, ps[1..];
    } else {
      e := q;
      q', qsize', qs' := q.next, qsize - 1, qs[1..];
      assert run[1..] == qs'[..Min(qsize', |qs'|)];
    }
  }

  /** What taking `e` from the front of one part does to the parts as collections. */
  lemma TakeOne(e: Handle, ps: seq<Handle>, qs: seq<Handle>, ps': seq<Handle>, qs': seq<Handle>,
                out: seq<Handle>, nodes: set<Handle>)
    requires Apart(out, ps) && Apart(out, qs) && Apart(ps, qs) && Distinct(ps) && Distinct(qs)
    requires Within(ps, nodes) && Within(qs, nodes) && Within(out, nodes)
    requires Taken(e, ps, qs, ps', qs')
    ensures e in nodes && e !in out && Apart(out, ps') && Apart(out, qs')
    ensures Apart(out + [e], ps') && Apart(out + [e], qs') && Apart(ps', qs')
    ensures Within(ps', nodes) && Within(qs', nodes) && Within(out + [e], nodes)
  {
  }

  lemma PartsDistinct(ps: seq<Handle>, p: Handle?, qs: seq<Handle>, q: Handle?)
    requires Run(ps, p) && Rest(qs, q)
    ensures Distinct(ps) && Distinct(qs) && (q == null <==> qs == [])
  {
  }

  /** One round of the merge: the next element goes out behind the merged part. */
  method MergeOne(p: Handle?, psize: nat, q: Handle?, qsize: nat, list: Handle?, tail: Handle?,
                  cmp: (Handle, Handle) -> int,
                  ghost ps: seq<Handle>, ghost qs: seq<Handle>, ghost out: seq<Handle>, ghost nodes: set<Handle>)
    returns (e: Handle, p': Handle?, psize': nat, q': Handle?, qsize': nat, list': Handle?, tail': Handle?,
             ghost ps': seq<Handle>, ghost qs': seq<Handle>)
    requires |ps| == psize && Run(ps, p) && Rest(qs, q) && Done(out, list, tail)
    requires psize > 0 || (qsize > 0 && q != null)
    requires Apart(out, ps) && Apart(out, qs) && Apart(ps, qs)
    requires Within(ps, nodes) && Within(qs, nodes) && Within(out, nodes)
    modifies nodes`next, nodes`prev
    ensures |ps'| == psize' && Run(ps', p') && Rest(qs', q') && Done(out + [e], list', tail')
    ensures Apart(out + [e], ps') && Apart(out + [e], qs') && Apart(ps', qs')
    ensures Within(ps', nodes) && Within(qs', nodes) && Within(out + [e], nodes)
    ensures MergeOf(cmp, ps, qs, qsize) == [e] + MergeOf(cmp, ps', qs', qsize') && Behind(qs', qsize') == Behind(qs, qsize)
    ensures psize' + qsize' < psize + qsize
  {
    hide *;
    PartsDistinct(ps, p, qs, q);
    e, p', psize', q', qsize', ps', qs' := PickNext(p, psize, q, qsize, cmp, ps, qs);
    TakeOne(e, ps, qs, ps', qs', out, nodes);
    list', tail' := Emit(e, list, tail, p', q', out, ps', qs', nodes);
  }

  /** Merges the run `ps0` with the first `insize` elements of the list `qs0` behind it. */
  method MergeRuns(p0: Handle?, psize0: nat, q0: Handle?, insize: nat, list0: Handle?, tail0: Handle?,
                   cmp: (Handle, Handle) -> int,
                   ghost ps0: seq<Handle>, ghost qs0: seq<Handle>, ghost out0: seq<Handle>, ghost nodes: set<Handle>)
    returns (q: Handle?, list: Handle?, tail: Handle?, ghost out: seq<Handle>)
    requires Run(ps0, p0) && |ps0| == psize0 && Rest(qs0, q0) && Done(out0, list0, tail0)
    requires Apart(out0, ps0) && Apart(out0, qs0) && Apart(ps0, qs0)
    requires Within(ps0, nodes) && Within(qs0, nodes) && Within(out0, nodes)
    modifies nodes`next, nodes`prev
    ensures var b := Min(insize, |qs0|);
      && out == out0 + Merged(CmpLe(cmp), ps0, qs0[..b])
      && Rest(qs0[b..], q) && Done(out, list, tail) && Apart(out, qs0[b..]) && Within(out, nodes)
  {
    hide *;
    q, list, tail, out := q0, list0, tail0, out0;
    var p, psize, qsize := p0, psize0, insize;
    ghost var ps, qs := ps0, qs0;
    ghost var target := out0 + MergeOf(cmp, ps0, qs0, insize);
    while psize > 0 || (qsize > 0 && q != null)
      invariant |ps| == psize && Run(ps, p) && Rest(qs, q) && Done(out, list, tail)
      invariant Apart(out, ps) && Apart(out, qs) && Apart(ps, qs)
      invariant Within(ps, nodes) && Within(qs, nodes) && Within(out, nodes)
      invariant Behind(qs, qsize) == Behind(qs0, insize)
      invariant out + MergeOf(cmp, ps, qs, qsize) == target
      decreases psize + qsize
    {
      var e;
      ghost var ps', qs';
      e, p, psize, q, qsize, list, tail, ps', qs' := MergeOne(p, psize, q, qsize, list, tail, cmp, ps, qs, out, nodes);
      Regroup(out, [e], MergeOf(cmp, ps', qs', qsize));
      out, ps, qs := out + [e], ps', qs';
    }
    PartsDistinct(ps, p, qs, q);
    NothingLeft(cmp, ps, qs, qsize);
    MergeOfIs(cmp, ps0, qs0, insize);
    assert out + [] == out;
  }

  lemma NothingLeft(cmp: (Handle, Handle) -> int, ps: seq<Handle>, qs: seq<Handle>, qsize: nat)
    requires ps == [] && (qsize == 0 || qs == [])
    ensures MergeOf(cmp, ps, qs, qsize) == [] && Behind(qs, qsize) == qs
  {
    MergedRest(CmpLe(cmp), ps, qs[..Min(qsize, |qs|)]);
  }

  lemma MergeOfIs(cmp: (Handle, Handle) -> int, ps: seq<Handle>, qs: seq<Handle>, qsize: nat)
    ensures MergeOf(cmp, ps, qs, qsize) == Merged(CmpLe(cmp), ps, qs[..Min(qsize, |qs|)])
    ensures Behind(qs, qsize) == qs[Min(qsize, |qs|)..]
  {
  }

  /** Finds the end of the left run: `insize` steps, or fewer at the end of the list. */
  method MeasureRun(p: Handle, insize: nat, ghost rest: seq<Handle>) returns (psize: nat, q: Handle?)
    requires Rest(rest, p) && insize > 0
    ensures psize == Min(insize, |rest|) && q == At(rest, psize)
    ensures Run(rest[..psize], p) && Rest(rest[psize..], q)
  {
    q, psize := p, 0;
    var i := 0;
    while i < insize
      invariant 0 <= i <= insize && psize == i < |rest| && q == At(rest, i)
    {
      psize := psize + 1;
      assert rest[i].next == At(rest, i + 1);
      q := q.next;
      if q == null {
        break;
      }
      i := i + 1;
    }
    RunThenRest(rest, p, psize);
  }

  lemma RunThenRest(rest: seq<Handle>, p: Handle?, k: nat)
    requires Rest(rest, p) && 0 < k <= |rest|
    ensures Run(rest[..k], p) && Rest(rest[k..], At(rest, k))
    ensures Apart(rest[..k], rest[k..])
  {
    forall i | 0 <= i < k - 1 ensures rest[..k][i].next == rest[..k][i + 1] {
      assert rest[i].next == At(rest, i + 1);
    }
    var r := rest[k..];
    forall i | 0 <= i < |r| ensures r[i].next == At(r, i + 1) {
      assert rest[k + i].next == At(rest, k + i + 1);
    }
  }

  /** Where a pass over `s` stands: `out` is merged, `rest` is still to be merged. */
  ghost predicate PassState(s: seq<Handle>, out: seq<Handle>, rest: seq<Handle>, insize: nat, nmerges: nat,
                            le: (Handle, Handle) -> bool, nodes: set<Handle>)
  {
    && insize > 0
    && out + Pass(le, rest, insize) == Pass(le, s, insize)
    && Apart(out, rest) && Within(out, nodes) && Within(rest, nodes)
    && (nmerges == 0 <==> out == [])
    && (nmerges == 1 ==> |out| <= 2 * insize && (rest != [] ==> |out| == 2 * insize))
    && (nmerges > 1 ==> |out| > 2 * insize)
  }

  /** The first two runs, merged, and what is behind them. */
  ghost function FirstMerge(le: (Handle, Handle) -> bool, rest: seq<Handle>, insize: nat): seq<Handle> {
    var a, b := Min(insize, |rest|), Min(2 * insize, |rest|);
    Merged(le, rest[..a], rest[a..b])
  }

  ghost function AfterTwo(rest: seq<Handle>, insize: nat): (r: seq<Handle>)
    ensures insize > 0 && rest != [] ==> |r| < |rest|
  {
    rest[Min(2 * insize, |rest|)..]
  }

  /** Merging the next two runs advances the pass. */
  lemma PassAdvances(s: seq<Handle>, out: seq<Handle>, rest: seq<Handle>, insize: nat, nmerges: nat,
                     le: (Handle, Handle) -> bool, nodes: set<Handle>, out': seq<Handle>)
    requires PassState(s, out, rest, insize, nmerges, le, nodes) && rest != []
    requires out' == out + FirstMerge(le, rest, insize) && Apart(out', AfterTwo(rest, insize)) && Within(out', nodes)
    ensures PassState(s, out', AfterTwo(rest, insize), insize, nmerges + 1, le, nodes)
  {
    hide Pass, FirstMerge, AfterTwo, Apart, Within;
    PassSplits(le, rest, insize);
    WithinAfter(rest, insize, nodes);
    Regroup(out, FirstMerge(le, rest, insize), Pass(le, AfterTwo(rest, insize), insize));
  }

  lemma PassSplits(le: (Handle, Handle) -> bool, rest: seq<Handle>, insize: nat)
    requires insize > 0 && rest != []
    ensures Pass(le, rest, insize) == FirstMerge(le, rest, insize) + Pass(le, AfterTwo(rest, insize), insize)
    ensures |FirstMerge(le, rest, insize)| == Min(2 * insize, |rest|) > 0
    ensures AfterTwo(rest, insize) != [] ==> |FirstMerge(le, rest, insize)| == 2 * insize
  {
    var p, q, r := PassUnfolds(le, rest, insize);
  }

  lemma WithinAfter(rest: seq<Handle>, insize: nat, nodes: set<Handle>)
    requires Within(rest, nodes)
    ensures Within(AfterTwo(rest, insize), nodes)
  {
  }

  lemma Regroup<T>(a: seq<T>, b: seq<T>, c: seq<T>)
    ensures a + (b + c) == a + b + c
  {
  }

  lemma PassStart(s: seq<Handle>, insize: nat, le: (Handle, Handle) -> bool, nodes: set<Handle>)
    requires insize > 0 && Within(s, nodes)
    ensures PassState(s, [], s, insize, 0, le, nodes)
  {
  }

  lemma PassEnd(s: seq<Handle>, out: seq<Handle>, rest: seq<Handle>, insize: nat, nmerges: nat,
                le: (Handle, Handle) -> bool, nodes: set<Handle>)
    requires PassState(s, out, rest, insize, nmerges, le, nodes) && rest == [] && s != []
    ensures out == Pass(le, s, insize) && out != []
    ensures nmerges <= 1 <==> |s| <= 2 * insize
  {
    PassNothing(le, insize);
  }

  lemma NothingDone()
    ensures Done([], null, null)
  {
  }

  lemma RestHead(rest: seq<Handle>, p: Handle?)
    requires Rest(rest, p)
    ensures p == null <==> rest == []
  {
  }

  /** Ends the merged list behind its last element. */
  method Terminate(list: Handle?, tail: Handle?, ghost out: seq<Handle>, ghost nodes: set<Handle>)
    requires Done(out, list, tail) && Within(out, nodes)
    modifies nodes`next
    ensures InOrder(out)
  {
    if tail != null {
      assert tail in out;
      tail.next := null;
    }
  }

  /** Slicing what is behind position `i`. */
  lemma SliceBehind<T>(s: seq<T>, i: nat, k: nat, j: nat)
    requires i <= j <= |s| && k == j - i
    ensures s[i..][..k] == s[i..j] && s[i..][k..] == s[j..]
  {
  }

  lemma FirstMergeIs(le: (Handle, Handle) -> bool, rest: seq<Handle>, insize: nat, psize: nat)
    requires insize > 0 && psize == Min(insize, |rest|)
    ensures var r := rest[psize..]; var b := Min(insize, |r|);
      FirstMerge(le, rest, insize) == Merged(le, rest[..psize], r[..b]) && AfterTwo(rest, insize) == r[b..]
  {
    hide Merged;
    var b, j := Min(insize, |rest| - psize), Min(2 * insize, |rest|);
    assert b == j - psize;
    SliceBehind(rest, psize, b, j);
  }

  lemma SplitApart(rest: seq<Handle>, k: nat, out: seq<Handle>, nodes: set<Handle>)
    requires k <= |rest| && Apart(out, rest) && Within(rest, nodes)
    ensures Apart(out, rest[..k]) && Apart(out, rest[k..]) && Within(rest[..k], nodes) && Within(rest[k..], nodes)
  {
  }

  /** One round of a pass: the next two runs are measured and merged. */
  method MergeNext(p: Handle, insize: nat, list: Handle?, tail: Handle?, cmp: (Handle, Handle) -> int,
                   ghost rest: seq<Handle>, ghost out: seq<Handle>, ghost nodes: set<Handle>)
    returns (p': Handle?, list': Handle?, tail': Handle?, ghost out': seq<Handle>)
    requires Rest(rest, p) && insize > 0 && Done(out, list, tail)
    requires Apart(out, rest) && Within(out, nodes) && Within(rest, nodes)
    modifies nodes`next, nodes`prev
    ensures out' == out + FirstMerge(CmpLe(cmp), rest, insize)
    ensures Rest(AfterTwo(rest, insize), p') && Done(out', list', tail')
    ensures Apart(out', AfterTwo(rest, insize)) && Within(out', nodes)
  {
    hide *;
    RestHead(rest, p);
    var psize, q := MeasureRun(p, insize, rest);
    RunThenRest(rest, p, psize);
    SplitApart(rest, psize, out, nodes);
    FirstMergeIs(CmpLe(cmp), rest, insize, psize);
    ghost var ps, qs := rest[..psize], rest[psize..];
    p', list', tail', out' := MergeRuns(p, psize, q, insize, list, tail, cmp, ps, qs, out, nodes);
  }

  /** One iteration of the outer loop of HASH_SRT: merges all neighbouring runs of length `insize`. */
  method SortPass(list0: Handle, insize: nat, cmp: (Handle, Handle) -> int, ghost s: seq<Handle>, ghost nodes: set<Handle>)
    returns (list: Handle?, tail: Handle?, nmerges: nat, ghost out: seq<Handle>)
    requires Rest(s, list0) && s != [] && insize > 0 && Within(s, nodes)
    modifies nodes`next, nodes`prev
    ensures out == Pass(CmpLe(cmp), s, insize) && out != []
    ensures InOrder(out) && list == At(out, 0) && tail == At(out, |out| - 1)
    ensures nmerges <= 1 <==> |s| <= 2 * insize
  {
    hide *;
    ghost var le, rest := CmpLe(cmp), s;
    var p: Handle? := list0;
    list, tail, nmerges, out := null, null, 0, [];
    PassStart(s, insize, le, nodes);
    NothingDone();
    while p != null
      invariant Rest(rest, p) && Done(out, list, tail)
      invariant PassState(s, out, rest, insize, nmerges, le, nodes)
      decreases |rest|
    {
      RestHead(rest, p);
      StateParts(s, out, rest, insize, nmerges, le, nodes);
      nmerges := nmerges + 1;
      ghost var out0 := out;
      p, list, tail, out := MergeNext(p, insize, list, tail, cmp, rest, out, nodes);
      PassAdvances(s, out0, rest, insize, nmerges - 1, le, nodes, out);
      rest := AfterTwo(rest, insize);
    }
    RestHead(rest, p);
    StateParts(s, out, rest, insize, nmerges, le, nodes);
    PassEnd(s, out, rest, insize, nmerges, le, nodes);
    DoneEnds(out, list, tail);
    Terminate(list, tail, out, nodes);
  }

  lemma DoneEnds(out: seq<Handle>, list: Handle?, tail: Handle?)
    requires Done(out, list, tail)
    ensures list == At(out, 0) && tail == At(out, |out| - 1)
  {
  }

  lemma StateParts(s: seq<Handle>, out: seq<Handle>, rest: seq<Handle>, insize: nat, nmerges: nat,
                   le: (Handle, Handle) -> bool, nodes: set<Handle>)
    requires PassState(s, out, rest, insize, nmerges, le, nodes)
    ensures insize > 0 && Apart(out, rest) && Within(out, nodes) && Within(rest, nodes)
  {
  }

  lemma OrderIsRest(s: seq<Handle>, nodes: set<Handle>)
    requires InOrder(s) && s != []
    ensures Rest(s, s[0]) && Distinct(s) && At(s, 0) == s[0] && At(s, |s| - 1) == s[|s| - 1]
  {
  }

  lemma SameNodes(s: seq<Handle>, t: seq<Handle>)
    requires multiset(s) == multiset(t)
    ensures Elements(t) == Elements(s) && Within(t, Elements(s)) && |s| == |t|
    ensures forall h :: h in t <==> h in s
  {
    SameElements(s, t);
  }

  lemma SortStart(le: (Handle, Handle) -> bool, s: seq<Handle>)
    ensures Progress(le, s, s, 1)
  {
    SingletonRuns(le, s);
  }

  lemma ProgressParts<T>(le: (T, T) -> bool, s: seq<T>, t: seq<T>, k: nat)
    requires Progress(le, s, t, k)
    ensures k > 0 && multiset(t) == multiset(s)
  {
  }

  /** Reordering the elements keeps what does not depend on their order. */
  lemma Reordered(s: seq<Handle>, s': seq<Handle>, t: Table, hashFcn: string -> nat)
    requires multiset(s) == multiset(s') && DistinctKeys(s) && WellHashed(s, t, hashFcn)
    requires Distinct(s')
    ensures DistinctKeys(s') && WellHashed(s', t, hashFcn)
  {
    SameElements(s, s');
    forall i, j | 0 <= i < j < |s'| ensures s'[i].key != s'[j].key {
      assert s'[i] in s && s'[j] in s && s'[i] != s'[j];
      var a :| 0 <= a < |s| && s[a] == s'[i];
      var b :| 0 <= b < |s| && s[b] == s'[j];
    }
  }

  /** Relinking the insertion-order list does not touch the table. */
  method SortPassOnTable(t: Table, list0: Handle, insize: nat, cmp: (Handle, Handle) -> int,
                         ghost s: seq<Handle>, ghost chains: seq<seq<Handle>>, ghost nodes: set<Handle>)
    returns (list: Handle?, tail: Handle?, nmerges: nat, ghost out: seq<Handle>)
    requires Rest(s, list0) && s != [] && insize > 0 && Within(s, nodes) && TableHolds(t, chains, nodes)
    modifies nodes`next, nodes`prev
    ensures out == Pass(CmpLe(cmp), s, insize) && out != [] && TableHolds(t, chains, nodes)
    ensures InOrder(out) && list == At(out, 0) && tail == At(out, |out| - 1)
    ensures nmerges <= 1 <==> |s| <= 2 * insize
  {
    hide Pass, Rest, Linked, Counted, Covered, Items, Bounded, Distinct, InOrder, Pow2, At;
    list, tail, nmerges, out := SortPass(list0, insize, cmp, s, nodes);
  }

  /** The loop of HASH_SRT: passes with doubling run lengths until one pass makes at most one merge. */
  method SortList(t: Table, head: Handle, cmp: (Handle, Handle) -> int, hashFcn: string -> nat,
                  ghost s: seq<Handle>, ghost chains: seq<seq<Handle>>)
    returns (list: Handle, tail: Handle, ghost cur: seq<Handle>)
    requires TotalPreorder(CmpLe(cmp), s) && Consistent(head, s, t, chains, hashFcn)
    modifies s`next, s`prev
    ensures StableSortOf(CmpLe(cmp), s, cur) && InOrder(cur) && cur != []
    ensures list == cur[0] && tail == cur[|cur| - 1]
    ensures TableHolds(t, chains, Elements(s)) && WellHashed(s, t, hashFcn)
  {
    hide *;
    ghost var le, nodes := CmpLe(cmp), Elements(s);
    Opened(head, s, t, chains, hashFcn);
    OrderIsRest(s, nodes);
    SameNodes(s, s);
    SortStart(le, s);
    var insize, looping := 1, true;
    list, tail, cur := head, t.tail, s;
    while looping
      invariant insize > 0 && cur != [] && Progress(le, s, cur, insize)
      invariant InOrder(cur) && list == cur[0] && TableHolds(t, chains, nodes) && WellHashed(s, t, hashFcn)
      invariant looping ==> insize <= |s|
      invariant !looping ==> |cur| <= insize && tail == cur[|cur| - 1]
      decreases looping, |s| - insize
    {
      ProgressParts(le, s, cur, insize);
      SameNodes(s, cur);
      OrderIsRest(cur, nodes);
      var list', tail', nmerges;
      ghost var out;
      list', tail', nmerges, out := SortPassOnTable(t, list, insize, cmp, cur, chains, nodes);
      PassProgress(le, s, cur, insize);
      OrderIsRest(out, nodes);
      list, cur := list', out;
      if nmerges <= 1 {
        looping := false;
        tail := tail';
      }
      insize := insize * 2;
    }
    ProgressDone(le, s, cur, insize);
  }

  lemma SortedParts(le: (Handle, Handle) -> bool, s: seq<Handle>, cur: seq<Handle>)
    requires StableSortOf(le, s, cur) && InOrder(cur)
    ensures multiset(s) == multiset(cur) && Distinct(cur)
  {
  }

  /** HASH_SRT of a hash that is not empty. */
  method SortSome(users: Hash, cmp: (Handle, Handle) -> int)
    requires users.Valid() && users.head != null && TotalPreorder(CmpLe(cmp), users.order)
    modifies users, users.Repr
    ensures users.Valid() && users.Repr == old(users.Repr) && users.chains == old(users.chains)
    ensures users.doublings == old(users.doublings)
    ensures StableSortOf(CmpLe(cmp), old(users.order), users.order)
  {
    hide *;
    users.Open();
    ghost var le, s := CmpLe(cmp), users.order;
    var t := users.head.tbl;
    Opened(users.head, s, t, users.chains, users.hashFcn);
    var list, tail;
    ghost var cur;
    list, tail, cur := SortList(t, users.head, cmp, users.hashFcn, s, users.chains);
    SortedParts(le, s, cur);
    SameNodes(s, cur);
    Reordered(s, cur, t, users.hashFcn);
    SetTail(t, tail, users.chains, Elements(s), cur, users.hashFcn);
    Closed(list, cur, t, users.chains, users.hashFcn);
    users.head, users.order := list, cur;
    users.Close(t);
  }

  /** The table's tail is not among the things that its buckets and chains depend on. */
  method SetTail(t: Table, tail: Handle, ghost chains: seq<seq<Handle>>, ghost nodes: set<Handle>,
                 ghost cur: seq<Handle>, hashFcn: string -> nat)
    requires TableHolds(t, chains, nodes) && InOrder(cur) && WellHashed(cur, t, hashFcn)
    modifies t`tail
    ensures TableHolds(t, chains, nodes) && InOrder(cur) && WellHashed(cur, t, hashFcn) && t.tail == tail
  {
    hide TableHolds, InOrder, WellHashed;
    t.tail := tail;
  }

  /** HASH_SRT: sorts the insertion-order list, keeping equal elements in their order. */
  method Sort(users: Hash, cmp: (Handle, Handle) -> int)
    requires users.Valid() && TotalPreorder(CmpLe(cmp), users.order)
    modifies users, users.Repr
    ensures users.Valid() && users.Repr == old(users.Repr) && users.chains == old(users.chains)
    ensures users.doublings == old(users.doublings)
    ensures StableSortOf(CmpLe(cmp), old(users.order), users.order)
  {
    hide *;
    users.Open();
    if users.head != null {
      SortSome(users, cmp);
    } else {
      NothingSorted(CmpLe(cmp));
    }
  }
}
