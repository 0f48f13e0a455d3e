/** The bucket chains of a table: linking, unlinking, searching, and redistributing them. */
module UtHashChains {
  import opened UtHashTypes
  import opened ExpansionPolicy

  ghost function At(s: seq<Handle>, i: int): Handle? {
    if 0 <= i < |s| then s[i] else null
  }

  ghost predicate Distinct(s: seq<Handle>) {
    forall i, j :: 0 <= i < j < |s| ==> s[i] != s[j]
  }

  /** `c` is the doubly linked chain that starts at `head`. */
  ghost predicate Chain(c: seq<Handle>, head: Handle?)
    reads c`hhNext, c`hhPrev
  {
    && head == At(c, 0)
    && (forall i {:trigger c[i].hhNext} :: 0 <= i < |c| ==> c[i].hhNext == At(c, i + 1))
    && (forall i {:trigger c[i].hhPrev} :: 0 <= i < |c| ==> c[i].hhPrev == At(c, i - 1))
    && Distinct(c)
  }

  /** `c` is the forward linked chain that starts at `head`. */
  ghost predicate Forward(c: seq<Handle>, head: Handle?)
    reads c`hhNext
  {
    && head == At(c, 0)
    && (forall i {:trigger c[i].hhNext} :: 0 <= i < |c| ==> c[i].hhNext == At(c, i + 1))
    && Distinct(c)
  }

  /** Every element of `c` belongs to `nodes` and hashes to bucket `b` of `n`. */
  ghost predicate Hashed(c: seq<Handle>, b: nat, n: nat, nodes: set<Handle>)
    requires n > 0
    reads nodes`hashv
  {
    forall h :: h in c ==> h in nodes && h.hashv % n == b
  }

  /** `chains` are the chains of the buckets `bs`, each in the bucket its elements hash to. */
  ghost predicate Linked(chains: seq<seq<Handle>>, bs: seq<Bucket>, nodes: set<Handle>)
    reads nodes`hhNext, nodes`hhPrev, nodes`hashv
  {
    && |chains| == |bs| > 0
    && forall b {:trigger chains[b]} :: 0 <= b < |bs| ==>
         && Hashed(chains[b], b, |bs|, nodes)
         && (assert forall h :: h in chains[b] ==> h in nodes; Chain(chains[b], bs[b].hhHead))
  }

  ghost predicate Counted(chains: seq<seq<Handle>>, bs: seq<Bucket>) {
    |chains| == |bs| && forall b :: 0 <= b < |bs| ==> bs[b].count == |chains[b]|
  }

  /** Every node is in the chain its hash value selects. */
  ghost predicate Covered(chains: seq<seq<Handle>>, nodes: set<Handle>)
    reads nodes`hashv
  {
    |chains| > 0 && forall h :: h in nodes ==> h in chains[h.hashv % |chains|]
  }

  /** Puts `h` in front of the chain of bucket `b`; the count is left to the caller. */
  method LinkAtHead(buckets: array<Bucket>, b: nat, h: Handle, ghost chains: seq<seq<Handle>>, ghost nodes: set<Handle>)
    requires b < buckets.Length && Linked(chains, buckets[..], nodes)
    requires h in nodes && h.hashv % buckets.Length == b && h !in chains[b]
    modifies buckets, nodes`hhNext, nodes`hhPrev
    ensures buckets[..] == old(buckets[..])[b := old(buckets[b]).(hhHead := h)]
    ensures Linked(chains[b := [h] + chains[b]], buckets[..], nodes)
    ensures forall x :: x in nodes && x != h ==> x.hhNext == old(x.hhNext)
  {
    ghost var chains' := chains[b := [h] + chains[b]];
    assert Hashed(chains[b], b, buckets.Length, nodes) && Chain(chains[b], buckets[b].hhHead);
    h.hhNext := buckets[b].hhHead;
    h.hhPrev := null;
    if buckets[b].hhHead != null {
      buckets[b].hhHead.hhPrev := h;
    }
    buckets[b] := buckets[b].(hhHead := h);
    forall d {:trigger chains'[d]} | 0 <= d < buckets.Length
      ensures Hashed(chains'[d], d, buckets.Length, nodes)
      ensures Chain(chains'[d], buckets[d].hhHead)
    {
      assert Hashed(chains[d], d, buckets.Length, nodes);
      if d != b {
        assert old(Chain(chains[d], buckets[d].hhHead));
        forall i | 0 <= i < |chains[d]|
          ensures chains[d][i].hhNext == At(chains[d], i + 1) && chains[d][i].hhPrev == At(chains[d], i - 1)
        {
          assert chains[d][i] in chains[d];
        }
      }
    }
  }

  lemma LinkedByHeads(chains: seq<seq<Handle>>, bs: seq<Bucket>, bs': seq<Bucket>, nodes: set<Handle>)
    requires Linked(chains, bs, nodes)
    requires |bs| == |bs'| && forall b :: 0 <= b < |bs| ==> bs[b].hhHead == bs'[b].hhHead
    ensures Linked(chains, bs', nodes)
  {
  }

  /** What one more item in bucket `b` does to the bookkeeping of a doubling. */
  lemma RedistributeOne(bs: seq<Bucket>, b: nat, x: Bucket, ideal: nat, c: seq<Handle>, chains: seq<seq<Handle>>)
    requires b < |bs| && ideal > 0 && Redistributed(bs, ideal) && Counted(chains, bs)
    requires x.count == bs[b].count + 1 == |c|
    requires x.expandMult == if x.count > ideal then x.count / ideal else 0
    ensures Redistributed(bs[b := x], ideal) && Counted(chains[b := c], bs[b := x])
    ensures Excess(bs[b := x], ideal) == Excess(bs, ideal) + if x.count > ideal then 1 else 0
    ensures Items(bs[b := x]) == Items(bs) + 1
  {
    ItemsUpdate(bs, b, x);
    ExcessUpdate(bs, b, x, ideal);
  }

  /** HASH_ADD_TO_BKT without its expansion. */
  method AddToBucket(buckets: array<Bucket>, b: nat, h: Handle, ghost chains: seq<seq<Handle>>, ghost nodes: set<Handle>)
    requires b < buckets.Length && Linked(chains, buckets[..], nodes) && Counted(chains, buckets[..])
    requires h in nodes && h.hashv % buckets.Length == b && h !in chains[b]
    modifies buckets, nodes`hhNext, nodes`hhPrev
    ensures Linked(chains[b := [h] + chains[b]], buckets[..], nodes)
    ensures Counted(chains[b := [h] + chains[b]], buckets[..])
    ensures buckets[..] == old(buckets[..])[b := buckets[b]]
    ensures buckets[b].count == old(buckets[b].count) + 1 && buckets[b].expandMult == old(buckets[b].expandMult)
  {
    buckets[b] := buckets[b].(count := buckets[b].count + 1);
    LinkAtHead(buckets, b, h, chains, nodes);
    assert buckets[..] == old(buckets[..])[b := buckets[b]];
  }

  /** One round of the inner loop of HASH_EXPAND_BUCKETS. */
  method MoveHandle(buckets: array<Bucket>, b: nat, h: Handle, ideal: nat, nonideal: nat,
                    ghost chains: seq<seq<Handle>>, ghost nodes: set<Handle>) returns (nonideal': nat)
    requires b < buckets.Length && Linked(chains, buckets[..], nodes) && Counted(chains, buckets[..])
    requires h in nodes && h.hashv % buckets.Length == b && h !in chains[b]
    requires ideal > 0 && Redistributed(buckets[..], ideal) && nonideal == Excess(buckets[..], ideal)
    modifies buckets, nodes`hhNext, nodes`hhPrev
    ensures Linked(chains[b := [h] + chains[b]], buckets[..], nodes)
    ensures Counted(chains[b := [h] + chains[b]], buckets[..])
    ensures Redistributed(buckets[..], ideal) && nonideal' == Excess(buckets[..], ideal)
    ensures Items(buckets[..]) == old(Items(buckets[..])) + 1
    ensures forall x :: x in nodes && x != h ==> x.hhNext == old(x.hhNext)
  {
    assert Redistributed(buckets[..], ideal) && Counted(chains, buckets[..]);
    assert buckets[b].count == |chains[b]|;
    assert buckets[b].expandMult == if buckets[b].count > ideal then buckets[b].count / ideal else 0;
    hide *;
    nonideal' := nonideal;
    ghost var before := buckets[..];
    buckets[b] := buckets[b].(count := buckets[b].count + 1);
    if buckets[b].count > ideal {
      nonideal' := nonideal' + 1;
      buckets[b] := buckets[b].(expandMult := buckets[b].count / ideal);
    }
    LinkedByHeads(chains, before, buckets[..], nodes);
    LinkAtHead(buckets, b, h, chains, nodes);
    assert buckets[..] == before[b := buckets[b]];
    RedistributeOne(before, b, buckets[b], ideal, [h] + chains[b], chains);
  }

  /** The chains hold exactly the nodes in `done`, each in the chain its hash value selects. */
  ghost predicate Holding(chains: seq<seq<Handle>>, done: set<Handle>, nodes: set<Handle>)
    reads nodes`hashv
  {
    && |chains| > 0 && done <= nodes
    && (forall b, h :: 0 <= b < |chains| && h in chains[b] ==> h in done)
    && (forall h :: h in done ==> h in chains[h.hashv % |chains|])
  }

  ghost function Elements(c: seq<Handle>): set<Handle> {
    set h | h in c
  }

  lemma HoldingOneMore(chains: seq<seq<Handle>>, done: set<Handle>, nodes: set<Handle>, h: Handle)
    requires Holding(chains, done, nodes) && h in nodes
    ensures var b := h.hashv % |chains|; Holding(chains[b := [h] + chains[b]], done + {h}, nodes)
  {
    var b := h.hashv % |chains|;
    var chains' := chains[b := [h] + chains[b]];
    forall x | x in done + {h} ensures x in chains'[x.hashv % |chains'|] {
      if x.hashv % |chains| == b {
        assert x == h || x in chains[b];
      }
    }
  }

  lemma NotHeld(chains: seq<seq<Handle>>, done: set<Handle>, nodes: set<Handle>, h: Handle, b: nat)
    requires Holding(chains, done, nodes) && h !in done && b < |chains|
    ensures h !in chains[b]
  {
  }

  lemma NothingMoved(done: set<Handle>, c: seq<Handle>)
    ensures done + Elements(c[..0]) == done
  {
  }

  lemma DistinctParts(c: seq<Handle>, head: Handle?)
    requires Forward(c, head)
    ensures Distinct(c) && head == At(c, 0)
    ensures forall i {:trigger c[i].hhNext} :: 0 <= i < |c| ==> c[i].hhNext == At(c, i + 1)
  {
  }

  lemma OneMoreMoved(c: seq<Handle>, k: nat, done: set<Handle>)
    requires Distinct(c) && k < |c| && Elements(c) !! done
    ensures c[k] in Elements(c) && c[k] !in done + Elements(c[..k])
    ensures done + Elements(c[..k + 1]) == done + Elements(c[..k]) + {c[k]}
    ensures forall i :: k < i < |c| ==> c[i] != c[k]
  {
    assert c[k] in c && c[k] !in c[..k];
    assert Elements(c[..k + 1]) == Elements(c[..k]) + {c[k]};
  }

  /** The inner loop of HASH_EXPAND_BUCKETS: redistributes the old chain `c` that starts at `head`. */
  method MoveChain(buckets: array<Bucket>, head: Handle?, ideal: nat, nonideal: nat,
                   ghost c: seq<Handle>, ghost chains: seq<seq<Handle>>, ghost done: set<Handle>, ghost nodes: set<Handle>)
    returns (nonideal': nat, ghost chains': seq<seq<Handle>>)
    requires buckets.Length > 0 && Linked(chains, buckets[..], nodes) && Counted(chains, buckets[..])
    requires ideal > 0 && Redistributed(buckets[..], ideal) && nonideal == Excess(buckets[..], ideal)
    requires Forward(c, head) && Elements(c) <= nodes && Elements(c) !! done
    requires Holding(chains, done, nodes)
    modifies buckets, nodes`hhNext, nodes`hhPrev
    ensures Linked(chains', buckets[..], nodes) && Counted(chains', buckets[..])
    ensures Redistributed(buckets[..], ideal) && nonideal' == Excess(buckets[..], ideal)
    ensures Items(buckets[..]) == old(Items(buckets[..])) + |c|
    ensures Holding(chains', done + Elements(c), nodes)
    ensures forall x :: x in nodes && x !in c ==> x.hhNext == old(x.hhNext)
  {
    hide Linked, Counted, Redistributed, Items, Excess, Holding, Distinct;
    nonideal', chains' := nonideal, chains;
    SomeBucket(chains, buckets[..], nodes);
    NothingMoved(done, c);
    DistinctParts(c, head);
    var thh := head;
    ghost var k := 0;
    while thh != null
      invariant 0 <= k <= |c| && thh == At(c, k) && |chains'| == buckets.Length
      invariant Linked(chains', buckets[..], nodes) && Counted(chains', buckets[..])
      invariant Redistributed(buckets[..], ideal) && nonideal' == Excess(buckets[..], ideal)
      invariant Items(buckets[..]) == old(Items(buckets[..])) + k
      invariant Holding(chains', done + Elements(c[..k]), nodes)
      invariant forall i {:trigger c[i].hhNext} :: k <= i < |c| ==> c[i].hhNext == At(c, i + 1)
      invariant forall x :: x in nodes && x !in c ==> x.hhNext == old(x.hhNext)
      decreases |c| - k
    {
      OneMoreMoved(c, k, done);
      NotHeld(chains', done + Elements(c[..k]), nodes, thh, thh.hashv % buckets.Length);
      var next := thh.hhNext;
      var b := thh.hashv % buckets.Length;
      nonideal' := MoveHandle(buckets, b, thh, ideal, nonideal', chains', nodes);
      HoldingOneMore(chains', done + Elements(c[..k]), nodes, thh);
      chains' := chains'[b := [thh] + chains'[b]];
      thh, k := next, k + 1;
    }
    assert c[..k] == c;
  }

  /** The nodes of the first `i` of `n` buckets. */
  ghost predicate FirstBuckets(done: set<Handle>, i: nat, n: nat, nodes: set<Handle>)
    requires n > 0
    reads nodes`hashv
  {
    done <= nodes && forall h :: h in nodes ==> (h in done <==> h.hashv % n < i)
  }

  ghost function NextOf(nodes: set<Handle>): map<Handle, Handle?>
    reads nodes`hhNext
  {
    map h | h in nodes :: h.hhNext
  }

  /** Every node outside `done` still has the successor that `nexts` recorded. */
  ghost predicate Untouched(nexts: map<Handle, Handle?>, done: set<Handle>, nodes: set<Handle>)
    reads nodes`hhNext
  {
    nodes <= nexts.Keys && forall h :: h in nodes && h !in done ==> h.hhNext == nexts[h]
  }

  /** `c` was the chain from `head` when `nexts` was recorded. */
  ghost predicate WasForward(c: seq<Handle>, head: Handle?, nexts: map<Handle, Handle?>) {
    && head == At(c, 0) && Distinct(c)
    && forall i {:trigger c[i]} :: 0 <= i < |c| ==> c[i] in nexts && nexts[c[i]] == At(c, i + 1)
  }

  ghost predicate WereForward(chains: seq<seq<Handle>>, bs: seq<Bucket>, nexts: map<Handle, Handle?>) {
    |chains| == |bs| && forall j :: 0 <= j < |bs| ==> WasForward(chains[j], bs[j].hhHead, nexts)
  }

  ghost predicate AllHashed(chains: seq<seq<Handle>>, nodes: set<Handle>)
    reads nodes`hashv
  {
    |chains| > 0 && forall j {:trigger chains[j]} :: 0 <= j < |chains| ==> Hashed(chains[j], j, |chains|, nodes)
  }

  lemma RecordChains(chains: seq<seq<Handle>>, bs: seq<Bucket>, nodes: set<Handle>)
    requires Linked(chains, bs, nodes)
    ensures AllHashed(chains, nodes)
    ensures WereForward(chains, bs, NextOf(nodes)) && Untouched(NextOf(nodes), {}, nodes)
  {
    forall j | 0 <= j < |bs| ensures WasForward(chains[j], bs[j].hhHead, NextOf(nodes)) {
      assert Chain(chains[j], bs[j].hhHead);
      forall i | 0 <= i < |chains[j]|
        ensures chains[j][i] in nodes && chains[j][i].hhNext == At(chains[j], i + 1)
      {
        assert chains[j][i] in chains[j];
      }
    }
  }

  lemma StillForward(c: seq<Handle>, head: Handle?, nexts: map<Handle, Handle?>, done: set<Handle>, nodes: set<Handle>)
    requires WasForward(c, head, nexts) && Untouched(nexts, done, nodes)
    requires Elements(c) <= nodes && Elements(c) !! done
    ensures Forward(c, head)
  {
    forall i | 0 <= i < |c| ensures c[i].hhNext == At(c, i + 1) {
      assert c[i] in Elements(c);
    }
  }

  lemma NextBucket(done: set<Handle>, i: nat, chains: seq<seq<Handle>>, nodes: set<Handle>)
    requires AllHashed(chains, nodes) && Covered(chains, nodes)
    requires i < |chains| && FirstBuckets(done, i, |chains|, nodes)
    ensures Elements(chains[i]) <= nodes && Elements(chains[i]) !! done
    ensures FirstBuckets(done + Elements(chains[i]), i + 1, |chains|, nodes)
  {
  }

  lemma {:induction false} ItemsFrom(bs: seq<Bucket>, i: nat)
    requires i < |bs|
    ensures Items(bs[i..]) == bs[i].count + Items(bs[i + 1..])
  {
    assert bs[i..][1..] == bs[i + 1..];
  }

  /** No bucket has been redistributed yet. */
  lemma StartEmpty(chains: seq<seq<Handle>>, bs: seq<Bucket>, ideal: nat, n: nat, nodes: set<Handle>)
    requires |chains| == |bs| > 0 && ideal > 0 && n > 0
    requires forall b :: 0 <= b < |bs| ==> bs[b] == EMPTY_BUCKET && chains[b] == []
    ensures Linked(chains, bs, nodes) && Counted(chains, bs) && Holding(chains, {}, nodes)
    ensures Redistributed(bs, ideal) && Excess(bs, ideal) == 0 && Items(bs) == 0
    ensures FirstBuckets({}, 0, n, nodes)
  {
    EmptyBuckets(bs, ideal);
  }

  lemma AllBuckets(done: set<Handle>, chains: seq<seq<Handle>>, n: nat, nodes: set<Handle>)
    requires n > 0 && FirstBuckets(done, n, n, nodes) && Holding(chains, done, nodes)
    ensures Covered(chains, nodes)
  {
  }

  /** Where HASH_EXPAND_BUCKETS stands when buckets `0..i` of the old table `bs` are redistributed. */
  ghost predicate Halfway(chains: seq<seq<Handle>>, bs: seq<Bucket>, i: nat, grown: seq<seq<Handle>>, newBs: seq<Bucket>,
                          nexts: map<Handle, Handle?>, done: set<Handle>, ideal: nat, nonideal: nat, nodes: set<Handle>)
    reads nodes
  {
    && |chains| == |bs| > 0 && i <= |bs| && ideal > 0
    && FirstBuckets(done, i, |bs|, nodes) && Holding(grown, done, nodes)
    && Linked(grown, newBs, nodes) && Counted(grown, newBs)
    && Redistributed(newBs, ideal) && nonideal == Excess(newBs, ideal)
    && Items(newBs) + Items(bs[i..]) == Items(bs)
    && WereForward(chains, bs, nexts) && Untouched(nexts, done, nodes)
    && AllHashed(chains, nodes) && Covered(chains, nodes)
  }

  lemma HalfwayStart(chains: seq<seq<Handle>>, bs: seq<Bucket>, grown: seq<seq<Handle>>, newBs: seq<Bucket>,
                     ideal: nat, nodes: set<Handle>)
    requires Linked(chains, bs, nodes) && Covered(chains, nodes) && |grown| == |newBs| > 0 && ideal > 0
    requires forall b :: 0 <= b < |newBs| ==> newBs[b] == EMPTY_BUCKET && grown[b] == []
    ensures Halfway(chains, bs, 0, grown, newBs, NextOf(nodes), {}, ideal, 0, nodes)
  {
    StartEmpty(grown, newBs, ideal, |bs|, nodes);
    RecordChains(chains, bs, nodes);
    assert bs[0..] == bs;
  }

  lemma HalfwayEnd(chains: seq<seq<Handle>>, bs: seq<Bucket>, grown: seq<seq<Handle>>, newBs: seq<Bucket>,
                   nexts: map<Handle, Handle?>, done: set<Handle>, ideal: nat, nonideal: nat, nodes: set<Handle>)
    requires Halfway(chains, bs, |bs|, grown, newBs, nexts, done, ideal, nonideal, nodes)
    ensures Linked(grown, newBs, nodes) && Counted(grown, newBs) && Covered(grown, nodes)
    ensures Items(newBs) == Items(bs)
    ensures ideal > 0 && Redistributed(newBs, ideal) && nonideal == Excess(newBs, ideal)
  {
    AllBuckets(done, grown, |bs|, nodes);
    assert bs[|bs|..] == [];
  }

  lemma SomeBucket(chains: seq<seq<Handle>>, bs: seq<Bucket>, nodes: set<Handle>)
    requires Linked(chains, bs, nodes)
    ensures |bs| == |chains| > 0
  {
  }

  /** What the next old bucket brings along. */
  lemma HalfwayNext(chains: seq<seq<Handle>>, bs: seq<Bucket>, i: nat, grown: seq<seq<Handle>>, newBs: seq<Bucket>,
                    nexts: map<Handle, Handle?>, done: set<Handle>, ideal: nat, nonideal: nat, nodes: set<Handle>)
    requires Halfway(chains, bs, i, grown, newBs, nexts, done, ideal, nonideal, nodes) && i < |bs|
    ensures |chains| == |bs| && ideal > 0 && |newBs| > 0
    ensures Forward(chains[i], bs[i].hhHead) && Elements(chains[i]) <= nodes && Elements(chains[i]) !! done
    ensures Linked(grown, newBs, nodes) && Counted(grown, newBs) && Holding(grown, done, nodes)
    ensures Redistributed(newBs, ideal) && nonideal == Excess(newBs, ideal)
    ensures Items(newBs) + bs[i].count + Items(bs[i + 1..]) == Items(bs)
    ensures FirstBuckets(done + Elements(chains[i]), i + 1, |bs|, nodes)
    ensures WereForward(chains, bs, nexts) && Untouched(nexts, done, nodes)
    ensures AllHashed(chains, nodes) && Covered(chains, nodes)
  {
    hide Linked, Counted, Holding, Redistributed, Excess, Items, Covered, AllHashed;
    SomeBucket(grown, newBs, nodes);
    NextBucket(done, i, chains, nodes);
    StillForward(chains[i], bs[i].hhHead, nexts, done, nodes);
    ItemsFrom(bs, i);
  }

  lemma HalfwayLater(chains: seq<seq<Handle>>, bs: seq<Bucket>, i: nat, grown: seq<seq<Handle>>, newBs: seq<Bucket>,
                     nexts: map<Handle, Handle?>, done: set<Handle>, ideal: nat, nonideal: nat, nodes: set<Handle>)
    requires |chains| == |bs| > 0 && i <= |bs| && ideal > 0
    requires FirstBuckets(done, i, |bs|, nodes) && Holding(grown, done, nodes)
    requires Linked(grown, newBs, nodes) && Counted(grown, newBs)
    requires Redistributed(newBs, ideal) && nonideal == Excess(newBs, ideal)
    requires Items(newBs) + Items(bs[i..]) == Items(bs)
    requires WereForward(chains, bs, nexts) && Untouched(nexts, done, nodes)
    requires AllHashed(chains, nodes) && Covered(chains, nodes)
    ensures Halfway(chains, bs, i, grown, newBs, nexts, done, ideal, nonideal, nodes)
  {
  }

  lemma CountAt(chains: seq<seq<Handle>>, bs: seq<Bucket>, i: nat)
    requires Counted(chains, bs) && i < |bs|
    ensures |chains| == |bs| && bs[i].count == |chains[i]|
  {
  }

  /** One round of the outer loop of HASH_EXPAND_BUCKETS. */
  method MoveBucket(buckets: array<Bucket>, i: nat, newBuckets: array<Bucket>, ideal: nat, nonideal: nat,
                    ghost chains: seq<seq<Handle>>, ghost grown: seq<seq<Handle>>,
                    ghost nexts: map<Handle, Handle?>, ghost done: set<Handle>, ghost nodes: set<Handle>)
    returns (nonideal': nat, ghost grown': seq<seq<Handle>>, ghost done': set<Handle>)
    requires buckets != newBuckets && i < buckets.Length
    requires Halfway(chains, buckets[..], i, grown, newBuckets[..], nexts, done, ideal, nonideal, nodes)
    requires Counted(chains, buckets[..])
    modifies newBuckets, nodes`hhNext, nodes`hhPrev
    ensures Halfway(chains, buckets[..], i + 1, grown', newBuckets[..], nexts, done', ideal, nonideal', nodes)
  {
    hide Linked, Counted, Covered, AllHashed, Holding, FirstBuckets, Redistributed, Items, Excess, WereForward, Forward,
      Halfway;
    ghost var bs := buckets[..];
    CountAt(chains, bs, i);
    HalfwayNext(chains, bs, i, grown, newBuckets[..], nexts, done, ideal, nonideal, nodes);
    ghost var c := chains[i];
    done' := done + Elements(c);
    nonideal', grown' := MoveChain(newBuckets, buckets[i].hhHead, ideal, nonideal, c, grown, done, nodes);
    HalfwayLater(chains, bs, i + 1, grown', newBuckets[..], nexts, done', ideal, nonideal', nodes);
  }

  /** The outer loop of HASH_EXPAND_BUCKETS. */
  method Redistribute(buckets: array<Bucket>, newBuckets: array<Bucket>, ideal: nat,
                      ghost chains: seq<seq<Handle>>, ghost nodes: set<Handle>)
    returns (nonideal: nat, ghost grown: seq<seq<Handle>>)
    requires buckets != newBuckets && newBuckets.Length > 0 && ideal > 0
    requires Linked(chains, buckets[..], nodes) && Counted(chains, buckets[..]) && Covered(chains, nodes)
    requires forall b :: 0 <= b < newBuckets.Length ==> newBuckets[b] == EMPTY_BUCKET
    modifies newBuckets, nodes`hhNext, nodes`hhPrev
    ensures Linked(grown, newBuckets[..], nodes) && Counted(grown, newBuckets[..]) && Covered(grown, nodes)
    ensures Items(newBuckets[..]) == Items(buckets[..])
    ensures Redistributed(newBuckets[..], ideal) && nonideal == Excess(newBuckets[..], ideal)
  {
    hide *;
    ghost var bs, nexts, done := buckets[..], NextOf(nodes), {};
    nonideal, grown := 0, seq(newBuckets.Length, _ => []);
    HalfwayStart(chains, bs, grown, newBuckets[..], ideal, nodes);
    var i := 0;
    while i < buckets.Length
      invariant 0 <= i <= buckets.Length && buckets[..] == bs
      invariant Halfway(chains, bs, i, grown, newBuckets[..], nexts, done, ideal, nonideal, nodes)
    {
      nonideal, grown, done := MoveBucket(buckets, i, newBuckets, ideal, nonideal, chains, grown, nexts, done, nodes);
      i := i + 1;
    }
    HalfwayEnd(chains, bs, grown, newBuckets[..], nexts, done, ideal, nonideal, nodes);
  }

  lemma DoublePow2(k: nat)
    ensures Pow2(k + 1) == 2 * Pow2(k)
  {
  }

  /** HASH_EXPAND_BUCKETS: doubles the buckets and redistributes every chain. */
  method ExpandBuckets(t: Table, ghost chains: seq<seq<Handle>>, ghost nodes: set<Handle>)
    returns (ghost chains': seq<seq<Handle>>)
    requires t.numBuckets == t.buckets.Length == Pow2(t.log2NumBuckets)
    requires Linked(chains, t.buckets[..], nodes) && Counted(chains, t.buckets[..]) && Covered(chains, nodes)
    requires t.numItems == Items(t.buckets[..]) > 0
    modifies t, nodes`hhNext, nodes`hhPrev
    ensures fresh(t.buckets) && t.numItems == old(t.numItems) && t.tail == old(t.tail)
    ensures t.numBuckets == t.buckets.Length == 2 * old(t.numBuckets) == Pow2(t.log2NumBuckets)
    ensures Linked(chains', t.buckets[..], nodes) && Counted(chains', t.buckets[..]) && Covered(chains', nodes)
    ensures Items(t.buckets[..]) == t.numItems
    ensures t.idealChainMaxlen == IdealChainMaxlen(t.numItems, t.numBuckets) > 0
    ensures Redistributed(t.buckets[..], t.idealChainMaxlen)
    ensures t.nonidealItems == Excess(t.buckets[..], t.idealChainMaxlen)
    ensures t.ineffExpands == if t.nonidealItems > t.numItems / 2 then old(t.ineffExpands) + 1 else 0
    ensures t.noexpand == (old(t.noexpand) || t.ineffExpands > 1)
  {
    hide *;
    var n := t.numBuckets;
    DoublePow2(t.log2NumBuckets);
    var newBuckets := new Bucket[2 * n](_ => EMPTY_BUCKET);
    t.idealChainMaxlen := IdealByShift(t.numItems, t.log2NumBuckets + 1, 2 * n);
    t.nonidealItems, chains' := Redistribute(t.buckets, newBuckets, t.idealChainMaxlen, chains, nodes);
    t.numBuckets := n * 2;
    t.log2NumBuckets := t.log2NumBuckets + 1;
    t.buckets := newBuckets;
    ShiftHalves(t.numItems);
    t.ineffExpands := if t.nonidealItems > ShiftRight(t.numItems, 1) then t.ineffExpands + 1 else 0;
    if t.ineffExpands > 1 {
      t.noexpand := true;
    }
  }

  /** HASH_FIND_IN_BKT: the element of the chain with the given key. */
  method FindInBucket(head: Handle?, key: string, ghost c: seq<Handle>) returns (out: Handle?)
    requires Forward(c, head)
    ensures out != null ==> out in c && out.key == key
    ensures out == null ==> forall h :: h in c ==> h.key != key
  {
    out := head;
    ghost var i := 0;
    while out != null
      invariant 0 <= i <= |c| && out == At(c, i)
      invariant forall j :: 0 <= j < i ==> c[j].key != key
      decreases |c| - i
    {
      if |out.key| == |key| {
        if out.key == key {
          break;
        }
      }
      assert c[i].hhNext == At(c, i + 1);
      out, i := out.hhNext, i + 1;
    }
  }

  ghost function Without(c: seq<Handle>, k: nat): (w: seq<Handle>)
    requires k < |c|
    ensures |w| == |c| - 1
    ensures forall i :: 0 <= i < |w| ==> w[i] == c[if i < k then i else i + 1]
  {
    c[..k] + c[k + 1..]
  }

  lemma WithoutElements(c: seq<Handle>, k: nat)
    requires k < |c| && Distinct(c)
    ensures forall h :: h in Without(c, k) <==> h in c && h != c[k]
    ensures Distinct(Without(c, k))
  {
    var w := Without(c, k);
    forall h | h in c && h != c[k] ensures h in w {
      var i :| 0 <= i < |c| && c[i] == h;
      assert w[if i < k then i else i - 1] == h;
    }
  }

  /** A chain whose links jump over position `k` is the chain without it. */
  lemma ChainBridged(c: seq<Handle>, k: nat, head: Handle?)
    requires Distinct(c) && k < |c| && head == At(c, if k == 0 then 1 else 0)
    requires forall j {:trigger c[j].hhNext} :: 0 <= j < |c| && j != k ==>
      c[j].hhNext == At(c, if j + 1 == k then j + 2 else j + 1)
    requires forall j {:trigger c[j].hhPrev} :: 0 <= j < |c| && j != k ==>
      c[j].hhPrev == At(c, if j == k + 1 then j - 2 else j - 1)
    ensures Chain(Without(c, k), head)
  {
    WithoutElements(c, k);
  }

  /** The pointer surgery of HASH_DEL_IN_BKT. */
  method Unlink(h: Handle, head: Handle?, ghost c: seq<Handle>, ghost k: nat) returns (head': Handle?)
    requires Chain(c, head) && k < |c| && c[k] == h
    modifies c`hhNext, c`hhPrev
    ensures Chain(Without(c, k), head')
  {
    hide Without;
    assert h.hhNext == At(c, k + 1) && h.hhPrev == At(c, k - 1);
    head' := head;
    if head' == h {
      head' := h.hhNext;
    }
    if h.hhPrev != null {
      assert h.hhPrev in c;
      h.hhPrev.hhNext := h.hhNext;
    }
    if h.hhNext != null {
      assert h.hhNext in c;
      h.hhNext.hhPrev := h.hhPrev;
    }
    ChainBridged(c, k, head');
  }

  /** HASH_DEL_IN_BKT: takes `h`, at position `k` of its chain, out of bucket `b`. */
  method DelInBucket(buckets: array<Bucket>, b: nat, h: Handle, ghost k: nat,
                     ghost chains: seq<seq<Handle>>, ghost nodes: set<Handle>)
    requires b < buckets.Length && Linked(chains, buckets[..], nodes) && Counted(chains, buckets[..])
    requires k < |chains[b]| && chains[b][k] == h
    modifies buckets, nodes`hhNext, nodes`hhPrev
    ensures Linked(chains[b := Without(chains[b], k)], buckets[..], nodes)
    ensures Counted(chains[b := Without(chains[b], k)], buckets[..])
    ensures buckets[..] == old(buckets[..])[b := buckets[b]]
    ensures buckets[b].count + 1 == old(buckets[b].count) && buckets[b].expandMult == old(buckets[b].expandMult)
  {
    ghost var c := chains[b];
    WithoutElements(c, k);
    ghost var chains', bs := chains[b := Without(c, k)], buckets[..];
    hide Without, Distinct;
    assert forall x :: x in c ==> x in nodes && x.hashv % buckets.Length == b;
    var head := Unlink(h, buckets[b].hhHead, c, k);
    buckets[b] := buckets[b].(count := buckets[b].count - 1, hhHead := head);
    assert buckets[..] == bs[b := buckets[b]];
    forall d {:trigger chains'[d]} | 0 <= d < buckets.Length
      ensures Hashed(chains'[d], d, buckets.Length, nodes)
      ensures Chain(chains'[d], buckets[d].hhHead)
    {
      assert Hashed(chains[d], d, buckets.Length, nodes);
      if d != b {
        assert old(Chain(chains[d], bs[d].hhHead));
        forall i | 0 <= i < |chains[d]|
          ensures chains[d][i].hhNext == At(chains[d], i + 1) && chains[d][i].hhPrev == At(chains[d], i - 1)
        {
          assert chains[d][i] in chains[d];
        }
      } else {
        assert Chain(Without(c, k), head);
      }
    }
  }
}
