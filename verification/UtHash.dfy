/** The hash table of ext/uthash.h, specified by the list of its elements in insertion order. */
module UtHash {
  import opened UtHashTypes
  import opened ExpansionPolicy
  import opened UtHashChains

  /** `s` is a doubly linked list in insertion order, ending in null at both ends. */
  ghost predicate InOrder(s: seq<Handle>)
    reads s`next, s`prev
  {
    && (forall i {:trigger s[i].next} :: 0 <= i < |s| ==> s[i].next == At(s, i + 1))
    && (forall i {:trigger s[i].prev} :: 0 <= i < |s| ==> s[i].prev == At(s, i - 1))
    && Distinct(s)
  }

  ghost predicate DistinctKeys(s: seq<Handle>) {
    forall i, j :: 0 <= i < j < |s| ==> s[i].key != s[j].key
  }

  ghost predicate WellHashed(s: seq<Handle>, t: Table, hashFcn: string -> nat)
    reads s`tbl, s`hashv
  {
    forall h :: h in s ==> h.tbl == t && h.hashv == hashFcn(h.key)
  }

  /** While expansion is not inhibited, no chain outgrows its bucket's capacity. */
  ghost predicate Policy(t: Table)
    reads t`noexpand, t`buckets, t`idealChainMaxlen, t.buckets
  {
    !t.noexpand ==> Bounded(t.buckets[..], t.idealChainMaxlen)
  }

  /** The table part: buckets, chains and counts for the elements `nodes`. */
  ghost predicate TableHolds(t: Table, chains: seq<seq<Handle>>, nodes: set<Handle>)
    reads t`numBuckets, t`log2NumBuckets, t`buckets, t`numItems, t`noexpand, t`idealChainMaxlen
    reads t.buckets, nodes`hhNext, nodes`hhPrev, nodes`hashv
  {
    && t.numBuckets == t.buckets.Length == Pow2(t.log2NumBuckets)
    && Linked(chains, t.buckets[..], nodes) && Counted(chains, t.buckets[..]) && Covered(chains, nodes)
    && t.numItems == Items(t.buckets[..])
    && Policy(t)
  }

  /** A doubling was ineffective if it left more than half the items beyond the ideal position in their chains. */
  ghost predicate Ineffective(t: Table)
    reads t`nonidealItems, t`numItems
  {
    t.nonidealItems > t.numItems / 2
  }

  /** What one addition does to the size of a table of `n` buckets: nothing, or one doubling, after which the
      number of ineffective doublings in a row and the inhibition of further ones are brought up to date. */
  ghost predicate Grown(n: nat, ineffExpands: nat, noexpand: bool, t: Table)
    reads t, t.buckets
  {
    if t.numBuckets == n then t.ineffExpands == ineffExpands && t.noexpand == noexpand
    else
      && t.numBuckets == 2 * n > 0 && !noexpand
      && t.idealChainMaxlen == IdealChainMaxlen(t.numItems, t.numBuckets)
      && t.nonidealItems == Excess(t.buckets[..], t.idealChainMaxlen)
      && t.ineffExpands == (if Ineffective(t) then ineffExpands + 1 else 0)
      && t.noexpand == (t.ineffExpands > 1)
  }

  /** HASH_ADD_TO_BKT: puts `h` in its bucket and doubles the table when the bucket has reached its capacity. */
  method AddToBkt(t: Table, h: Handle, ghost chains: seq<seq<Handle>>, ghost nodes: set<Handle>)
    returns (ghost chains': seq<seq<Handle>>)
    requires t.numBuckets == t.buckets.Length == Pow2(t.log2NumBuckets)
    requires Linked(chains, t.buckets[..], nodes) && Counted(chains, t.buckets[..]) && Covered(chains, nodes - {h})
    requires h in nodes && h !in chains[h.hashv % t.numBuckets]
    requires t.numItems == Items(t.buckets[..]) + 1 && Policy(t)
    modifies t, t.buckets, nodes`hhNext, nodes`hhPrev
    ensures TableHolds(t, chains', nodes)
    ensures t.numItems == old(t.numItems) && t.tail == old(t.tail)
    ensures t.buckets == old(t.buckets) || fresh(t.buckets)
    ensures var x := old(t.buckets[h.hashv % t.numBuckets]);
      t.numBuckets ==
        if x.count + 1 >= (x.expandMult + 1) * 10 && !old(t.noexpand) then 2 * old(t.numBuckets) else old(t.numBuckets)
    ensures t.numBuckets != old(t.numBuckets) ==>
      && t.ineffExpands == (if t.nonidealItems > t.numItems / 2 then old(t.ineffExpands) + 1 else 0)
      && t.noexpand == (t.ineffExpands > 1)
    ensures Grown(old(t.numBuckets), old(t.ineffExpands), old(t.noexpand), t)
  {
    var b := h.hashv % t.numBuckets;
    ghost var bs := t.buckets[..];
    AddToBucket(t.buckets, b, h, chains, nodes);
    chains' := chains[b := [h] + chains[b]];
    ghost var x := t.buckets[b];
    ItemsUpdate(bs, b, x);
    if t.buckets[b].count >= (t.buckets[b].expandMult + 1) * BKT_CAPACITY_THRESH && !t.noexpand {
      LoadFactor(bs, t.idealChainMaxlen);
      chains' := ExpandBuckets(t, chains', nodes);
      DoublingBounds(t.buckets[..], t.idealChainMaxlen);
    } else if !t.noexpand {
      AddKeepsBounds(bs, b, x, t.idealChainMaxlen);
    }
  }

  lemma InitialSize()
    ensures Pow2(INITIAL_NUM_BUCKETS_LOG2) == INITIAL_NUM_BUCKETS
  {
    assert Pow2(5) == 2 * Pow2(4) == 4 * Pow2(3) == 8 * Pow2(2);
  }

  /** A fresh table holds nothing. */
  lemma FreshTable(t: Table, chains: seq<seq<Handle>>)
    requires t.numBuckets == INITIAL_NUM_BUCKETS == t.buckets.Length == |chains|
    requires t.log2NumBuckets == INITIAL_NUM_BUCKETS_LOG2 && t.numItems == t.idealChainMaxlen == 0
    requires forall b :: 0 <= b < |chains| ==> t.buckets[b] == EMPTY_BUCKET && chains[b] == []
    ensures TableHolds(t, chains, Elements([]))
  {
    InitialSize();
    EmptyBuckets(t.buckets[..], 0);
  }

  /** The start of HASH_ADD_KEYPTR on a non-empty list: `add` becomes the last element. */
  method LinkLast(add: Handle, t: Table, ghost order: seq<Handle>, ghost chains: seq<seq<Handle>>, ghost nodes: set<Handle>)
    requires InOrder(order) && order != [] && order[|order| - 1] == t.tail && add !in order
    requires TableHolds(t, chains, nodes)
    modifies t`tail, order`next, add`next, add`prev
    ensures InOrder(order + [add]) && t.tail == add
    ensures TableHolds(t, chains, nodes)
  {
    hide TableHolds;
    add.next := null;
    t.tail.next := add;
    add.prev := t.tail;
    t.tail := add;
  }

  lemma OneMoreKey(s: seq<Handle>, h: Handle)
    requires DistinctKeys(s) && forall x :: x in s ==> x.key != h.key
    ensures DistinctKeys(s + [h])
  {
  }

  lemma TableParts(t: Table, chains: seq<seq<Handle>>, nodes: set<Handle>)
    requires TableHolds(t, chains, nodes)
    ensures t.numBuckets == t.buckets.Length == Pow2(t.log2NumBuckets) && |chains| == t.buckets.Length
    ensures Linked(chains, t.buckets[..], nodes) && Counted(chains, t.buckets[..]) && Covered(chains, nodes)
    ensures t.numItems == Items(t.buckets[..]) && Policy(t)
  {
  }

  /** A node that is in no chain yet may join the nodes. */
  lemma OneMoreNode(chains: seq<seq<Handle>>, bs: seq<Bucket>, nodes: set<Handle>, h: Handle)
    requires Linked(chains, bs, nodes) && Covered(chains, nodes) && h !in nodes
    ensures Linked(chains, bs, nodes + {h}) && Covered(chains, nodes + {h} - {h})
    ensures h !in chains[h.hashv % |bs|]
  {
    assert nodes + {h} - {h} == nodes;
    assert Hashed(chains[h.hashv % |bs|], h.hashv % |bs|, |bs|, nodes);
  }

  lemma OneMoreHashed(s: seq<Handle>, h: Handle, t: Table, hashFcn: string -> nat)
    requires WellHashed(s, t, hashFcn) && h.tbl == t && h.hashv == hashFcn(h.key)
    ensures WellHashed(s + [h], t, hashFcn)
  {
  }

  lemma OneMoreElement(s: seq<Handle>, h: Handle)
    ensures Elements(s + [h]) == Elements(s) + {h} && (h in Elements(s) <==> h in s)
    ensures forall x :: x in Elements(s) <==> x in s
    ensures forall x :: x in s + [h] <==> x in s || x == h
  {
  }

  /** The end of HASH_ADD_KEYPTR: `add` is counted, hashed and put in its bucket. */
  method Register(t: Table, add: Handle, hashFcn: string -> nat, ghost order: seq<Handle>, ghost chains: seq<seq<Handle>>)
    returns (ghost chains': seq<seq<Handle>>)
    requires TableHolds(t, chains, Elements(order)) && WellHashed(order, t, hashFcn) && add !in order
    modifies t, t.buckets, order`hhNext, order`hhPrev, add`tbl, add`hashv, add`hhNext, add`hhPrev
    ensures TableHolds(t, chains', Elements(order + [add])) && WellHashed(order + [add], t, hashFcn)
    ensures t.numItems == old(t.numItems) + 1 && t.tail == old(t.tail)
    ensures t.buckets == old(t.buckets) || fresh(t.buckets)
    ensures Grown(old(t.numBuckets), old(t.ineffExpands), old(t.noexpand), t)
  {
    hide *;
    ghost var nodes := Elements(order);
    OneMoreElement(order, add);
    TableParts(t, chains, nodes);
    t.numItems := t.numItems + 1;
    add.tbl := t;
    add.hashv := hashFcn(add.key);
    OneMoreNode(chains, t.buckets[..], nodes, add);
    OneMoreHashed(order, add, t, hashFcn);
    chains' := AddToBkt(t, add, chains, nodes + {add});
  }

  /** What a non-empty hash looks like: head, list, table and chains agree. */
  ghost predicate Consistent(head: Handle, order: seq<Handle>, t: Table, chains: seq<seq<Handle>>, hashFcn: string -> nat)
    reads order, t, t.buckets
  {
    && order != [] && head == order[0]
    && InOrder(order) && DistinctKeys(order) && WellHashed(order, t, hashFcn)
    && TableHolds(t, chains, Elements(order))
    && t.numItems == |order| && t.tail == order[|order| - 1]
  }

  /** HASH_MAKE_TABLE for the first element. */
  method MakeTable(add: Handle) returns (t: Table, ghost chains: seq<seq<Handle>>)
    modifies add`next, add`prev
    ensures fresh(t) && fresh(t.buckets) && t.tail == add && t.numItems == 0
    ensures t.numBuckets == t.buckets.Length == INITIAL_NUM_BUCKETS == 32 && t.ineffExpands == 0 && !t.noexpand
    ensures InOrder([add]) && TableHolds(t, chains, Elements([]))
  {
    add.next, add.prev := null, null;
    t := new Table(add);
    chains := seq(t.numBuckets, _ => []);
    FreshTable(t, chains);
  }

  /** HASH_ADD_KEYPTR with no head: the element makes the table. */
  method AddFirst(add: Handle, hashFcn: string -> nat) returns (t: Table, ghost chains: seq<seq<Handle>>)
    modifies add
    ensures fresh(t) && fresh(t.buckets)
    ensures add.tbl == t && Consistent(add, [add], t, chains, hashFcn)
    ensures Grown(INITIAL_NUM_BUCKETS, 0, false, t)
  {
    hide *;
    AloneFacts(add);
    t, chains := MakeTable(add);
    NoneHashed(t, hashFcn);
    chains := Register(t, add, hashFcn, [], chains);
    Closed(add, [add], t, chains, hashFcn);
    TableIn([add], 0, t, hashFcn);
  }

  lemma AloneFacts(add: Handle)
    ensures [] + [add] == [add] && DistinctKeys([add])
  {
  }

  lemma NoneHashed(t: Table, hashFcn: string -> nat)
    ensures WellHashed([], t, hashFcn)
  {
  }

  /** HASH_ADD_KEYPTR on a non-empty hash: the element follows the tail. */
  method AddLast(head: Handle, add: Handle, t: Table, hashFcn: string -> nat,
                 ghost order: seq<Handle>, ghost chains: seq<seq<Handle>>)
    returns (ghost chains': seq<seq<Handle>>)
    requires Consistent(head, order, t, chains, hashFcn)
    requires add !in order && forall h :: h in order ==> h.key != add.key
    modifies t, t.buckets, order`next, order`hhNext, order`hhPrev, add
    ensures t.buckets == old(t.buckets) || fresh(t.buckets)
    ensures head.tbl == add.tbl == t && Consistent(head, order + [add], t, chains', hashFcn)
    ensures Grown(old(t.numBuckets), old(t.ineffExpands), old(t.noexpand), t)
  {
    hide *;
    Opened(head, order, t, chains, hashFcn);
    OneMoreKey(order, add);
    OneMoreElement(order, add);
    LinkLast(add, t, order, chains, Elements(order));
    chains' := Register(t, add, hashFcn, order, chains);
    Closed(head, order + [add], t, chains', hashFcn);
    assert add.tbl == t by {
      TableIn(order + [add], |order|, t, hashFcn);
    }
  }

  lemma TableIn(s: seq<Handle>, i: nat, t: Table, hashFcn: string -> nat)
    requires WellHashed(s, t, hashFcn) && i < |s|
    ensures s[i].tbl == t
  {
  }

  /** Bridging position `k` leaves the rest of the list in order. */
  lemma Bridged(order: seq<Handle>, k: nat)
    requires Distinct(order) && k < |order|
    requires forall j {:trigger order[j].next} :: 0 <= j < |order| && j != k ==>
      order[j].next == At(order, if j + 1 == k then j + 2 else j + 1)
    requires forall j {:trigger order[j].prev} :: 0 <= j < |order| && j != k ==>
      order[j].prev == At(order, if j == k + 1 then j - 2 else j - 1)
    ensures InOrder(Without(order, k))
  {
    WithoutElements(order, k);
  }

  /** HASH_DELETE on the insertion-order list. */
  method UnlinkOrder(del: Handle, head: Handle, t: Table, ghost order: seq<Handle>, ghost k: nat,
                     ghost chains: seq<seq<Handle>>, ghost nodes: set<Handle>) returns (head': Handle?)
    requires InOrder(order) && |order| > 1 && k < |order| && order[k] == del
    requires head == order[0] && t.tail == order[|order| - 1] && TableHolds(t, chains, nodes)
    modifies t`tail, order`next, order`prev
    ensures InOrder(Without(order, k)) && head' == Without(order, k)[0] && t.tail == Without(order, k)[|order| - 2]
    ensures TableHolds(t, chains, nodes)
  {
    hide TableHolds;
    LinksAt(order, k);
    head' := head;
    if del == t.tail {
      assert k == |order| - 1;
      t.tail := del.prev;
    }
    if del.prev != null {
      assert del.prev in order;
      del.prev.next := del.next;
    } else {
      head' := del.next;
    }
    if del.next != null {
      assert del.next in order;
      del.next.prev := del.prev;
    }
    Bridged(order, k);
  }

  /** The chains without `del`, seen by the remaining nodes. */
  lemma ForgetNode(chains: seq<seq<Handle>>, bs: seq<Bucket>, b: nat, kc: nat, del: Handle, nodes: set<Handle>)
    requires b < |chains| && kc < |chains[b]| && chains[b][kc] == del && Distinct(chains[b])
    requires del in nodes && del.hashv % |chains| == b
    requires Linked(chains[b := Without(chains[b], kc)], bs, nodes) && Covered(chains, nodes)
    ensures Linked(chains[b := Without(chains[b], kc)], bs, nodes - {del})
    ensures Covered(chains[b := Without(chains[b], kc)], nodes - {del})
  {
    WithoutElements(chains[b], kc);
  }

  lemma InItsChain(t: Table, del: Handle, chains: seq<seq<Handle>>, nodes: set<Handle>) returns (kc: nat)
    requires TableHolds(t, chains, nodes) && del in nodes
    ensures |chains| == t.numBuckets == t.buckets.Length == Pow2(t.log2NumBuckets)
    ensures Linked(chains, t.buckets[..], nodes) && Counted(chains, t.buckets[..]) && Covered(chains, nodes)
    ensures t.numItems == Items(t.buckets[..]) && Policy(t)
    ensures var c := chains[del.hashv % t.numBuckets]; kc < |c| && c[kc] == del && Distinct(c)
    ensures t.buckets[del.hashv % t.numBuckets].count > 0
  {
    var b := del.hashv % t.numBuckets;
    kc :| 0 <= kc < |chains[b]| && chains[b][kc] == del;
    assert Chain(chains[b], t.buckets[b].hhHead);
  }

  /** HASH_DELETE on the table. */
  method Unregister(t: Table, del: Handle, ghost chains: seq<seq<Handle>>, ghost nodes: set<Handle>)
    returns (ghost chains': seq<seq<Handle>>)
    requires TableHolds(t, chains, nodes) && del in nodes
    modifies t`numItems, t.buckets, nodes`hhNext, nodes`hhPrev
    ensures TableHolds(t, chains', nodes - {del}) && t.numItems + 1 == old(t.numItems)
  {
    hide Linked, Covered, Counted, Bounded, Items, Distinct, Chain, Without, Pow2;
    var b := del.hashv % t.numBuckets;
    ghost var kc := InItsChain(t, del, chains, nodes);
    ghost var bs := t.buckets[..];
    DelInBucket(t.buckets, b, del, kc, chains, nodes);
    chains' := chains[b := Without(chains[b], kc)];
    ForgetNode(chains, t.buckets[..], b, kc, del, nodes);
    ItemsUpdate(bs, b, t.buckets[b]);
    t.numItems := t.numItems - 1;
    if !t.noexpand {
      DeleteKeepsBounds(bs, b, t.buckets[b], t.idealChainMaxlen);
    }
  }

  lemma Opened(head: Handle, order: seq<Handle>, t: Table, chains: seq<seq<Handle>>, hashFcn: string -> nat)
    requires Consistent(head, order, t, chains, hashFcn)
    ensures order != [] && head == order[0] && t.tail == order[|order| - 1] && t.numItems == |order|
    ensures InOrder(order) && Distinct(order) && DistinctKeys(order) && WellHashed(order, t, hashFcn)
    ensures TableHolds(t, chains, Elements(order)) && head.tbl == t
    ensures forall h :: h in Elements(order) <==> h in order
  {
    assert order[0] in order;
  }

  lemma Closed(head: Handle, order: seq<Handle>, t: Table, chains: seq<seq<Handle>>, hashFcn: string -> nat)
    requires order != [] && head == order[0] && t.tail == order[|order| - 1] && t.numItems == |order|
    requires InOrder(order) && DistinctKeys(order) && WellHashed(order, t, hashFcn)
    requires TableHolds(t, chains, Elements(order))
    ensures Consistent(head, order, t, chains, hashFcn) && head.tbl == t
  {
    assert order[0] in order;
  }

  lemma LinksAt(order: seq<Handle>, k: nat)
    requires InOrder(order) && k < |order|
    ensures order[k].prev == (if k == 0 then null else order[k - 1])
    ensures order[k].next == (if k == |order| - 1 then null else order[k + 1])
  {
    assert order[k].prev == At(order, k - 1) && order[k].next == At(order, k + 1);
  }

  lemma KeysWithout(order: seq<Handle>, k: nat, t: Table, hashFcn: string -> nat)
    requires DistinctKeys(order) && Distinct(order) && WellHashed(order, t, hashFcn) && k < |order|
    ensures DistinctKeys(Without(order, k)) && WellHashed(Without(order, k), t, hashFcn)
    ensures Elements(Without(order, k)) == Elements(order) - {order[k]}
  {
    WithoutElements(order, k);
  }

  /** HASH_DELETE of an element that is not alone. */
  method DeleteOne(del: Handle, head: Handle, t: Table, hashFcn: string -> nat,
                   ghost order: seq<Handle>, ghost k: nat, ghost chains: seq<seq<Handle>>)
    returns (head': Handle, ghost chains': seq<seq<Handle>>)
    requires Consistent(head, order, t, chains, hashFcn)
    requires |order| > 1 && k < |order| && order[k] == del
    modifies t`tail, t`numItems, t.buckets, order`next, order`prev, order`hhNext, order`hhPrev
    ensures head' in Without(order, k) && head'.tbl == t && Consistent(head', Without(order, k), t, chains', hashFcn)
  {
    hide InOrder, DistinctKeys, TableHolds, WellHashed, Consistent, Without, Elements, Distinct;
    Opened(head, order, t, chains, hashFcn);
    KeysWithout(order, k, t, hashFcn);
    WithoutElements(order, k);
    ghost var nodes, order' := Elements(order), Without(order, k);
    head' := UnlinkOrder(del, head, t, order, k, chains, nodes);
    chains' := Unregister(t, del, chains, nodes);
    Closed(head', order', t, chains', hashFcn);
  }

  /** How many of the last doublings in a row were ineffective. */
  ghost function InARow(doublings: seq<bool>): nat {
    if doublings != [] && doublings[|doublings| - 1] then 1 + InARow(doublings[..|doublings| - 1]) else 0
  }

  /** `doublings` is the history of a table with these fields: for every doubling since it was made, whether
      it was ineffective. */
  ghost predicate History(numBuckets: nat, ineffExpands: nat, noexpand: bool, doublings: seq<bool>) {
    && numBuckets == Pow2(INITIAL_NUM_BUCKETS_LOG2 + |doublings|)
    && ineffExpands == InARow(doublings) && noexpand == (InARow(doublings) > 1)
    && forall i {:trigger doublings[i]} :: 0 <= i < |doublings| - 2 ==> !(doublings[i] && doublings[i + 1])
  }

  /** The history after an addition to a table with `n` buckets. */
  ghost function Later(n: nat, t: Table, doublings: seq<bool>): seq<bool>
    reads t`numBuckets, t`nonidealItems, t`numItems
  {
    if t.numBuckets == n then doublings else doublings + [Ineffective(t)]
  }

  /** `after` is `before`, or has one doubling more, which is judged by where the items of the doubled table are. */
  ghost predicate Judged(t: Table, before: seq<bool>, after: seq<bool>)
    reads t, t.buckets
  {
    after != before ==>
      && after == before + [Ineffective(t)]
      && t.numBuckets > 0 && t.idealChainMaxlen == IdealChainMaxlen(t.numItems, t.numBuckets)
      && t.nonidealItems == Excess(t.buckets[..], t.idealChainMaxlen)
  }

  lemma HistoryGrows(n: nat, ineffExpands: nat, noexpand: bool, t: Table, doublings: seq<bool>)
    requires History(n, ineffExpands, noexpand, doublings) && Grown(n, ineffExpands, noexpand, t)
    ensures History(t.numBuckets, t.ineffExpands, t.noexpand, Later(n, t, doublings))
    ensures Judged(t, doublings, Later(n, t, doublings))
  {
    if t.numBuckets != n {
      var b, later := Ineffective(t), doublings + [Ineffective(t)];
      assert later[..|later| - 1] == doublings;
      DoublePow2(INITIAL_NUM_BUCKETS_LOG2 + |doublings|);
      forall i | 0 <= i < |later| - 2 ensures !(later[i] && later[i + 1]) {
        if i == |doublings| - 2 && doublings[i] && doublings[i + 1] {
          TwoInARow(doublings);
        }
      }
    }
  }

  lemma TwoInARow(doublings: seq<bool>)
    ensures InARow(doublings) > 1 <==>
      |doublings| >= 2 && doublings[|doublings| - 1] && doublings[|doublings| - 2]
  {
    if doublings != [] {
      var d := doublings[..|doublings| - 1];
      assert d != [] ==> d[|d| - 1] == doublings[|doublings| - 2];
    }
  }

  lemma HistoryStarts(t: Table) returns (later: seq<bool>)
    requires Grown(INITIAL_NUM_BUCKETS, 0, false, t)
    ensures History(t.numBuckets, t.ineffExpands, t.noexpand, later) && Judged(t, [], later)
  {
    InitialSize();
    HistoryGrows(INITIAL_NUM_BUCKETS, 0, false, t, []);
    later := Later(INITIAL_NUM_BUCKETS, t, []);
  }

  /** A variable of the program that holds the head of a hash. */
  class Hash {
    const hashFcn: string -> nat
    var head: Handle?
    ghost var order: seq<Handle>         // the elements in insertion order
    ghost var chains: seq<seq<Handle>>   // the chains of the buckets
    ghost var doublings: seq<bool>       // for every doubling of the table, whether it was ineffective
    ghost var Repr: set<object>

    ghost predicate Valid()
      reads this, Repr
      ensures Valid() ==> this in Repr
    {
      && this in Repr
      && (forall h :: h in order ==> h in Repr)
      && (head == null ==> order == [] && doublings == [])
      && (head != null ==>
            && head in Repr && head.tbl != null && head.tbl in Repr && head.tbl.buckets in Repr
            && Consistent(head, order, head.tbl, chains, hashFcn)
            && History(head.tbl.numBuckets, head.tbl.ineffExpands, head.tbl.noexpand, doublings))
    }

    lemma Open()
      requires Valid()
      ensures this in Repr && forall h :: h in order ==> h in Repr
      ensures head == null <==> order == []
      ensures head == null ==> doublings == []
      ensures InOrder(order) && Distinct(order)
      ensures head != null ==>
        && head in order && head.tbl != null && head.tbl in Repr && head.tbl.buckets in Repr
        && Consistent(head, order, head.tbl, chains, hashFcn)
        && History(head.tbl.numBuckets, head.tbl.ineffExpands, head.tbl.noexpand, doublings)
    {
      if head != null {
        Opened(head, order, head.tbl, chains, hashFcn);
      }
    }

    lemma CloseEmpty()
      requires this in Repr && head == null && order == [] && doublings == []
      ensures Valid()
    {
    }

    lemma Close(t: Table)
      requires this in Repr && (forall h :: h in order ==> h in Repr)
      requires head != null && head in order && head.tbl == t && t in Repr && t.buckets in Repr
      requires Consistent(head, order, t, chains, hashFcn)
      requires History(t.numBuckets, t.ineffExpands, t.noexpand, doublings)
      ensures Valid()
    {
    }

    constructor (hashFcn: string -> nat)
      ensures Valid() && fresh(Repr) && order == [] && this.hashFcn == hashFcn
    {
      this.hashFcn := hashFcn;
      head, order, chains, doublings := null, [], [], [];
      Repr := {this};
    }

    /** HASH_FIND: the stored element with the key, or null exactly when there is none. */
    method Find(key: string) returns (out: Handle?)
      requires Valid()
      ensures out != null ==> out in order && out.key == key
      ensures out == null ==> forall h :: h in order ==> h.key != key
    {
      out := null;
      if head != null {
        var b := hashFcn(key) % head.tbl.numBuckets;
        assert Linked(chains, head.tbl.buckets[..], Elements(order));
        assert Chain(chains[b], head.tbl.buckets[b].hhHead);
        out := FindInBucket(head.tbl.buckets[b].hhHead, key, chains[b]);
      }
    }

    /** HASH_ADD_KEYPTR on an empty hash. */
    method Start(add: Handle)
      requires Valid() && head == null && add !in Repr
      modifies this, add
      ensures Valid() && order == [add] && fresh(Repr - old(Repr) - {add})
      ensures head != null && head.tbl != null && Judged(head.tbl, [], doublings)
    {
      hide *;
      Open();
      AloneFacts(add);
      var t, chains' := AddFirst(add, hashFcn);
      ghost var later := HistoryStarts(t);
      head, chains, order, doublings, Repr := add, chains', [add], later, Repr + {add, t, t.buckets};
      Close(t);
    }

    /** HASH_ADD_KEYPTR on a hash that is not empty. */
    method Append(add: Handle)
      requires Valid() && head != null && add !in Repr
      requires forall h :: h in order ==> h.key != add.key
      modifies Repr, add
      ensures Valid() && order == old(order) + [add] && fresh(Repr - old(Repr) - {add})
      ensures head != null && head.tbl != null && Judged(head.tbl, old(doublings), doublings)
    {
      hide *;
      Open();
      OneMoreElement(order, add);
      var t := head.tbl;
      ghost var n, ineffExpands, noexpand := t.numBuckets, t.ineffExpands, t.noexpand;
      ghost var chains' := AddLast(head, add, t, hashFcn, order, chains);
      HistoryGrows(n, ineffExpands, noexpand, t, doublings);
      chains, order, doublings, Repr := chains', order + [add], Later(n, t, doublings), Repr + {add, t.buckets};
      Close(t);
    }

    /** HASH_ADD_KEYPTR: appends an element whose key is not in the hash. The history of the table stays, or has
        one doubling more. */
    method Add(add: Handle)
      requires Valid() && add !in Repr
      requires forall h :: h in order ==> h.key != add.key
      modifies Repr, add
      ensures Valid() && order == old(order) + [add]
      ensures fresh(Repr - old(Repr) - {add})
      ensures head != null && head.tbl != null && Judged(head.tbl, old(doublings), doublings)
    {
      hide *;
      Open();
      if head == null {
        Start(add);
      } else {
        Append(add);
      }
    }

    /** HASH_DELETE of an element that is not alone. */
    method Shrink(del: Handle, ghost k: nat)
      requires Valid() && |order| > 1 && k < |order| && order[k] == del
      modifies Repr
      ensures Valid() && del !in Repr && Repr <= old(Repr) && head != null
      ensures order == Without(old(order), k) && doublings == old(doublings)
    {
      hide *;
      Open();
      WithoutElements(order, k);
      var t := head.tbl;
      ghost var order', chains' := Without(order, k), [];
      var head';
      head', chains' := DeleteOne(del, head, t, hashFcn, order, k, chains);
      head, chains, order, Repr := head', chains', order', Repr - {del};
      Close(t);
    }

    /** HASH_DELETE: removes an element of the hash; the table goes with the last one. */
    method Delete(del: Handle)
      requires Valid() && del in order
      modifies Repr
      ensures Valid() && del !in Repr && Repr <= old(Repr)
      ensures doublings == if head == null then [] else old(doublings)
      ensures exists k :: 0 <= k < |old(order)| && old(order)[k] == del && order == Without(old(order), k)
    {
      hide *;
      Open();
      ghost var k :| 0 <= k < |order| && order[k] == del;
      LinksAt(order, k);
      if del.prev == null && del.next == null {
        WithoutElements(order, k);
        head, order, doublings, Repr := null, [], [], Repr - {del};
        CloseEmpty();
      } else {
        Shrink(del, k);
      }
    }
  }
}
