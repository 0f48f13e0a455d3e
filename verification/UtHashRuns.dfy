/** Whole runs of operations on a hash, against an association list in insertion order, and the
    integrity check of the library. */
module UtHashRuns {
  import opened UtHashTypes
  import opened ExpansionPolicy
  import opened UtHashChains
  import opened UtHash
  import opened Options
  import opened StableSorting
  import UtHashSort

  // ---- the specification: an insertion-ordered association list ----

  type Entry = (string, int)

  type Entries = seq<Entry>

  function Lookup(m: Entries, key: string): Option<int> {
    if m == [] then None
    else if m[0].0 == key then Some(m[0].1)
    else Lookup(m[1..], key)
  }

  function Remove(m: Entries, key: string): Entries {
    if m == [] then []
    else if m[0].0 == key then m[1..]
    else [m[0]] + Remove(m[1..], key)
  }

  datatype Op =
    | FindOp(key: string)
    | AddOp(key: string, val: int)   // finds the key, and adds it when it is absent
    | DelOp(key: string)             // finds the key, and deletes it when it is present
    | SortOp(cmp: (Entry, Entry) -> int)

  /** An entry may precede another when the comparison does not order it strictly above. */
  ghost function EntryLe(cmp: (Entry, Entry) -> int): (Entry, Entry) -> bool {
    (a: Entry, b: Entry) => cmp(a, b) <= 0
  }

  ghost function After(m: Entries, op: Op): Entries {
    match op
    case FindOp(_) => m
    case AddOp(k, v) => if Lookup(m, k).None? then m + [(k, v)] else m
    case DelOp(k) => Remove(m, k)
    case SortOp(cmp) => InsertionSort(EntryLe(cmp), m)
  }

  /** What an operation answers: what it finds under its key. */
  function Answer(m: Entries, op: Op): Option<int> {
    if op.SortOp? then None else Lookup(m, op.key)
  }

  /** A comparison must be a total preorder on the entries it is to sort. */
  ghost predicate Legal(m: Entries, op: Op) {
    op.SortOp? ==> TotalPreorder(EntryLe(op.cmp), m)
  }

  /** Entries and answers after a run. */
  ghost function SpecRun(m: Entries, ops: seq<Op>): (Entries, seq<Option<int>>)
    decreases ops
  {
    if ops == [] then (m, [])
    else
      var answer := Answer(m, ops[0]);
      var (m', answers) := SpecRun(After(m, ops[0]), ops[1..]);
      (m', [answer] + answers)
  }

  ghost function Contents(order: seq<Handle>): (m: Entries)
    ensures |m| == |order|
    ensures forall i :: 0 <= i < |m| ==> m[i] == (order[i].key, order[i].value)
  {
    seq(|order|, i requires 0 <= i < |order| => (order[i].key, order[i].value))
  }

  lemma {:induction false} LookupAt(m: Entries, i: nat)
    requires i < |m| && forall j :: 0 <= j < i ==> m[j].0 != m[i].0
    ensures Lookup(m, m[i].0) == Some(m[i].1)
    ensures Remove(m, m[i].0) == m[..i] + m[i + 1..]
  {
    if i > 0 {
      var rest := m[1..];
      assert rest[i - 1] == m[i] && forall j :: 0 <= j < i - 1 ==> rest[j] == m[j + 1];
      LookupAt(rest, i - 1);
      ConsSplit(m, i);
    }
  }

  lemma ConsSplit(m: Entries, i: nat)
    requires 0 < i < |m|
    ensures [m[0]] + (m[1..][..i - 1] + m[1..][i..]) == m[..i] + m[i + 1..]
  {
  }

  lemma {:induction false} LookupAbsent(m: Entries, key: string)
    requires forall j :: 0 <= j < |m| ==> m[j].0 != key
    ensures Lookup(m, key) == None && Remove(m, key) == m
  {
    if m != [] {
      LookupAbsent(m[1..], key);
      assert m == [m[0]] + m[1..];
    }
  }

  lemma {:induction false} SpecRunSnoc(m: Entries, ops: seq<Op>, op: Op)
    ensures var (m1, a1) := SpecRun(m, ops);
      SpecRun(m, ops + [op]) == (After(m1, op), a1 + [Answer(m1, op)])
    decreases ops
  {
    if ops == [] {
      assert [] + [op] == [op] && [op][1..] == [];
      assert SpecRun(After(m, op), []) == (After(m, op), []);
      assert [Answer(m, op)] + [] == [] + [Answer(m, op)];
    } else {
      var rest := ops[1..];
      assert (ops + [op])[0] == ops[0] && (ops + [op])[1..] == rest + [op];
      SpecRunSnoc(After(m, ops[0]), rest, op);
      var (m1, a1) := SpecRun(After(m, ops[0]), rest);
      var answer := Answer(m, ops[0]);
      assert [answer] + (a1 + [Answer(m1, op)]) == [answer] + a1 + [Answer(m1, op)];
    }
  }

  // ---- the implementation follows it ----

  /** What HASH_FIND returned is what the association list has under the key. */
  lemma FoundIsLookup(order: seq<Handle>, key: string, out: Handle?)
    requires DistinctKeys(order)
    requires out != null ==> out in order && out.key == key
    requires out == null ==> forall h :: h in order ==> h.key != key
    ensures Lookup(Contents(order), key) == if out == null then None else Some(out.value)
  {
    var m := Contents(order);
    if out == null {
      LookupAbsent(m, key);
    } else {
      var i :| 0 <= i < |order| && order[i] == out;
      LookupAt(m, i);
    }
  }

  lemma DeletedIsRemove(order: seq<Handle>, k: nat)
    requires DistinctKeys(order) && k < |order|
    ensures Contents(Without(order, k)) == Remove(Contents(order), order[k].key)
  {
    LookupAt(Contents(order), k);
  }

  lemma ValidKeys(users: Hash)
    requires users.Valid()
    ensures DistinctKeys(users.order)
  {
  }

  /** A comparison of entries, applied to the elements that hold them. */
  function ByEntry(cmp: (Entry, Entry) -> int): (Handle, Handle) -> int {
    (a: Handle, b: Handle) => cmp((a.key, a.value), (b.key, b.value))
  }

  lemma {:induction false} ContentsInsert(cmp: (Entry, Entry) -> int, e: Handle, t: seq<Handle>)
    ensures Contents(Insert(UtHashSort.CmpLe(ByEntry(cmp)), e, t)) == Insert(EntryLe(cmp), (e.key, e.value), Contents(t))
  {
    if t != [] {
      assert Contents(t)[1..] == Contents(t[1..]);
      ContentsInsert(cmp, e, t[1..]);
    }
  }

  lemma {:induction false} ContentsSorted(cmp: (Entry, Entry) -> int, s: seq<Handle>)
    ensures Contents(InsertionSort(UtHashSort.CmpLe(ByEntry(cmp)), s)) == InsertionSort(EntryLe(cmp), Contents(s))
  {
    if s != [] {
      assert Contents(s)[1..] == Contents(s[1..]);
      ContentsSorted(cmp, s[1..]);
      ContentsInsert(cmp, s[0], InsertionSort(UtHashSort.CmpLe(ByEntry(cmp)), s[1..]));
    } else {
      assert Contents(s) == [];
    }
  }

  lemma InContents(s: seq<Handle>, h: Handle)
    requires h in s
    ensures (h.key, h.value) in Contents(s)
  {
    var i :| 0 <= i < |s| && s[i] == h;
    assert Contents(s)[i] == (h.key, h.value);
  }

  lemma OrderOnElements(cmp: (Entry, Entry) -> int, s: seq<Handle>)
    requires TotalPreorder(EntryLe(cmp), Contents(s))
    ensures TotalPreorder(UtHashSort.CmpLe(ByEntry(cmp)), s)
  {
    hide Contents;
    var le := UtHashSort.CmpLe(ByEntry(cmp));
    forall a, b | a in s && b in s ensures le(a, b) || le(b, a) {
      InContents(s, a);
      InContents(s, b);
    }
    forall a, b, c | a in s && b in s && c in s && le(a, b) && le(b, c) ensures le(a, c) {
      InContents(s, a);
      InContents(s, b);
      InContents(s, c);
    }
  }

  /** The one stable sort of the elements is the one stable sort of the entries. */
  lemma SortedContents(cmp: (Entry, Entry) -> int, s: seq<Handle>, t: seq<Handle>)
    requires TotalPreorder(UtHashSort.CmpLe(ByEntry(cmp)), s) && StableSortOf(UtHashSort.CmpLe(ByEntry(cmp)), s, t)
    ensures Contents(t) == InsertionSort(EntryLe(cmp), Contents(s))
  {
    hide *;
    InsertionSortStable(UtHashSort.CmpLe(ByEntry(cmp)), s);
    StableSortUnique(UtHashSort.CmpLe(ByEntry(cmp)), s, t, InsertionSort(UtHashSort.CmpLe(ByEntry(cmp)), s));
    ContentsSorted(cmp, s);
  }

  /** What finding a key, and acting on it, does to the entries. */
  lemma FoundAfter(order: seq<Handle>, op: Op, found: Handle?)
    requires DistinctKeys(order) && !op.SortOp?
    requires found != null ==> found in order && found.key == op.key
    requires found == null ==> forall h :: h in order ==> h.key != op.key
    ensures Answer(Contents(order), op) == if found == null then None else Some(found.value)
    ensures op.FindOp? || (op.AddOp? && found != null) || (op.DelOp? && found == null)
      ==> After(Contents(order), op) == Contents(order)
  {
    FoundIsLookup(order, op.key, found);
    if found == null {
      LookupAbsent(Contents(order), op.key);
    }
  }

  lemma AddedAfter(order: seq<Handle>, add: Handle)
    requires forall h :: h in order ==> h.key != add.key
    ensures After(Contents(order), AddOp(add.key, add.value)) == Contents(order + [add])
  {
    LookupAbsent(Contents(order), add.key);
  }

  lemma DeletedAfter(order: seq<Handle>, k: nat)
    requires DistinctKeys(order) && k < |order|
    ensures After(Contents(order), DelOp(order[k].key)) == Contents(Without(order, k))
  {
    DeletedIsRemove(order, k);
  }

  lemma SortedAfter(order: seq<Handle>, cmp: (Entry, Entry) -> int, t: seq<Handle>)
    requires Legal(Contents(order), SortOp(cmp))
    ensures TotalPreorder(UtHashSort.CmpLe(ByEntry(cmp)), order)
    ensures StableSortOf(UtHashSort.CmpLe(ByEntry(cmp)), order, t) ==> Contents(t) == After(Contents(order), SortOp(cmp))
  {
    OrderOnElements(cmp, order);
    if StableSortOf(UtHashSort.CmpLe(ByEntry(cmp)), order, t) {
      SortedContents(cmp, order, t);
    }
  }

  /** One operation on the table does what it does to the association list. */
  method Step(users: Hash, op: Op) returns (answer: Option<int>)
    requires users.Valid() && Legal(Contents(users.order), op)
    modifies users, users.Repr
    ensures users.Valid() && fresh(users.Repr - old(users.Repr))
    ensures answer == Answer(old(Contents(users.order)), op)
    ensures Contents(users.order) == After(old(Contents(users.order)), op)
  {
    hide *;
    ghost var order := users.order;
    ValidKeys(users);
    if op.SortOp? {
      SortedAfter(order, op.cmp, order);
      UtHashSort.Sort(users, ByEntry(op.cmp));
      SortedAfter(order, op.cmp, users.order);
      answer := None;
      SortAnswers(Contents(order), op);
      return;
    }
    var found := users.Find(op.key);
    FoundAfter(order, op, found);
    answer := if found == null then None else Some(found.value);
    if op.AddOp? && found == null {
      var add := new Handle(op.key, op.val);
      users.Add(add);
      AddedAfter(order, add);
    }
    if op.DelOp? && found != null {
      users.Delete(found);
      ghost var i :| 0 <= i < |order| && order[i] == found && users.order == Without(order, i);
      DeletedAfter(order, i);
    }
  }

  lemma SortAnswers(m: Entries, op: Op)
    requires op.SortOp?
    ensures Answer(m, op) == None
  {
  }

  lemma RunStart()
    ensures (Contents([]), []) == SpecRun([], [])
  {
  }

  /** Every run on an initially empty hash gives the answers and the entries of the association list. */
  method Run(hashFcn: string -> nat, ops: seq<Op>) returns (users: Hash, answers: seq<Option<int>>)
    requires forall i :: 0 <= i < |ops| ==> Legal(SpecRun([], ops[..i]).0, ops[i])
    ensures users.Valid() && fresh(users.Repr)
    ensures (Contents(users.order), answers) == SpecRun([], ops)
  {
    hide *;
    users := new Hash(hashFcn);
    answers := [];
    RunStart();
    assert ops[..0] == [];
    for i := 0 to |ops|
      invariant users.Valid() && fresh(users.Repr)
      invariant (Contents(users.order), answers) == SpecRun([], ops[..i])
    {
      assert Legal(SpecRun([], ops[..i]).0, ops[i]);
      var answer := Step(users, ops[i]);
      SpecRunSnoc([], ops[..i], ops[i]);
      assert ops[..i + 1] == ops[..i] + [ops[i]];
      answers := answers + [answer];
    }
    assert ops[..|ops|] == ops;
  }

  // ---- what every reachable table keeps ----

  /** While expansion is not inhibited: chain lengths, ideal chain length and load factor are bounded. */
  lemma ReachableBounds(users: Hash)
    requires users.Valid() && users.head != null && users.head.tbl != null && !users.head.tbl.noexpand
    ensures var t := users.head.tbl;
      && t.idealChainMaxlen <= 10
      && t.numItems <= 19 * t.numBuckets
      && t.numItems == |users.order|
      && forall b :: 0 <= b < t.buckets.Length ==>
           |users.chains[b]| == t.buckets[b].count <= 10 * (t.buckets[b].expandMult + 1)
  {
    var t := users.head.tbl;
    var bs := t.buckets[..];
    assert Bounded(bs, t.idealChainMaxlen);
    LoadFactor(bs, t.idealChainMaxlen);
    forall b | 0 <= b < t.buckets.Length ensures |users.chains[b]| == t.buckets[b].count <= 10 * (t.buckets[b].expandMult + 1) {
      assert bs[b] == t.buckets[b];
    }
  }

  /** Expansion is inhibited exactly after two ineffective doublings in a row, and there are never two in a row
      before that. Every doubling in the history doubled the 32 buckets of the new table. */
  lemma InhibitedIff(users: Hash)
    requires users.Valid() && users.head != null && users.head.tbl != null
    ensures var d, n := users.doublings, |users.doublings|;
      && (users.head.tbl.noexpand <==> n >= 2 && d[n - 1] && d[n - 2])
      && (forall i {:trigger d[i]} :: 0 <= i < n - 2 ==> !(d[i] && d[i + 1]))
      && users.head.tbl.numBuckets == 32 * Pow2(n)
  {
    TwoInARow(users.doublings);
    var n := |users.doublings|;
    DoublePow2(n);
    DoublePow2(n + 1);
    DoublePow2(n + 2);
    DoublePow2(n + 3);
    DoublePow2(n + 4);
  }

  // ---- the integrity check ----

  ghost function Total(chains: seq<seq<Handle>>): nat {
    if chains == [] then 0 else |chains[0]| + Total(chains[1..])
  }

  ghost function Nodes(chains: seq<seq<Handle>>): set<Handle> {
    set b, h | 0 <= b < |chains| && h in chains[b] :: h
  }

  /** What HASH_FSCK takes for granted: following next and hh_next from the heads comes to an end. */
  ghost predicate Walkable(t: Table, head: Handle, order: seq<Handle>, chains: seq<seq<Handle>>)
    reads t, t.buckets, order`next, Nodes(chains)`hhNext
  {
    && t.numBuckets == t.buckets.Length == |chains|
    && (forall b {:trigger chains[b]} :: 0 <= b < |chains| ==>
          (assert forall h :: h in chains[b] ==> h in Nodes(chains); Forward(chains[b], t.buckets[b].hhHead)))
    && order != [] && head == order[0] && Distinct(order)
    && forall i {:trigger order[i].next} :: 0 <= i < |order| ==> order[i].next == At(order, i + 1)
  }

  /** What HASH_FSCK checks: every backward link, every bucket's count, and the number of items, both ways. */
  ghost predicate Integrity(t: Table, order: seq<Handle>, chains: seq<seq<Handle>>)
    reads t, t.buckets, order`next, order`prev, Nodes(chains)`hhNext, Nodes(chains)`hhPrev
  {
    && t.buckets.Length == |chains|
    && (forall b {:trigger chains[b]} :: 0 <= b < |chains| ==>
          (assert forall h :: h in chains[b] ==> h in Nodes(chains);
           Chain(chains[b], t.buckets[b].hhHead) && t.buckets[b].count == |chains[b]|))
    && t.numItems == Total(chains)
    && InOrder(order) && t.numItems == |order|
  }

  /** The walk of HASH_FSCK along one bucket. */
  method CheckBucket(head: Handle?, count: nat, ghost c: seq<Handle>) returns (ok: bool, bktCount: nat)
    requires Forward(c, head)
    ensures bktCount == |c| && (ok <==> Chain(c, head) && count == |c|)
  {
    ok, bktCount := true, 0;
    var thh, prev: Handle? := head, null;
    while thh != null
      invariant bktCount <= |c| && thh == At(c, bktCount) && prev == At(c, bktCount - 1)
      invariant ok <==> forall i {:trigger c[i].hhPrev} :: 0 <= i < bktCount ==> c[i].hhPrev == At(c, i - 1)
      decreases |c| - bktCount
    {
      assert c[bktCount].hhNext == At(c, bktCount + 1);
      if prev != thh.hhPrev {
        ok := false;
      }
      bktCount := bktCount + 1;
      prev := thh;
      thh := thh.hhNext;
    }
    if count != bktCount {
      ok := false;
    }
  }

  /** The walk of HASH_FSCK in insertion order. */
  method CheckOrder(head: Handle, numItems: nat, ghost order: seq<Handle>) returns (ok: bool)
    requires order != [] && head == order[0] && Distinct(order)
    requires forall i {:trigger order[i].next} :: 0 <= i < |order| ==> order[i].next == At(order, i + 1)
    ensures ok <==> InOrder(order) && numItems == |order|
  {
    ok := true;
    var count := 0;
    var thh: Handle?, prev: Handle? := head, null;
    while thh != null
      invariant count <= |order| && thh == At(order, count) && prev == At(order, count - 1)
      invariant ok <==> forall i {:trigger order[i].prev} :: 0 <= i < count ==> order[i].prev == At(order, i - 1)
      decreases |order| - count
    {
      assert order[count].next == At(order, count + 1);
      count := count + 1;
      if prev != thh.prev {
        ok := false;
      }
      prev := thh;
      thh := thh.next;
    }
    if count != numItems {
      ok := false;
    }
  }

  lemma {:induction false} TotalSnoc(chains: seq<seq<Handle>>, i: nat)
    requires i < |chains|
    ensures Total(chains[..i + 1]) == Total(chains[..i]) + |chains[i]|
  {
    if i > 0 {
      TotalSnoc(chains[1..], i - 1);
      assert chains[..i + 1][1..] == chains[1..][..i] && chains[..i][1..] == chains[1..][..i - 1];
    }
  }

  lemma {:induction false} TotalIsItems(chains: seq<seq<Handle>>, bs: seq<Bucket>)
    requires Counted(chains, bs)
    ensures Total(chains) == Items(bs)
  {
    if bs != [] {
      assert bs[0].count == |chains[0]|;
      TotalIsItems(chains[1..], bs[1..]);
    }
  }

  /** The walk of HASH_FSCK over all buckets. */
  method CheckBuckets(t: Table, ghost chains: seq<seq<Handle>>) returns (ok: bool)
    requires t.numBuckets == t.buckets.Length == |chains|
    requires forall b :: 0 <= b < |chains| ==> Forward(chains[b], t.buckets[b].hhHead)
    ensures ok <==> t.numItems == Total(chains) && forall b :: 0 <= b < |chains| ==>
      Chain(chains[b], t.buckets[b].hhHead) && t.buckets[b].count == |chains[b]|
  {
    hide Chain, Forward, Total;
    ok := true;
    var count, i := 0, 0;
    NoTotal(chains[..0]);
    while i < t.numBuckets
      invariant 0 <= i <= t.numBuckets && count == Total(chains[..i])
      invariant ok <==> forall b :: 0 <= b < i ==>
        Chain(chains[b], t.buckets[b].hhHead) && t.buckets[b].count == |chains[b]|
    {
      var fine, bktCount := CheckBucket(t.buckets[i].hhHead, t.buckets[i].count, chains[i]);
      TotalSnoc(chains, i);
      count := count + bktCount;
      if !fine {
        ok := false;
      }
      i := i + 1;
    }
    assert chains[..i] == chains;
    if count != t.numItems {
      ok := false;
    }
  }

  lemma NoTotal(chains: seq<seq<Handle>>)
    requires chains == []
    ensures Total(chains) == 0
  {
  }

  /** HASH_FSCK complains if and only if something it checks does not hold. */
  method Fsck(head: Handle?, ghost order: seq<Handle>, ghost chains: seq<seq<Handle>>) returns (ok: bool)
    requires head != null ==> head.tbl != null && Walkable(head.tbl, head, order, chains)
    ensures ok <==> head == null || Integrity(head.tbl, order, chains)
  {
    hide Chain, Forward, Total, InOrder, Distinct, At;
    ok := true;
    if head != null {
      var bucketsOk := CheckBuckets(head.tbl, chains);
      var orderOk := CheckOrder(head, head.tbl.numItems, order);
      ok := bucketsOk && orderOk;
    }
  }

  /** It never complains about a valid hash. */
  lemma ValidPassesFsck(users: Hash)
    requires users.Valid() && users.head != null
    ensures users.head.tbl != null
    ensures Walkable(users.head.tbl, users.head, users.order, users.chains)
    ensures Integrity(users.head.tbl, users.order, users.chains)
  {
    var t := users.head.tbl;
    var bs := t.buckets[..];
    assert Linked(users.chains, bs, Elements(users.order)) && Counted(users.chains, bs);
    TotalIsItems(users.chains, bs);
    forall b | 0 <= b < |bs| ensures Chain(users.chains[b], t.buckets[b].hhHead) && t.buckets[b].count == |users.chains[b]| {
      assert bs[b] == t.buckets[b];
    }
  }

  /** HASH_ITER visits every element once, in insertion order. */
  method Iterate(users: Hash) returns (visited: seq<Handle>)
    requires users.Valid()
    ensures visited == users.order
  {
    hide *;
    users.Open();
    visited := [];
    var el := users.head;
    var tmp := if users.head != null then users.head.next else null;
    FirstTwo(users);
    while el != null
      invariant |visited| <= |users.order| && visited == users.order[..|visited|]
      invariant el == AtOrNull(users.order, |visited|) && tmp == AtOrNull(users.order, |visited| + 1)
      decreases |users.order| - |visited|
    {
      visited := visited + [el];
      el := tmp;
      tmp := if tmp != null then tmp.next else null;
      NextTwo(users, |visited|);
    }
  }

  function AtOrNull(s: seq<Handle>, i: nat): (h: Handle?)
    ensures h == null <==> i >= |s|
    ensures i < |s| ==> h == s[i]
  {
    if i < |s| then s[i] else null
  }

  lemma NextTwo(users: Hash, i: nat)
    requires users.Valid() && i <= |users.order|
    ensures i < |users.order| ==> users.order[i].next == AtOrNull(users.order, i + 1)
  {
    if i < |users.order| {
      LinksAt(users.order, i);
    }
  }

  lemma FirstTwo(users: Hash)
    requires users.Valid()
    ensures users.head == AtOrNull(users.order, 0)
    ensures users.head != null ==> users.head.next == AtOrNull(users.order, 1)
  {
    NextTwo(users, 0);
  }
}
