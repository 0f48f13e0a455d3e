/** The records of ext/uthash.h. An element and the hash handle embedded in it are one object here,
    so the offset arithmetic between the two (hho) disappears. */
module UtHashTypes {

  const INITIAL_NUM_BUCKETS := 32
  const INITIAL_NUM_BUCKETS_LOG2 := 5
  const BKT_CAPACITY_THRESH := 10

  class Handle {
    var tbl: Table?
    var prev: Handle?     // previous element in insertion order
    var next: Handle?     // next element in insertion order
    var hhPrev: Handle?   // previous element of the bucket
    var hhNext: Handle?   // next element of the bucket
    const key: string
    const value: int      // the rest of the element that embeds the handle
    var hashv: nat

    constructor (key: string, value: int)
      ensures this.key == key && this.value == value
    {
      this.key, this.value := key, value;
    }
  }

  datatype Bucket = Bucket(hhHead: Handle?, count: nat, expandMult: nat)

  const EMPTY_BUCKET := Bucket(null, 0, 0)

  class Table {
    var buckets: array<Bucket>
    var numBuckets: nat
    var log2NumBuckets: nat
    var numItems: nat
    var tail: Handle
    var idealChainMaxlen: nat
    var nonidealItems: nat
    var ineffExpands: nat
    var noexpand: bool

    /** HASH_MAKE_TABLE: a zeroed table with the initial buckets. */
    constructor (head: Handle)
      ensures tail == head && fresh(buckets)
      ensures numBuckets == INITIAL_NUM_BUCKETS == buckets.Length
      ensures log2NumBuckets == INITIAL_NUM_BUCKETS_LOG2
      ensures numItems == idealChainMaxlen == nonidealItems == ineffExpands == 0 && !noexpand
      ensures forall b :: 0 <= b < buckets.Length ==> buckets[b] == EMPTY_BUCKET
    {
      buckets := new Bucket[INITIAL_NUM_BUCKETS](_ => EMPTY_BUCKET);
      numBuckets, log2NumBuckets := INITIAL_NUM_BUCKETS, INITIAL_NUM_BUCKETS_LOG2;
      numItems, idealChainMaxlen, nonidealItems, ineffExpands, noexpand := 0, 0, 0, 0, false;
      tail := head;
    }
  }

  function Pow2(k: nat): (p: nat)
    ensures p >= 1
  {
    if k == 0 then 1 else 2 * Pow2(k - 1)
  }

  lemma QuotientIsNatural(x: nat, p: nat)
    requires p > 0
    ensures x / p >= 0
  {
  }

  /** C's right shift of an unsigned value. */
  function ShiftRight(x: nat, k: nat): nat {
    QuotientIsNatural(x, Pow2(k));
    x / Pow2(k)
  }

  lemma ShiftHalves(x: nat)
    ensures ShiftRight(x, 1) == x / 2
  {
    assert Pow2(1) == 2 * Pow2(0) == 2;
  }
}
