/** When a table doubles its buckets, and how long its chains can get meanwhile: arithmetic on the
    bucket counts and multipliers alone. */
module ExpansionPolicy {
  import opened UtHashTypes

  /** How far the count of a bucket may go before an addition to it doubles the table. */
  function Capacity(b: Bucket): nat {
    (b.expandMult + 1) * BKT_CAPACITY_THRESH
  }

  ghost function Items(bs: seq<Bucket>): nat {
    if bs == [] then 0 else bs[0].count + Items(bs[1..])
  }

  /** The items whose position in their chain exceeds `ideal`. */
  ghost function Excess(bs: seq<Bucket>, ideal: nat): nat {
    if bs == [] then 0
    else (if bs[0].count > ideal then bs[0].count - ideal else 0) + Excess(bs[1..], ideal)
  }

  /** The multipliers, counting a bucket that sits at its full capacity once more. */
  ghost function Weight(bs: seq<Bucket>): nat {
    if bs == [] then 0
    else bs[0].expandMult + (if bs[0].count == Capacity(bs[0]) then 1 else 0) + Weight(bs[1..])
  }

  /** What every table keeps while its expansion is not inhibited. */
  ghost predicate Bounded(bs: seq<Bucket>, ideal: nat) {
    && (forall b :: 0 <= b < |bs| ==> bs[b].count <= Capacity(bs[b]))
    && ideal <= BKT_CAPACITY_THRESH
    && Weight(bs) <= |bs|
  }

  /** The multipliers a doubling assigns. */
  ghost predicate Redistributed(bs: seq<Bucket>, ideal: nat)
    requires ideal > 0
  {
    forall b :: 0 <= b < |bs| ==>
      bs[b].expandMult == if bs[b].count > ideal then bs[b].count / ideal else 0
  }

  /** The ideal chain length for `items` items in `buckets` buckets. */
  function IdealChainMaxlen(items: nat, buckets: nat): nat
    requires buckets > 0
  {
    items / buckets + if items % buckets != 0 then 1 else 0
  }

  /** The same number as the code computes it, with the base 2 logarithm of the number of buckets. */
  function IdealByShift(items: nat, log2Buckets: nat, buckets: nat): (ideal: nat)
    requires buckets == Pow2(log2Buckets)
    ensures ideal == IdealChainMaxlen(items, buckets)
    ensures items > 0 ==> ideal > 0
  {
    IdealIsCeiling(items, buckets, 0);
    ShiftRight(items, log2Buckets) + if items % buckets != 0 then 1 else 0
  }

  lemma {:induction false} ItemsUpdate(bs: seq<Bucket>, b: nat, x: Bucket)
    requires b < |bs|
    ensures Items(bs[b := x]) == Items(bs) - bs[b].count + x.count
    ensures Items(bs) >= bs[b].count
  {
    if b == 0 {
      assert bs[b := x][1..] == bs[1..];
    } else {
      assert bs[b := x][1..] == bs[1..][b - 1 := x];
      ItemsUpdate(bs[1..], b - 1, x);
    }
  }

  lemma {:induction false} ExcessUpdate(bs: seq<Bucket>, b: nat, x: Bucket, ideal: nat)
    requires b < |bs|
    ensures Excess(bs[b := x], ideal)
         == Excess(bs, ideal) - (if bs[b].count > ideal then bs[b].count - ideal else 0)
            + (if x.count > ideal then x.count - ideal else 0)
  {
    if b == 0 {
      assert bs[b := x][1..] == bs[1..];
    } else {
      assert bs[b := x][1..] == bs[1..][b - 1 := x];
      ExcessUpdate(bs[1..], b - 1, x, ideal);
    }
  }

  lemma {:induction false} WeightUpdate(bs: seq<Bucket>, b: nat, x: Bucket)
    requires b < |bs|
    ensures Weight(bs[b := x])
         == Weight(bs) - (bs[b].expandMult + if bs[b].count == Capacity(bs[b]) then 1 else 0)
            + (x.expandMult + if x.count == Capacity(x) then 1 else 0)
  {
    if b == 0 {
      assert bs[b := x][1..] == bs[1..];
    } else {
      assert bs[b := x][1..] == bs[1..][b - 1 := x];
      WeightUpdate(bs[1..], b - 1, x);
    }
  }

  lemma {:induction false} EmptyBuckets(bs: seq<Bucket>, ideal: nat)
    requires forall b :: 0 <= b < |bs| ==> bs[b] == EMPTY_BUCKET
    ensures Items(bs) == 0 && Weight(bs) == 0 && Excess(bs, ideal) == 0
  {
    if bs != [] {
      EmptyBuckets(bs[1..], ideal);
    }
  }

  lemma {:induction false} ItemsWithinWeight(bs: seq<Bucket>)
    requires forall b :: 0 <= b < |bs| ==> bs[b].count <= Capacity(bs[b])
    ensures Items(bs) <= 9 * |bs| + 10 * Weight(bs)
  {
    if bs != [] {
      ItemsWithinWeight(bs[1..]);
    }
  }

  /** A bounded table holds at most 19 items a bucket. */
  lemma LoadFactor(bs: seq<Bucket>, ideal: nat)
    requires Bounded(bs, ideal)
    ensures Items(bs) <= 19 * |bs|
  {
    ItemsWithinWeight(bs);
  }

  /** The ideal chain length is the least length at which `buckets` chains can hold all the items. */
  lemma IdealIsCeiling(items: nat, buckets: nat, bound: nat)
    requires buckets > 0
    ensures items <= bound * buckets <==> IdealChainMaxlen(items, buckets) <= bound
    ensures items > 0 ==> IdealChainMaxlen(items, buckets) > 0
  {
    var q, r := items / buckets, items % buckets;
    QuotientIsNatural(items, buckets);
    assert items == q * buckets + r && 0 <= r < buckets;
    if bound > q {
      LargerMultiple(bound, q, buckets);
    } else if bound < q {
      LargerMultiple(q, bound, buckets);
    }
    if q == 0 {
      assert q * buckets == 0;
    }
  }

  /** A multiplier accounts for `ideal` items of its bucket each. */
  lemma MultiplierPaidFor(b: Bucket, ideal: nat)
    requires 0 < ideal <= BKT_CAPACITY_THRESH
    requires b.expandMult == if b.count > ideal then b.count / ideal else 0
    ensures b.count <= Capacity(b)
    ensures (b.expandMult + if b.count == Capacity(b) then 1 else 0) * ideal <= b.count
  {
    if b.count > ideal {
      var m := b.count / ideal;
      assert b.count == m * ideal + b.count % ideal;
      assert b.count < (m + 1) * ideal <= (m + 1) * BKT_CAPACITY_THRESH;
    }
  }

  lemma Distribute(a: nat, b: nat, c: nat)
    ensures (a + b) * c == a * c + b * c
  {
  }

  lemma {:induction false} WeightPaidFor(bs: seq<Bucket>, ideal: nat)
    requires 0 < ideal <= BKT_CAPACITY_THRESH && Redistributed(bs, ideal)
    ensures Weight(bs) * ideal <= Items(bs)
  {
    if bs != [] {
      MultiplierPaidFor(bs[0], ideal);
      WeightPaidFor(bs[1..], ideal);
      var w := bs[0].expandMult + if bs[0].count == Capacity(bs[0]) then 1 else 0;
      Distribute(w, Weight(bs[1..]), ideal);
    }
  }

  lemma {:induction false} LargerMultiple(a: nat, b: nat, c: nat)
    requires a > b
    ensures a * c >= b * c + c
  {
    if a > b + 1 {
      LargerMultiple(a - 1, b, c);
      assert a * c == (a - 1) * c + c;
    } else {
      assert a * c == (b + 1) * c == b * c + c;
    }
  }

  lemma WeightBounded(bs: seq<Bucket>, ideal: nat)
    requires 0 < ideal <= BKT_CAPACITY_THRESH && Redistributed(bs, ideal) && Items(bs) <= ideal * |bs|
    ensures Weight(bs) <= |bs|
  {
    WeightPaidFor(bs, ideal);
    hide *;
    if Weight(bs) > |bs| {
      LargerMultiple(Weight(bs), |bs|, ideal);
      assert false;
    }
  }

  /** Doubling a table that holds at most 20 items a bucket leaves a bounded one. */
  lemma DoublingBounds(bs: seq<Bucket>, ideal: nat)
    requires |bs| > 0 && 0 < Items(bs) <= BKT_CAPACITY_THRESH * |bs|
    requires ideal == IdealChainMaxlen(Items(bs), |bs|)
    ensures 0 < ideal <= BKT_CAPACITY_THRESH
    ensures Redistributed(bs, ideal) ==> Bounded(bs, ideal)
  {
    IdealIsCeiling(Items(bs), |bs|, BKT_CAPACITY_THRESH);
    IdealIsCeiling(Items(bs), |bs|, ideal);
    if Redistributed(bs, ideal) {
      WeightBounded(bs, ideal);
      forall b | 0 <= b < |bs| ensures bs[b].count <= Capacity(bs[b]) {
        MultiplierPaidFor(bs[b], ideal);
      }
    }
  }

  /** Adding one item to a bucket that stays below its capacity keeps the bounds. */
  lemma AddKeepsBounds(bs: seq<Bucket>, b: nat, x: Bucket, ideal: nat)
    requires b < |bs| && Bounded(bs, ideal)
    requires x.count == bs[b].count + 1 && x.expandMult == bs[b].expandMult && x.count < Capacity(x)
    ensures Bounded(bs[b := x], ideal)
  {
    WeightUpdate(bs, b, x);
  }

  /** Removing one item keeps the bounds. */
  lemma DeleteKeepsBounds(bs: seq<Bucket>, b: nat, x: Bucket, ideal: nat)
    requires b < |bs| && Bounded(bs, ideal)
    requires x.count + 1 == bs[b].count && x.expandMult == bs[b].expandMult
    ensures Bounded(bs[b := x], ideal)
  {
    WeightUpdate(bs, b, x);
  }
}
