/** Bottom-up merge sorting on sequences: merging two runs with ties to the left, one pass over a list
    of runs of equal length, and what each keeps. */
module RunMerging {
  import opened StableSorting

  function Min(a: nat, b: nat): (m: nat)
    ensures m <= a && m <= b && (m == a || m == b)
  {
    if a <= b then a else b
  }

  ghost function Merged<T>(le: (T, T) -> bool, p: seq<T>, q: seq<T>): (out: seq<T>)
    ensures |out| == |p| + |q|
  {
    if p == [] then q
    else if q == [] then p
    else if le(p[0], q[0]) then [p[0]] + Merged(le, p[1..], q)
    else [q[0]] + Merged(le, p, q[1..])
  }

  /** Merges neighbouring runs of length `k` into runs of length `2 * k`. */
  ghost function Pass<T>(le: (T, T) -> bool, s: seq<T>, k: nat): (out: seq<T>)
    requires k > 0
    ensures |out| == |s|
    decreases |s|
  {
    if s == [] then []
    else
      var a, b := Min(k, |s|), Min(2 * k, |s|);
      Merged(le, s[..a], s[a..b]) + Pass(le, s[b..], k)
  }

  /** The consecutive runs of length `k`, the last one possibly shorter, are each sorted. */
  ghost predicate RunsSorted<T>(le: (T, T) -> bool, s: seq<T>, k: nat)
    requires k > 0
    decreases |s|
  {
    s == [] || (Sorted(le, s[..Min(k, |s|)]) && RunsSorted(le, s[Min(k, |s|)..], k))
  }

  lemma {:induction false} MergedContents<T>(le: (T, T) -> bool, p: seq<T>, q: seq<T>)
    ensures multiset(Merged(le, p, q)) == multiset(p) + multiset(q)
  {
    if p != [] && q != [] {
      ConsContents(p);
      ConsContents(q);
      ConsContents(Merged(le, p, q));
      if le(p[0], q[0]) {
        assert Merged(le, p, q)[1..] == Merged(le, p[1..], q);
        MergedContents(le, p[1..], q);
      } else {
        assert Merged(le, p, q)[1..] == Merged(le, p, q[1..]);
        MergedContents(le, p, q[1..]);
      }
    }
  }

  lemma MergedMember<T>(le: (T, T) -> bool, p: seq<T>, q: seq<T>, y: T)
    requires y in Merged(le, p, q)
    ensures y in p || y in q
  {
    MergedContents(le, p, q);
    assert y in multiset(Merged(le, p, q));
  }

  lemma {:induction false} MergedSorted<T>(le: (T, T) -> bool, p: seq<T>, q: seq<T>)
    requires TotalPreorder(le, p + q) && Sorted(le, p) && Sorted(le, q)
    ensures Sorted(le, Merged(le, p, q))
  {
    assert forall y :: y in p + q <==> y in p || y in q;
    if p != [] && q != [] {
      HeadBelow(le, p + q, p);
      HeadBelow(le, p + q, q);
      var x := if le(p[0], q[0]) then p[0] else q[0];
      var p', q' := if le(p[0], q[0]) then p[1..] else p, if le(p[0], q[0]) then q else q[1..];
      OrderOnPart(le, p + q, p' + q');
      MergedSorted(le, p', q');
      forall y | y in Merged(le, p', q') ensures le(x, y) {
        MergedMember(le, p', q', y);
        assert le(p[0], y) || le(q[0], y);
      }
      ConsSorted(le, x, Merged(le, p', q'));
    }
  }

  /** Ties take the left run: in every class the elements of `p` come out before those of `q`. */
  lemma {:induction false} MergedClass<T>(le: (T, T) -> bool, x: T, p: seq<T>, q: seq<T>)
    requires TotalPreorder(le, [x] + p + q) && Sorted(le, p) && Sorted(le, q)
    ensures Class(le, x, Merged(le, p, q)) == Class(le, x, p) + Class(le, x, q)
  {
    var all := [x] + p + q;
    assert forall y :: y in all <==> y == x || y in p || y in q;
    if p != [] && q != [] {
      HeadBelow(le, all, p);
      HeadBelow(le, all, q);
      if le(p[0], q[0]) {
        OrderOnPart(le, all, [x] + p[1..] + q);
        MergedClass(le, x, p[1..], q);
        assert Merged(le, p, q)[1..] == Merged(le, p[1..], q);
      } else {
        OrderOnPart(le, all, [x] + p + q[1..]);
        MergedClass(le, x, p, q[1..]);
        assert Merged(le, p, q)[1..] == Merged(le, p, q[1..]);
        if le(x, q[0]) && le(q[0], x) {
          forall y | y in p ensures !(le(x, y) && le(y, x)) {
            assert le(p[0], y);
          }
          ClassEmpty(le, x, p);
        }
      }
    }
  }

  /** One step of a merge, on a suffix of its result. */
  lemma MergedStep<T>(le: (T, T) -> bool, p: seq<T>, q: seq<T>, i: nat, j: nat, target: seq<T>, k: nat)
    requires i < |p| && j < |q| && k <= |target|
    requires Merged(le, p[i..], q[j..]) == target[k..]
    ensures k < |target|
    ensures le(p[i], q[j]) ==> target[k] == p[i] && Merged(le, p[i + 1..], q[j..]) == target[k + 1..]
    ensures !le(p[i], q[j]) ==> target[k] == q[j] && Merged(le, p[i..], q[j + 1..]) == target[k + 1..]
  {
    assert p[i..][1..] == p[i + 1..] && q[j..][1..] == q[j + 1..];
    assert target[k] == target[k..][0] && target[k + 1..] == target[k..][1..];
  }

  lemma MergedRest<T>(le: (T, T) -> bool, p: seq<T>, q: seq<T>)
    ensures q == [] ==> Merged(le, p, q) == p
    ensures p == [] ==> Merged(le, p, q) == q
  {
  }

  // ---- one pass ----

  lemma PassUnfolds<T>(le: (T, T) -> bool, s: seq<T>, k: nat) returns (p: seq<T>, q: seq<T>, r: seq<T>)
    requires k > 0 && s != []
    ensures p == s[..Min(k, |s|)] && q == s[Min(k, |s|)..Min(2 * k, |s|)] && r == s[Min(2 * k, |s|)..]
    ensures s == p + q + r && |r| < |s|
    ensures Pass(le, s, k) == Merged(le, p, q) + Pass(le, r, k)
    ensures forall y :: y in p || y in q || y in r ==> y in s
  {
    var a, b := Min(k, |s|), Min(2 * k, |s|);
    p, q, r := s[..a], s[a..b], s[b..];
  }

  lemma {:induction false} PassContents<T>(le: (T, T) -> bool, s: seq<T>, k: nat)
    requires k > 0
    ensures multiset(Pass(le, s, k)) == multiset(s)
    decreases |s|
  {
    if s != [] {
      var p, q, r := PassUnfolds(le, s, k);
      hide *;
      PassContents(le, r, k);
      MergedContents(le, p, q);
    }
  }

  /** The first two runs of a list of sorted runs. */
  lemma FirstTwoRuns<T>(le: (T, T) -> bool, s: seq<T>, k: nat)
    requires k > 0 && s != [] && RunsSorted(le, s, k)
    ensures var a, b := Min(k, |s|), Min(2 * k, |s|);
      Sorted(le, s[..a]) && Sorted(le, s[a..b]) && RunsSorted(le, s[b..], k)
  {
    var a, b := Min(k, |s|), Min(2 * k, |s|);
    var r := s[a..];
    assert RunsSorted(le, r, k);
    if r != [] {
      assert r[..Min(k, |r|)] == s[a..b] && r[Min(k, |r|)..] == s[b..];
    } else {
      assert s[a..b] == [] && s[b..] == [];
    }
  }

  lemma {:induction false} PassRuns<T>(le: (T, T) -> bool, s: seq<T>, k: nat)
    requires k > 0 && TotalPreorder(le, s) && RunsSorted(le, s, k)
    ensures RunsSorted(le, Pass(le, s, k), 2 * k)
    decreases |s|
  {
    if s != [] {
      var p, q, r := PassUnfolds(le, s, k);
      FirstTwoRuns(le, s, k);
      OrderOnPart(le, s, p + q);
      OrderOnPart(le, s, r);
      MergedSorted(le, p, q);
      PassRuns(le, r, k);
      var t := Pass(le, s, k);
      var b := Min(2 * k, |t|);
      assert t[..b] == Merged(le, p, q) && t[b..] == Pass(le, r, k);
    }
  }

  lemma {:induction false} PassClass<T>(le: (T, T) -> bool, x: T, s: seq<T>, k: nat)
    requires k > 0 && TotalPreorder(le, [x] + s) && RunsSorted(le, s, k)
    ensures Class(le, x, Pass(le, s, k)) == Class(le, x, s)
    decreases |s|
  {
    hide *;
    if s != [] {
      var p, q, r := PassUnfolds(le, s, k);
      FirstTwoRuns(le, s, k);
      OrderOnPart(le, [x] + s, [x] + p + q);
      OrderOnPart(le, [x] + s, [x] + r);
      MergedClass(le, x, p, q);
      PassClass(le, x, r, k);
      ClassConcat(le, x, Merged(le, p, q), Pass(le, r, k));
      ClassConcat(le, x, p, q);
      ClassConcat(le, x, p + q, r);
    } else {
      PassNothing(le, k);
    }
  }

  lemma PassNothing<T>(le: (T, T) -> bool, k: nat)
    requires k > 0
    ensures Pass(le, [], k) == []
  {
  }

  // ---- the passes together ----

  /** `t` is the stable reordering of `s` whose runs of length `k` are sorted. */
  ghost predicate Progress<T>(le: (T, T) -> bool, s: seq<T>, t: seq<T>, k: nat) {
    && k > 0 && RunsSorted(le, t, k)
    && multiset(t) == multiset(s)
    && forall x :: x in s ==> Class(le, x, t) == Class(le, x, s)
  }

  lemma {:induction false} SingletonRuns<T>(le: (T, T) -> bool, s: seq<T>)
    ensures RunsSorted(le, s, 1)
    decreases |s|
  {
    if s != [] {
      SingletonRuns(le, s[1..]);
    }
  }

  lemma PassProgress<T>(le: (T, T) -> bool, s: seq<T>, t: seq<T>, k: nat)
    requires TotalPreorder(le, s) && Progress(le, s, t, k)
    ensures Progress(le, s, Pass(le, t, k), 2 * k)
  {
    SameElements(t, s);
    PassContents(le, t, k);
    PassRuns(le, t, k);
    forall x | x in s ensures Class(le, x, Pass(le, t, k)) == Class(le, x, s) {
      OrderOnPart(le, s, [x] + t);
      PassClass(le, x, t, k);
    }
  }

  lemma ProgressDone<T>(le: (T, T) -> bool, s: seq<T>, t: seq<T>, k: nat)
    requires Progress(le, s, t, k) && |t| <= k
    ensures StableSortOf(le, s, t)
  {
    assert t[..|t|] == t;
  }
}
