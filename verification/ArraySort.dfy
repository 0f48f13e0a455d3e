/** The merge sort behind Array.prototype.sort: two buffers exchange roles at every level of the
    recursion, and a tie between the two runs takes the element of the right run. */
module ArraySort {
  import opened StableSorting
  import opened RunMerging

  /** `a` may stand before `b` when the comparison does not place `b` strictly below `a`. */
  ghost function NotAbove<T>(lt: (T, T) -> bool): (T, T) -> bool {
    (a, b) => !lt(b, a)
  }

  /** `lt` is a strict weak order on the elements of `s`. */
  ghost predicate StrictWeakOrder<T>(lt: (T, T) -> bool, s: seq<T>) {
    && (forall a, b :: a in s && b in s && lt(a, b) ==> !lt(b, a))
    && (forall a, b, c :: a in s && b in s && c in s && !lt(b, a) && !lt(c, b) ==> !lt(c, a))
  }

  lemma WeakOrderIsPreorder<T>(lt: (T, T) -> bool, s: seq<T>)
    requires StrictWeakOrder(lt, s)
    ensures TotalPreorder(NotAbove(lt), s)
  {
  }

  /** The two halves sorted and merged, the right half winning ties. */
  ghost function MergeSorted<T>(le: (T, T) -> bool, s: seq<T>): (out: seq<T>)
    ensures |out| == |s|
  {
    if |s| <= 1 then s
    else
      var l := |s| / 2;
      Merged(le, MergeSorted(le, s[l..]), MergeSorted(le, s[..l]))
  }

  /** The two halves of `s`, and both of them sorted, as the merge finds them. */
  lemma Halves<T>(le: (T, T) -> bool, s: seq<T>) returns (a: seq<T>, b: seq<T>, p: seq<T>, q: seq<T>)
    requires |s| > 1
    ensures a == s[..|s| / 2] && b == s[|s| / 2..] && s == a + b
    ensures p == MergeSorted(le, a) && q == MergeSorted(le, b) && MergeSorted(le, s) == Merged(le, q, p)
  {
    a, b := s[..|s| / 2], s[|s| / 2..];
    p, q := MergeSorted(le, a), MergeSorted(le, b);
  }

  lemma {:induction false} MergeSortedContents<T>(le: (T, T) -> bool, s: seq<T>)
    ensures multiset(MergeSorted(le, s)) == multiset(s)
  {
    if |s| > 1 {
      var a, b, p, q := Halves(le, s);
      MergeSortedContents(le, a);
      MergeSortedContents(le, b);
      MergedContents(le, q, p);
    }
  }

  /** The order holds on whatever the halves, sorted or not, are made of. */
  lemma OrderOnHalves<T>(le: (T, T) -> bool, xs: seq<T>, s: seq<T>, a: seq<T>, b: seq<T>, p: seq<T>, q: seq<T>)
    requires TotalPreorder(le, xs + s) && s == a + b
    requires multiset(p) == multiset(a) && multiset(q) == multiset(b)
    ensures TotalPreorder(le, xs + a) && TotalPreorder(le, xs + b) && TotalPreorder(le, xs + q + p)
  {
    SameElements(p, a);
    SameElements(q, b);
    OrderOnPart(le, xs + s, xs + a);
    OrderOnPart(le, xs + s, xs + b);
    OrderOnPart(le, xs + s, xs + q + p);
  }

  lemma SmallSorted<T>(le: (T, T) -> bool, s: seq<T>)
    requires |s| <= 1
    ensures Sorted(le, MergeSorted(le, s))
  {
  }

  lemma {:induction false} MergeSortedSorts<T>(le: (T, T) -> bool, s: seq<T>)
    requires TotalPreorder(le, s)
    ensures Sorted(le, MergeSorted(le, s))
  {
    hide *;
    if |s| <= 1 {
      SmallSorted(le, s);
    } else {
      var a, b, p, q := Halves(le, s);
      MergeSortedContents(le, a);
      MergeSortedContents(le, b);
      assert [] + s == s && [] + a == a && [] + b == b && [] + q == q;
      OrderOnHalves(le, [], s, a, b, p, q);
      MergeSortedSorts(le, a);
      MergeSortedSorts(le, b);
      MergedSorted(le, q, p);
    }
  }

  lemma SmallClass<T>(le: (T, T) -> bool, x: T, s: seq<T>)
    requires |s| <= 1
    ensures Class(le, x, MergeSorted(le, s)) == Reverse(Class(le, x, s))
  {
    if |s| == 1 {
      assert s[1..] == [];
      assert Class(le, x, s) == [] || Class(le, x, s) == [s[0]];
      assert [s[0]][1..] == [];
    }
  }

  /** Every class of equivalent elements comes out backwards. */
  lemma {:induction false} MergeSortedClass<T>(le: (T, T) -> bool, x: T, s: seq<T>)
    requires TotalPreorder(le, [x] + s)
    ensures Class(le, x, MergeSorted(le, s)) == Reverse(Class(le, x, s))
  {
    hide *;
    if |s| <= 1 {
      SmallClass(le, x, s);
    } else {
      var a, b, p, q := Halves(le, s);
      MergeSortedContents(le, a);
      MergeSortedContents(le, b);
      OrderOnHalves(le, [x], s, a, b, p, q);
      MergeSortedClass(le, x, a);
      MergeSortedClass(le, x, b);
      OrderOnPart(le, [x] + a, a);
      OrderOnPart(le, [x] + b, b);
      MergeSortedSorts(le, a);
      MergeSortedSorts(le, b);
      MergedClass(le, x, q, p);
      ClassConcat(le, x, a, b);
      ReverseConcat(Class(le, x, a), Class(le, x, b));
    }
  }

  /** The sort's result: sorted, a permutation, and every class of ties in exactly reverse order. */
  lemma MergeSortedReversesTies<T>(le: (T, T) -> bool, s: seq<T>)
    requires TotalPreorder(le, s)
    ensures ReversingSortOf(le, s, MergeSorted(le, s))
  {
    MergeSortedContents(le, s);
    MergeSortedSorts(le, s);
    forall x | x in s ensures Class(le, x, MergeSorted(le, s)) == Reverse(Class(le, x, s)) {
      OrderOnPart(le, s, [x] + s);
      MergeSortedClass(le, x, s);
    }
  }

  // ---- when the sort is stable ----

  lemma {:induction false} ReverseAt<T>(c: seq<T>)
    ensures |Reverse(c)| == |c|
    ensures c != [] ==> Reverse(c)[0] == c[|c| - 1]
  {
    if c != [] {
      ReverseAt(c[1..]);
    }
  }

  lemma {:induction false} ClassMember<T>(le: (T, T) -> bool, x: T, s: seq<T>, y: T)
    ensures y in Class(le, x, s) <==> y in s && le(x, y) && le(y, x)
  {
    if s != [] {
      ClassMember(le, x, s[1..], y);
      assert y in s <==> y == s[0] || y in s[1..];
    }
  }

  lemma {:induction false} ClassDistinct<T>(le: (T, T) -> bool, x: T, s: seq<T>)
    requires Distinct(s)
    ensures Distinct(Class(le, x, s))
  {
    if s != [] {
      ClassDistinct(le, x, s[1..]);
      ClassMember(le, x, s[1..], s[0]);
    }
  }

  ghost predicate Distinct<T>(s: seq<T>) {
    forall i, j :: 0 <= i < j < |s| ==> s[i] != s[j]
  }

  /** The sort is stable if and only if every class of ties reads the same backwards. */
  lemma StableIff<T>(le: (T, T) -> bool, s: seq<T>)
    requires TotalPreorder(le, s)
    ensures StableSortOf(le, s, MergeSorted(le, s)) <==> forall x :: x in s ==> Class(le, x, s) == Reverse(Class(le, x, s))
  {
    MergeSortedReversesTies(le, s);
  }

  /** On different elements, a class reads the same backwards if and only if it has at most one element. */
  lemma PalindromeIff<T>(c: seq<T>)
    requires Distinct(c)
    ensures c == Reverse(c) <==> |c| <= 1
  {
    ReverseAt(c);
    if |c| == 1 {
      assert c[1..] == [];
    }
  }

  /** The elements of such a sequence sort stably if and only if no two of them tie. */
  lemma StableIffNoTies<T>(le: (T, T) -> bool, s: seq<T>)
    requires TotalPreorder(le, s) && Distinct(s)
    ensures StableSortOf(le, s, MergeSorted(le, s)) <==>
      forall x, y :: x in s && y in s && le(x, y) && le(y, x) ==> x == y
  {
    hide Reverse, Class, StableSortOf, MergeSorted, TotalPreorder;
    StableIff(le, s);
    forall x | x in s
      ensures Class(le, x, s) == Reverse(Class(le, x, s)) <==> forall y :: y in s && le(x, y) && le(y, x) ==> x == y
    {
      SingleClass(le, x, s);
    }
  }

  lemma SingleClass<T>(le: (T, T) -> bool, x: T, s: seq<T>)
    requires TotalPreorder(le, s) && Distinct(s) && x in s
    ensures Class(le, x, s) == Reverse(Class(le, x, s)) <==> forall y :: y in s && le(x, y) && le(y, x) ==> x == y
  {
    hide Class, Reverse, TotalPreorder;
    var c := Class(le, x, s);
    ClassDistinct(le, x, s);
    PalindromeIff(c);
    Reflexive(le, s, x);
    ClassMember(le, x, s, x);
    if |c| <= 1 {
      forall y | y in s && le(x, y) && le(y, x) ensures x == y {
        ClassMember(le, x, s, y);
        assert x == c[0] && y == c[0];
      }
    } else {
      var y := if c[0] == x then c[1] else c[0];
      assert y in c && y != x;
      ClassMember(le, x, s, y);
    }
  }

  lemma Reflexive<T>(le: (T, T) -> bool, s: seq<T>, x: T)
    requires TotalPreorder(le, s) && x in s
    ensures le(x, x)
  {
  }

  ghost function FirstLe(): ((int, int), (int, int)) -> bool {
    (a: (int, int), b: (int, int)) => a.0 <= b.0
  }

  /** Two elements with equal keys change places. */
  lemma TiesSwap()
    ensures MergeSorted(FirstLe(), [(7, 1), (7, 2)]) == [(7, 2), (7, 1)]
    ensures !StableSortOf(FirstLe(), [(7, 1), (7, 2)], [(7, 2), (7, 1)])
  {
    hide MergeSorted, StableSortOf;
    var le, s := FirstLe(), [(7, 1), (7, 2)];
    var a, b, p, q := Halves(le, s);
    MergeSortedUnfolds(le, a);
    MergeSortedUnfolds(le, b);
    assert a == [(7, 1)] && b == [(7, 2)] && q[1..] == [];
    MergedRest(le, q[1..], p);
    StableIffNoTies(le, s);
    assert s[0] in s && s[1] in s;
  }

  // ---- the sort on the two buffers ----

  /** No element of `a` outside `[lo, hi)` has changed. */
  twostate predicate OutsideKept<T>(a: array<T>, lo: nat, hi: nat)
    reads a
  {
    forall m :: 0 <= m < a.Length && !(lo <= m < hi) ==> a[m] == old(a[m])
  }

  /** The window `[lo, hi)` of `a` holds what `s` holds from position `at` on. */
  ghost predicate Holds<T>(a: array<T>, lo: nat, hi: nat, s: seq<T>, at: nat)
    requires lo <= hi <= a.Length && at + (hi - lo) <= |s|
    reads a
  {
    forall m :: lo <= m < hi ==> a[m] == s[m - lo + at]
  }

  /** What is left of one run goes out unchanged. */
  method CopyRun<T>(src: array<T>, from: nat, n: nat, out: array<T>, o: nat)
    requires src != out && from + n <= src.Length && o + n <= out.Length
    modifies out
    ensures forall m :: o <= m < o + n ==> out[m] == src[m - o + from]
    ensures OutsideKept(out, o, o + n)
  {
    var i := 0;
    while i < n
      invariant i <= n
      invariant forall m :: o <= m < o + i ==> out[m] == src[m - o + from]
      invariant OutsideKept(out, o, o + n)
    {
      out[o + i] := src[from + i];
      i := i + 1;
    }
  }

  /** Merges the runs `p` and `q`, found in `src` at `l` and `r`, until one of them is used up. */
  method MergeBoth<T>(src: array<T>, l: nat, r: nat, out: array<T>, o: nat, lt: (T, T) -> bool,
                      ghost p: seq<T>, ghost q: seq<T>, lLen: nat, rLen: nat) returns (i: nat, j: nat)
    requires src != out && |p| == lLen && |q| == rLen
    requires l + lLen <= src.Length && r + rLen <= src.Length && o + lLen + rLen <= out.Length
    requires Holds(src, l, l + lLen, p, 0) && Holds(src, r, r + rLen, q, 0)
    modifies out
    ensures i <= lLen && j <= rLen && (i == lLen || j == rLen)
    ensures Merged(NotAbove(lt), q[j..], p[i..]) == Merged(NotAbove(lt), q, p)[i + j..]
    ensures Holds(out, o, o + i + j, Merged(NotAbove(lt), q, p), 0)
    ensures OutsideKept(out, o, o + i + j)
  {
    hide Merged;
    i, j := 0, 0;
    ghost var le := NotAbove(lt);
    ghost var target := Merged(le, q, p);
    while i < lLen && j < rLen
      invariant i <= lLen && j <= rLen
      invariant Merged(le, q[j..], p[i..]) == target[i + j..]
      invariant Holds(out, o, o + i + j, target, 0)
      invariant OutsideKept(out, o, o + i + j)
    {
      MergedStep(le, q, p, j, i, target, i + j);
      if lt(src[l + i], src[r + j]) {
        out[o + i + j] := src[l + i];
        i := i + 1;
      } else {
        out[o + i + j] := src[r + j];
        j := j + 1;
      }
    }
  }

  /** Merges the runs `p` at `l` and `q` at `r` of `src` into `out`, from `o` on. */
  method Merge<T>(src: array<T>, l: nat, r: nat, lLen: nat, rLen: nat, out: array<T>, o: nat, lt: (T, T) -> bool,
                  ghost p: seq<T>, ghost q: seq<T>)
    requires src != out && |p| == lLen && |q| == rLen
    requires l + lLen <= src.Length && r + rLen <= src.Length && o + lLen + rLen <= out.Length
    requires Holds(src, l, l + lLen, p, 0) && Holds(src, r, r + rLen, q, 0)
    modifies out
    ensures Holds(out, o, o + lLen + rLen, Merged(NotAbove(lt), q, p), 0)
    ensures OutsideKept(out, o, o + lLen + rLen)
  {
    hide Merged;
    var i, j := MergeBoth(src, l, r, out, o, lt, p, q, lLen, rLen);
    MergedRest(NotAbove(lt), q[j..], p[i..]);
    if i < lLen {
      CopyRun(src, l + i, lLen - i, out, o + i + j);
    } else {
      CopyRun(src, r + j, rLen - j, out, o + i + j);
    }
  }

  lemma MergeSortedUnfolds<T>(le: (T, T) -> bool, s: seq<T>)
    ensures |s| <= 1 ==> MergeSorted(le, s) == s
    ensures |s| > 1 ==>
      MergeSorted(le, s) == Merged(le, MergeSorted(le, s[|s| / 2..]), MergeSorted(le, s[..|s| / 2]))
  {
  }

  /** Sorts the window of `arr` that starts at `off`, using the same window of `tmp` as scratch. */
  method Recur<T>(arr: array<T>, tmp: array<T>, off: nat, len: nat, lt: (T, T) -> bool, ghost s: seq<T>)
    requires arr != tmp && off + len <= arr.Length && off + len <= tmp.Length && |s| == len
    requires Holds(arr, off, off + len, s, 0) && Holds(tmp, off, off + len, s, 0)
    modifies arr, tmp
    ensures Holds(arr, off, off + len, MergeSorted(NotAbove(lt), s), 0)
    ensures OutsideKept(arr, off, off + len) && OutsideKept(tmp, off, off + len)
    decreases len
  {
    hide MergeSorted, Merged;
    ghost var le := NotAbove(lt);
    MergeSortedUnfolds(le, s);
    if len <= 1 {
      return;
    }
    var l := len / 2;
    Recur(tmp, arr, off, l, lt, s[..l]);
    Recur(tmp, arr, off + l, len - l, lt, s[l..]);
    Merge(tmp, off, off + l, l, len - l, arr, off, lt, MergeSorted(le, s[..l]), MergeSorted(le, s[l..]));
  }

  /** Sorts `arr[..len]`. */
  method MergeSort<T>(arr: array<T>, len: nat, lt: (T, T) -> bool)
    requires len <= arr.Length
    requires StrictWeakOrder(lt, arr[..len])
    modifies arr
    ensures ReversingSortOf(NotAbove(lt), old(arr[..len]), arr[..len])
    ensures arr[len..] == old(arr[len..])
  {
    hide StrictWeakOrder, MergeSorted, ReversingSortOf;
    var tmp := new T[len](i requires 0 <= i < len reads arr => arr[i]);
    WeakOrderIsPreorder(lt, arr[..len]);
    Recur(arr, tmp, 0, len, lt, arr[..len]);
    assert arr[..len] == MergeSorted(NotAbove(lt), old(arr[..len]));
    MergeSortedReversesTies(NotAbove(lt), old(arr[..len]));
  }
}
