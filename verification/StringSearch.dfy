/** The single-pass matcher behind String.prototype.indexOf (src/runtime/lib/String.c). */
module StringSearch {

  /** `n` occurs in `h` at `r`. */
  predicate Occurs(h: string, n: string, r: int) {
    0 <= r && r + |n| <= |h| && h[r..r + |n|] == n
  }

  /** The first occurrence of `n` in `h` at or after `from`, or -1. */
  ghost predicate IsFirst(h: string, n: string, from: int, r: int) {
    if r < 0 then r == -1 && forall k :: from <= k ==> !Occurs(h, n, k)
    else from <= r && Occurs(h, n, r) && forall k :: from <= k < r ==> !Occurs(h, n, k)
  }

  /** strstr from position `i`: every position is tried in turn. */
  function Find(h: string, n: string, i: nat): (r: int)
    ensures r != -1 ==> i <= r && r + |n| <= |h|
    decreases |h| - i
  {
    if i + |n| > |h| then -1 else if h[i..i + |n|] == n then i else Find(h, n, i + 1)
  }

  lemma {:induction false} FindIsFirst(h: string, n: string, from: nat)
    ensures IsFirst(h, n, from, Find(h, n, from))
    decreases |h| - from
  {
    if from + |n| <= |h| && !Occurs(h, n, from) {
      FindIsFirst(h, n, from + 1);
      forall k | from <= k && (Find(h, n, from) < 0 || k < Find(h, n, from)) ensures !Occurs(h, n, k) {
        if k > from {
          assert from + 1 <= k;
        }
      }
    }
  }

  lemma OneFirst(h: string, n: string, from: nat, r: int)
    requires IsFirst(h, n, from, r)
    ensures r == Find(h, n, from)
  {
    FindIsFirst(h, n, from);
    assert Occurs(h, n, r) || Occurs(h, n, Find(h, n, from)) || r == Find(h, n, from);
  }

  /** How many characters of the needle are matched after reading `c`: a mismatch falls back to one or none. */
  function Step(n: string, got: nat, c: char): (m: nat)
    requires got < |n|
    ensures m <= |n|
  {
    if c == n[got] then got + 1 else if c == n[0] then 1 else 0
  }

  /** The matcher from position `i` with `got` characters matched: where the match starts, or -1. */
  function Scan(h: string, n: string, i: nat, got: nat): (r: int)
    requires got < |n| && i <= |h|
    ensures -1 <= r
    decreases |h| - i
  {
    if i == |h| then -1
    else
      var m := Step(n, got, h[i]);
      if m == |n| then (if i >= |n| - 1 then i - |n| + 1 else -1)
      else Scan(h, n, i + 1, m)
  }

  /** str_proto_index_of. With a negative start the loop would read in front of the haystack. */
  method IndexOf(h: string, n: string, from: int) returns (r: int)
    requires from >= 0 || n == "" || |n| > |h|
    ensures n == "" ==> r == if from <= |h| then from else |h|
    ensures n != "" ==> r == if 0 <= from <= |h| then Scan(h, n, from, 0) else -1
    ensures n != "" && r != -1 ==> from <= r && Occurs(h, n, r)
    ensures n != "" && Safe(n) ==> IsFirst(h, n, from, r)
  {
    var i: int, got: nat := from, 0;
    if n != "" && 0 <= from <= |h| {
      ScanSound(h, n, from, from, 0);
      if Safe(n) {
        ScanFromStart(h, n, from);
      }
    }
    if |n| == 0 {
      return if i <= |h| then i else |h|;
    }
    if |n| > |h| || i > |h| {
      if 0 <= i <= |h| {
        ShortHaystack(h, n, from, 0);
      }
      return -1;
    }
    while i < |h|
      invariant from <= i <= |h| && got < |n| && got <= i - from
      invariant Scan(h, n, i, got) == Scan(h, n, from, 0)
    {
      if h[i] == n[got] {
        got := got + 1;
      } else {
        got := if h[i] == n[0] then 1 else 0;
      }
      if got == |n| {
        return i - |n| + 1;
      }
      i := i + 1;
    }
    return -1;
  }

  /** Too few characters are left to complete the needle. */
  lemma {:induction false} ShortHaystack(h: string, n: string, i: nat, got: nat)
    requires got < |n| && i <= |h| && got + (|h| - i) < |n|
    ensures Scan(h, n, i, got) == -1
    decreases |h| - i
  {
    if i < |h| {
      var m := Step(n, got, h[i]);
      if m < |n| {
        ShortHaystack(h, n, i + 1, m);
      }
    }
  }

  // ---- soundness ----

  /** The last `j` characters before `i`, not reaching back past `lo`, are the first `j` of the needle. */
  predicate EndsWith(h: string, lo: int, i: int, n: string, j: int) {
    0 <= lo && 0 <= j <= |n| && lo + j <= i <= |h| && h[i - j..i] == n[..j]
  }

  lemma EndsWithStep(h: string, lo: int, i: int, n: string, j: int)
    requires 0 < j && i < |h|
    ensures EndsWith(h, lo, i + 1, n, j) <==> j <= |n| && EndsWith(h, lo, i, n, j - 1) && h[i] == n[j - 1]
  {
    if j <= |n| && 0 <= lo && lo + j <= i + 1 && 0 <= i {
      assert h[i + 1 - j..i + 1] == h[i - (j - 1)..i] + [h[i]];
      assert n[..j] == n[..j - 1] + [n[j - 1]];
    }
  }

  /** Whatever the matcher reports is a true occurrence, not before where it started. */
  lemma {:induction false} ScanSound(h: string, n: string, lo: nat, i: nat, got: nat)
    requires got < |n| && i <= |h| && EndsWith(h, lo, i, n, got)
    ensures var r := Scan(h, n, i, got); r != -1 ==> lo <= r && Occurs(h, n, r)
    decreases |h| - i
  {
    if i < |h| {
      var m := Step(n, got, h[i]);
      if m > 0 {
        EndsWithStep(h, lo, i, n, m);
        assert EndsWith(h, lo, i, n, 0);
      }
      assert EndsWith(h, lo, i + 1, n, m);
      if m == |n| {
        assert n[..|n|] == n;
      } else {
        ScanSound(h, n, lo, i + 1, m);
      }
    }
  }

  // ---- when the matcher misses nothing ----

  /** The first `b` characters of the first `k` are also their last. */
  predicate Border(n: string, k: int, b: int) {
    0 < b < k <= |n| && n[k - b..k] == n[..b]
  }

  /** Every border of every proper prefix continues like the prefix does. */
  ghost predicate Safe(n: string) {
    forall k, b :: Border(n, k, b) && k < |n| ==> n[b] == n[k]
  }

  /** No longer prefix of the needle than `got` ends at `i`. */
  ghost predicate Longest(h: string, lo: int, i: int, n: string, got: int) {
    EndsWith(h, lo, i, n, got) && forall j :: got < j <= |n| ==> !EndsWith(h, lo, i, n, j)
  }

  lemma BorderOfMatch(h: string, lo: int, i: int, n: string, got: int, b: int)
    requires EndsWith(h, lo, i, n, got) && EndsWith(h, lo, i, n, b) && 0 < b < got
    ensures Border(n, got, b)
  {
    assert n[got - b..got] == n[..got][got - b..] == h[i - got..i][got - b..] == h[i - b..i];
  }

  lemma LongestStep(h: string, lo: nat, i: nat, n: string, got: nat)
    requires Safe(n) && got < |n| && i < |h| && Longest(h, lo, i, n, got)
    ensures Longest(h, lo, i + 1, n, Step(n, got, h[i]))
  {
    var m := Step(n, got, h[i]);
    if m > 0 {
      EndsWithStep(h, lo, i, n, m);
      assert EndsWith(h, lo, i, n, 0);
    }
    var e := i + 1;
    forall j | m < j <= |n| ensures !EndsWith(h, lo, e, n, j) {
      EndsWithStep(h, lo, i, n, j);
      if EndsWith(h, lo, i, n, j - 1) && h[i] == n[j - 1] {
        assert j - 1 <= got;
        if 0 < j - 1 < got {
          BorderOfMatch(h, lo, i, n, got, j - 1);
        }
      }
    }
  }

  /** For a safe needle the matcher finds the first occurrence. */
  lemma {:induction false} ScanFirst(h: string, n: string, lo: nat, i: nat, got: nat)
    requires Safe(n) && got < |n| && i <= |h| && Longest(h, lo, i, n, got)
    requires forall k :: lo <= k && k + |n| <= i ==> !Occurs(h, n, k)
    ensures IsFirst(h, n, lo, Scan(h, n, i, got))
    decreases |h| - i
  {
    if i == |h| {
      forall k | lo <= k ensures !Occurs(h, n, k) {
        if k + |n| > i { assert !Occurs(h, n, k); }
      }
    } else {
      var m := Step(n, got, h[i]);
      LongestStep(h, lo, i, n, got);
      assert n[..|n|] == n;
      if m == |n| {
        assert Occurs(h, n, i + 1 - |n|);
      } else {
        forall k | lo <= k && k + |n| <= i + 1 ensures !Occurs(h, n, k) {
          if k + |n| == i + 1 {
            assert !EndsWith(h, lo, i + 1, n, |n|);
          }
        }
        ScanFirst(h, n, lo, i + 1, m);
      }
    }
  }

  lemma ScanFromStart(h: string, n: string, lo: nat)
    requires Safe(n) && n != "" && lo <= |h|
    ensures IsFirst(h, n, lo, Scan(h, n, lo, 0))
  {
    assert EndsWith(h, lo, lo, n, 0);
    ScanFirst(h, n, lo, lo, 0);
  }

  // ---- when it does miss one ----

  /** While the haystack spells the needle, the matcher follows it. */
  lemma {:induction false} Spelling(h: string, n: string, k: nat)
    requires k < |n| && k <= |h| && h[..k] == n[..k]
    ensures Scan(h, n, 0, 0) == Scan(h, n, k, k)
  {
    if k > 0 {
      assert h[..k - 1] == h[..k][..k - 1] == n[..k - 1];
      Spelling(h, n, k - 1);
      assert h[k - 1] == h[..k][k - 1] == n[k - 1];
    }
  }

  /** A needle that is not safe is missed in a haystack that contains it. */
  lemma UnsafeMisses(n: string, k: nat, b: nat) returns (h: string)
    requires Border(n, k, b) && k < |n| && n[b] != n[k]
    ensures h == n[..k - b] + n && Occurs(h, n, k - b) && Scan(h, n, 0, 0) == -1
  {
    h := n[..k - b] + n;
    assert h[k - b..k - b + |n|] == n;
    assert h[..k] == n[..k - b] + n[..b];
    assert n[..k] == n[..k - b] + n[k - b..k];
    Spelling(h, n, k);
    assert h[k] == n[b];
    var m := Step(n, k, h[k]);
    assert m <= 1;
    if m < |n| {
      ShortHaystack(h, n, k + 1, m);
    }
  }

  /** indexOf is right about a needle in every haystack, from everywhere, if and only if the needle is safe. */
  lemma IndexOfRightIff(n: string)
    requires n != ""
    ensures (forall h: string, from: nat :: from <= |h| ==> IsFirst(h, n, from, Scan(h, n, from, 0))) <==> Safe(n)
  {
    if Safe(n) {
      forall h: string, from: nat | from <= |h| ensures IsFirst(h, n, from, Scan(h, n, from, 0)) {
        ScanFromStart(h, n, from);
      }
    } else {
      var k, b :| Border(n, k, b) && k < |n| && n[b] != n[k];
      var h := UnsafeMisses(n, k, b);
      assert !IsFirst(h, n, 0, Scan(h, n, 0, 0));
    }
  }

  // ---- which needles are safe ----

  /** `p` is the first place after the start where the needle's first character comes back, or its length. */
  predicate FirstReturn(n: string, p: int) {
    0 < p <= |n| && (forall q :: 0 < q < p ==> n[q] != n[0]) && (p < |n| ==> n[p] == n[0])
  }

  /** The needle repeats its first `p` characters to its end. */
  predicate Repeats(n: string, p: nat) {
    forall i :: p <= i < |n| ==> n[i] == n[i - p]
  }

  lemma BorderStart(n: string, k: int, b: int)
    requires Border(n, k, b)
    ensures n[k - b] == n[0]
  {
    assert n[k - b..k][0] == n[..b][0];
  }

  lemma {:induction false} BlocksBack(n: string, p: nat, i: nat, d: nat)
    requires FirstReturn(n, p) && Repeats(n, p) && d <= i < |n| && n[d] == n[0]
    ensures n[i] == n[i - d]
    decreases d
  {
    if d > 0 {
      assert n[d - p] == n[d];
      BlocksBack(n, p, i - p, d - p);
    }
  }

  lemma {:induction false} SafeRepeats(n: string, p: nat, k: nat)
    requires FirstReturn(n, p) && Safe(n) && k <= |n|
    ensures Repeats(n[..k], p)
  {
    if k > p {
      var i := k - 1;
      SafeRepeats(n, p, i);
      if i > p {
        forall j | 0 <= j < i - p ensures n[p..i][j] == n[..i - p][j] {
          assert n[..i][p + j] == n[..i][j];
        }
        assert Border(n, i, i - p);
      }
      forall j | p <= j < k ensures n[..k][j] == n[..k][j - p] {
        if j < i {
          assert n[..i][j] == n[..i][j - p];
        }
      }
    }
  }

  /** A needle is safe if and only if it repeats the block up to the first return of its first character. */
  lemma SafeIffRepeats(n: string, p: nat)
    requires FirstReturn(n, p)
    ensures Safe(n) <==> Repeats(n, p)
  {
    if Repeats(n, p) {
      forall k, b | Border(n, k, b) && k < |n| ensures n[b] == n[k] {
        BorderStart(n, k, b);
        BlocksBack(n, p, k, k - b);
      }
    }
    if Safe(n) {
      SafeRepeats(n, p, |n|);
      assert n[..|n|] == n;
    }
  }

  /** A needle whose first character does not come back is found wherever it first is. */
  lemma NoReturnSafe(n: string)
    requires n != "" && forall q :: 0 < q < |n| ==> n[q] != n[0]
    ensures Safe(n)
  {
    SafeIffRepeats(n, |n|);
  }

  /** "aab" is not found in "aaab". */
  lemma MissedNeedle()
    ensures Occurs("aaab", "aab", 1) && Scan("aaab", "aab", 0, 0) == -1
  {
    assert "aab"[1..2] == "a" && "aab"[..1] == "a";
    var h := UnsafeMisses("aab", 2, 1);
    assert h == "aaab";
  }
}
