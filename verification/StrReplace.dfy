/** fh_str_replace (src/str.c): one pass counts the occurrences, a second fills a buffer of exactly that size. */
module StrReplace {
  import opened Options
  import opened StringSearch
  import opened SplitJoin

  /** How many occurrences strstr finds from `i` on, each search starting behind the one before. */
  function Count(s: string, repl: string, i: nat): nat
    requires repl != "" && i <= |s|
    decreases |s| - i
  {
    var r := Find(s, repl, i);
    if r == -1 then 0 else 1 + Count(s, repl, r + |repl|)
  }

  /** The text from `i` on with its first `k` occurrences replaced. */
  function Replaced(s: string, repl: string, with: string, i: nat, k: nat): string
    requires repl != "" && i <= |s| && k <= Count(s, repl, i)
    decreases k
  {
    if k == 0 then s[i..]
    else
      var r := Find(s, repl, i);
      s[i..r] + with + Replaced(s, repl, with, r + |repl|, k - 1)
  }

  lemma {:induction false} ReplacedLength(s: string, repl: string, with: string, i: nat, k: nat)
    requires repl != "" && i <= |s| && k <= Count(s, repl, i)
    ensures |Replaced(s, repl, with, i, k)| == |s| - i + (|with| - |repl|) * k
    decreases k
  {
    if k > 0 {
      ReplacedLength(s, repl, with, Find(s, repl, i) + |repl|, k - 1);
      assert (|with| - |repl|) * k == (|with| - |repl|) * (k - 1) + (|with| - |repl|);
    }
  }

  lemma Cut(s: string, repl: string, i: nat)
    requires i <= |s| && Find(s, repl, i) != -1
    ensures var r := Find(s, repl, i); s[i..] == s[i..r] + repl + s[r + |repl|..]
  {
    FindIsFirst(s, repl, i);
  }

  /** Searching again from an occurrence finds it again. */
  lemma FoundAgain(s: string, repl: string, i: nat)
    requires repl != "" && i <= |s| && Find(s, repl, i) != -1
    ensures Count(s, repl, Find(s, repl, i)) == Count(s, repl, i) > 0
  {
    FindIsFirst(s, repl, i);
  }

  lemma NotFound(s: string, repl: string)
    requires repl != "" && Find(s, repl, 0) == -1
    ensures Count(s, repl, 0) == 0
  {
  }

  lemma NextReplaced(s: string, repl: string, with: string, i: nat, k: nat) returns (r: nat)
    requires repl != "" && i <= |s| && 0 < k <= Count(s, repl, i)
    ensures r == Find(s, repl, i) && k - 1 <= Count(s, repl, r + |repl|)
    ensures Replaced(s, repl, with, i, k) == s[i..r] + with + Replaced(s, repl, with, r + |repl|, k - 1)
  {
    r := Find(s, repl, i);
  }

  lemma NoneReplaced(s: string, repl: string, with: string, i: nat)
    requires repl != "" && i <= |s|
    ensures Replaced(s, repl, with, i, 0) == s[i..]
  {
  }

  /** The counting pass, from where the first occurrence is. */
  method CountUpTo(orig: string, repl: string, first: nat, limit: int) returns (count: nat)
    requires repl != "" && first <= |orig|
    ensures count == if 0 < limit < Count(orig, repl, first) then limit else Count(orig, repl, first)
  {
    var hasLimit := limit > 0;
    var ins, left := first, limit;
    count := 0;
    var tmp := Find(orig, repl, ins);
    while tmp != -1 && (!hasLimit || left != 0)
      invariant ins <= |orig| && tmp == Find(orig, repl, ins) && left == limit - count
      invariant hasLimit ==> left >= 0
      invariant count + Count(orig, repl, ins) == Count(orig, repl, first)
      decreases |orig| - ins
    {
      ins := tmp + |repl|;
      count, left := count + 1, left - 1;
      tmp := Find(orig, repl, ins);
    }
  }

  /** strncpy of exactly the characters of `text`. */
  method Copy(buf: array<char>, at: nat, text: string)
    requires at + |text| <= buf.Length
    modifies buf
    ensures buf[..at + |text|] == old(buf[..at]) + text
    ensures buf[at + |text|..] == old(buf[at + |text|..])
  {
    forall k | 0 <= k < |text| {
      buf[at + k] := text[k];
    }
  }

  /** strcpy: the terminator is written too, and must fit. */
  method CopyTerminated(buf: array<char>, at: nat, text: string)
    requires at + |text| < buf.Length
    modifies buf
    ensures buf[..at + |text|] == old(buf[..at]) + text && buf[at + |text|] == '\0'
  {
    Copy(buf, at, text);
    buf[at + |text|] := '\0';
  }

  lemma RegroupGap(before: string, gap: string, with: string, rest: string)
    ensures before + gap + with + rest == before + (gap + with + rest)
    ensures |before + (gap + with + rest)| == |before| + |gap| + |with| + |rest|
  {
  }

  /** The writing pass: every copy stays inside the buffer and the last terminator is its last character. */
  method Fill(buf: array<char>, orig: string, repl: string, with: string, count: nat)
    requires repl != "" && count <= Count(orig, repl, 0)
    requires buf.Length == |orig| + (|with| - |repl|) * count + 1
    modifies buf
    ensures buf[..] == Replaced(orig, repl, with, 0, count) + ['\0']
  {
    hide *;
    ghost var all := Replaced(orig, repl, with, 0, count);
    ReplacedLength(orig, repl, with, 0, count);
    var at: nat, from: nat, left: nat := 0, 0, count;
    ghost var written := "";
    while left > 0
      invariant from <= |orig| && left <= Count(orig, repl, from)
      invariant at == |written| <= buf.Length && buf[..at] == written
      invariant written + Replaced(orig, repl, with, from, left) == all
    {
      ghost var next := NextReplaced(orig, repl, with, from, left);
      var r := Find(orig, repl, from);
      var dist := r - from;
      ghost var rest := Replaced(orig, repl, with, r + |repl|, left - 1);
      RegroupGap(written, orig[from..r], with, rest);
      Copy(buf, at, orig[from..r]);
      CopyTerminated(buf, at + dist, with);
      written := written + orig[from..r] + with;
      at, from, left := at + dist + |with|, r + |repl|, left - 1;
    }
    NoneReplaced(orig, repl, with, from);
    CopyTerminated(buf, at, orig[from..]);
    assert buf[..] == buf[..|all|] + ['\0'];
  }

  /** fh_str_replace. No buffer means that the original itself is returned; a limit that is not positive is none. */
  method Replace(orig: Option<string>, repl: Option<string>, with: Option<string>, limit: int)
    returns (result: array?<char>)
    ensures result == null <==>
      orig.None? || repl.None? || with.None? || repl.value == "" || Count(orig.value, repl.value, 0) == 0
    ensures result != null ==> fresh(result)
    ensures result != null ==>
      var all := Count(orig.value, repl.value, 0);
      result[..] == Replaced(orig.value, repl.value, with.value, 0, if 0 < limit < all then limit else all) + ['\0']
  {
    hide Find, Count, Replaced;
    if orig.None? || repl.None? || repl.value == "" || with.None? {
      return null;
    }
    var ins := Find(orig.value, repl.value, 0);
    if ins == -1 {
      NotFound(orig.value, repl.value);
      return null;
    }
    FoundAgain(orig.value, repl.value, 0);
    var count := CountUpTo(orig.value, repl.value, ins, limit);
    ReplacedLength(orig.value, repl.value, with.value, 0, count);
    result := new char[|orig.value| + (|with.value| - |repl.value|) * count + 1];
    Fill(result, orig.value, repl.value, with.value, count);
  }

  // ---- replacing is splitting and joining ----

  lemma {:induction false} JoinLeftmost(s: string, repl: string, i: nat)
    requires repl != "" && i <= |s|
    ensures Joined(Leftmost(s, repl, i), repl) == s[i..] && |Leftmost(s, repl, i)| == Count(s, repl, i) + 1
    decreases |s| - i
  {
    hide Find, Joined;
    var r := Find(s, repl, i);
    if r != -1 {
      Cut(s, repl, i);
      JoinLeftmost(s, repl, r + |repl|);
      JoinedCons(s[i..r], Leftmost(s, repl, r + |repl|), repl);
    } else {
      JoinedNone(repl);
      JoinedCons(s[i..], [], repl);
      assert [s[i..]] + [] == [s[i..]];
    }
  }

  /** The first `k` of the gaps between the leftmost pieces are filled with the new text, the others with the old. */
  function Mixed(ps: seq<string>, k: nat, with: string, repl: string): string
    requires k < |ps|
  {
    if k == 0 then Joined(ps, repl) else Joined(ps[..k], with) + with + Joined(ps[k..], repl)
  }

  lemma {:induction false} ReplacedIsMixed(s: string, repl: string, with: string, i: nat, k: nat)
    requires repl != "" && i <= |s| && k <= Count(s, repl, i)
    ensures k < |Leftmost(s, repl, i)| && Replaced(s, repl, with, i, k) == Mixed(Leftmost(s, repl, i), k, with, repl)
    decreases k
  {
    hide Find, Joined;
    JoinLeftmost(s, repl, i);
    if k > 0 {
      var r := Find(s, repl, i);
      var ps := Leftmost(s, repl, r + |repl|);
      ReplacedIsMixed(s, repl, with, r + |repl|, k - 1);
      assert Leftmost(s, repl, i)[..k] == [s[i..r]] + ps[..k - 1] && Leftmost(s, repl, i)[k..] == ps[k - 1..];
      JoinedCons(s[i..r], ps[..k - 1], with);
      assert ps[0..] == ps;
    }
  }

  /** Without a limit the result is the leftmost pieces joined by the new text, one gap for every occurrence. */
  lemma AllReplacedIsJoin(s: string, repl: string, with: string)
    requires repl != ""
    ensures Replaced(s, repl, with, 0, Count(s, repl, 0)) == Joined(Leftmost(s, repl, 0), with)
    ensures |Leftmost(s, repl, 0)| == Count(s, repl, 0) + 1
  {
    var ps, k := Leftmost(s, repl, 0), Count(s, repl, 0);
    ReplacedIsMixed(s, repl, with, 0, k);
    JoinLeftmost(s, repl, 0);
    if k > 0 {
      JoinedSnoc(ps[..k], with, ps[k]);
      assert ps[..k] + [ps[k]] == ps && ps[k..] == [ps[k]];
    }
  }

  /** Replacing a text by itself changes nothing, whatever the limit. */
  lemma ReplaceByItself(s: string, repl: string, i: nat, k: nat)
    requires repl != "" && i <= |s| && k <= Count(s, repl, i)
    ensures Replaced(s, repl, repl, i, k) == s[i..]
    decreases k
  {
    hide Find, Count, Replaced;
    if k > 0 {
      var r := NextReplaced(s, repl, repl, i, k);
      Cut(s, repl, i);
      ReplaceByItself(s, repl, r + |repl|, k - 1);
    } else {
      NoneReplaced(s, repl, repl, i);
    }
  }
}
