/** String.prototype.split by a string (src/runtime/lib/String.c) and the join of src/runtime/lib/Array.c. */
module SplitJoin {
  import opened Options
  import opened StringSearch

  /** An array element as join reads it: an absent one reads as undefined. */
  datatype Element = Undefined | Null | Text(text: string)

  function Min(a: nat, b: nat): (m: nat)
    ensures (m == a || m == b) && m <= a && m <= b
  {
    if a < b then a else b
  }

  /** What is left once no further separator is found. */
  function Rest(str: string, sep: string, start: nat): seq<string>
    requires start <= |str|
  {
    if start < |str| then [str[start..]] else if start > 0 && sep != "" then [""] else []
  }

  /** All pieces from `start` on, cut at what the single-pass matcher reports. */
  function Pieces(str: string, sep: string, start: nat): (ps: seq<string>)
    requires start <= |str|
    ensures |ps| <= |str| - start + 1
    decreases |str| - start
  {
    if sep == "" then
      if start == |str| then [] else [str[start..start + 1]] + Pieces(str, sep, start + 1)
    else
      var r := Scan(str, sep, start, 0);
      if r == -1 then Rest(str, sep, start)
      else
        ScanSound(str, sep, start, start, 0);
        [str[start..r]] + Pieces(str, sep, r + |sep|)
  }

  /** C's reading of a string: the terminator ends it. */
  function Char(s: string, i: nat): char
    requires i <= |s|
  {
    if i < |s| then s[i] else '\0'
  }

  /** fh_str_slice, within bounds */
  function Slice(str: string, start: nat, end: nat): string
    requires start <= end <= |str|
  {
    str[start..end]
  }

  /** One turn of the loop of split: a piece is complete, or the matcher moves on. */
  lemma Advance(str: string, sep: string, start: nat, i: nat, got: nat) returns (m: nat)
    requires start <= i < |str| && got <= i - start && '\0' !in str
    requires if sep == "" then got == 0 && start == i else got < |sep|
    requires sep != "" ==> Scan(str, sep, i, got) == Scan(str, sep, start, 0)
    ensures m == if str[i] == Char(sep, got) then got + 1 else if str[i] == Char(sep, 0) then 1 else 0
    ensures m == |sep| ==> start <= i + 1 - |sep|
    ensures m == |sep| ==> Pieces(str, sep, start) == [Slice(str, start, i + 1 - |sep|)] + Pieces(str, sep, i + 1)
    ensures m != |sep| ==> m < |sep| && Scan(str, sep, i + 1, m) == Scan(str, sep, start, 0)
  {
    m := if str[i] == Char(sep, got) then got + 1 else if str[i] == Char(sep, 0) then 1 else 0;
    if sep != "" {
      assert m == Step(sep, got, str[i]);
    }
  }

  lemma LastPieces(str: string, sep: string, start: nat, got: nat)
    requires start <= |str| && (sep == "" ==> start == |str|)
    requires sep != "" ==> got < |sep| && Scan(str, sep, |str|, got) == Scan(str, sep, start, 0)
    ensures Pieces(str, sep, start) ==
      if start < |str| then [Slice(str, start, |str|)] else if start > 0 && sep != "" then [""] else []
  {
    assert str[start..] == str[start..|str|];
  }

  /** `arr` is the beginning of all the pieces, and `rest` is what follows. */
  ghost predicate Splits(arr: seq<string>, rest: seq<string>, all: seq<string>) {
    all == arr + rest
  }

  lemma NothingYet(all: seq<string>)
    ensures Splits([], all, all)
  {
  }

  lemma OnePieceMore(arr: seq<string>, piece: string, rest: seq<string>, all: seq<string>)
    requires Splits(arr, [piece] + rest, all)
    ensures Splits(arr + [piece], rest, all)
  {
  }

  /** As many of the pieces as `limit` allows, the first ones. */
  ghost predicate FirstOf(arr: seq<string>, all: seq<string>, limit: nat) {
    arr <= all && |arr| == Min(limit, |all|)
  }

  lemma EnoughPieces(arr: seq<string>, rest: seq<string>, all: seq<string>, limit: nat)
    requires Splits(arr, rest, all)
    ensures |arr| == limit ==> FirstOf(arr, all, limit)
    ensures |arr| < limit && rest == [] ==> FirstOf(arr, all, limit)
    ensures |arr| < limit && |rest| == 1 ==> FirstOf(arr + [rest[0]], all, limit)
  {
  }

  /** The loop of str_proto_split and what follows it. */
  method SplitBy(str: string, sep: string, limit: nat) returns (arr: seq<string>)
    requires '\0' !in str && limit > 0
    ensures FirstOf(arr, Pieces(str, sep, 0), limit)
  {
    hide *;
    arr := [];
    ghost var all := Pieces(str, sep, 0);
    NothingYet(all);
    var got, start, matchedLast, left := 0, 0, false, limit;
    var i := 0;
    while i < |str|
      invariant 0 <= start <= i <= |str| && 0 <= got <= i - start
      invariant if sep == "" then got == 0 && start == i else got < |sep|
      invariant sep != "" ==> Scan(str, sep, i, got) == Scan(str, sep, start, 0)
      invariant start == i ==> matchedLast == (i > 0)
      invariant Splits(arr, Pieces(str, sep, start), all)
      invariant left > 0 && left + |arr| == limit
    {
      ghost var m := Advance(str, sep, start, i, got);
      matchedLast := false;
      if str[i] == Char(sep, got) {
        got := got + 1;
      } else {
        got := if str[i] == Char(sep, 0) then 1 else 0;
      }
      if got == |sep| {
        OnePieceMore(arr, Slice(str, start, i - |sep| + 1), Pieces(str, sep, i + 1), all);
        arr := arr + [Slice(str, start, i - |sep| + 1)];
        start := i + 1;
        got := 0;
        matchedLast := true;
        left := left - 1;
        if left == 0 {
          break;
        }
      }
      i := i + 1;
    }
    EnoughPieces(arr, Pieces(str, sep, start), all, limit);
    if left > 0 {
      LastPieces(str, sep, start, got);
      if start != |str| {
        arr := arr + [Slice(str, start, |str|)];
      } else if matchedLast && |sep| > 0 {
        arr := arr + [""];
      }
    }
  }

  /** str_proto_split, for a separator that is not a regular expression. */
  method Split(str: string, separator: Option<string>, limit: Option<nat>) returns (arr: seq<string>)
    requires '\0' !in str
    ensures var uncut := if separator.None? then [str] else Pieces(str, separator.value, 0);
      && arr <= uncut
      && |arr| == Min(if limit.None? then 0xFFFF_FFFF else limit.value, |uncut|)
  {
    hide Pieces;
    var left: nat := if limit.None? then 0xFFFF_FFFF else limit.value;
    if left == 0 {
      return [];
    }
    if separator.None? {
      return [str];
    }
    arr := SplitBy(str, separator.value, left);
  }

  function TextOf(v: Element): string {
    if v.Text? then v.text else ""
  }

  function Texts(arr: seq<Element>): (ts: seq<string>)
    ensures |ts| == |arr| && forall i :: 0 <= i < |arr| ==> ts[i] == TextOf(arr[i])
  {
    seq(|arr|, i requires 0 <= i < |arr| => TextOf(arr[i]))
  }

  function Joined(ps: seq<string>, sep: string): string {
    if |ps| == 0 then "" else if |ps| == 1 then ps[0] else ps[0] + sep + Joined(ps[1..], sep)
  }

  lemma JoinedCons(p: string, ps: seq<string>, sep: string)
    ensures Joined([p] + ps, sep) == if ps == [] then p else p + sep + Joined(ps, sep)
  {
    assert ([p] + ps)[1..] == ps;
  }

  lemma Regroup(a: string, sep: string, b: string, p: string)
    ensures a + sep + (b + sep + p) == a + sep + b + sep + p
  {
  }

  lemma {:induction false} JoinedSnoc(ps: seq<string>, sep: string, p: string)
    ensures Joined(ps + [p], sep) == if ps == [] then p else Joined(ps, sep) + sep + p
  {
    hide *;
    if ps == [] {
      JoinedCons(p, [], sep);
      assert ps + [p] == [p] + [];
    } else {
      var a, rest := ps[0], ps[1..];
      assert ps == [a] + rest;
      assert ps + [p] == [a] + (rest + [p]);
      JoinedSnoc(rest, sep, p);
      JoinedCons(a, rest + [p], sep);
      JoinedCons(a, rest, sep);
      if rest != [] {
        Regroup(a, sep, Joined(rest, sep), p);
      }
    }
  }

  /** do_join */
  method Join(arr: seq<Element>, separator: Option<string>) returns (result: string)
    ensures result == Joined(Texts(arr), if separator.None? then "," else separator.value)
    ensures forall i :: 0 <= i < |arr| ==>
      Texts(arr)[i] == if arr[i].Undefined? || arr[i].Null? then "" else arr[i].text
  {
    result := "";
    var sep := if separator.None? then "," else separator.value;
    var isFirst := true;
    for i := 0 to |arr|
      invariant isFirst <==> i == 0
      invariant result == Joined(Texts(arr)[..i], sep)
    {
      JoinedSnoc(Texts(arr)[..i], sep, TextOf(arr[i]));
      assert Texts(arr)[..i] + [TextOf(arr[i])] == Texts(arr)[..i + 1];
      if !isFirst {
        result := result + sep;
      } else {
        isFirst := false;
      }
      result := result + TextOf(arr[i]);
    }
    assert Texts(arr)[..|arr|] == Texts(arr);
  }

  // ---- splitting and joining again ----

  lemma JoinedNone(sep: string)
    ensures Joined([], sep) == ""
  {
  }

  lemma {:induction false} JoinPieces(str: string, sep: string, start: nat)
    requires start <= |str|
    ensures Joined(Pieces(str, sep, start), sep) == str[start..]
    ensures sep != "" && start > 0 ==> Pieces(str, sep, start) != []
    decreases |str| - start
  {
    hide Joined, Scan;
    if sep == "" {
      if start < |str| {
        JoinPieces(str, sep, start + 1);
        JoinedCons(str[start..start + 1], Pieces(str, sep, start + 1), sep);
        assert str[start..] == str[start..start + 1] + str[start + 1..];
        if start + 1 < |str| {
          assert str[start..] == str[start..start + 1] + sep + str[start + 1..];
        }
      } else {
        JoinedNone(sep);
      }
    } else {
      var r := Scan(str, sep, start, 0);
      if r != -1 {
        ScanSound(str, sep, start, start, 0);
        JoinPieces(str, sep, r + |sep|);
        JoinedCons(str[start..r], Pieces(str, sep, r + |sep|), sep);
        assert str[start..] == str[start..r] + sep + str[r + |sep|..];
      } else {
        JoinedNone(sep);
        JoinedCons(str[start..], [], sep);
        assert [str[start..]] + [] == [str[start..]];
      }
    }
  }

  /** Without a limit every piece is kept; lengths are C ints. */
  lemma NoLimitKeepsAll(str: string, sep: string)
    requires |str| < 0x8000_0000
    ensures |Pieces(str, sep, 0)| < 0xFFFF_FFFF
  {
  }

  lemma AllKept(arr: seq<string>, all: seq<string>)
    requires arr <= all && |arr| == |all|
    ensures arr == all
  {
  }

  lemma TextsBack(ps: seq<string>)
    ensures Texts(seq(|ps|, i requires 0 <= i < |ps| => Text(ps[i]))) == ps
  {
  }

  /** The empty separator gives one piece for every character. */
  lemma {:induction false} EmptySeparator(str: string, start: nat)
    requires start <= |str|
    ensures |Pieces(str, "", start)| == |str| - start
    ensures forall i :: 0 <= i < |str| - start ==> Pieces(str, "", start)[i] == [str[start + i]]
    decreases |str| - start
  {
    if start < |str| {
      EmptySeparator(str, start + 1);
      var rest := Pieces(str, "", start + 1);
      assert Pieces(str, "", start) == [str[start..start + 1]] + rest;
      forall i | 0 < i < |str| - start ensures Pieces(str, "", start)[i] == [str[start + i]] {
        assert Pieces(str, "", start)[i] == rest[i - 1];
      }
    }
  }

  /** Joining what split returns gives the string back, whatever the separator and however the matcher cut. */
  method SplitThenJoin(str: string, sep: string) returns (back: string)
    requires '\0' !in str && |str| < 0x8000_0000
    ensures back == str
  {
    hide *;
    var arr := Split(str, Some(sep), None);
    AllKept(arr, Pieces(str, sep, 0));
    back := Join(seq(|arr|, i requires 0 <= i < |arr| => Text(arr[i])), Some(sep));
    TextsBack(arr);
    NoLimitKeepsAll(str, sep);
    JoinPieces(str, sep, 0);
  }

  // ---- where split cuts ----

  /** The pieces between the leftmost separators, as section 15.5.4.14 of ECMA-262 has them. */
  function Leftmost(str: string, sep: string, start: nat): (ps: seq<string>)
    requires sep != "" && start <= |str|
    ensures |ps| > 0
    decreases |str| - start
  {
    var r := Find(str, sep, start);
    if r == -1 then [str[start..]] else [str[start..r]] + Leftmost(str, sep, r + |sep|)
  }

  lemma {:induction false} SafePieces(str: string, sep: string, start: nat)
    requires sep != "" && Safe(sep) && start <= |str| && str != ""
    ensures Pieces(str, sep, start) == Leftmost(str, sep, start)
    decreases |str| - start
  {
    hide Scan, Find, IsFirst, Occurs;
    ScanFromStart(str, sep, start);
    OneFirst(str, sep, start, Scan(str, sep, start, 0));
    var r := Find(str, sep, start);
    if r == -1 {
      assert str[start..] == "" || start < |str|;
    } else {
      SafePieces(str, sep, r + |sep|);
    }
  }

  /** A separator that is not safe is missed by split, in a string that contains it. */
  lemma UnsafeSplits(sep: string, k: nat, b: nat) returns (str: string)
    requires Border(sep, k, b) && k < |sep| && sep[b] != sep[k]
    ensures str != "" && Pieces(str, sep, 0) != Leftmost(str, sep, 0)
  {
    hide Scan, Find, Safe;
    str := UnsafeMisses(sep, k, b);
    FindIsFirst(str, sep, 0);
    assert |Pieces(str, sep, 0)| == 1 < |Leftmost(str, sep, 0)|;
  }

  /** split cuts at the leftmost separators of every non-empty string if and only if the separator is safe. */
  lemma SplitRightIff(sep: string)
    requires sep != ""
    ensures (forall str :: str != "" ==> Pieces(str, sep, 0) == Leftmost(str, sep, 0)) <==> Safe(sep)
  {
    hide Pieces, Leftmost, Scan;
    if Safe(sep) {
      forall str | str != "" ensures Pieces(str, sep, 0) == Leftmost(str, sep, 0) {
        SafePieces(str, sep, 0);
      }
    } else {
      var k, b :| Border(sep, k, b) && k < |sep| && sep[b] != sep[k];
      var str := UnsafeSplits(sep, k, b);
    }
  }

  /** The empty string splits into nothing at all; section 15.5.4.14 asks for one empty piece. A safe
      separator is therefore right about exactly the non-empty strings. */
  lemma EmptyStringSplits(str: string, sep: string)
    requires sep != "" && Safe(sep)
    ensures Pieces(str, sep, 0) == Leftmost(str, sep, 0) <==> str != ""
    ensures str == "" ==> Pieces(str, sep, 0) == [] && Leftmost(str, sep, 0) == [""]
  {
    if str != "" {
      SafePieces(str, sep, 0);
    }
  }
}
