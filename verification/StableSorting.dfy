/** What a merge sort promises, independently of how the runs are stored: sortedness,
    permutation, and the order in which equivalent elements come out. */
module StableSorting {

  /** `le` is a total preorder on the elements of `s`. */
  ghost predicate TotalPreorder<T>(le: (T, T) -> bool, s: seq<T>) {
    && (forall a, b :: a in s && b in s ==> le(a, b) || le(b, a))
    && (forall a, b, c :: a in s && b in s && c in s && le(a, b) && le(b, c) ==> le(a, c))
  }

  ghost predicate Sorted<T>(le: (T, T) -> bool, s: seq<T>) {
    forall i, j :: 0 <= i < j < |s| ==> le(s[i], s[j])
  }

  /** The elements of `s` equivalent to `x`, in the order in which they occur. */
  ghost function Class<T>(le: (T, T) -> bool, x: T, s: seq<T>): seq<T> {
    if s == [] then []
    else if le(x, s[0]) && le(s[0], x) then [s[0]] + Class(le, x, s[1..])
    else Class(le, x, s[1..])
  }

  ghost function Reverse<T>(s: seq<T>): seq<T> {
    if s == [] then [] else Reverse(s[1..]) + [s[0]]
  }

  /** `t` is `s` sorted, with every class of equivalent elements in its original order. */
  ghost predicate StableSortOf<T>(le: (T, T) -> bool, s: seq<T>, t: seq<T>) {
    && Sorted(le, t)
    && multiset(t) == multiset(s)
    && forall x :: x in s ==> Class(le, x, t) == Class(le, x, s)
  }

  /** `t` is `s` sorted, with every class of equivalent elements in exactly the reverse order. */
  ghost predicate ReversingSortOf<T>(le: (T, T) -> bool, s: seq<T>, t: seq<T>) {
    && Sorted(le, t)
    && multiset(t) == multiset(s)
    && forall x :: x in s ==> Class(le, x, t) == Reverse(Class(le, x, s))
  }

  lemma {:induction false} ClassConcat<T>(le: (T, T) -> bool, x: T, s: seq<T>, t: seq<T>)
    ensures Class(le, x, s + t) == Class(le, x, s) + Class(le, x, t)
  {
    if s == [] {
      assert s + t == t;
    } else {
      assert (s + t)[1..] == s[1..] + t;
      ClassConcat(le, x, s[1..], t);
    }
  }

  lemma {:induction false} ReverseConcat<T>(s: seq<T>, t: seq<T>)
    ensures Reverse(s + t) == Reverse(t) + Reverse(s)
  {
    if s == [] {
      assert s + t == t;
    } else {
      assert (s + t)[1..] == s[1..] + t;
      ReverseConcat(s[1..], t);
    }
  }

  /** No element equivalent to `x` occurs where every element is strictly above or strictly below it. */
  lemma {:induction false} ClassEmpty<T>(le: (T, T) -> bool, x: T, s: seq<T>)
    requires forall y :: y in s ==> !(le(x, y) && le(y, x))
    ensures Class(le, x, s) == []
  {
    if s != [] {
      assert s[0] in s;
      ClassEmpty(le, x, s[1..]);
    }
  }

  lemma OrderOnPart<T>(le: (T, T) -> bool, s: seq<T>, t: seq<T>)
    requires TotalPreorder(le, s) && forall y :: y in t ==> y in s
    ensures TotalPreorder(le, t)
  {
  }

  lemma ConsContents<T>(s: seq<T>)
    requires s != []
    ensures multiset(s) == multiset{s[0]} + multiset(s[1..])
  {
    assert s == [s[0]] + s[1..];
  }

  lemma ConsSorted<T>(le: (T, T) -> bool, x: T, s: seq<T>)
    requires Sorted(le, s) && forall y :: y in s ==> le(x, y)
    ensures Sorted(le, [x] + s)
  {
    var t := [x] + s;
    forall i, j | 0 <= i < j < |t| ensures le(t[i], t[j]) {
      assert t[j] == s[j - 1];
      if i > 0 { assert t[i] == s[i - 1]; }
    }
  }

  /** The head of a sorted run is below the whole run. */
  lemma HeadBelow<T>(le: (T, T) -> bool, s: seq<T>, p: seq<T>)
    requires TotalPreorder(le, s) && (forall y :: y in p ==> y in s)
    requires p != [] && Sorted(le, p)
    ensures forall y :: y in p ==> le(p[0], y)
  {
    forall y | y in p ensures le(p[0], y) {
      var i :| 0 <= i < |p| && p[i] == y;
      assert p[0] in s;
    }
  }

  lemma SameElements<T>(s: seq<T>, t: seq<T>)
    requires multiset(s) == multiset(t)
    ensures |s| == |t|
    ensures forall y :: y in s <==> y in t
  {
    assert |multiset(s)| == |s| && |multiset(t)| == |t|;
    forall y ensures y in s <==> y in t {
      assert y in s <==> y in multiset(s);
      assert y in t <==> y in multiset(t);
    }
  }

  lemma DropSameHead<T>(s: seq<T>, t: seq<T>)
    requires s != [] && t != [] && s[0] == t[0] && multiset(s) == multiset(t)
    ensures multiset(s[1..]) == multiset(t[1..])
  {
    assert s == [s[0]] + s[1..] && t == [t[0]] + t[1..];
    assert multiset(s[1..]) == multiset(s) - multiset{s[0]};
    assert multiset(t[1..]) == multiset(t) - multiset{t[0]};
  }

  /** Sorted sequences with the same elements and the same classes are equal. */
  lemma {:induction false} SameClassesSame<T>(le: (T, T) -> bool, t: seq<T>, u: seq<T>)
    requires TotalPreorder(le, t) && multiset(t) == multiset(u)
    requires Sorted(le, t) && Sorted(le, u)
    requires forall x :: x in t ==> Class(le, x, t) == Class(le, x, u)
    ensures t == u
  {
    SameElements(t, u);
    if t != [] {
      var a, b := t[0], u[0];
      assert a in u && b in t;
      HeadBelow(le, t, t);
      HeadBelow(le, t, u);
      assert le(a, a);
      assert Class(le, a, t)[0] == a;
      assert Class(le, a, u)[0] == b;
      DropSameHead(t, u);
      forall x | x in t[1..] ensures Class(le, x, t[1..]) == Class(le, x, u[1..]) {
        var c, d := Class(le, x, t), Class(le, x, u);
        assert c == d;
        if le(x, a) && le(a, x) {
          assert c[1..] == Class(le, x, t[1..]) && d[1..] == Class(le, x, u[1..]);
        }
      }
      SameClassesSame(le, t[1..], u[1..]);
    }
  }

  /** A stable sort has exactly one possible result. */
  lemma StableSortUnique<T>(le: (T, T) -> bool, s: seq<T>, t: seq<T>, u: seq<T>)
    requires TotalPreorder(le, s)
    requires StableSortOf(le, s, t) && StableSortOf(le, s, u)
    ensures t == u
  {
    SameElements(t, s);
    SameClassesSame(le, t, u);
  }

  /** A class-reversing sort has exactly one possible result. */
  lemma ReversingSortUnique<T>(le: (T, T) -> bool, s: seq<T>, t: seq<T>, u: seq<T>)
    requires TotalPreorder(le, s)
    requires ReversingSortOf(le, s, t) && ReversingSortOf(le, s, u)
    ensures t == u
  {
    SameElements(t, s);
    SameClassesSame(le, t, u);
  }

  // ---- a sort to compare with ----

  ghost function Insert<T>(le: (T, T) -> bool, e: T, t: seq<T>): seq<T> {
    if t == [] then [e]
    else if le(e, t[0]) then [e] + t
    else [t[0]] + Insert(le, e, t[1..])
  }

  ghost function InsertionSort<T>(le: (T, T) -> bool, s: seq<T>): seq<T> {
    if s == [] then [] else Insert(le, s[0], InsertionSort(le, s[1..]))
  }

  lemma {:induction false} InsertContents<T>(le: (T, T) -> bool, e: T, t: seq<T>)
    ensures multiset(Insert(le, e, t)) == multiset{e} + multiset(t)
  {
    if t != [] {
      ConsContents(t);
      if !le(e, t[0]) {
        InsertContents(le, e, t[1..]);
      }
    }
  }

  lemma InsertMember<T>(le: (T, T) -> bool, e: T, t: seq<T>, y: T)
    requires y in Insert(le, e, t)
    ensures y == e || y in t
  {
    InsertContents(le, e, t);
    assert y in multiset(Insert(le, e, t));
  }

  lemma {:induction false} InsertSorted<T>(le: (T, T) -> bool, e: T, t: seq<T>)
    requires TotalPreorder(le, [e] + t) && Sorted(le, t)
    ensures Sorted(le, Insert(le, e, t))
  {
    if t != [] {
      assert forall y :: y in [e] + t <==> y == e || y in t;
      HeadBelow(le, [e] + t, t);
      if le(e, t[0]) {
        ConsSorted(le, e, t);
      } else {
        InsertSorted(le, e, t[1..]);
        forall y | y in Insert(le, e, t[1..]) ensures le(t[0], y) {
          InsertMember(le, e, t[1..], y);
        }
        ConsSorted(le, t[0], Insert(le, e, t[1..]));
      }
    }
  }

  lemma ClassCons<T>(le: (T, T) -> bool, x: T, y: T, t: seq<T>)
    ensures Class(le, x, [y] + t) == (if le(x, y) && le(y, x) then [y] else []) + Class(le, x, t)
  {
    assert ([y] + t)[1..] == t;
  }

  lemma TiesTie<T>(le: (T, T) -> bool, x: T, e: T, y: T, all: seq<T>)
    requires TotalPreorder(le, all) && x in all && e in all && y in all
    requires le(x, e) && le(e, x) && le(x, y) && le(y, x)
    ensures le(e, y)
  {
  }

  /** An inserted element comes before those equivalent to it. */
  lemma {:induction false} InsertClass<T>(le: (T, T) -> bool, x: T, e: T, t: seq<T>)
    requires TotalPreorder(le, [x, e] + t)
    ensures Class(le, x, Insert(le, e, t)) == Class(le, x, [e] + t)
  {
    hide Class, TotalPreorder;
    if t == [] {
      assert [e] + t == [e];
    } else if !le(e, t[0]) {
      var rest := t[1..];
      OrderOnPart(le, [x, e] + t, [x, e] + rest);
      InsertClass(le, x, e, rest);
      ClassCons(le, x, t[0], Insert(le, e, rest));
      ClassCons(le, x, e, rest);
      ClassCons(le, x, e, t);
      ClassCons(le, x, t[0], rest);
      assert [t[0]] + rest == t;
      if le(x, e) && le(e, x) && le(x, t[0]) && le(t[0], x) {
        TiesTie(le, x, e, t[0], [x, e] + t);
      }
    }
  }

  /** Equivalent elements have the same class. */
  lemma {:induction false} SameClass<T>(le: (T, T) -> bool, x: T, y: T, s: seq<T>)
    requires TotalPreorder(le, [x, y] + s) && le(x, y) && le(y, x)
    ensures Class(le, x, s) == Class(le, y, s)
  {
    if s != [] {
      assert x in [x, y] + s && y in [x, y] + s && s[0] in [x, y] + s;
      SameClass(le, x, y, s[1..]);
    }
  }

  /** A stable sort keeps the class of every element, also of one that does not occur. */
  lemma AnyClass<T>(le: (T, T) -> bool, x: T, s: seq<T>, t: seq<T>)
    requires TotalPreorder(le, [x] + s) && StableSortOf(le, s, t)
    ensures Class(le, x, t) == Class(le, x, s)
  {
    SameElements(t, s);
    if y :| y in s && le(x, y) && le(y, x) {
      SameClass(le, x, y, s);
      SameClass(le, x, y, t);
    } else {
      ClassEmpty(le, x, s);
      ClassEmpty(le, x, t);
    }
  }

  /** Insertion sort is a stable sort. */
  lemma {:induction false} InsertionSortStable<T>(le: (T, T) -> bool, s: seq<T>)
    requires TotalPreorder(le, s)
    ensures StableSortOf(le, s, InsertionSort(le, s))
  {
    hide *;
    if s == [] {
      NothingSorted(le);
    } else {
      var e, rest := s[0], InsertionSort(le, s[1..]);
      OrderOnPart(le, s, s[1..]);
      InsertionSortStable(le, s[1..]);
      assert [e] + s[1..] == s;
      InsertedStable(le, e, s[1..], rest);
      NextInserted(le, s);
    }
  }

  lemma NothingSorted<T>(le: (T, T) -> bool)
    ensures InsertionSort(le, []) == [] && StableSortOf(le, [], [])
  {
  }

  lemma NextInserted<T>(le: (T, T) -> bool, s: seq<T>)
    requires s != []
    ensures InsertionSort(le, s) == Insert(le, s[0], InsertionSort(le, s[1..]))
  {
  }

  lemma InsertedStable<T>(le: (T, T) -> bool, e: T, s: seq<T>, t: seq<T>)
    requires TotalPreorder(le, [e] + s) && StableSortOf(le, s, t)
    ensures StableSortOf(le, [e] + s, Insert(le, e, t))
  {
    hide Insert, TotalPreorder, Class;
    SameElements(t, s);
    OrderOnPart(le, [e] + s, [e] + t);
    InsertSorted(le, e, t);
    InsertContents(le, e, t);
    forall x | x in [e] + s ensures Class(le, x, Insert(le, e, t)) == Class(le, x, [e] + s) {
      OrderOnPart(le, [e] + s, [x] + s);
      OrderOnPart(le, [e] + s, [x, e] + t);
      InsertClass(le, x, e, t);
      AnyClass(le, x, s, t);
      ClassCons(le, x, e, t);
      ClassCons(le, x, e, s);
    }
  }
}
