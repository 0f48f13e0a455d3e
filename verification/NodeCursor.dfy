/** The cursor kept in the `visited` marks of a list of AST nodes (src/nodes.c). The grammar builds lists by
    left recursion, so the head is the newest node and children are handed out from the far end. */
module NodeCursor {

  class Node {
    const e1: Node?
    const e2: Node?
    var visited: bool

    /** node_new */
    constructor (e1: Node?, e2: Node?)
      ensures this.e1 == e1 && this.e2 == e2 && !visited
    {
      this.e1, this.e2, visited := e1, e2, false;
    }
  }

  /** `chain` is the list from its head along e2. */
  ghost predicate IsChain(chain: seq<Node>) {
    |chain| > 0 && chain[|chain| - 1].e2 == null && forall i :: 0 <= i < |chain| - 1 ==> chain[i].e2 == chain[i + 1]
  }

  /** The cursor stands before the child of `chain[left - 1]`: the visited nodes are the tail from `left` on. */
  ghost predicate CursorAt(chain: seq<Node>, left: int)
    reads chain
  {
    0 <= left <= |chain| && forall i :: 0 <= i < |chain| ==> (chain[i].visited <==> left <= i)
  }

  /** The children as they stand in the source text: oldest first. */
  ghost function Children(chain: seq<Node>): (cs: seq<Node?>)
    ensures |cs| == |chain| && forall i :: 0 <= i < |cs| ==> cs[i] == chain[|chain| - 1 - i].e1
  {
    seq(|chain|, i requires 0 <= i < |chain| => chain[|chain| - 1 - i].e1)
  }

  /** The first node without a child, where node_rewind gives up. */
  ghost function FirstEmpty(chain: seq<Node>): (m: nat)
    ensures m <= |chain|
    ensures forall i :: 0 <= i < m ==> chain[i].e1 != null
    ensures m < |chain| ==> chain[m].e1 == null
  {
    if chain == [] || chain[0].e1 == null then 0 else 1 + FirstEmpty(chain[1..])
  }

  /** A list ends, so it holds no node twice. */
  lemma {:induction false} NoNodeTwice(chain: seq<Node>, i: nat, j: nat)
    requires IsChain(chain) && i < j < |chain|
    ensures chain[i] != chain[j]
    decreases |chain| - j
  {
    assert chain[i].e2 == chain[i + 1];
    if j < |chain| - 1 {
      assert chain[j].e2 == chain[j + 1];
      NoNodeTwice(chain, i + 1, j + 1);
    }
  }

  lemma AllDistinct(chain: seq<Node>)
    requires IsChain(chain)
    ensures forall i, j :: 0 <= i < j < |chain| ==> chain[i] != chain[j]
  {
    forall i, j | 0 <= i < j < |chain| ensures chain[i] != chain[j] {
      NoNodeTwice(chain, i, j);
    }
  }

  /** The grammar's action for one more element: a new head in front of the list so far. */
  method Extend(child: Node?, list: Node?, ghost chain: seq<Node>) returns (head: Node)
    requires if list == null then chain == [] else IsChain(chain) && chain[0] == list
    requires CursorAt(chain, |chain|)
    ensures fresh(head) && IsChain([head] + chain) && CursorAt([head] + chain, |chain| + 1)
    ensures Children([head] + chain) == Children(chain) + [child]
  {
    head := new Node(child, list);
  }

  /** node_pop */
  method NodePop(node: Node, ghost chain: seq<Node>, ghost left: nat) returns (child: Node?)
    requires IsChain(chain) && chain[0] == node && CursorAt(chain, left)
    modifies chain
    ensures child == chain[if left == 0 then 0 else left - 1].e1
    ensures CursorAt(chain, if left == 0 then 0 else left - 1)
    decreases |chain|
  {
    AllDistinct(chain);
    if node.e2 != null && !node.e2.visited {
      ghost var rest := chain[1..];
      assert rest[0] == chain[1] && forall i :: 0 <= i < |rest| ==> rest[i] == chain[i + 1];
      child := NodePop(node.e2, rest, left - 1);
      return;
    }
    assert |chain| > 1 ==> chain[1] == node.e2;
    node.visited := true;
    return node.e1;
  }

  /** Where the cursor stands after node_rewind: at the start, unless a node without a child is in the way. */
  ghost function Rewound(chain: seq<Node>, left: nat): nat {
    var m := FirstEmpty(chain);
    if m == |chain| then |chain| else if left < m then m else left
  }

  /** node_rewind */
  method NodeRewind(node: Node, ghost chain: seq<Node>, ghost left: nat)
    requires IsChain(chain) && chain[0] == node && CursorAt(chain, left)
    modifies chain
    ensures CursorAt(chain, Rewound(chain, left))
    decreases |chain|
  {
    AllDistinct(chain);
    if node.e1 == null {
      return;
    }
    node.visited := false;
    ghost var rest := chain[1..];
    assert FirstEmpty(chain) == 1 + FirstEmpty(rest);
    assert |chain| > 1 ==> chain[0].e2 == chain[1];
    assert forall i :: 0 <= i < |rest| ==> rest[i] == chain[i + 1];
    if node.e2 != null {
      assert rest[0] == chain[1];
      NodeRewind(node.e2, rest, if left == 0 then 0 else left - 1);
    }
  }

  /** node_rewind brings the cursor back to the start if and only if nothing was read or every node has a child. */
  lemma RewoundIff(chain: seq<Node>, left: nat)
    requires left <= |chain|
    ensures Rewound(chain, left) == |chain| <==> left == |chain| || forall i :: 0 <= i < |chain| ==> chain[i].e1 != null
  {
    var m := FirstEmpty(chain);
    if m < |chain| {
      assert chain[m].e1 == null;
    }
  }

  ghost function ChildCount(chain: seq<Node>): nat {
    if chain == [] then 0 else (if chain[0].e1 != null then 1 else 0) + ChildCount(chain[1..])
  }

  lemma {:induction false} CountSnoc(chain: seq<Node>, node: Node)
    ensures ChildCount(chain + [node]) == ChildCount(chain) + if node.e1 != null then 1 else 0
  {
    if chain == [] {
      assert chain + [node] == [node] && [node][1..] == [];
    } else {
      assert (chain + [node])[1..] == chain[1..] + [node];
      CountSnoc(chain[1..], node);
    }
  }

  /** Exactly the nodes with a child are counted. */
  lemma {:induction false} CountIsCardinality(chain: seq<Node>)
    ensures ChildCount(chain) == |set i | 0 <= i < |chain| && chain[i].e1 != null|
  {
    var full := set i | 0 <= i < |chain| && chain[i].e1 != null;
    if chain == [] {
      assert full == {};
    } else {
      var n := |chain| - 1;
      var front := chain[..n];
      var before := set i | 0 <= i < |front| && front[i].e1 != null;
      CountIsCardinality(front);
      CountSnoc(front, chain[n]);
      assert front + [chain[n]] == chain;
      assert full == before + if chain[n].e1 != null then {n} else {};
    }
  }

  /** node_count */
  method NodeCount(node: Node?, ghost chain: seq<Node>) returns (count: nat)
    requires if node == null then chain == [] else IsChain(chain) && chain[0] == node
    ensures count == ChildCount(chain) == |set i | 0 <= i < |chain| && chain[i].e1 != null|
  {
    CountIsCardinality(chain);
    count := 0;
    var head := node;
    ghost var rest := chain;
    while head != null
      invariant if head == null then rest == [] else IsChain(rest) && rest[0] == head
      invariant count + ChildCount(rest) == ChildCount(chain)
      decreases |rest|
    {
      if head.e1 != null {
        count := count + 1;
      }
      assert |rest| > 1 ==> rest[1..][0] == head.e2;
      head := head.e2;
      rest := rest[1..];
    }
  }

  /** On a list of which every node has a child, node_count is its length. */
  lemma {:induction false} CountOfFullList(chain: seq<Node>)
    requires forall i :: 0 <= i < |chain| ==> chain[i].e1 != null
    ensures ChildCount(chain) == |chain|
  {
    if chain != [] {
      CountOfFullList(chain[1..]);
    }
  }

  lemma HeadVisited(chain: seq<Node>, left: nat)
    requires IsChain(chain) && CursorAt(chain, left)
    ensures chain != [] && left <= |chain| && (chain[0].visited <==> left == 0)
  {
  }

  lemma NextChild(chain: seq<Node>, left: nat)
    requires 0 < left <= |chain|
    ensures Children(chain)[|chain| - left..] == [chain[left - 1].e1] + Children(chain)[|chain| - (left - 1)..]
  {
  }

  /** The loop of every list evaluation: the remaining children come in source order, and the head is marked
      exactly when the last of them has been handed out. */
  method PopAll(node: Node, ghost chain: seq<Node>, ghost left: nat) returns (order: seq<Node?>)
    requires IsChain(chain) && chain[0] == node && CursorAt(chain, left)
    modifies chain
    ensures order == Children(chain)[|chain| - left..]
    ensures CursorAt(chain, 0)
  {
    hide *;
    order := [];
    ghost var now: nat := left;
    HeadVisited(chain, now);
    while !node.visited
      invariant now <= |chain| && CursorAt(chain, now) && (node.visited <==> now == 0)
      invariant order + Children(chain)[|chain| - now..] == Children(chain)[|chain| - left..]
      decreases now
    {
      NextChild(chain, now);
      var child := NodePop(node, chain, now);
      order := order + [child];
      now := now - 1;
      HeadVisited(chain, now);
    }
  }

  /** What the children do while a list is evaluated; they are numbered in source order, and those past the
      end do nothing to the list. */
  datatype Visit = Visit(children: seq<Child>)

  /** The evaluations of the same list that the evaluation of one child leads to, one after the other. */
  datatype Child = Child(inner: seq<Visit>)

  predicate ComesBack(visit: Visit, i: nat) {
    i < |visit.children| && visit.children[i].inner != []
  }

  /** How many of `n` children are evaluated, from child `i` on: up to the first that comes back to the list. */
  function Evaluated(n: nat, visit: Visit, i: nat): (k: nat)
    requires i <= n
    ensures i <= k <= n
    ensures forall j :: i <= j < k - 1 ==> !ComesBack(visit, j)
    ensures k < n ==> k > i && ComesBack(visit, k - 1)
    decreases n - i
  {
    if i == n then n else if ComesBack(visit, i) then i + 1 else Evaluated(n, visit, i + 1)
  }

  /** eval_each, from wherever an earlier evaluation stopped. A child whose evaluation comes to the same list
      again (a recursive call), to any depth, leaves all nodes visited, which ends the loop. */
  method EvalEach(node: Node, visit: Visit, ghost chain: seq<Node>, ghost left: nat) returns (order: seq<Node?>)
    requires IsChain(chain) && chain[0] == node && CursorAt(chain, left)
    requires forall i :: 0 <= i < |chain| ==> chain[i].e1 != null
    modifies chain
    ensures order == Children(chain)[..Evaluated(|chain|, visit, 0)] && CursorAt(chain, 0)
    decreases visit
  {
    hide *;
    HeadVisited(chain, left);
    RewoundIff(chain, left);
    NodeRewind(node, chain, left);
    order := [];
    ghost var now: nat := |chain|;
    HeadVisited(chain, now);
    NoneEvaluated(|chain|, visit);
    while !node.visited
      invariant now <= |chain| && CursorAt(chain, now) && (node.visited <==> now == 0)
      invariant |order| <= |chain| && order == Children(chain)[..|order|]
      invariant now > 0 ==> now == |chain| - |order| && Evaluated(|chain|, visit, 0) == Evaluated(|chain|, visit, |order|)
      invariant now == 0 ==> |order| == Evaluated(|chain|, visit, 0)
      decreases now
    {
      ChildAt(chain, |order|);
      OneEvaluated(|chain|, visit, |order|);
      var child := NodePop(node, chain, now);
      now := now - 1;
      HeadVisited(chain, now);
      if |order| < |visit.children| {
        now := EvalChild(node, visit.children[|order|], chain, now);
      }
      ChildComesBack(visit, |order|);
      order := order + [child];
      HeadVisited(chain, now);
    }
  }

  /** The evaluation of a child: the list is evaluated again as often as the child comes back to it. */
  method EvalChild(node: Node, child: Child, ghost chain: seq<Node>, ghost left: nat) returns (ghost now: nat)
    requires IsChain(chain) && chain[0] == node && CursorAt(chain, left)
    requires forall i :: 0 <= i < |chain| ==> chain[i].e1 != null
    modifies chain
    ensures CursorAt(chain, now) && now == if child.inner != [] then 0 else left
    decreases child
  {
    now := left;
    for j := 0 to |child.inner|
      invariant CursorAt(chain, now) && now == if j == 0 then left else 0
    {
      var order := EvalEach(node, child.inner[j], chain, now);
      now := 0;
    }
  }

  lemma ChildComesBack(visit: Visit, i: nat)
    ensures ComesBack(visit, i) <==> i < |visit.children| && visit.children[i].inner != []
  {
  }

  lemma NoneEvaluated(n: nat, visit: Visit)
    ensures Evaluated(n, visit, n) == n
  {
  }

  lemma OneEvaluated(n: nat, visit: Visit, i: nat)
    requires i < n
    ensures Evaluated(n, visit, i) == if ComesBack(visit, i) then i + 1 else Evaluated(n, visit, i + 1)
    ensures i + 1 == n ==> Evaluated(n, visit, i) == n
  {
  }

  lemma ChildAt(chain: seq<Node>, i: nat)
    requires i < |chain|
    ensures Children(chain)[..i + 1] == Children(chain)[..i] + [chain[|chain| - 1 - i].e1]
  {
  }

  /** eval_each evaluates every child if and only if no child but the last comes back to the list. */
  lemma EvalEachAllIff(n: nat, visit: Visit)
    ensures Evaluated(n, visit, 0) == n <==> forall i :: 0 <= i < n - 1 ==> !ComesBack(visit, i)
  {
    var k := Evaluated(n, visit, 0);
    if k < n {
      assert 0 <= k - 1 < n - 1 && ComesBack(visit, k - 1);
    }
  }

  /** The first child of a list of two comes back to it once: the second child is never evaluated. */
  method SecondChildLost(first: Node, second: Node) returns (order: seq<Node?>)
    ensures order == [first]
  {
    var older := new Node(first, null);
    var head := new Node(second, older);
    ghost var chain := [head, older];
    order := EvalEach(head, Visit([Child([Visit([])])]), chain, 2);
    assert Children(chain)[..1] == [first];
  }

  /** func_dec_scan: it reads the rest of the list and leaves the cursor at the start again. */
  method FuncDecScan(node: Node, ghost chain: seq<Node>, ghost left: nat) returns (order: seq<Node?>)
    requires IsChain(chain) && chain[0] == node && CursorAt(chain, left)
    requires forall i :: 0 <= i < |chain| ==> chain[i].e1 != null
    modifies chain
    ensures order == Children(chain)[|chain| - left..] && CursorAt(chain, |chain|)
  {
    order := PopAll(node, chain, left);
    RewoundIff(chain, 0);
    NodeRewind(node, chain, 0);
  }

  /** build_args: one call for each remaining argument, and every one of them rewinds the list on its way out.
      The empty argument list is a node without a child, which reads as no arguments at all. */
  method BuildArgs(node: Node, ghost chain: seq<Node>, ghost left: nat) returns (args: seq<Node?>)
    requires IsChain(chain) && chain[0] == node && CursorAt(chain, left)
    requires node.e1 != null ==> forall i :: 0 <= i < |chain| ==> chain[i].e1 != null
    modifies chain
    ensures node.e1 == null ==> args == [] && CursorAt(chain, left)
    ensures node.e1 != null ==> args == Children(chain)[|chain| - left..] && CursorAt(chain, |chain|)
    decreases left
  {
    hide *;
    args := [];
    if node.e1 == null {
      return;
    }
    ghost var now: nat := left;
    HeadVisited(chain, left);
    if !node.visited {
      var arg := NodePop(node, chain, left);
      now := left - 1;
      var rest := [];
      NextChild(chain, left);
      HeadVisited(chain, now);
      if !node.visited {
        rest := BuildArgs(node, chain, left - 1);
        now := |chain|;
      }
      args := [arg] + rest;
    }
    RewoundIff(chain, now);
    NodeRewind(node, chain, now);
  }
}
