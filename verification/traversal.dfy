/**
 * The two stack-driven walks of `QuadTree`: `visit` (pre-order, the
 * callback's truthy answer prunes the subtree below a node) and
 * `visit_after` (every node after all of its descendants).
 *
 * A callback's answer depends only on the node it is given (the forces
 * compute it from the node and from values fixed for the whole walk), so
 * it is modelled as a function `prune`; what a callback does to the
 * simulation is a fold of the force over the order computed here.
 */
module Traversal {
  import opened QuadTree

  /** The order `visit` calls its callback in: the node, then (unless pruned) each child's walk in NW, NE, SW, SE order. */
  function PreOrder<D>(t: Tree<D>, prune: Tree<D> -> bool): seq<Tree<D>> {
    [t] +
    if prune(t) then []
    else match t.kids
      case NoKids => []
      case Four(a, b, c, d) => PreOrder(a, prune) + PreOrder(b, prune) + PreOrder(c, prune) + PreOrder(d, prune)
  }

  /** Every node of the tree, each after all of its descendants; children in NW, NE, SW, SE order. */
  function PostOrder<D>(t: Tree<D>): seq<Tree<D>> {
    (match t.kids
     case NoKids => []
     case Four(a, b, c, d) => PostOrder(a) + PostOrder(b) + PostOrder(c) + PostOrder(d))
    + [t]
  }

  /** The number of nodes of the tree. */
  function Size<D>(t: Tree<D>): nat {
    1 + match t.kids
        case NoKids => 0
        case Four(a, b, c, d) => Size(a) + Size(b) + Size(c) + Size(d)
  }

  /** The walks still owed for a stack whose top is its last element. */
  function Pending<D>(stack: seq<Tree<D>>, prune: Tree<D> -> bool): seq<Tree<D>> {
    if stack == [] then []
    else PreOrder(stack[|stack| - 1], prune) + Pending(stack[..|stack| - 1], prune)
  }

  lemma PendingSnoc<D>(rest: seq<Tree<D>>, n: Tree<D>, prune: Tree<D> -> bool)
    ensures Pending(rest + [n], prune) == PreOrder(n, prune) + Pending(rest, prune)
  {
    assert (rest + [n])[..|rest|] == rest;
  }

  lemma Regroup<T>(a: seq<T>, b: seq<T>, c: seq<T>, d: seq<T>, e: seq<T>)
    ensures a + (b + (c + (d + e))) == a + b + c + d + e
  {
  }

  lemma PendingPush<D>(rest: seq<Tree<D>>, n: Tree<D>, prune: Tree<D> -> bool)
    requires n.kids.Four?
    ensures Pending(rest + [n.kids.se, n.kids.sw, n.kids.ne, n.kids.nw], prune)
         == PreOrder(n.kids.nw, prune) + PreOrder(n.kids.ne, prune)
          + PreOrder(n.kids.sw, prune) + PreOrder(n.kids.se, prune) + Pending(rest, prune)
  {
    var k := n.kids;
    var s1 := rest + [k.se];
    var s2 := s1 + [k.sw];
    var s3 := s2 + [k.ne];
    var s4 := s3 + [k.nw];
    assert s4 == rest + [k.se, k.sw, k.ne, k.nw];
    PendingSnoc(rest, k.se, prune);
    PendingSnoc(s1, k.sw, prune);
    PendingSnoc(s2, k.ne, prune);
    PendingSnoc(s3, k.nw, prune);
    Regroup(PreOrder(k.nw, prune), PreOrder(k.ne, prune), PreOrder(k.sw, prune), PreOrder(k.se, prune), Pending(rest, prune));
  }

  /** The stack after popping `n` off `rest + [n]` and pushing its children unless pruned. */
  function AfterPop<D>(rest: seq<Tree<D>>, n: Tree<D>, prune: Tree<D> -> bool): seq<Tree<D>> {
    if !prune(n) && n.kids.Four? then rest + [n.kids.se, n.kids.sw, n.kids.ne, n.kids.nw] else rest
  }

  /** One step of the walk owes exactly the popped node less than before. */
  lemma PendingPop<D>(stack: seq<Tree<D>>, prune: Tree<D> -> bool)
    requires stack != []
    ensures Pending(stack, prune)
         == [stack[|stack| - 1]] + Pending(AfterPop(stack[..|stack| - 1], stack[|stack| - 1], prune), prune)
  {
    var n, rest := stack[|stack| - 1], stack[..|stack| - 1];
    if !prune(n) && n.kids.Four? {
      PendingPush(rest, n, prune);
    }
  }

  /**
   * `QuadTree.visit`: a stack seeded with the root; each popped node is
   * handed to the callback and, unless the callback prunes it, its
   * children are pushed in reverse so that NW is popped first. The result
   * is the sequence of callback calls, which is the pruned pre-order.
   */
  method Visit<D>(t: Tree<D>, prune: Tree<D> -> bool) returns (calls: seq<Tree<D>>)
    ensures calls == PreOrder(t, prune)
  {
    var stack := [t];
    calls := [];
    assert Pending(stack, prune) == PreOrder(t, prune);
    while stack != []
      invariant calls + Pending(stack, prune) == PreOrder(t, prune)
      decreases |Pending(stack, prune)|
    {
      var n := stack[|stack| - 1];
      var rest := stack[..|stack| - 1];
      PendingPop(stack, prune);
      calls := calls + [n];
      if !prune(n) && n.kids.Four? {
        stack := rest + [n.kids.se, n.kids.sw, n.kids.ne, n.kids.nw];
      } else {
        stack := rest;
      }
      assert stack == AfterPop(rest, n, prune);
    }
  }

  /** The order in which `visit_after` collects nodes: children pushed NW first, so SE is popped first. */
  function PreRev<D>(t: Tree<D>): seq<Tree<D>> {
    [t] +
    match t.kids
    case NoKids => []
    case Four(a, b, c, d) => PreRev(d) + PreRev(c) + PreRev(b) + PreRev(a)
  }

  function PendingRev<D>(stack: seq<Tree<D>>): seq<Tree<D>> {
    if stack == [] then []
    else PreRev(stack[|stack| - 1]) + PendingRev(stack[..|stack| - 1])
  }

  lemma PendingRevSnoc<D>(rest: seq<Tree<D>>, n: Tree<D>)
    ensures PendingRev(rest + [n]) == PreRev(n) + PendingRev(rest)
  {
    assert (rest + [n])[..|rest|] == rest;
  }

  /** The stack after `visit_after` pops `n`: its children pushed NW, NE, SW, SE. */
  function AfterPopRev<D>(rest: seq<Tree<D>>, n: Tree<D>): seq<Tree<D>> {
    if n.kids.Four? then rest + [n.kids.nw, n.kids.ne, n.kids.sw, n.kids.se] else rest
  }

  lemma PendingRevPush<D>(rest: seq<Tree<D>>, n: Tree<D>)
    requires n.kids.Four?
    ensures PendingRev(rest + [n.kids.nw, n.kids.ne, n.kids.sw, n.kids.se])
         == PreRev(n.kids.se) + PreRev(n.kids.sw) + PreRev(n.kids.ne) + PreRev(n.kids.nw) + PendingRev(rest)
  {
    var k := n.kids;
    var s1 := rest + [k.nw];
    var s2 := s1 + [k.ne];
    var s3 := s2 + [k.sw];
    var s4 := s3 + [k.se];
    assert s4 == rest + [k.nw, k.ne, k.sw, k.se];
    PendingRevSnoc(rest, k.nw);
    PendingRevSnoc(s1, k.ne);
    PendingRevSnoc(s2, k.sw);
    PendingRevSnoc(s3, k.se);
    Regroup(PreRev(k.se), PreRev(k.sw), PreRev(k.ne), PreRev(k.nw), PendingRev(rest));
  }

  lemma PendingRevPop<D>(stack: seq<Tree<D>>)
    requires stack != []
    ensures PendingRev(stack)
         == [stack[|stack| - 1]] + PendingRev(AfterPopRev(stack[..|stack| - 1], stack[|stack| - 1]))
  {
    var n, rest := stack[|stack| - 1], stack[..|stack| - 1];
    assert PendingRev(stack) == PreRev(n) + PendingRev(rest);
    match n.kids
    case NoKids =>
      assert PreRev(n) == [n];
    case Four(nw, ne, sw, se) =>
      var below := PreRev(se) + PreRev(sw) + PreRev(ne) + PreRev(nw);
      assert PendingRev(AfterPopRev(rest, n)) == below + PendingRev(rest) by {
        PendingRevPush(rest, n);
      }
      assert PreRev(n) == [n] + below;
      Assoc([n], below, PendingRev(rest));
  }

  lemma Assoc<T>(a: seq<T>, b: seq<T>, c: seq<T>)
    ensures (a + b) + c == a + (b + c)
  {
  }

  function Reverse<T>(s: seq<T>): (r: seq<T>)
    ensures |r| == |s|
  {
    if s == [] then [] else Reverse(s[1..]) + [s[0]]
  }

  lemma {:induction false} ReverseConcat<T>(a: seq<T>, b: seq<T>)
    ensures Reverse(a + b) == Reverse(b) + Reverse(a)
  {
    if a == [] {
      assert a + b == b;
    } else {
      assert (a + b)[1..] == a[1..] + b;
      ReverseConcat(a[1..], b);
    }
  }

  /** Reversing the collection order gives the post-order. */
  lemma {:induction false} ReversePreRev<D>(t: Tree<D>)
    ensures Reverse(PreRev(t)) == PostOrder(t)
  {
    match t.kids
    case NoKids =>
      assert PreRev(t) == [t];
    case Four(a, b, c, d) =>
      ReversePreRev(a);
      ReversePreRev(b);
      ReversePreRev(c);
      ReversePreRev(d);
      var below := PreRev(d) + PreRev(c) + PreRev(b) + PreRev(a);
      ReverseConcat([t], below);
      ReverseConcat(PreRev(d) + PreRev(c) + PreRev(b), PreRev(a));
      ReverseConcat(PreRev(d) + PreRev(c), PreRev(b));
      ReverseConcat(PreRev(d), PreRev(c));
      assert Reverse([t]) == [t];
  }

  /**
   * `QuadTree.visit_after`: a first pass pops nodes from a stack, pushes
   * their children NW, NE, SW, SE and collects the node; the callback is
   * then called on the collected nodes in reverse. The result is the
   * sequence of callback calls, which is the post-order.
   */
  method VisitAfter<D>(t: Tree<D>) returns (calls: seq<Tree<D>>)
    ensures calls == PostOrder(t)
  {
    var stack := [t];
    var acc := [];
    assert PendingRev(stack) == PreRev(t) by {
      PendingRevSnoc([], t);
      assert [] + [t] == stack;
    }
    while stack != []
      invariant acc + PendingRev(stack) == PreRev(t)
      decreases |PendingRev(stack)|
    {
      var n := stack[|stack| - 1];
      var rest := stack[..|stack| - 1];
      PendingRevPop(stack);
      if n.kids.Four? {
        stack := rest + [n.kids.nw, n.kids.ne, n.kids.sw, n.kids.se];
      } else {
        stack := rest;
      }
      assert stack == AfterPopRev(rest, n);
      acc := acc + [n];
    }
    assert acc == acc + PendingRev(stack);
    ReversePreRev(t);
    calls := Reverse(acc);
  }

  /** The callback prunes at no node of the tree. */
  predicate NeverPrunes<D>(t: Tree<D>, prune: Tree<D> -> bool) {
    && !prune(t)
    && match t.kids
       case NoKids => true
       case Four(a, b, c, d) => NeverPrunes(a, prune) && NeverPrunes(b, prune) && NeverPrunes(c, prune) && NeverPrunes(d, prune)
  }

  /** A walk whose callback never prunes calls every node exactly once, as the post-order does, in a different order. */
  lemma WalksAgree<D>(t: Tree<D>, prune: Tree<D> -> bool)
    requires NeverPrunes(t, prune)
    ensures multiset(PreOrder(t, prune)) == multiset(PostOrder(t))
  {
    PrunedCallsAreNodes(t, prune);
    UnprunedCallsAll(t, prune);
  }

  lemma {:induction false} UnprunedCallsAll<D>(t: Tree<D>, prune: Tree<D> -> bool)
    requires NeverPrunes(t, prune)
    ensures multiset(PostOrder(t)) <= multiset(PreOrder(t, prune))
  {
    match t.kids
    case NoKids =>
    case Four(a, b, c, d) =>
      UnprunedCallsAll(a, prune);
      UnprunedCallsAll(b, prune);
      UnprunedCallsAll(c, prune);
      UnprunedCallsAll(d, prune);
      PostOrderBag(t);
      PreOrderBag(t, prune);
  }

  lemma PostOrderBag<D>(t: Tree<D>)
    requires t.kids.Four?
    ensures multiset(PostOrder(t))
         == multiset(PostOrder(t.kids.nw)) + multiset(PostOrder(t.kids.ne))
          + multiset(PostOrder(t.kids.sw)) + multiset(PostOrder(t.kids.se)) + multiset{t}
  {
  }

  lemma PreOrderBag<D>(t: Tree<D>, prune: Tree<D> -> bool)
    requires t.kids.Four? && !prune(t)
    ensures multiset(PreOrder(t, prune))
         == multiset{t} + multiset(PreOrder(t.kids.nw, prune)) + multiset(PreOrder(t.kids.ne, prune))
          + multiset(PreOrder(t.kids.sw, prune)) + multiset(PreOrder(t.kids.se, prune))
  {
  }

  /** `visit_after` calls each node once: its calls are as many as the tree has nodes. */
  lemma {:induction false} PostOrderSize<D>(t: Tree<D>)
    ensures |PostOrder(t)| == Size(t)
  {
    match t.kids
    case NoKids =>
    case Four(a, b, c, d) =>
      PostOrderSize(a);
      PostOrderSize(b);
      PostOrderSize(c);
      PostOrderSize(d);
  }

  /** Pruning only removes calls: the pruned walk is no longer than the tree. */
  lemma {:induction false} PruningShortens<D>(t: Tree<D>, prune: Tree<D> -> bool)
    ensures |PreOrder(t, prune)| <= Size(t)
  {
    match t.kids
    case NoKids =>
    case Four(a, b, c, d) =>
      PruningShortens(a, prune);
      PruningShortens(b, prune);
      PruningShortens(c, prune);
      PruningShortens(d, prune);
  }

  /** Every call of a pruned walk is a distinct node of the tree: its calls form a sub-bag of all nodes. */
  lemma {:induction false} PrunedCallsAreNodes<D>(t: Tree<D>, prune: Tree<D> -> bool)
    ensures multiset(PreOrder(t, prune)) <= multiset(PostOrder(t))
  {
    match t.kids
    case NoKids =>
    case Four(a, b, c, d) =>
      PostOrderBag(t);
      if !prune(t) {
        PrunedCallsAreNodes(a, prune);
        PrunedCallsAreNodes(b, prune);
        PrunedCallsAreNodes(c, prune);
        PrunedCallsAreNodes(d, prune);
        PreOrderBag(t, prune);
      }
  }
}
