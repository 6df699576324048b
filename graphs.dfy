/**
 * The part of the directed graph library that the system builder relies on:
 * an append-only edge list, paths and reachability, the depth-first walker
 * `Dfs` (a stack plus a set of discovered nodes) and the reachability query
 * `HasPathConnecting` built on it.
 */
module Graphs {
  import opened Results

  /** Nodes are identified by their position in the node arena. */
  type NodeIndex = nat

  /** A directed edge (from, to). */
  type Edge = (NodeIndex, NodeIndex)

  /** Every edge joins two of the first n nodes. */
  ghost predicate EdgesWithin(edges: seq<Edge>, n: nat) {
    forall k :: 0 <= k < |edges| ==> edges[k].0 < n && edges[k].1 < n
  }

  lemma EdgesWithinGrow(edges: seq<Edge>, n: nat, m: nat)
    requires EdgesWithin(edges, n) && n <= m
    ensures EdgesWithin(edges, m)
  {
  }

  /** Edges within the first n nodes, followed by more of them, stay within. */
  lemma EdgesWithinAppend(edges: seq<Edge>, more: seq<Edge>, n: nat)
    requires EdgesWithin(edges, n) && forall k :: 0 <= k < |more| ==> more[k].0 < n && more[k].1 < n
    ensures EdgesWithin(edges + more, n)
  {
    var all := edges + more;
    forall k | 0 <= k < |all|
      ensures all[k].0 < n && all[k].1 < n
    {
      if k < |edges| {
        assert all[k] == edges[k];
      } else {
        assert all[k] == more[k - |edges|];
      }
    }
  }

  /** p is a non-empty walk along edges; a single node is a walk of length zero. */
  ghost predicate IsPath(edges: seq<Edge>, p: seq<NodeIndex>) {
    |p| > 0 && forall k :: 0 <= k < |p| - 1 ==> (p[k], p[k + 1]) in edges
  }

  /** There is a walk from `from` to `to`; every node reaches itself. */
  ghost predicate Reachable(edges: seq<Edge>, from: NodeIndex, to: NodeIndex) {
    exists p :: IsPath(edges, p) && p[0] == from && p[|p| - 1] == to
  }

  /** No edge leaves the set c. */
  ghost predicate ClosedUnder(edges: seq<Edge>, c: set<NodeIndex>) {
    forall k :: 0 <= k < |edges| && edges[k].0 in c ==> edges[k].1 in c
  }

  lemma ReachableRefl(edges: seq<Edge>, a: NodeIndex)
    ensures Reachable(edges, a, a)
  {
    assert IsPath(edges, [a]);
  }

  lemma ReachableStep(edges: seq<Edge>, a: NodeIndex, b: NodeIndex, c: NodeIndex)
    requires Reachable(edges, a, b) && (b, c) in edges
    ensures Reachable(edges, a, c)
  {
    var p :| IsPath(edges, p) && p[0] == a && p[|p| - 1] == b;
    var q := p + [c];
    forall k | 0 <= k < |q| - 1
      ensures (q[k], q[k + 1]) in edges
    {
      if k < |p| - 1 {
        assert q[k] == p[k] && q[k + 1] == p[k + 1];
      }
    }
    assert IsPath(edges, q) && q[0] == a && q[|q| - 1] == c;
  }

  /** Appending edges never removes a path. */
  lemma ReachableAppend(edges: seq<Edge>, more: seq<Edge>, a: NodeIndex, b: NodeIndex)
    requires Reachable(edges, a, b)
    ensures Reachable(edges + more, a, b)
  {
    var p :| IsPath(edges, p) && p[0] == a && p[|p| - 1] == b;
    forall k | 0 <= k < |p| - 1
      ensures (p[k], p[k + 1]) in edges + more
    {
      assert (p[k], p[k + 1]) in edges;
    }
    assert IsPath(edges + more, p);
  }

  /** Everything reachable from a member of a closed set lies in that set. */
  lemma {:induction false} ClosedContainsReachable(edges: seq<Edge>, c: set<NodeIndex>, a: NodeIndex, b: NodeIndex)
    requires a in c && ClosedUnder(edges, c) && Reachable(edges, a, b)
    ensures b in c
  {
    var p :| IsPath(edges, p) && p[0] == a && p[|p| - 1] == b;
    var i := 0;
    while i < |p| - 1
      invariant 0 <= i < |p| && p[i] in c
    {
      assert (p[i], p[i + 1]) in edges;
      var k :| 0 <= k < |edges| && edges[k] == (p[i], p[i + 1]);
      i := i + 1;
    }
  }

  /** A walk that ends somewhere else than it starts enters its last node along an edge. */
  lemma ReachableEntered(edges: seq<Edge>, a: NodeIndex, v: NodeIndex)
    requires Reachable(edges, a, v) && a != v
    ensures exists k :: 0 <= k < |edges| && edges[k].1 == v
  {
    var p :| IsPath(edges, p) && p[0] == a && p[|p| - 1] == v;
    var last := (p[|p| - 2], p[|p| - 1]);
    assert last in edges;
  }

  /** A node other than a that no edge enters cannot be reached from a. */
  lemma NoIncomingUnreachable(edges: seq<Edge>, a: NodeIndex, v: NodeIndex)
    requires a != v
    requires forall k :: 0 <= k < |edges| ==> edges[k].1 != v
    ensures !Reachable(edges, a, v)
  {
    if Reachable(edges, a, v) {
      ReachableEntered(edges, a, v);
    }
  }

  /** A set of node indices below n has at most n members. */
  lemma {:induction false} BoundedSetSize(s: set<NodeIndex>, n: nat)
    requires forall v :: v in s ==> v < n
    ensures |s| <= n
  {
    if n == 0 {
      assert s == {} by {
        forall v | v in s ensures false { }
      }
    } else {
      BoundedSetSize(s - {n - 1}, n - 1);
    }
  }

  /** A sequence of nodes without repetitions has as many distinct nodes as it is long. */
  lemma {:induction false} DistinctElements(order: seq<NodeIndex>)
    requires forall i, j :: 0 <= i < j < |order| ==> order[i] != order[j]
    ensures |(set i | 0 <= i < |order| :: order[i])| == |order|
  {
    if order != [] {
      var p := order[..|order| - 1];
      DistinctElements(p);
      var last := order[|order| - 1];
      var all := set i | 0 <= i < |order| :: order[i];
      var prev := set i | 0 <= i < |p| :: p[i];
      assert all == prev + {last} by {
        forall v | v in all
          ensures v in prev + {last}
        {
          var i :| 0 <= i < |order| && order[i] == v;
          if i < |p| {
            assert p[i] == v;
          }
        }
      }
      assert last !in prev;
    }
  }

  /** The nodes below n; there are n of them. */
  ghost function Below(n: nat): (r: set<NodeIndex>)
    ensures forall v: NodeIndex :: v in r <==> v < n
    ensures |r| == n
  {
    if n == 0 then {} else Below(n - 1) + {n - 1}
  }

  /** A sequence of distinct nodes below n is at most n long, and exactly n long when it holds them all. */
  lemma DistinctWithin(order: seq<NodeIndex>, n: nat)
    requires forall i, j :: 0 <= i < j < |order| ==> order[i] != order[j]
    requires forall i :: 0 <= i < |order| ==> order[i] < n
    ensures |order| <= n
    ensures (forall v: NodeIndex :: v < n ==> v in order) ==> |order| == n
  {
    var elems := set i | 0 <= i < |order| :: order[i];
    DistinctElements(order);
    BoundedSetSize(elems, n);
    if forall v: NodeIndex :: v < n ==> v in order {
      assert elems == Below(n) by {
        forall v | v in Below(n) ensures v in elems {
          assert v in order;
          var i :| 0 <= i < |order| && order[i] == v;
        }
      }
    }
  }

  /**
   * The invariant of a depth-first walk from `start` over the first n nodes,
   * on the walker's stack, its set of discovered nodes and the ghost record
   * `order` of the nodes it has emitted.
   */
  ghost predicate WalkInv(edges: seq<Edge>, n: nat, start: NodeIndex,
                          stack: seq<NodeIndex>, discovered: set<NodeIndex>, order: seq<NodeIndex>)
  {
    start < n && EdgesWithin(edges, n) &&
    (order == [] ==> stack == [start]) &&
    Emitted(edges, n, start, discovered, order) &&
    Pending(edges, n, start, stack, order) &&
    (forall k :: 0 <= k < |edges| && edges[k].0 in discovered ==>
       edges[k].1 in discovered || edges[k].1 in stack)
  }

  /**
   * The emitted nodes are distinct, below n, `start` comes first and each one after the first is a successor of an earlier
   * one; they are exactly the discovered nodes.
   */
  ghost predicate Emitted(edges: seq<Edge>, n: nat, start: NodeIndex,
                          discovered: set<NodeIndex>, order: seq<NodeIndex>)
  {
    (order != [] ==> order[0] == start) &&
    (forall v :: v in discovered <==> v in order) &&
    |order| == |discovered| && |discovered| <= n &&
    (forall i, j :: 0 <= i < j < |order| ==> order[i] != order[j]) &&
    (forall i :: 0 <= i < |order| ==> order[i] < n) &&
    (forall i :: 0 < i < |order| ==> HasParent(edges, order, i))
  }

  /** The i-th emitted node is a successor of a node emitted before it. */
  ghost predicate HasParent(edges: seq<Edge>, order: seq<NodeIndex>, i: nat)
    requires i < |order|
  {
    exists j :: 0 <= j < i && (order[j], order[i]) in edges
  }

  /** `v` is a successor of some emitted node. */
  ghost predicate Entered(edges: seq<Edge>, order: seq<NodeIndex>, v: NodeIndex) {
    exists j :: 0 <= j < |order| && (order[j], v) in edges
  }

  /** Every node on the stack is below n and, once something was emitted, a successor of an emitted node. */
  ghost predicate Pending(edges: seq<Edge>, n: nat, start: NodeIndex, stack: seq<NodeIndex>, order: seq<NodeIndex>)
  {
    forall i :: 0 <= i < |stack| ==>
      stack[i] < n &&
      (order != [] ==> Entered(edges, order, stack[i]))
  }

  /** Every emitted node is reachable from `start`, through the chain of earlier emitted nodes. */
  lemma {:induction false} EmittedReachable(edges: seq<Edge>, n: nat, start: NodeIndex,
                                            discovered: set<NodeIndex>, order: seq<NodeIndex>, i: nat)
    requires Emitted(edges, n, start, discovered, order) && i < |order|
    ensures Reachable(edges, start, order[i])
    decreases i
  {
    if i == 0 {
      ReachableRefl(edges, start);
    } else {
      assert HasParent(edges, order, i);
      var j :| 0 <= j < i && (order[j], order[i]) in edges;
      EmittedReachable(edges, n, start, discovered, order, j);
      ReachableStep(edges, start, order[j], order[i]);
    }
  }

  /** Popping a node that was already discovered keeps the invariant. */
  lemma PopDiscovered(edges: seq<Edge>, n: nat, start: NodeIndex,
                      stack: seq<NodeIndex>, discovered: set<NodeIndex>, order: seq<NodeIndex>)
    requires WalkInv(edges, n, start, stack, discovered, order)
    requires stack != [] && stack[|stack| - 1] in discovered
    ensures WalkInv(edges, n, start, stack[..|stack| - 1], discovered, order)
  {
    var rest := stack[..|stack| - 1];
    forall v | v in stack
      ensures v == stack[|stack| - 1] || v in rest
    {
      var i :| 0 <= i < |stack| && stack[i] == v;
      if i < |rest| {
        assert rest[i] == v;
      }
    }
    assert Pending(edges, n, start, rest, order) by {
      forall i | 0 <= i < |rest|
        ensures rest[i] < n
        ensures order != [] ==> Entered(edges, order, rest[i])
      {
        assert rest[i] == stack[i];
      }
    }
  }

  /** Emitting `node`, the undiscovered top of the stack, keeps what is said about the emitted nodes. */
  lemma EmitKeepsEmitted(edges: seq<Edge>, n: nat, start: NodeIndex,
                         stack: seq<NodeIndex>, discovered: set<NodeIndex>, order: seq<NodeIndex>, node: NodeIndex)
    requires Emitted(edges, n, start, discovered, order) && Pending(edges, n, start, stack, order)
    requires order == [] ==> stack == [start]
    requires stack != [] && node == stack[|stack| - 1] && node !in discovered
    ensures Emitted(edges, n, start, discovered + {node}, order + [node])
  {
    var order' := order + [node];
    var discovered' := discovered + {node};
    assert node < n;
    EmitParent(edges, n, start, stack, discovered, order, node, order');
    forall v | v in discovered'
      ensures v < n
    {
      if v != node {
        var i :| 0 <= i < |order| && order[i] == v;
      }
    }
    BoundedSetSize(discovered', n);
    forall v
      ensures v in discovered' <==> v in order'
    {
      assert v in order' <==> v in order || v == node;
    }
    forall i, j | 0 <= i < j < |order'|
      ensures order'[i] != order'[j]
    {
      if j < |order| {
        assert order'[i] == order[i] && order'[j] == order[j];
      } else {
        assert order'[i] == order[i] && order[i] in discovered;
      }
    }
  }

  /** The nodes left on the stack after the top is emitted stay successors of emitted nodes. */
  lemma EmitKeepsPending(edges: seq<Edge>, n: nat, start: NodeIndex, stack: seq<NodeIndex>, order: seq<NodeIndex>, node: NodeIndex)
    requires Pending(edges, n, start, stack, order)
    requires order == [] ==> stack == [start]
    requires stack != []
    ensures Pending(edges, n, start, stack[..|stack| - 1], order + [node])
  {
    var order' := order + [node];
    var rest := stack[..|stack| - 1];
    forall i | 0 <= i < |rest|
      ensures rest[i] < n
      ensures Entered(edges, order', rest[i])
    {
      assert rest[i] == stack[i];
      assert order != [] && Entered(edges, order, stack[i]);
      var j :| 0 <= j < |order| && (order[j], stack[i]) in edges;
      assert order'[j] == order[j];
    }
    assert Pending(edges, n, start, rest, order');
  }

  /**
   * Once the top of the stack is popped and discovered, every edge leaving a
   * discovered node other than it still ends at a discovered node or on the stack.
   */
  lemma EmitKeepsCovered(edges: seq<Edge>, stack: seq<NodeIndex>, discovered: set<NodeIndex>, node: NodeIndex)
    requires forall k :: 0 <= k < |edges| && edges[k].0 in discovered ==>
      edges[k].1 in discovered || edges[k].1 in stack
    requires stack != [] && node == stack[|stack| - 1]
    ensures forall k :: 0 <= k < |edges| && edges[k].0 in discovered + {node} && edges[k].0 != node ==>
      edges[k].1 in discovered + {node} || edges[k].1 in stack[..|stack| - 1]
  {
    var rest := stack[..|stack| - 1];
    forall v | v in stack
      ensures v == node || v in rest
    {
      var i :| 0 <= i < |stack| && stack[i] == v;
      if i < |rest| {
        assert rest[i] == v;
      }
    }
  }

  /** The node about to be emitted is `start` or a successor of an emitted node. */
  lemma EmitParent(edges: seq<Edge>, n: nat, start: NodeIndex, stack: seq<NodeIndex>,
                   discovered: set<NodeIndex>, order: seq<NodeIndex>, node: NodeIndex, order': seq<NodeIndex>)
    requires Emitted(edges, n, start, discovered, order) && Pending(edges, n, start, stack, order)
    requires order == [] ==> stack == [start]
    requires stack != [] && node == stack[|stack| - 1] && node !in discovered
    requires order' == order + [node]
    ensures order'[0] == start
    ensures forall i :: 0 < i < |order'| ==> HasParent(edges, order', i)
  {
    forall i | 0 < i < |order'|
      ensures HasParent(edges, order', i)
    {
      if i < |order| {
        assert HasParent(edges, order, i);
        var j :| 0 <= j < i && (order[j], order[i]) in edges;
        assert order'[j] == order[j] && order'[i] == order[i];
      } else {
        assert order != [] && order[0] == start && start in discovered;
        assert Entered(edges, order, node);
        var j :| 0 <= j < |order| && (order[j], node) in edges;
        assert order'[j] == order[j];
      }
    }
  }

  /**
   * A depth-first walker over the nodes reachable from `start`. Nodes are
   * marked discovered when they are popped, not when they are pushed, so the
   * stack may hold a node several times; `order` (ghost) records the nodes in
   * the order they are emitted, which is a depth-first pre-order.
   */
  class Dfs {
    var stack: seq<NodeIndex>
    var discovered: set<NodeIndex>
    ghost var order: seq<NodeIndex>
    ghost const start: NodeIndex

    ghost predicate Valid(edges: seq<Edge>, n: nat)
      reads this
    {
      WalkInv(edges, n, start, stack, discovered, order)
    }

    /** A walker positioned at `start`, with nothing discovered yet. */
    constructor (ghost edges: seq<Edge>, ghost n: nat, start: NodeIndex)
      requires EdgesWithin(edges, n) && start < n
      ensures Valid(edges, n) && this.start == start && order == []
    {
      stack := [start];
      discovered := {};
      order := [];
      this.start := start;
    }

    /**
     * Pops nodes until an undiscovered one turns up, marks it discovered,
     * pushes its undiscovered successors and returns it; returns None once
     * the stack is empty, and then every node reachable from `start` has
     * been discovered.
     */
    method Next(edges: seq<Edge>, ghost n: nat) returns (next: Option<NodeIndex>)
      requires Valid(edges, n)
      modifies this
      ensures Valid(edges, n)
      ensures next.None? ==> stack == [] && order == old(order) && discovered == old(discovered)
      ensures next.Some? ==>
        next.value < n && (next.value == start <==> old(order) == []) &&
        next.value !in old(discovered) &&
        discovered == old(discovered) + {next.value} &&
        order == old(order) + [next.value]
    {
      while stack != []
        invariant Valid(edges, n)
        invariant order == old(order) && discovered == old(discovered)
        decreases |stack|
      {
        var node := stack[|stack| - 1];
        if node !in discovered {
          node := Emit(edges, n);
          return Some(node);
        }
        PopDiscovered(edges, n, start, stack, discovered, order);
        stack := stack[..|stack| - 1];
      }
      return None;
    }

    /** Pops the undiscovered top of the stack, emits it and pushes its undiscovered successors. */
    method Emit(edges: seq<Edge>, ghost n: nat) returns (node: NodeIndex)
      requires Valid(edges, n) && stack != [] && stack[|stack| - 1] !in discovered
      modifies this
      ensures Valid(edges, n)
      ensures node == old(stack[|stack| - 1])
      ensures discovered == old(discovered) + {node}
      ensures order == old(order) + [node]
    {
      var stack0, discovered0 := stack, discovered;
      ghost var order0 := order;
      node := stack0[|stack0| - 1];
      var stack', discovered' := EmitTop(edges, n, start, stack0, discovered0, order0);
      stack, discovered, order := stack', discovered', order0 + [node];
      assert WalkInv(edges, n, start, stack, discovered, order);
    }
  }

  /** The walker's step on plain values: pop the undiscovered top, discover it, push its successors. */
  method EmitTop(edges: seq<Edge>, ghost n: nat, ghost start: NodeIndex,
                 stack: seq<NodeIndex>, discovered: set<NodeIndex>, ghost order: seq<NodeIndex>)
    returns (stack': seq<NodeIndex>, discovered': set<NodeIndex>)
    requires WalkInv(edges, n, start, stack, discovered, order)
    requires stack != [] && stack[|stack| - 1] !in discovered
    ensures discovered' == discovered + {stack[|stack| - 1]}
    ensures WalkInv(edges, n, start, stack', discovered', order + [stack[|stack| - 1]])
  {
    var node := stack[|stack| - 1];
    EmitKeepsEmitted(edges, n, start, stack, discovered, order, node);
    EmitKeepsPending(edges, n, start, stack, order, node);
    EmitKeepsCovered(edges, stack, discovered, node);
    discovered' := discovered + {node};
    stack' := PushSuccessors(edges, n, start, node, stack[..|stack| - 1], discovered', order + [node]);
  }

  /** Pushes, newest edge first, every undiscovered successor of the node just emitted. */
  method PushSuccessors(edges: seq<Edge>, ghost n: nat, ghost start: NodeIndex, node: NodeIndex, stack: seq<NodeIndex>,
                        discovered: set<NodeIndex>, ghost order: seq<NodeIndex>) returns (stack': seq<NodeIndex>)
    requires start < n && EdgesWithin(edges, n) && order != [] && node == order[|order| - 1]
    requires Emitted(edges, n, start, discovered, order) && Pending(edges, n, start, stack, order)
    requires forall k :: 0 <= k < |edges| && edges[k].0 in discovered && edges[k].0 != node ==>
      edges[k].1 in discovered || edges[k].1 in stack
    ensures WalkInv(edges, n, start, stack', discovered, order)
  {
    stack' := stack;
    var k := |edges|;
    while k > 0
      invariant 0 <= k <= |edges|
      invariant Pending(edges, n, start, stack', order)
      invariant forall j :: 0 <= j < |edges| && edges[j].0 in discovered && (edges[j].0 != node || j >= k) ==>
        edges[j].1 in discovered || edges[j].1 in stack'
    {
      k := k - 1;
      if edges[k].0 == node && edges[k].1 !in discovered {
        var succ := edges[k].1;
        assert (order[|order| - 1], succ) in edges;
        stack' := stack' + [succ];
      }
    }
  }

  /**
   * Whether a walk leads from `from` to `to`, found by a fresh depth-first
   * walk from `from` that stops as soon as `to` is emitted.
   */
  method HasPathConnecting(edges: seq<Edge>, n: nat, from: NodeIndex, to: NodeIndex) returns (connected: bool)
    requires EdgesWithin(edges, n) && from < n
    ensures connected <==> Reachable(edges, from, to)
  {
    var dfs := new Dfs(edges, n, from);
    while true
      invariant dfs.Valid(edges, n) && dfs.start == from
      invariant to !in dfs.discovered
      decreases n - |dfs.discovered|
    {
      var next := dfs.Next(edges, n);
      match next
      case None =>
        assert from in dfs.discovered;
        ClosedContainsReachableIfReached(edges, dfs.discovered, from, to);
        return false;
      case Some(node) =>
        if node == to {
          EmittedReachable(edges, n, from, dfs.discovered, dfs.order, |dfs.order| - 1);
          return true;
        }
    }
  }

  /**
   * What a walk from `start` has established: the emitted nodes are
   * distinct nodes reachable from `start`, each after one of its
   * predecessors; once the stack is empty, every node reachable from
   * `start` has been emitted.
   */
  lemma WalkSummary(edges: seq<Edge>, n: nat, start: NodeIndex,
                    stack: seq<NodeIndex>, discovered: set<NodeIndex>, order: seq<NodeIndex>)
    requires WalkInv(edges, n, start, stack, discovered, order)
    ensures order != [] ==> order[0] == start
    ensures forall v :: v in discovered <==> v in order
    ensures forall i, j :: 0 <= i < j < |order| ==> order[i] != order[j]
    ensures forall i :: 0 <= i < |order| ==> order[i] < n
    ensures forall v :: v in order ==> Reachable(edges, start, v)
    ensures forall i :: 0 < i < |order| ==> HasParent(edges, order, i)
    ensures stack == [] ==> order != [] && forall v :: Reachable(edges, start, v) ==> v in order
  {
    forall v | v in order
      ensures Reachable(edges, start, v)
    {
      var i :| 0 <= i < |order| && order[i] == v;
      EmittedReachable(edges, n, start, discovered, order, i);
    }
    if stack == [] {
      assert start in discovered;
      forall v | Reachable(edges, start, v)
        ensures v in order
      {
        ClosedContainsReachable(edges, discovered, start, v);
      }
    }
  }

  lemma ClosedContainsReachableIfReached(edges: seq<Edge>, c: set<NodeIndex>, a: NodeIndex, b: NodeIndex)
    requires a in c && ClosedUnder(edges, c) && b !in c
    ensures !Reachable(edges, a, b)
  {
    if Reachable(edges, a, b) {
      ClosedContainsReachable(edges, c, a, b);
    }
  }
}
