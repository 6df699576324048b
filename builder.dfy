/**
 * The system builder: a name table, an arena of nodes with optional
 * payloads and an append-only edge list, updated in place. Every method is
 * proved to take the builder from State() to the state the matching function
 * of module Systems computes, and `Build` walks the graph depth-first from
 * the root, invoking each payload with a decreasing priority.
 */
module Builder {
  import opened Results
  import opened Graphs
  import opened Systems

  class SystemBuilder {
    var nodeTable: map<string, NodeIndex>
    const root: NodeIndex := ROOT
    var nodes: seq<Option<Payload>>
    var edges: seq<Edge>

    ghost function State(): BuilderState
      reads this
    {
      BuilderState(nodeTable, nodes, edges)
    }

    ghost predicate Valid()
      reads this
    {
      WellFormed(State())
    }

    /** A builder holding only the root node. */
    constructor ()
      ensures Valid() && State() == Initial()
    {
      nodeTable := map[];
      nodes := [None];
      edges := [];
    }

    /** Registers `system` under `name`, overwriting the payload of a known name. */
    method AddSystemImpl(name: string, system: SystemId) returns (r: Result<NodeIndex, SystemError>)
      modifies this
      ensures Step(State(), r) == Upsert(old(State()), name, system)
      ensures old(Valid()) ==> Valid()
    {
      if Valid() {
        UpsertWellFormed(State(), name, system);
      }
      if name in nodeTable {
        var node := nodeTable[name];
        if node < |nodes| {
          nodes := nodes[node := Some(User(system))];
          r := Ok(node);
        } else {
          r := Err(DuplicateSystem(name));
        }
      } else {
        var node := |nodes|;
        nodes := nodes + [Some(User(system))];
        nodeTable := nodeTable[name := node];
        r := Ok(node);
      }
    }

    /** Registers a system with no dependencies and connects it to the root. */
    method AddSystem(name: string, system: SystemId) returns (r: Result<NodeIndex, SystemError>)
      modifies this
      ensures Step(State(), r) == Register(old(State()), name, system)
      ensures old(Valid()) ==> Valid()
    {
      if Valid() {
        RegisterWellFormed(State(), name, system);
      }
      r := AddSystemImpl(name, system);
      if r.Ok? {
        edges := edges + [(root, r.value)];
      }
    }

    /**
     * Registers a system and links its dependencies in order: an unknown
     * name gets a failing placeholder connected to the root, a known one is
     * refused with WouldCycle when its node already reaches the new system.
     * Nothing is undone on refusal.
     */
    method AddSystemWithDeps(name: string, system: SystemId, deps: seq<string>) returns (r: Result<NodeIndex, SystemError>)
      requires Valid()
      modifies this
      ensures Valid()
      ensures Step(State(), r) == RegisterWithDeps(old(State()), name, system, deps)
    {
      r := AddSystemImpl(name, system);
      if r.Ok? {
        var node := r.value;
        ghost var registered := State();
        var i := 0;
        while i < |deps|
          invariant 0 <= i <= |deps|
          invariant Valid() && node < |nodes|
          invariant LinkDeps(registered, node, deps) == LinkDeps(State(), node, deps[i..])
        {
          assert deps[i..][0] == deps[i] && deps[i..][1..] == deps[i + 1..];
          var linked := LinkDependency(node, deps[i]);
          if linked.Err? {
            r := Err(linked.error);
            return;
          }
          i := i + 1;
        }
      }
    }

    /**
     * Links one dependency of `node`: an unknown name gets a placeholder
     * node hanging off the root; a known one whose node already reaches
     * `node` is refused; otherwise the edge dependency -> node is added.
     */
    method LinkDependency(node: NodeIndex, dep: string) returns (r: Result<(), SystemError>)
      requires Valid() && node < |nodes|
      modifies this
      ensures Valid() && node < |nodes|
      ensures Step(State(), r) == LinkOne(old(State()), node, dep)
    {
      ghost var linked := LinkOne(State(), node, dep);
      LinkOneWellFormed(State(), node, dep);
      if dep !in nodeTable {
        var depNode := |nodes|;
        nodeTable, nodes, edges := nodeTable[dep := depNode], nodes + [Some(Missing(dep))], edges + [(root, depNode), (depNode, node)];
        r := Ok(());
      } else {
        var depNode := nodeTable[dep];
        var cycle := HasPathConnecting(edges, |nodes|, depNode, node);
        if cycle {
          r := Err(WouldCycle);
        } else {
          edges := edges + [(depNode, node)];
          r := Ok(());
        }
      }
      assert Step(State(), r) == linked;
    }

    /**
     * Walks the graph depth-first from the root and invokes every payload
     * it meets, at most once each, handing out priorities from MAX_PRIORITY
     * downwards; stops at the first invocation that fails. `calls` records
     * the invocations made and `order` the nodes in the order visited.
     */
    method Build(run: (SystemId, Priority) -> Result<(), SystemError>)
      returns (res: Result<(), SystemError>, calls: seq<Invocation>, ghost order: seq<NodeIndex>)
      requires Valid() && |nodes| <= 0x1_0000_0000
      ensures BuildOutcome(nodes, edges, run, res, calls, order)
      ensures |calls| < |nodes|
      ensures forall k :: 0 <= k < |calls| ==> calls[k].priority as int == MAX_PRIORITY as int - k
      ensures forall k :: 0 <= k < |calls| - 1 ==> Invoke(calls[k], run).Ok?
      ensures res.Err? <==> calls != [] && Invoke(calls[|calls| - 1], run).Err?
      ensures res.Err? ==> Invoke(calls[|calls| - 1], run) == res
    {
      res, calls, order := BuildWalk(nodes, edges, run);
      forall k | 0 <= k < |calls|
        ensures calls[k].priority as int == MAX_PRIORITY as int - k
      {
        assert CallAt(nodes, order, calls, k);
      }
      DistinctWithin(order, |nodes|);
    }
  }

  /**
   * The loop of `Build`, on the builder's nodes and edges: walk from the
   * root, visit every node the walk emits, stop at the first failure.
   */
  method BuildWalk(arena: seq<Option<Payload>>, graph: seq<Edge>, run: (SystemId, Priority) -> Result<(), SystemError>)
    returns (res: Result<(), SystemError>, calls: seq<Invocation>, ghost order: seq<NodeIndex>)
    requires 0 < |arena| <= 0x1_0000_0000 && arena[ROOT] == None
    requires forall v :: 0 < v < |arena| ==> arena[v].Some?
    requires EdgesWithin(graph, |arena|)
    ensures BuildOutcome(arena, graph, run, res, calls, order)
  {
    ghost var stack, discovered;
    res, calls, stack, discovered, order := WalkLoop(arena, graph, run);
    if res.Ok? {
      BuildFinished(arena, graph, run, stack, discovered, order, calls);
    } else {
      BuildFailed(arena, graph, run, stack, discovered, order, calls);
    }
  }

  /**
   * Runs the walk to its end or to the first failed invocation, and returns
   * where the walk stood: its stack, discovered set and emitted order.
   */
  method WalkLoop(arena: seq<Option<Payload>>, graph: seq<Edge>, run: (SystemId, Priority) -> Result<(), SystemError>)
    returns (res: Result<(), SystemError>, calls: seq<Invocation>,
             ghost stack: seq<NodeIndex>, ghost discovered: set<NodeIndex>, ghost order: seq<NodeIndex>)
    requires 0 < |arena| <= 0x1_0000_0000 && arena[ROOT] == None
    requires forall v :: 0 < v < |arena| ==> arena[v].Some?
    requires EdgesWithin(graph, |arena|)
    ensures WalkInv(graph, |arena|, ROOT, stack, discovered, order)
    ensures CallsMatch(arena, order, calls)
    ensures res.Ok? ==> stack == [] && forall k :: 0 <= k < |calls| ==> Invoke(calls[k], run).Ok?
    ensures res.Err? ==>
      calls != [] && (forall k :: 0 <= k < |calls| - 1 ==> Invoke(calls[k], run).Ok?) &&
      Invoke(calls[|calls| - 1], run) == res
  {
    var n := |arena|;
    var priority := MAX_PRIORITY;
    calls := [];
    res := Ok(());
    var dfs := new Dfs(graph, n, ROOT);
    var stopped := false;
    while !stopped
      invariant dfs.Valid(graph, n) && dfs.start == ROOT
      invariant CallsMatch(arena, dfs.order, calls)
      invariant priority as int == MAX_PRIORITY as int - |calls|
      invariant forall k :: 0 <= k < |calls| ==> Invoke(calls[k], run).Ok?
      invariant stopped ==> dfs.stack == []
      decreases n - |dfs.discovered| + (if stopped then 0 else 1)
    {
      var next, outcome;
      next, calls, outcome, priority := WalkStep(arena, graph, run, dfs, calls, priority);
      if next.None? {
        stopped := true;
      } else if outcome.Err? {
        res, stack, discovered, order := outcome, dfs.stack, dfs.discovered, dfs.order;
        return;
      }
    }
    stack, discovered, order := dfs.stack, dfs.discovered, dfs.order;
  }

  /** One round of the walk: take the next node from the walker, if any, and visit it. */
  method WalkStep(arena: seq<Option<Payload>>, graph: seq<Edge>, run: (SystemId, Priority) -> Result<(), SystemError>,
                  dfs: Dfs, calls: seq<Invocation>, priority: Priority)
    returns (next: Option<NodeIndex>, calls': seq<Invocation>, outcome: Result<(), SystemError>, priority': Priority)
    requires 0 < |arena| <= 0x1_0000_0000 && arena[ROOT] == None
    requires forall v :: 0 < v < |arena| ==> arena[v].Some?
    requires dfs.Valid(graph, |arena|) && dfs.start == ROOT
    requires CallsMatch(arena, dfs.order, calls) && priority as int == MAX_PRIORITY as int - |calls|
    requires forall k :: 0 <= k < |calls| ==> Invoke(calls[k], run).Ok?
    modifies dfs
    ensures dfs.Valid(graph, |arena|) && CallsMatch(arena, dfs.order, calls')
    ensures next.None? ==> dfs.stack == [] && calls' == calls && priority' == priority
    ensures next.Some? ==> |dfs.discovered| == |old(dfs.discovered)| + 1
    ensures next.None? || outcome.Ok? ==>
      (forall k :: 0 <= k < |calls'| ==> Invoke(calls'[k], run).Ok?) &&
      priority' as int == MAX_PRIORITY as int - |calls'|
    ensures next.Some? && outcome.Err? ==>
      calls' != [] && (forall k :: 0 <= k < |calls'| - 1 ==> Invoke(calls'[k], run).Ok?) &&
      Invoke(calls'[|calls'| - 1], run) == outcome
  {
    ghost var order0 := dfs.order;
    next := dfs.Next(graph, |arena|);
    match next
    case None =>
      calls', outcome, priority' := calls, Ok(()), priority;
    case Some(node) =>
      calls', outcome, priority' := Visit(arena, run, order0, calls, priority, node);
  }

  /**
   * Handles the node the walk just emitted: the root has no payload and is
   * skipped; any other node's payload is invoked with the current priority,
   * which drops by one when the invocation succeeds.
   */
  method Visit(arena: seq<Option<Payload>>, run: (SystemId, Priority) -> Result<(), SystemError>,
               ghost order: seq<NodeIndex>, calls: seq<Invocation>, priority: Priority, node: NodeIndex)
    returns (calls': seq<Invocation>, outcome: Result<(), SystemError>, priority': Priority)
    requires node < |arena| <= 0x1_0000_0000 && |order| < |arena| && arena[ROOT] == None
    requires forall v :: 0 < v < |arena| ==> arena[v].Some?
    requires node == ROOT <==> order == []
    requires CallsMatch(arena, order, calls) && priority as int == MAX_PRIORITY as int - |calls|
    requires forall k :: 0 <= k < |calls| ==> Invoke(calls[k], run).Ok?
    ensures CallsMatch(arena, order + [node], calls')
    ensures outcome.Err? ==>
      calls' != [] && (forall k :: 0 <= k < |calls'| - 1 ==> Invoke(calls'[k], run).Ok?) &&
      Invoke(calls'[|calls'| - 1], run) == outcome
    ensures outcome.Ok? ==>
      (forall k :: 0 <= k < |calls'| ==> Invoke(calls'[k], run).Ok?) &&
      priority' as int == MAX_PRIORITY as int - |calls'|
  {
    match arena[node]
    case None =>
      assert order == [] && calls == [];
      calls', outcome, priority' := calls, Ok(()), priority;
    case Some(payload) =>
      var call := Invocation(payload, priority);
      outcome := Invoke(call, run);
      CallsMatchExtend(arena, order, calls, node, call);
      calls' := calls + [call];
      assert forall k :: 0 <= k < |calls| ==> calls'[k] == calls[k];
      if outcome.Ok? {
        priority' := priority - 1;
      } else {
        priority' := priority;
      }
  }

  /**
   * What a build promises: the nodes visited (`order`) are distinct nodes
   * reachable from the root, the root first and every other one right after
   * some earlier one that points to it; one invocation per visited node
   * after the root, in visiting order, the k-th with priority
   * MAX_PRIORITY - k; every invocation but the last succeeded; a failed
   * build returns the last invocation's error, and a successful one has
   * visited every node reachable from the root, none of them a placeholder.
   */
  ghost predicate BuildOutcome(nodes: seq<Option<Payload>>, edges: seq<Edge>,
                               run: (SystemId, Priority) -> Result<(), SystemError>,
                               res: Result<(), SystemError>, calls: seq<Invocation>, order: seq<NodeIndex>)
  {
    order != [] && order[0] == ROOT &&
    (forall i, j :: 0 <= i < j < |order| ==> order[i] != order[j]) &&
    (forall i :: 0 <= i < |order| ==> order[i] < |nodes|) &&
    (forall v :: v in order ==> Reachable(edges, ROOT, v)) &&
    (forall i :: 0 < i < |order| ==> HasParent(edges, order, i)) &&
    CallsMatch(nodes, order, calls) &&
    (forall k :: 0 <= k < |calls| - 1 ==> Invoke(calls[k], run).Ok?) &&
    (res.Err? ==> calls != [] && Invoke(calls[|calls| - 1], run) == res) &&
    (res.Ok? ==> forall k :: 0 <= k < |calls| ==> Invoke(calls[k], run).Ok?) &&
    (res.Ok? ==> forall v :: Reachable(edges, ROOT, v) ==> v in order) &&
    (res.Ok? ==> forall v :: 0 <= v < |nodes| && Reachable(edges, ROOT, v) ==> nodes[v] == None || nodes[v].value.User?)
  }

  /** The walk ran out of nodes with every invocation successful. */
  lemma BuildFinished(nodes: seq<Option<Payload>>, edges: seq<Edge>, run: (SystemId, Priority) -> Result<(), SystemError>,
                      stack: seq<NodeIndex>, discovered: set<NodeIndex>, order: seq<NodeIndex>, calls: seq<Invocation>)
    requires WalkInv(edges, |nodes|, ROOT, stack, discovered, order) && stack == []
    requires nodes[ROOT] == None && CallsMatch(nodes, order, calls)
    requires forall k :: 0 <= k < |calls| ==> Invoke(calls[k], run).Ok?
    ensures BuildOutcome(nodes, edges, run, Ok(()), calls, order)
  {
    WalkSummary(edges, |nodes|, ROOT, stack, discovered, order);
    forall v | 0 <= v < |nodes| && Reachable(edges, ROOT, v)
      ensures nodes[v] == None || nodes[v].value.User?
    {
      var i :| 0 <= i < |order| && order[i] == v;
      if i > 0 {
        assert CallAt(nodes, order, calls, i - 1) && Invoke(calls[i - 1], run).Ok?;
      }
    }
  }

  /** The last invocation failed and the walk stopped there. */
  lemma BuildFailed(nodes: seq<Option<Payload>>, edges: seq<Edge>, run: (SystemId, Priority) -> Result<(), SystemError>,
                    stack: seq<NodeIndex>, discovered: set<NodeIndex>, order: seq<NodeIndex>, calls: seq<Invocation>)
    requires WalkInv(edges, |nodes|, ROOT, stack, discovered, order)
    requires CallsMatch(nodes, order, calls) && calls != []
    requires forall k :: 0 <= k < |calls| - 1 ==> Invoke(calls[k], run).Ok?
    requires Invoke(calls[|calls| - 1], run).Err?
    ensures BuildOutcome(nodes, edges, run, Invoke(calls[|calls| - 1], run), calls, order)
  {
    WalkSummary(edges, |nodes|, ROOT, stack, discovered, order);
  }

  /**
   * When every node but the root holds a registered system and every
   * registered system succeeds, the build succeeds.
   */
  lemma BuildSucceedsWhenAllRun(nodes: seq<Option<Payload>>, edges: seq<Edge>,
                                run: (SystemId, Priority) -> Result<(), SystemError>,
                                res: Result<(), SystemError>, calls: seq<Invocation>, order: seq<NodeIndex>)
    requires BuildOutcome(nodes, edges, run, res, calls, order)
    requires forall v :: 0 < v < |nodes| ==> nodes[v].Some? && nodes[v].value.User?
    requires forall system, priority :: run(system, priority).Ok?
    ensures res.Ok?
  {
    if calls != [] {
      assert CallAt(nodes, order, calls, |calls| - 1);
    }
  }

  /**
   * The k-th invocation belongs to the (k+1)-th emitted node, the root
   * being the first, and got priority MAX_PRIORITY - k.
   */
  ghost predicate CallAt(nodes: seq<Option<Payload>>, order: seq<NodeIndex>, calls: seq<Invocation>, k: nat)
    requires k < |calls| && k + 1 < |order|
  {
    order[k + 1] < |nodes| && nodes[order[k + 1]] == Some(calls[k].payload) &&
    calls[k].priority as int == MAX_PRIORITY as int - k
  }

  /** The invocations made so far: one per emitted node after the root, in the order emitted. */
  ghost predicate CallsMatch(nodes: seq<Option<Payload>>, order: seq<NodeIndex>, calls: seq<Invocation>) {
    |calls| == (if order == [] then 0 else |order| - 1) &&
    forall k :: 0 <= k < |calls| ==> CallAt(nodes, order, calls, k)
  }

  /** Invoking the payload of the node just emitted keeps the calls in step with the walk. */
  lemma CallsMatchExtend(nodes: seq<Option<Payload>>, order: seq<NodeIndex>, calls: seq<Invocation>,
                         node: NodeIndex, call: Invocation)
    requires CallsMatch(nodes, order, calls) && order != []
    requires node < |nodes| && nodes[node] == Some(call.payload)
    requires call.priority as int == MAX_PRIORITY as int - |calls|
    ensures CallsMatch(nodes, order + [node], calls + [call])
  {
    var order', calls' := order + [node], calls + [call];
    assert order' != [] && |calls'| == |order'| - 1;
    forall k | 0 <= k < |calls'|
      ensures CallAt(nodes, order', calls', k)
    {
      if k < |calls| {
        assert CallAt(nodes, order, calls, k);
        assert calls'[k] == calls[k] && order'[k + 1] == order[k + 1];
      } else {
        assert calls'[k] == call && order'[k + 1] == node;
      }
    }
  }
}
