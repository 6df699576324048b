/**
 * The system builder's state and operations as values: a name table, an
 * arena of nodes each carrying an optional payload (node 0 is the root and
 * carries none), and an append-only edge list. Each operation maps a state
 * to a new state and a result; the `SystemBuilder` class in module Builder
 * is proved to follow these functions step by step.
 */
module Systems {
  import opened Results
  import opened Graphs

  /** Identifies the constructor closure a caller registers for a system. */
  type SystemId = nat

  /** The scheduler's priority, a signed 32-bit integer; higher runs first. */
  newtype Priority = x: int | -0x8000_0000 <= x < 0x8000_0000

  const MAX_PRIORITY: Priority := 0x7FFF_FFFF

  datatype SystemError =
    | DuplicateSystem(name: string)
    | WouldCycle
    | MissingDependentSystem(name: string)
    | SystemSpecific(code: nat)

  /**
   * What a node runs when the systems are built: a registered constructor,
   * or the placeholder created for a dependency nobody has registered, which
   * always fails naming that dependency.
   */
  datatype Payload = User(system: SystemId) | Missing(name: string)

  /** The root node, created first and never named. */
  const ROOT: NodeIndex := 0

  datatype BuilderState = BuilderState(table: map<string, NodeIndex>, nodes: seq<Option<Payload>>, edges: seq<Edge>)

  /** A new state together with the operation's result. */
  datatype Step<T> = Step(state: BuilderState, result: Result<T, SystemError>)

  /**
   * The builder's invariant: the root is node 0 and is the only node without
   * a payload; the table names every other node exactly once; edges join
   * existing nodes; a placeholder is still the node its name maps to.
   */
  ghost predicate WellFormed(s: BuilderState) {
    OnlyRootBare(s.nodes) &&
    NamesWithin(s.table, |s.nodes|) && NamesDistinct(s.table) && |s.table| == |s.nodes| - 1 &&
    EdgesWithin(s.edges, |s.nodes|) &&
    PlaceholdersNamed(s.table, s.nodes)
  }

  /** Node 0 exists and has no payload; every other node has one. */
  ghost predicate OnlyRootBare(nodes: seq<Option<Payload>>) {
    |nodes| >= 1 && nodes[ROOT] == None && forall i :: 0 < i < |nodes| ==> nodes[i].Some?
  }

  /** Every name denotes a node other than the root below n. */
  ghost predicate NamesWithin(table: map<string, NodeIndex>, n: nat) {
    forall name :: name in table ==> 0 < table[name] < n
  }

  /** No two names denote the same node. */
  ghost predicate NamesDistinct(table: map<string, NodeIndex>) {
    forall a, b :: a in table && b in table && a != b ==> table[a] != table[b]
  }

  /** A placeholder's name still denotes the placeholder. */
  ghost predicate PlaceholdersNamed(table: map<string, NodeIndex>, nodes: seq<Option<Payload>>) {
    forall i :: 0 <= i < |nodes| && nodes[i].Some? && nodes[i].value.Missing? ==>
      nodes[i].value.name in table && table[nodes[i].value.name] == i
  }

  /** A fresh builder: the root alone, no names, no edges. */
  function Initial(): (s: BuilderState)
    ensures WellFormed(s)
    ensures |s.nodes| == 1 && s.nodes[ROOT] == None && s.table == map[] && s.edges == []
  {
    BuilderState(map[], [None], [])
  }

  /**
   * Registers `system` under `name`: a known name keeps its node and gets
   * the new payload, an unknown name gets a new node. The DuplicateSystem
   * error is reported only when the table points past the arena.
   */
  function Upsert(s: BuilderState, name: string, system: SystemId): (r: Step<NodeIndex>)
    ensures r.result.Err? <==> name in s.table && s.table[name] >= |s.nodes|
    ensures r.result.Err? ==> r.state == s && r.result.error == DuplicateSystem(name)
    ensures r.result.Ok? ==>
      var node := r.result.value;
      r.state.edges == s.edges && |s.nodes| <= |r.state.nodes| &&
      name in r.state.table && r.state.table[name] == node &&
      node < |r.state.nodes| && r.state.nodes[node] == Some(User(system)) &&
      (forall i :: 0 <= i < |s.nodes| && i != node ==> r.state.nodes[i] == s.nodes[i]) &&
      (forall other :: other in s.table ==> other in r.state.table && r.state.table[other] == s.table[other]) &&
      (forall other :: other in r.state.table && other != name ==> other in s.table) &&
      if name in s.table then node == s.table[name] && |r.state.nodes| == |s.nodes|
      else node == |s.nodes| && |r.state.nodes| == |s.nodes| + 1
  {
    if name in s.table then
      var node := s.table[name];
      if node < |s.nodes| then
        Step(s.(nodes := s.nodes[node := Some(User(system))]), Ok(node))
      else
        Step(s, Err(DuplicateSystem(name)))
    else
      var node := |s.nodes|;
      Step(BuilderState(s.table[name := node], s.nodes + [Some(User(system))], s.edges), Ok(node))
  }

  /** Registers a system without dependencies: upsert, then an edge from the root. */
  function Register(s: BuilderState, name: string, system: SystemId): (r: Step<NodeIndex>)
    ensures var u := Upsert(s, name, system);
      r.result == u.result &&
      r.state.table == u.state.table && r.state.nodes == u.state.nodes &&
      if u.result.Ok? then r.state.edges == s.edges + [(ROOT, u.result.value)] else r.state == s
  {
    var u := Upsert(s, name, system);
    if u.result.Err? then u
    else Step(u.state.(edges := u.state.edges + [(ROOT, u.result.value)]), u.result)
  }

  /**
   * Links one dependency of `node`. An unknown name gets a placeholder node
   * with an edge from the root; a known one is refused with WouldCycle when
   * its node already reaches `node`, itself included. Then the edge
   * dependency -> node is added.
   */
  ghost function LinkOne(s: BuilderState, node: NodeIndex, dep: string): (r: Step<()>)
    ensures r.result.Err? ==>
      r.result.error == WouldCycle && r.state == s && dep in s.table && Reachable(s.edges, s.table[dep], node)
    ensures dep in s.table ==>
      (r.result.Err? <==> Reachable(s.edges, s.table[dep], node)) &&
      r.state.table == s.table && r.state.nodes == s.nodes &&
      (r.result.Ok? ==> r.state.edges == s.edges + [(s.table[dep], node)])
    ensures dep !in s.table ==>
      var d := |s.nodes|;
      r.result.Ok? && r.state.table == s.table[dep := d] &&
      r.state.nodes == s.nodes + [Some(Missing(dep))] &&
      r.state.edges == s.edges + [(ROOT, d), (d, node)]
  {
    if dep in s.table then
      var d := s.table[dep];
      if Reachable(s.edges, d, node) then Step(s, Err(WouldCycle))
      else Step(s.(edges := s.edges + [(d, node)]), Ok(()))
    else
      var d := |s.nodes|;
      Step(BuilderState(s.table[dep := d], s.nodes + [Some(Missing(dep))], s.edges + [(ROOT, d), (d, node)]), Ok(()))
  }

  /** Links the dependencies in the caller's order and stops at the first refusal, keeping what was linked before it. */
  ghost function LinkDeps(s: BuilderState, node: NodeIndex, deps: seq<string>): (r: Step<()>)
    ensures r.result.Err? ==> r.result.error == WouldCycle
    ensures r.result.Ok? ==> |s.edges| + |deps| <= |r.state.edges|
    ensures |r.state.edges| <= |s.edges| + 2 * |deps|
    ensures |s.nodes| <= |r.state.nodes| <= |s.nodes| + |deps|
    decreases |deps|
  {
    if deps == [] then Step(s, Ok(()))
    else
      var first := LinkOne(s, node, deps[0]);
      if first.result.Err? then first else LinkDeps(first.state, node, deps[1..])
  }

  /** Registers a system with dependencies: upsert, then link every dependency; no root edge for the system itself. */
  ghost function RegisterWithDeps(s: BuilderState, name: string, system: SystemId, deps: seq<string>): (r: Step<NodeIndex>)
    ensures var u := Upsert(s, name, system);
      (u.result.Err? ==> r == u) &&
      (u.result.Ok? ==> r.result == u.result || r.result == Err(WouldCycle)) &&
      (r.result.Ok? ==> |s.edges| + |deps| <= |r.state.edges|)
  {
    var u := Upsert(s, name, system);
    if u.result.Err? then u
    else
      var linked := LinkDeps(u.state, u.result.value, deps);
      Step(linked.state, if linked.result.Err? then Err(linked.result.error) else u.result)
  }

  /** One invocation of a node's payload during build, with the priority handed to it. */
  datatype Invocation = Invocation(payload: Payload, priority: Priority)

  /**
   * The outcome of an invocation: a registered constructor does what `run`
   * says; a placeholder fails with MissingDependentSystem naming its
   * dependency.
   */
  function Invoke(call: Invocation, run: (SystemId, Priority) -> Result<(), SystemError>): (r: Result<(), SystemError>)
    ensures call.payload.Missing? ==> r == Err(MissingDependentSystem(call.payload.name))
    ensures call.payload.User? ==> r == run(call.payload.system, call.priority)
  {
    match call.payload
    case User(system) => run(system, call.priority)
    case Missing(name) => Err(MissingDependentSystem(name))
  }

  // ---------------------------------------------------------------------
  // Properties of the operations
  // ---------------------------------------------------------------------

  /** A system registered with add_system is reachable from the root, so build reaches it. */
  lemma RegisteredReachable(s: BuilderState, name: string, system: SystemId)
    requires WellFormed(s)
    ensures var r := Register(s, name, system);
      r.result.Ok? && Reachable(r.state.edges, ROOT, r.result.value)
  {
    UpsertWellFormed(s, name, system);
    var r := Register(s, name, system);
    var edges := r.state.edges;
    assert (ROOT, r.result.value) == edges[|edges| - 1];
    ReachableRefl(edges, ROOT);
    ReachableStep(edges, ROOT, ROOT, r.result.value);
  }

  /** Depending on oneself is always refused: every node reaches itself. */
  lemma SelfDependencyRefused(s: BuilderState, name: string)
    requires name in s.table
    ensures LinkOne(s, s.table[name], name) == Step(s, Err(WouldCycle))
  {
    ReachableRefl(s.edges, s.table[name]);
  }

  /** On a well-formed builder the upsert succeeds, never names the root and keeps the invariant. */
  lemma UpsertWellFormed(s: BuilderState, name: string, system: SystemId)
    requires WellFormed(s)
    ensures var r := Upsert(s, name, system);
      r.result.Ok? && r.result.value != ROOT && WellFormed(r.state)
  {
    if name in s.table {
      ReplacedKeepsBare(s.nodes, s.table[name], User(system));
      ReplacedKeepsNamed(s.table, s.nodes, s.table[name], system);
    } else {
      AppendedKeepsBare(s.nodes, User(system));
      NewNameKeepsDistinct(s.table, name, |s.nodes|);
      AppendedKeepsNamed(s.table, s.nodes, name, User(system));
      EdgesWithinGrow(s.edges, |s.nodes|, |s.nodes| + 1);
    }
  }

  /** add_system keeps the invariant. */
  lemma RegisterWellFormed(s: BuilderState, name: string, system: SystemId)
    requires WellFormed(s)
    ensures Register(s, name, system).result.Ok? && WellFormed(Register(s, name, system).state)
  {
    UpsertWellFormed(s, name, system);
    var u := Upsert(s, name, system);
    AddEdgeWellFormed(u.state, ROOT, u.result.value);
  }

  /** Linking one dependency keeps the invariant. */
  lemma LinkOneWellFormed(s: BuilderState, node: NodeIndex, dep: string)
    requires WellFormed(s) && node < |s.nodes|
    ensures WellFormed(LinkOne(s, node, dep).state)
  {
    if dep in s.table {
      AddEdgeWellFormed(s, s.table[dep], node);
    } else {
      var d := |s.nodes|;
      AppendedKeepsBare(s.nodes, Missing(dep));
      NewNameKeepsDistinct(s.table, dep, d);
      AppendedKeepsNamed(s.table, s.nodes, dep, Missing(dep));
      EdgesWithinGrow(s.edges, d, d + 1);
      EdgesWithinAppend(s.edges, [(ROOT, d), (d, node)], d + 1);
    }
  }

  /** An edge between existing nodes keeps the invariant. */
  lemma AddEdgeWellFormed(s: BuilderState, a: NodeIndex, b: NodeIndex)
    requires WellFormed(s) && a < |s.nodes| && b < |s.nodes|
    ensures WellFormed(s.(edges := s.edges + [(a, b)]))
  {
    EdgesWithinAppend(s.edges, [(a, b)], |s.nodes|);
  }

  lemma AppendedKeepsBare(nodes: seq<Option<Payload>>, p: Payload)
    requires OnlyRootBare(nodes)
    ensures OnlyRootBare(nodes + [Some(p)])
  {
    var nodes' := nodes + [Some(p)];
    forall i | 0 < i < |nodes'|
      ensures nodes'[i].Some?
    {
      if i < |nodes| {
        assert nodes'[i] == nodes[i];
      }
    }
  }

  lemma ReplacedKeepsBare(nodes: seq<Option<Payload>>, i: NodeIndex, p: Payload)
    requires OnlyRootBare(nodes) && 0 < i < |nodes|
    ensures OnlyRootBare(nodes[i := Some(p)])
  {
  }

  lemma NewNameKeepsDistinct(table: map<string, NodeIndex>, name: string, n: nat)
    requires NamesWithin(table, n) && NamesDistinct(table) && name !in table && n > 0
    ensures NamesWithin(table[name := n], n + 1) && NamesDistinct(table[name := n])
  {
    var table' := table[name := n];
    forall a, b | a in table' && b in table' && a != b
      ensures table'[a] != table'[b]
    {
      if a != name && b != name {
        assert table'[a] == table[a] && table'[b] == table[b];
      }
    }
  }

  lemma AppendedKeepsNamed(table: map<string, NodeIndex>, nodes: seq<Option<Payload>>, name: string, p: Payload)
    requires PlaceholdersNamed(table, nodes) && name !in table
    requires p.Missing? ==> p.name == name
    ensures PlaceholdersNamed(table[name := |nodes|], nodes + [Some(p)])
  {
    var table', nodes' := table[name := |nodes|], nodes + [Some(p)];
    forall i | 0 <= i < |nodes'| && nodes'[i].Some? && nodes'[i].value.Missing?
      ensures nodes'[i].value.name in table' && table'[nodes'[i].value.name] == i
    {
      if i < |nodes| {
        assert nodes'[i] == nodes[i];
      }
    }
  }

  lemma ReplacedKeepsNamed(table: map<string, NodeIndex>, nodes: seq<Option<Payload>>, i: NodeIndex, system: SystemId)
    requires PlaceholdersNamed(table, nodes) && i < |nodes|
    ensures PlaceholdersNamed(table, nodes[i := Some(User(system))])
  {
    var nodes' := nodes[i := Some(User(system))];
    forall j | 0 <= j < |nodes'| && nodes'[j].Some? && nodes'[j].value.Missing?
      ensures nodes'[j].value.name in table && table[nodes'[j].value.name] == j
    {
      assert nodes'[j] == nodes[j];
    }
  }

  /** Linking keeps the invariant, and `node` stays a node. */
  lemma {:induction false} LinkDepsWellFormed(s: BuilderState, node: NodeIndex, deps: seq<string>)
    requires WellFormed(s) && node < |s.nodes|
    ensures WellFormed(LinkDeps(s, node, deps).state)
    ensures node < |LinkDeps(s, node, deps).state.nodes|
    decreases |deps|
  {
    if deps != [] {
      var first := LinkOne(s, node, deps[0]);
      LinkOneWellFormed(s, node, deps[0]);
      if first.result.Ok? {
        LinkDepsWellFormed(first.state, node, deps[1..]);
      }
    }
  }

  /**
   * Linking only appends: existing nodes keep their payloads, existing edges
   * stay, existing names keep their nodes, and only an error may come back
   * as WouldCycle.
   */
  lemma {:induction false} LinkDepsAppendOnly(s: BuilderState, node: NodeIndex, deps: seq<string>)
    ensures var r := LinkDeps(s, node, deps);
      |s.nodes| <= |r.state.nodes| && r.state.nodes[..|s.nodes|] == s.nodes &&
      |s.edges| <= |r.state.edges| && r.state.edges[..|s.edges|] == s.edges &&
      (forall other :: other in s.table ==> other in r.state.table && r.state.table[other] == s.table[other]) &&
      (r.result.Err? ==> r.result.error == WouldCycle)
    decreases |deps|
  {
    if deps != [] {
      var first := LinkOne(s, node, deps[0]);
      if first.result.Ok? {
        LinkDepsAppendOnly(first.state, node, deps[1..]);
        var r := LinkDeps(first.state, node, deps[1..]);
        assert r.state.nodes[..|s.nodes|] == r.state.nodes[..|first.state.nodes|][..|s.nodes|];
        assert r.state.edges[..|s.edges|] == r.state.edges[..|first.state.edges|][..|s.edges|];
      }
    }
  }

  /**
   * No edge added while linking the dependencies of `node` comes from the
   * root into `node`: root edges go only to fresh placeholders.
   */
  lemma {:induction false} LinkDepsNoRootEdgeToNode(s: BuilderState, node: NodeIndex, deps: seq<string>)
    requires WellFormed(s) && node < |s.nodes|
    ensures var r := LinkDeps(s, node, deps);
      forall k :: |s.edges| <= k < |r.state.edges| ==> r.state.edges[k] != (ROOT, node)
    decreases |deps|
  {
    if deps != [] {
      var first := LinkOne(s, node, deps[0]);
      if first.result.Ok? {
        LinkOneWellFormed(s, node, deps[0]);
        LinkDepsNoRootEdgeToNode(first.state, node, deps[1..]);
        LinkDepsAppendOnly(first.state, node, deps[1..]);
        var r := LinkDeps(first.state, node, deps[1..]);
        if deps[0] in s.table {
          assert s.table[deps[0]] != ROOT;
          assert first.state.edges == s.edges + [(s.table[deps[0]], node)];
        } else {
          assert first.state.edges == s.edges + [(ROOT, |s.nodes|), (|s.nodes|, node)];
        }
        forall k | |s.edges| <= k < |first.state.edges|
          ensures r.state.edges[k] != (ROOT, node)
        {
          assert r.state.edges[k] == r.state.edges[..|first.state.edges|][k] == first.state.edges[k];
        }
      }
    }
  }

  /**
   * After linking, `dep` names a node with an edge into `node`, and if the
   * name was unknown before, that node is a placeholder failing with the
   * name and hanging off the root.
   */
  ghost predicate DepLinked(before: BuilderState, after: BuilderState, node: NodeIndex, dep: string) {
    dep in after.table && (after.table[dep], node) in after.edges &&
    (dep !in before.table ==>
       after.table[dep] < |after.nodes| &&
       after.nodes[after.table[dep]] == Some(Missing(dep)) &&
       (ROOT, after.table[dep]) in after.edges)
  }

  /** When every dependency is linked, each one is linked in the sense of DepLinked. */
  lemma {:induction false} LinkDepsLinksAll(s: BuilderState, node: NodeIndex, deps: seq<string>)
    requires LinkDeps(s, node, deps).result.Ok?
    ensures forall i :: 0 <= i < |deps| ==> DepLinked(s, LinkDeps(s, node, deps).state, node, deps[i])
    decreases |deps|
  {
    if deps != [] {
      var first := LinkOne(s, node, deps[0]);
      var r := LinkDeps(first.state, node, deps[1..]);
      LinkDepsLinksAll(first.state, node, deps[1..]);
      FirstDepLinked(s, node, deps);
      forall i | 1 <= i < |deps|
        ensures DepLinked(s, r.state, node, deps[i])
      {
        assert deps[i] == deps[1..][i - 1];
        assert DepLinked(first.state, r.state, node, deps[i]);
      }
    }
  }

  /** The first dependency of a list linked in full stays linked to the end. */
  lemma FirstDepLinked(s: BuilderState, node: NodeIndex, deps: seq<string>)
    requires deps != [] && LinkDeps(s, node, deps).result.Ok?
    ensures DepLinked(s, LinkDeps(s, node, deps).state, node, deps[0])
  {
    var first := LinkOne(s, node, deps[0]);
    var r := LinkDeps(first.state, node, deps[1..]);
    LinkDepsAppendOnly(first.state, node, deps[1..]);
    var d := first.state.table[deps[0]];
    assert r.state.table[deps[0]] == d;
    var last := |first.state.edges| - 1;
    assert r.state.edges[last] == r.state.edges[..|first.state.edges|][last];
    if deps[0] !in s.table {
      assert d == |s.nodes|;
      assert r.state.nodes[d] == r.state.nodes[..|first.state.nodes|][d];
      assert r.state.edges[|s.edges|] == r.state.edges[..|first.state.edges|][|s.edges|];
    }
  }

  /**
   * Linking a + b is linking a and then, unless a was refused, linking b
   * from where a left off: dependencies are handled in the caller's order
   * and nothing is rolled back.
   */
  lemma {:induction false} LinkDepsConcat(s: BuilderState, node: NodeIndex, a: seq<string>, b: seq<string>)
    ensures var ra := LinkDeps(s, node, a);
      LinkDeps(s, node, a + b) == if ra.result.Err? then ra else LinkDeps(ra.state, node, b)
    decreases |a|
  {
    if a == [] {
      assert a + b == b;
    } else {
      var first := LinkOne(s, node, a[0]);
      assert (a + b)[0] == a[0];
      assert (a + b)[1..] == a[1..] + b;
      if first.result.Ok? {
        LinkDepsConcat(first.state, node, a[1..], b);
      }
    }
  }

  /**
   * deps[i] is refused: the dependencies before it were all linked, and
   * its node already reaches `node` in the state they left behind, which is
   * the state linking all of `deps` ends in.
   */
  ghost predicate RefusedAt(s: BuilderState, node: NodeIndex, deps: seq<string>, i: nat)
    requires i < |deps|
  {
    var before := LinkDeps(s, node, deps[..i]);
    before.result.Ok? && before.state == LinkDeps(s, node, deps).state &&
    deps[i] in before.state.table && Reachable(before.state.edges, before.state.table[deps[i]], node)
  }

  /** A refusal comes from some dependency refused in the sense of RefusedAt; nothing linked before it is undone. */
  lemma {:induction false} LinkDepsRefusal(s: BuilderState, node: NodeIndex, deps: seq<string>)
    requires LinkDeps(s, node, deps).result.Err?
    ensures exists i :: 0 <= i < |deps| && RefusedAt(s, node, deps, i)
    decreases |deps|
  {
    var first := LinkOne(s, node, deps[0]);
    if first.result.Err? {
      assert deps[..0] == [];
      assert RefusedAt(s, node, deps, 0);
    } else {
      LinkDepsRefusal(first.state, node, deps[1..]);
      var i :| 0 <= i < |deps[1..]| && RefusedAt(first.state, node, deps[1..], i);
      RefusedAtShift(s, node, deps, i);
    }
  }

  /** A refusal among the dependencies after a linked first one is a refusal among all of them. */
  lemma RefusedAtShift(s: BuilderState, node: NodeIndex, deps: seq<string>, i: nat)
    requires |deps| > 0 && LinkOne(s, node, deps[0]).result.Ok?
    requires i < |deps| - 1 && RefusedAt(LinkOne(s, node, deps[0]).state, node, deps[1..], i)
    ensures RefusedAt(s, node, deps, i + 1)
  {
    var first := LinkOne(s, node, deps[0]);
    var rest := deps[1..];
    assert deps[..i + 1] == [deps[0]] + rest[..i];
    LinkDepsConcat(s, node, [deps[0]], rest[..i]);
    assert LinkDeps(s, node, [deps[0]]) == first by {
      assert [deps[0]][1..] == [];
    }
    assert deps[i + 1] == rest[i];
  }

  /**
   * The reachability check runs from the dependency to the dependent, so a
   * dependency that already reaches an earlier dependency of the same call
   * is refused as a cycle although no cycle would arise.
   */
  lemma RedundantDependencyRefused(s: BuilderState, node: NodeIndex, a: string, b: string)
    requires a in s.table && b in s.table && !Reachable(s.edges, s.table[a], node)
    requires Reachable(s.edges, s.table[b], s.table[a])
    ensures LinkDeps(s, node, [a, b]) == Step(LinkOne(s, node, a).state, Err(WouldCycle))
  {
    var first := LinkOne(s, node, a);
    assert first.state.edges == s.edges + [(s.table[a], node)];
    ReachableAppend(s.edges, [(s.table[a], node)], s.table[b], s.table[a]);
    ReachableStep(first.state.edges, s.table[b], s.table[a], node);
    assert [a, b][1..] == [b] && [b][1..] == [];
  }

  /**
   * add_system_with_deps keeps the invariant, returns the registered node on
   * success, fails only with WouldCycle, keeps the new payload even when it
   * fails, and never adds an edge from the root to that node.
   */
  lemma RegisterWithDepsEffect(s: BuilderState, name: string, system: SystemId, deps: seq<string>)
    requires WellFormed(s)
    ensures var u := Upsert(s, name, system);
      var r := RegisterWithDeps(s, name, system, deps);
      u.result.Ok? && WellFormed(r.state) &&
      (r.result.Ok? ==> r.result == u.result) &&
      (r.result.Err? ==> r.result.error == WouldCycle) &&
      u.result.value < |r.state.nodes| && r.state.nodes[u.result.value] == Some(User(system)) &&
      name in r.state.table && r.state.table[name] == u.result.value &&
      |s.edges| <= |r.state.edges| && r.state.edges[..|s.edges|] == s.edges &&
      forall k :: |s.edges| <= k < |r.state.edges| ==> r.state.edges[k] != (ROOT, u.result.value)
  {
    UpsertWellFormed(s, name, system);
    var u := Upsert(s, name, system);
    var node := u.result.value;
    LinkDepsWellFormed(u.state, node, deps);
    LinkDepsAppendOnly(u.state, node, deps);
    LinkDepsNoRootEdgeToNode(u.state, node, deps);
    var r := LinkDeps(u.state, node, deps);
    assert r.state.nodes[node] == r.state.nodes[..|u.state.nodes|][node];
  }

  /**
   * A new system whose single dependency is already registered is always
   * accepted: nothing reaches the new node yet, so no cycle check fails.
   */
  lemma FreshWithKnownDep(s: BuilderState, name: string, system: SystemId, dep: string)
    requires name !in s.table && dep in s.table && s.table[dep] < |s.nodes| && EdgesWithin(s.edges, |s.nodes|)
    ensures var n := |s.nodes|;
      RegisterWithDeps(s, name, system, [dep]) ==
      Step(BuilderState(s.table[name := n], s.nodes + [Some(User(system))], s.edges + [(s.table[dep], n)]), Ok(n))
  {
    var n := |s.nodes|;
    assert [dep][1..] == [];
    NoIncomingUnreachable(s.edges, s.table[dep], n);
    var u := Upsert(s, name, system);
    assert u == Step(BuilderState(s.table[name := n], s.nodes + [Some(User(system))], s.edges), Ok(n));
    var first := LinkOne(u.state, n, dep);
    assert first == Step(BuilderState(s.table[name := n], s.nodes + [Some(User(system))], s.edges + [(s.table[dep], n)]), Ok(()));
    assert LinkDeps(u.state, n, [dep]) == first;
  }

  /**
   * A new system whose single dependency is unknown gets the next node,
   * and the dependency a placeholder after it, hanging off the root.
   */
  lemma FreshWithUnknownDep(s: BuilderState, name: string, system: SystemId, dep: string)
    requires name !in s.table && dep !in s.table && dep != name
    ensures var n := |s.nodes|;
      RegisterWithDeps(s, name, system, [dep]) ==
      Step(BuilderState(s.table[name := n][dep := n + 1], s.nodes + [Some(User(system)), Some(Missing(dep))],
                        s.edges + [(ROOT, n + 1), (n + 1, n)]), Ok(n))
  {
    var n := |s.nodes|;
    assert [dep][1..] == [];
    var u := Upsert(s, name, system);
    assert u == Step(BuilderState(s.table[name := n], s.nodes + [Some(User(system))], s.edges), Ok(n));
    assert s.nodes + [Some(User(system))] + [Some(Missing(dep))] == s.nodes + [Some(User(system)), Some(Missing(dep))];
    assert LinkDeps(u.state, n, [dep]) == LinkOne(u.state, n, dep);
  }

  /**
   * Re-registering a known system with a single known dependency that does
   * not reach it replaces its payload and adds the one edge.
   */
  lemma KnownWithKnownDep(s: BuilderState, name: string, system: SystemId, dep: string)
    requires name in s.table && s.table[name] < |s.nodes| && dep in s.table
    requires !Reachable(s.edges, s.table[dep], s.table[name])
    ensures var node := s.table[name];
      RegisterWithDeps(s, name, system, [dep]) ==
      Step(BuilderState(s.table, s.nodes[node := Some(User(system))], s.edges + [(s.table[dep], node)]), Ok(node))
  {
    var node := s.table[name];
    assert [dep][1..] == [];
    var u := Upsert(s, name, system);
    assert u == Step(BuilderState(s.table, s.nodes[node := Some(User(system))], s.edges), Ok(node));
    assert LinkDeps(u.state, node, [dep]) == LinkOne(u.state, node, dep);
  }

  /**
   * A new name registered with no dependencies has no incoming edge, so the
   * build walk from the root never reaches it.
   */
  lemma FreshWithoutDepsUnreachable(s: BuilderState, name: string, system: SystemId)
    requires WellFormed(s) && name !in s.table
    ensures var r := RegisterWithDeps(s, name, system, []);
      r.result == Ok(|s.nodes|) && !Reachable(r.state.edges, ROOT, |s.nodes|)
  {
    var r := RegisterWithDeps(s, name, system, []);
    assert r.state.edges == s.edges;
    NoIncomingUnreachable(s.edges, ROOT, |s.nodes|);
  }
}
