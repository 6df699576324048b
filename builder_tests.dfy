/**
 * The builder's own test scenarios, replayed against the model. `basic`
 * registers eleven systems, one of them first named as a dependency, and
 * builds them all. `test_cycle` shows that a two-step mutual dependency is
 * accepted and that only a self-dependency is refused. In basic, system k
 * is the k-th constructor registered; in test_cycle, system k is the
 * constructor of "testk". Every constructor succeeds.
 */
module BuilderTests {
  import opened Results
  import opened Graphs
  import opened Systems
  import opened Builder

  /** The test constructors only report success. */
  function Dummy(system: SystemId, priority: Priority): Result<(), SystemError> {
    Ok(())
  }

  /**
   * basic: two systems hang off the root, nine are registered with one
   * dependency each; "test2" is named as a dependency (of "test3" and
   * "test5") before it is registered itself. Every call succeeds, and the
   * build succeeds, invoking every one of the eleven systems with
   * priorities that drop by one from MAX_PRIORITY.
   */
  method TestBasic() returns (results: seq<Result<NodeIndex, SystemError>>, res: Result<(), SystemError>,
                              calls: seq<Invocation>, ghost order: seq<NodeIndex>)
    ensures results == [Ok(1), Ok(2), Ok(3), Ok(4), Ok(5), Ok(7)] + [Ok(6), Ok(8), Ok(9), Ok(10), Ok(11)]
    ensures res.Ok? && |calls| == 11
    ensures forall v :: 0 <= v < 12 ==> v in order
    ensures forall k :: 0 <= k < |calls| ==> calls[k].priority as int == MAX_PRIORITY as int - k
  {
    var b := new SystemBuilder();
    var first := BasicFirstHalf(b);
    var second := BasicSecondHalf(b);
    results := first + second;
    res, calls, order := b.Build(Dummy);
    BasicBuilt(res, calls, order);
  }

  /** What building the finished basic builder promises, whatever order the walk takes. */
  lemma BasicBuilt(res: Result<(), SystemError>, calls: seq<Invocation>, order: seq<NodeIndex>)
    requires BuildOutcome(Basic11.nodes, Basic11.edges, Dummy, res, calls, order)
    ensures res.Ok? && |calls| == 11
    ensures forall v :: 0 <= v < 12 ==> v in order
    ensures forall k :: 0 <= k < |calls| ==> calls[k].priority as int == MAX_PRIORITY as int - k
  {
    BasicAllRegistered();
    BuildSucceedsWhenAllRun(Basic11.nodes, Basic11.edges, Dummy, res, calls, order);
    BasicAllReachable();
    assert forall v: NodeIndex :: v < 12 ==> v in order;
    DistinctWithin(order, 12);
    forall k | 0 <= k < |calls|
      ensures calls[k].priority as int == MAX_PRIORITY as int - k
    {
      assert CallAt(Basic11.nodes, order, calls, k);
    }
  }

  /** The first six calls of basic. */
  method BasicFirstHalf(b: SystemBuilder) returns (results: seq<Result<NodeIndex, SystemError>>)
    requires b.Valid() && b.State() == Initial()
    modifies b
    ensures b.Valid() && b.State() == Basic6
    ensures results == [Ok(1), Ok(2), Ok(3), Ok(4), Ok(5), Ok(7)]
  {
    BasicCall1();
    var r1 := b.AddSystem("test", 1);
    assert b.State() == Basic1 && r1 == Ok(1);
    BasicCall2();
    var r2 := b.AddSystem("testing", 2);
    assert b.State() == Basic2 && r2 == Ok(2);
    BasicCall3();
    var r3 := b.AddSystemWithDeps("test1", 3, ["testing"]);
    assert b.State() == Basic3 && r3 == Ok(3);
    BasicCall4();
    var r4 := b.AddSystemWithDeps("test4", 4, ["test"]);
    assert b.State() == Basic4 && r4 == Ok(4);
    BasicCall5();
    var r5 := b.AddSystemWithDeps("test3", 5, ["test2"]);
    assert b.State() == Basic5 && r5 == Ok(5);
    BasicCall6();
    var r6 := b.AddSystemWithDeps("test5", 6, ["test2"]);
    assert b.State() == Basic6 && r6 == Ok(7);
    results := [r1, r2, r3, r4, r5, r6];
  }

  /** The last five calls of basic. */
  method BasicSecondHalf(b: SystemBuilder) returns (results: seq<Result<NodeIndex, SystemError>>)
    requires b.Valid() && b.State() == Basic6
    modifies b
    ensures b.Valid() && b.State() == Basic11
    ensures results == [Ok(6), Ok(8), Ok(9), Ok(10), Ok(11)]
  {
    BasicCall7();
    var r7 := b.AddSystemWithDeps("test2", 7, ["test4"]);
    assert b.State() == Basic7 && r7 == Ok(6);
    BasicCall8();
    var r8 := b.AddSystemWithDeps("test6", 8, ["test2"]);
    assert b.State() == Basic8 && r8 == Ok(8);
    BasicCall9();
    var r9 := b.AddSystemWithDeps("test7", 9, ["test6"]);
    assert b.State() == Basic9 && r9 == Ok(9);
    BasicCall10();
    var r10 := b.AddSystemWithDeps("test8", 10, ["test7"]);
    assert b.State() == Basic10 && r10 == Ok(10);
    BasicCall11();
    var r11 := b.AddSystemWithDeps("test9", 11, ["test8"]);
    assert b.State() == Basic11 && r11 == Ok(11);
    results := [r7, r8, r9, r10, r11];
  }

  /** Once test2 is registered, every node of basic but the root holds a registered system. */
  lemma BasicAllRegistered()
    ensures forall v :: 0 < v < |Basic11.nodes| ==> Basic11.nodes[v].Some? && Basic11.nodes[v].value.User?
  {
  }

  /** Every node of the finished basic builder is reachable from the root. */
  lemma BasicAllReachable()
    ensures forall v :: 0 <= v < 12 ==> Reachable(Basic11.edges, ROOT, v)
  {
    var edges := Basic11.edges;
    ReachableRefl(edges, ROOT);
    ReachableStep(edges, ROOT, ROOT, 1);
    ReachableStep(edges, ROOT, ROOT, 2);
    ReachableStep(edges, ROOT, ROOT, 6);
    ReachableStep(edges, ROOT, 1, 4);
    ReachableStep(edges, ROOT, 2, 3);
    ReachableStep(edges, ROOT, 6, 5);
    ReachableStep(edges, ROOT, 6, 7);
    ReachableStep(edges, ROOT, 6, 8);
    ReachableStep(edges, ROOT, 8, 9);
    ReachableStep(edges, ROOT, 9, 10);
    ReachableStep(edges, ROOT, 10, 11);
  }

  /** The basic builder after its 1st call. */
  const Basic1 := BuilderState(map["test" := 1],
    [None, Some(User(1))],
    [(ROOT, 1)])

  /** The basic builder after its 2nd call. */
  const Basic2 := BuilderState(map["test" := 1, "testing" := 2],
    [None, Some(User(1)), Some(User(2))],
    [(ROOT, 1), (ROOT, 2)])

  /** The basic builder after its 3rd call. */
  const Basic3 := BuilderState(map["test" := 1, "testing" := 2, "test1" := 3],
    [None, Some(User(1)), Some(User(2)), Some(User(3))],
    [(ROOT, 1), (ROOT, 2), (2, 3)])

  /** The basic builder after its 4th call. */
  const Basic4 := BuilderState(map["test" := 1, "testing" := 2, "test1" := 3, "test4" := 4],
    [None, Some(User(1)), Some(User(2)), Some(User(3)), Some(User(4))],
    [(ROOT, 1), (ROOT, 2), (2, 3), (1, 4)])

  /** The basic builder after its 5th call. */
  const Basic5 := BuilderState(map["test" := 1, "testing" := 2, "test1" := 3, "test4" := 4, "test3" := 5, "test2" := 6],
    [None, Some(User(1)), Some(User(2)), Some(User(3)), Some(User(4)), Some(User(5)), Some(Missing("test2"))],
    [(ROOT, 1), (ROOT, 2), (2, 3), (1, 4), (ROOT, 6), (6, 5)])

  /** The basic builder after its 6th call. */
  const Basic6 := BuilderState(map["test" := 1, "testing" := 2, "test1" := 3, "test4" := 4, "test3" := 5, "test2" := 6, "test5" := 7],
    [None, Some(User(1)), Some(User(2)), Some(User(3)), Some(User(4)), Some(User(5)), Some(Missing("test2")), Some(User(6))],
    [(ROOT, 1), (ROOT, 2), (2, 3), (1, 4), (ROOT, 6), (6, 5), (6, 7)])

  /** The basic builder after its 7th call. */
  const Basic7 := BuilderState(map["test" := 1, "testing" := 2, "test1" := 3, "test4" := 4, "test3" := 5, "test2" := 6, "test5" := 7],
    [None, Some(User(1)), Some(User(2)), Some(User(3)), Some(User(4)), Some(User(5)), Some(User(7)), Some(User(6))],
    [(ROOT, 1), (ROOT, 2), (2, 3), (1, 4), (ROOT, 6), (6, 5), (6, 7), (4, 6)])

  /** The basic builder after its 8th call. */
  const Basic8 := BuilderState(map["test" := 1, "testing" := 2, "test1" := 3, "test4" := 4, "test3" := 5, "test2" := 6, "test5" := 7, "test6" := 8],
    [None, Some(User(1)), Some(User(2)), Some(User(3)), Some(User(4)), Some(User(5)), Some(User(7)), Some(User(6)), Some(User(8))],
    [(ROOT, 1), (ROOT, 2), (2, 3), (1, 4), (ROOT, 6), (6, 5), (6, 7), (4, 6), (6, 8)])

  /** The basic builder after its 9th call. */
  const Basic9 := BuilderState(map["test" := 1, "testing" := 2, "test1" := 3, "test4" := 4, "test3" := 5, "test2" := 6, "test5" := 7, "test6" := 8, "test7" := 9],
    [None, Some(User(1)), Some(User(2)), Some(User(3)), Some(User(4)), Some(User(5)), Some(User(7)), Some(User(6)), Some(User(8)), Some(User(9))],
    [(ROOT, 1), (ROOT, 2), (2, 3), (1, 4), (ROOT, 6), (6, 5), (6, 7), (4, 6), (6, 8), (8, 9)])

  /** The basic builder after its 10th call. */
  const Basic10 := BuilderState(map["test" := 1, "testing" := 2, "test1" := 3, "test4" := 4, "test3" := 5, "test2" := 6, "test5" := 7, "test6" := 8, "test7" := 9, "test8" := 10],
    [None, Some(User(1)), Some(User(2)), Some(User(3)), Some(User(4)), Some(User(5)), Some(User(7)), Some(User(6)), Some(User(8)), Some(User(9)), Some(User(10))],
    [(ROOT, 1), (ROOT, 2), (2, 3), (1, 4), (ROOT, 6), (6, 5), (6, 7), (4, 6), (6, 8), (8, 9), (9, 10)])

  /** The basic builder after its 11th call. */
  const Basic11 := BuilderState(map["test" := 1, "testing" := 2, "test1" := 3, "test4" := 4, "test3" := 5, "test2" := 6, "test5" := 7, "test6" := 8, "test7" := 9, "test8" := 10, "test9" := 11],
    [None, Some(User(1)), Some(User(2)), Some(User(3)), Some(User(4)), Some(User(5)), Some(User(7)), Some(User(6)), Some(User(8)), Some(User(9)), Some(User(10)), Some(User(11))],
    [(ROOT, 1), (ROOT, 2), (2, 3), (1, 4), (ROOT, 6), (6, 5), (6, 7), (4, 6), (6, 8), (8, 9), (9, 10), (10, 11)])

  // The k-th call of basic takes the builder from Basic(k-1) to Basic(k).

  lemma BasicCall1()
    ensures Register(Initial(), "test", 1) == Step(Basic1, Ok(1))
  {
  }

  lemma BasicCall2()
    ensures Register(Basic1, "testing", 2) == Step(Basic2, Ok(2))
  {
  }

  lemma BasicCall3()
    ensures RegisterWithDeps(Basic2, "test1", 3, ["testing"]) == Step(Basic3, Ok(3))
  {
    FreshWithKnownDep(Basic2, "test1", 3, "testing");
  }

  lemma BasicCall4()
    ensures RegisterWithDeps(Basic3, "test4", 4, ["test"]) == Step(Basic4, Ok(4))
  {
    FreshWithKnownDep(Basic3, "test4", 4, "test");
  }

  lemma BasicCall5()
    ensures RegisterWithDeps(Basic4, "test3", 5, ["test2"]) == Step(Basic5, Ok(5))
  {
    FreshWithUnknownDep(Basic4, "test3", 5, "test2");
  }

  lemma BasicCall6()
    ensures RegisterWithDeps(Basic5, "test5", 6, ["test2"]) == Step(Basic6, Ok(7))
  {
    FreshWithKnownDep(Basic5, "test5", 6, "test2");
  }

  lemma BasicCall7()
    ensures RegisterWithDeps(Basic6, "test2", 7, ["test4"]) == Step(Basic7, Ok(6))
  {
    ClosedContainsReachableIfReached(Basic6.edges, {4}, 4, 6);
    KnownWithKnownDep(Basic6, "test2", 7, "test4");
  }

  lemma BasicCall8()
    ensures RegisterWithDeps(Basic7, "test6", 8, ["test2"]) == Step(Basic8, Ok(8))
  {
    FreshWithKnownDep(Basic7, "test6", 8, "test2");
  }

  lemma BasicCall9()
    ensures RegisterWithDeps(Basic8, "test7", 9, ["test6"]) == Step(Basic9, Ok(9))
  {
    FreshWithKnownDep(Basic8, "test7", 9, "test6");
  }

  lemma BasicCall10()
    ensures RegisterWithDeps(Basic9, "test8", 10, ["test7"]) == Step(Basic10, Ok(10))
  {
    FreshWithKnownDep(Basic9, "test8", 10, "test7");
  }

  lemma BasicCall11()
    ensures RegisterWithDeps(Basic10, "test9", 11, ["test8"]) == Step(Basic11, Ok(11))
  {
    FreshWithKnownDep(Basic10, "test9", 11, "test8");
  }

  /**
   * test_cycle: "test1" depends on the unknown "test4", which gets a
   * placeholder; registering "test4" with a dependency on "test1" is
   * accepted although it closes the cycle test1 -> test4 -> test1; "test2"
   * depending on itself is the call that is refused.
   */
  method TestCycle() returns (b: SystemBuilder, r1: Result<NodeIndex, SystemError>,
                              r2: Result<NodeIndex, SystemError>, r3: Result<NodeIndex, SystemError>)
    ensures r1 == Ok(1) && r2 == Ok(2) && r3 == Err(WouldCycle)
    ensures b.State() == Cycle3
  {
    b := new SystemBuilder();
    CycleFirst();
    r1 := b.AddSystemWithDeps("test1", 1, ["test4"]);
    CycleSecond();
    r2 := b.AddSystemWithDeps("test4", 4, ["test1"]);
    CycleThird();
    r3 := b.AddSystemWithDeps("test2", 2, ["test2"]);
    assert b.State() == Cycle3;
  }

  /** The test_cycle builder after its first call: "test4" is a placeholder. */
  const Cycle1 := BuilderState(map["test1" := 1, "test4" := 2],
    [None, Some(User(1)), Some(Missing("test4"))],
    [(ROOT, 2), (2, 1)])

  /** After the second call: "test4" is registered, and test1 and test4 depend on each other. */
  const Cycle2 := BuilderState(map["test1" := 1, "test4" := 2],
    [None, Some(User(1)), Some(User(4))],
    [(ROOT, 2), (2, 1), (1, 2)])

  /** After the refused third call: "test2" is registered but its dependency on itself is not linked. */
  const Cycle3 := BuilderState(map["test1" := 1, "test4" := 2, "test2" := 3],
    [None, Some(User(1)), Some(User(4)), Some(User(2))],
    [(ROOT, 2), (2, 1), (1, 2)])

  /** The first call of test_cycle: "test1" is registered, "test4" gets a placeholder. */
  lemma CycleFirst()
    ensures RegisterWithDeps(Initial(), "test1", 1, ["test4"]) == Step(Cycle1, Ok(1))
  {
    FreshWithUnknownDep(Initial(), "test1", 1, "test4");
  }

  /** The second call: test1 does not reach test4 yet, so the mutual dependency is linked. */
  lemma CycleSecond()
    ensures RegisterWithDeps(Cycle1, "test4", 4, ["test1"]) == Step(Cycle2, Ok(2))
  {
    ClosedContainsReachableIfReached(Cycle1.edges, {1}, 1, 2);
    KnownWithKnownDep(Cycle1, "test4", 4, "test1");
  }

  /** The third call: "test2" is registered, then its dependency on itself is refused. */
  lemma CycleThird()
    ensures RegisterWithDeps(Cycle2, "test2", 2, ["test2"]) == Step(Cycle3, Err(WouldCycle))
  {
    assert ["test2"][1..] == [];
    var u := Upsert(Cycle2, "test2", 2);
    SelfDependencyRefused(u.state, "test2");
  }

  /** After the first two calls of test_cycle, test1 and test4 reach each other: a cycle was accepted. */
  lemma CycleAccepted()
    ensures Reachable(Cycle2.edges, 1, 2) && Reachable(Cycle2.edges, 2, 1)
  {
    var edges := Cycle2.edges;
    ReachableRefl(edges, 1);
    ReachableStep(edges, 1, 1, 2);
    ReachableRefl(edges, 2);
    ReachableStep(edges, 2, 2, 1);
  }
}
