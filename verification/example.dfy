/**
 Two concrete relations. `Demo` is the automaton of the demonstration driver
 (example.cpp): empty label ' ', start state 1. `Cycle` has the two empty
 moves 1 -> 2 and 2 -> 1, on which the closure loop as written never stops.
 */
module Example {
  import opened Transitions
  import opened Epsilon
  import opened RawClosure
  import opened Powerset

  /** The three indexes after the driver's seven `add` calls (see `DemoBuiltByAdds`). */
  function Demo(): Transition<int, char>
  {
    Transition(' ',
      map[(1, 'b') := {4}, (2, 'c') := {10}, (4, 'a') := {5, 6}],
      map[1 := {2}, 2 := {3}, 6 := {7}],
      map[1 := {'b'}, 2 := {'c'}, 4 := {'a'}])
  }

  /** `Demo` is what the driver's calls to `add`, in its order, produce. */
  lemma DemoBuiltByAdds()
    ensures Demo() == Add(Add(Add(Add(Add(Add(Add(Empty(' '),
                        1, ' ', 2), 2, ' ', 3), 2, 'c', 10), 4, 'a', 5), 4, 'a', 6), 6, ' ', 7), 1, 'b', 4)
  {
    var none: set<int> := {};
    var noLabel: set<char> := {};
    assert none + {2} == {2} && none + {3} == {3} && none + {10} == {10} && none + {5} == {5};
    assert {5} + {6} == {5, 6} && none + {7} == {7} && none + {4} == {4};
    assert noLabel + {'c'} == {'c'} && noLabel + {'a'} == {'a'} && {'a'} + {'a'} == {'a'};
    assert noLabel + {'b'} == {'b'};
  }

  lemma DemoValid()
    ensures Valid(Demo())
  {
  }

  /** The per-state lookups of the demonstration. */
  lemma DemoLookups()
    ensures EpsilonSuccessors(Demo(), 1) == {2} && EpsilonSuccessors(Demo(), 2) == {3}
    ensures EpsilonSuccessors(Demo(), 6) == {7}
    ensures forall s :: s !in {1, 2, 6} ==> EpsilonSuccessors(Demo(), s) == {}
    ensures GetEdges(Demo(), 1) == {'b'} && GetEdges(Demo(), 2) == {'c'} && GetEdges(Demo(), 4) == {'a'}
    ensures forall s :: s !in {1, 2, 4} ==> GetEdges(Demo(), s) == {}
    ensures NextStates(Demo(), 1, 'b') == {4} && NextStates(Demo(), 2, 'c') == {10}
    ensures NextStates(Demo(), 4, 'a') == {5, 6}
    ensures forall s, a :: (s, a) !in {(1, 'b'), (2, 'c'), (4, 'a')} ==> NextStates(Demo(), s, a) == {}
  {
  }

  /** The start node of the demonstration is {1, 2, 3}. */
  lemma DemoStartNode()
    ensures Start(Demo(), 1) == {1, 2, 3}
  {
    var t := Demo();
    var C := {1, 2, 3};
    DemoLookups();
    assert Closed(t, C);
    ReachesStart(t, {1}, 1);
    ReachesStep(t, {1}, 1, 2);
    ReachesStep(t, {1}, 2, 3);
    ClosureUnique(t, {1}, C);
  }

  lemma DemoLastNode()
    ensures Closure(Demo(), {5, 6}) == {5, 6, 7}
  {
    var t := Demo();
    var C := {5, 6, 7};
    DemoLookups();
    assert Closed(t, C);
    ReachesStart(t, {5, 6}, 5);
    ReachesStart(t, {5, 6}, 6);
    ReachesStep(t, {5, 6}, 6, 7);
    ClosureUnique(t, {5, 6}, C);
  }

  /** The labels leaving each node of the demonstration. */
  lemma DemoEdges()
    ensures EdgesOf(Demo(), {1, 2, 3}) == {'b', 'c'}
    ensures EdgesOf(Demo(), {4}) == {'a'}
    ensures EdgesOf(Demo(), {10}) == {}
    ensures EdgesOf(Demo(), {5, 6, 7}) == {}
  {
    DemoLookups();
    EdgesOfThree(Demo(), 1, 2, 3);
    EdgesOfThree(Demo(), 5, 6, 7);
    EdgesOfSingleton(Demo(), 4);
    EdgesOfSingleton(Demo(), 10);
  }

  lemma DemoImages()
    ensures Image(Demo(), {1, 2, 3}, 'b') == {4}
    ensures Image(Demo(), {1, 2, 3}, 'c') == {10}
    ensures Image(Demo(), {4}, 'a') == {5, 6}
  {
    DemoLookups();
    ImageOfThree(Demo(), 1, 2, 3, 'b');
    ImageOfThree(Demo(), 1, 2, 3, 'c');
    ImageSingleton(Demo(), 4, 'a');
  }

  lemma DemoStuckNodes()
    ensures Closure(Demo(), {4}) == {4}
    ensures Closure(Demo(), {10}) == {10}
  {
    DemoLookups();
    assert Closed(Demo(), {4}) && Closed(Demo(), {10});
    ClosureOfClosed(Demo(), {4});
    ClosureOfClosed(Demo(), {10});
  }

  /** Where each label leaving a node of the demonstration leads. */
  lemma DemoSuccessors()
    ensures Delta(Demo(), {1, 2, 3}, 'b') == {4}
    ensures Delta(Demo(), {1, 2, 3}, 'c') == {10}
    ensures Delta(Demo(), {4}, 'a') == {5, 6, 7}
  {
    DemoImages();
    DemoStuckNodes();
    DemoLastNode();
    DeltaVia(Demo(), {1, 2, 3}, 'b', {4}, {4});
    DeltaVia(Demo(), {1, 2, 3}, 'c', {10}, {10});
    DeltaVia(Demo(), {4}, 'a', {5, 6}, {5, 6, 7});
  }

  /** The moves of the demonstration's deterministic automaton, all of them. */
  lemma DemoDfa()
    ensures Dfa(Demo(), 1) == {({1, 2, 3}, 'b', {4}), ({1, 2, 3}, 'c', {10}), ({4}, 'a', {5, 6, 7})}
  {
    DemoStartNode();
    DemoEdges();
    DemoSuccessors();
    assert FourNodes(Demo(), 1, {1, 2, 3}, {4}, {10}, {5, 6, 7}, 'b', 'c', 'a');
    DfaOfFourNodes(Demo(), 1, {1, 2, 3}, {4}, {10}, {5, 6, 7}, 'b', 'c', 'a');
  }

  /** The construction run on the demonstration, start state 1. */
  method DemoConstruction() returns (r: set<Edge<int, char>>)
    ensures r == {({1, 2, 3}, 'b', {4}), ({1, 2, 3}, 'c', {10}), ({4}, 'a', {5, 6, 7})}
  {
    r := PowersetConstruction(Demo(), 1);
    DemoDfa();
  }

  /** Two states joined by empty moves both ways: add(1, ' ', 2) then add(2, ' ', 1). */
  function Cycle(): Transition<int, char>
  {
    Transition(' ', map[], map[1 := {2}, 2 := {1}], map[])
  }

  lemma CycleBuiltByAdds()
    ensures Cycle() == Add(Add(Empty(' '), 1, ' ', 2), 2, ' ', 1)
  {
    var none: set<int> := {};
    assert none + {2} == {2} && none + {1} == {1};
  }

  /** The corrected closure search stops on the cycle, with {1, 2}. */
  method CycleClosure() returns (c: set<int>)
    ensures c == {1, 2}
  {
    c := EpsilonClosure(Cycle(), {1});
    CycleClosed();
  }

  lemma CycleClosed()
    ensures Closure(Cycle(), {1}) == {1, 2}
  {
    var t := Cycle();
    assert EpsilonSuccessors(t, 1) == {2};
    assert EpsilonSuccessors(t, 2) == {1};
    assert Closed(t, {1, 2});
    ReachesStart(t, {1}, 1);
    ReachesStep(t, {1}, 1, 2);
    ClosureUnique(t, {1}, {1, 2});
  }

  lemma OneLeadsToCycle()
    ensures LeadsToCycle(Cycle(), 1)
  {
    var t := Cycle();
    assert 2 in EpsilonSuccessors(t, 1);
    assert 1 in EpsilonSuccessors(t, 2);
    assert IsPath(t, [1, 2, 1]);
    assert OnCycle(t, 1);
    assert IsPath(t, [1]);
  }

  /**
   The closure loop as written, started on {1} over the cycle: every run, of
   any length and in any pop order, still has a state on its stack.
   */
  lemma CycleNeverEmpties(run: seq<Loop<int>>)
    requires IsRun(Cycle(), {1}, run)
    ensures run[|run| - 1].unvisited != multiset{}
  {
    OneLeadsToCycle();
    RawDiverges(Cycle(), {1}, run);
  }

  /** ... and there are runs of every length: the loop keeps iterating. */
  lemma {:induction false} CycleRunsForever(n: nat) returns (run: seq<Loop<int>>)
    ensures IsRun(Cycle(), {1}, run) && |run| == n + 1
  {
    if n == 0 {
      run := [Init({1})];
    } else {
      var prefix := CycleRunsForever(n - 1);
      OneLeadsToCycle();
      RunDoomed(Cycle(), {1}, prefix);
      var last := prefix[|prefix| - 1];
      var v := Waiting(Cycle(), last);
      run := prefix + [Iterate(Cycle(), last, v)];
      forall i | 0 <= i < |run| - 1 ensures Step(Cycle(), run[i], run[i + 1]) {
        if i < |run| - 2 {
          assert run[i] == prefix[i] && run[i + 1] == prefix[i + 1];
        }
      }
    }
  }
}
