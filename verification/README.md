# nfa-powerset in Dafny

This project models `Transition<State, Symbol>` from transition.h. That class holds the
transition relation of a non-deterministic finite automaton with empty (epsilon) moves
and turns it into a deterministic automaton with the powerset (subset) construction.
The model covers:

- the three indexes that `add` keeps in step;
- the lookups `next_states` and `get_edges`, for one state and for a set of states;
- the epsilon closure;
- the work-list powerset construction;
- the demonstration automaton in example.cpp.

Modules:

- `Transitions` (transition.dfy) covers storage and lookups.
  - The datatype `Transition` carries the epsilon label and the three maps `next`,
    `emptyTransitions` and `edges`.
  - `Triples(t)` is the set of moves recorded so far. Every query is specified against it.
  - `Valid(t)` is the invariant that keeps the indexes consistent.
- `Epsilon` (closure.dfy) covers the epsilon closure.
  - `Closure` is the specification: states reachable along paths of empty moves.
  - It is proved to be the least superset closed under empty moves, and idempotent.
  - `EpsilonClosure` is the work-list search, with the visited check it needs to
    terminate (see Findings).
- `RawClosure` (rawclosure.dfy) covers the closure loop exactly as written.
  - The stack is a multiset and the pop order is arbitrary, so every result also holds
    for the source's last-in-first-out order.
  - It never empties when an input state reaches a cycle of empty moves.
  - Whenever it does empty, the visited set is the closure.
  - It stops when a rank function decreases along every empty move.
- `Powerset` (powerset.dfy) covers the construction.
  - `Dfa(t, start)` is the specification: every triple `(V, a, Delta(V, a))` where `V` is
    a node reachable from the start node and `a` is a label leaving `V`.
  - `PowersetConstruction` is the work-list loop, proved to compute `Dfa`.
- `Example` (example.dfy) covers the demonstration automaton and a two-state cycle of
  empty moves.

The epsilon label is a field of the relation, fixed when `Empty` builds the empty relation.
This replaces default construction followed by `set_empty_symbol`.

The closure loop marks and expands every popped state. It never checks `visited` before
pushing successors (transition.h:117-122). The powerset loop, by contrast, does check
(transition.h:142). `RawClosure` models the closure loop as written. `EpsilonClosure`
models the corrected loop, and the construction uses it.

On relations whose empty moves are ranked (acyclic), the two agree:

- `RawClosure.RawTerminates` shows that the as-written loop stops.
- `RawClosure.RawResultIsClosure` shows that it then returns `Closure`.

## Model

| member | source | states |
|---|---|---|
| Transitions.Empty | transition.h:37-40 | a relation with no moves has no triples and satisfies the index invariant |
| Transitions.Add | transition.h:43-66 | an epsilon-labelled move goes only into the empty-move index; any other label goes into both `edges[st]` and `next[(st, symb)]` and leaves the empty-move index unchanged |
| Transitions.AddValid | transition.h:43-66 | `add` keeps the three indexes consistent: `next` keys match `edges`, no entry is empty, and the epsilon label never appears among the edges |
| Transitions.AddTriples | transition.h:43-66 | after `add`, the recorded moves are the old ones plus exactly the new triple |
| Transitions.AddIdempotent | transition.h:43-66 | adding the same move twice gives the same relation as adding it once, because the indexes are sets |
| Transitions.TriplesDetermine | transition.h:157-159 | two valid relations with the same epsilon label and the same recorded moves have identical indexes |
| Transitions.Build | transition.h:43-66 | the relation built by a sequence of `add` calls is valid and records exactly the triples of the sequence |
| Transitions.BuildOrderIrrelevant | transition.h:43-66 | two sequences of `add` calls with the same triples, in any order and with any repetition, build the same relation |
| Transitions.NextStates | transition.h:69-76 | `u` is returned exactly when a non-empty move (s, symb, u) was added; a missing key gives the empty set |
| Transitions.EpsilonSuccessors | transition.h:119-123 | `u` is returned exactly when an empty move (s, epsilon, u) was added |
| Transitions.GetEdges | transition.h:89-95 | a label is returned exactly when it is not epsilon and some move from `s` carries it |
| Transitions.NextStatesOfSet | transition.h:77-86 | the set overload returns the union of the single-state lookups over the input set |
| Transitions.GetEdgesOfSet | transition.h:96-105 | the set overload returns the union of the single-state edge sets over the input set |
| Transitions.ImageTriples | transition.h:77-86 | a state is in the lifted image exactly when some input state has a non-empty move to it with that label |
| Transitions.EdgesOfTriples | transition.h:96-105 | a label is in the lifted edge set exactly when it is not epsilon and some input state has a move with it |
| Transitions.ImageUnion | transition.h:77-86 | the lifted lookup distributes over the union of input sets |
| Transitions.ImageSingleton | transition.h:77-86 | lifting a single state gives that state's own lookup |
| Transitions.EdgesOfUnion | transition.h:96-105 | the lifted edge query distributes over the union of input sets |
| Transitions.EdgesOfSingleton | transition.h:96-105 | lifting a single state gives that state's own edges |
| Transitions.NoEpsilonLeak | transition.h:45-52 | on a valid relation the epsilon label is never an edge, and `next_states` with it is empty |
| Epsilon.ClosureIsClosure | transition.h:107-126 | `Closure(X)` contains `X`, is closed under empty moves, and holds only states reachable from `X` |
| Epsilon.ClosureLeast | transition.h:107-126 | the closure is contained in every superset of `X` closed under empty moves |
| Epsilon.ClosureUnique | transition.h:107-126 | any set with those three properties equals `Closure(X)` |
| Epsilon.ClosureIdempotent | transition.h:107-126 | closing a closure adds nothing |
| Epsilon.ClosureMonotone | transition.h:107-126 | a larger input set has a larger closure |
| Epsilon.PathStaysInside | transition.h:114-124 | every path of empty moves from a closed set stays inside it |
| Epsilon.EpsilonClosure | transition.h:108-126 | the search with the visited check terminates on every relation; its result contains the input, is closed under empty moves, holds only reachable states, and equals `Closure` |
| RawClosure.Init | transition.h:109-113 | before the first iteration every input state is on the stack exactly once and nothing is visited |
| RawClosure.Iterate | transition.h:115-123 | one iteration as written pops one state, pushes all its empty-move successors, and adds the popped state to the visited set |
| RawClosure.RunKeepsInvariant | transition.h:114-124 | in every run of the as-written loop, visited and waiting states are reachable, inputs are visited or waiting, and successors of visited states are visited or waiting |
| RawClosure.RawResultIsClosure | transition.h:114-125 | whenever the as-written loop empties its stack, the visited set is the epsilon closure |
| RawClosure.RawDiverges | transition.h:114-124 | if an input state reaches a cycle of empty moves, the stack is non-empty after any number of iterations in any pop order |
| RawClosure.RankedIsAcyclic | transition.h:114-124 | a rank function that decreases along empty moves rules out cycles |
| RawClosure.RawTerminates | transition.h:114-124 | on ranked relations every run has at most (number of empty-move paths from the input) iterations, and a run of exactly that length has an empty stack |
| RawClosure.IterateWeight | transition.h:115-123 | on ranked relations each iteration lowers the count of pending paths by exactly one |
| RawClosure.WeightZero | transition.h:114 | the count of pending paths is zero exactly when the stack is empty |
| Powerset.ReachableWithin | transition.h:129-155 | every reachable node holds only the start state and destinations of moves |
| Powerset.DfaMember | transition.h:138-152 | a triple is a move of the deterministic automaton exactly when its source is reachable, its label leaves the source, and its destination is the closure of the labelled successors |
| Powerset.DfaShape | transition.h:144-150 | each result triple's label leaves its source, its destination is `epsilon_closure(next_states(V, a))`, and its source is the start node or the destination of another triple |
| Powerset.DfaFunctional | transition.h:142-147 | the result is a function of (node, label) |
| Powerset.DfaComplete | transition.h:148-151 | every label leaving a destination node has its own move |
| Powerset.DfaCompleteAtStart | transition.h:134-137 | every label leaving the start node has its own move |
| Powerset.DfaEmpty | transition.h:134-138 | when no label leaves the start node, the result is empty |
| Powerset.WalkStaysIn | transition.h:138-152 | a set of nodes closed under every outgoing label contains every node reachable from one of its members |
| Powerset.DfaSourcesReachable | transition.h:129-155 | every state in a source node can be reached from the start state by moves of the relation |
| Powerset.PairSearchStep | transition.h:139-151 | processing an unvisited pair keeps the search invariant |
| Powerset.PairSearchResult | transition.h:138-154 | when nothing is waiting, the result is exactly `Dfa` |
| Powerset.Explore | transition.h:138-153 | the work-list loop terminates and leaves the search invariant with an empty work list |
| Powerset.PowersetConstruction | transition.h:129-155 | the result equals `Dfa(start)`: each triple has the shape above, the result is functional, and it is empty when the start node has no outgoing labels |
| Example.DemoBuiltByAdds | example.cpp:23-31 | the seven `add` calls of the demonstration produce the three indexes of `Demo` |
| Example.DemoValid | example.cpp:23-31 | the demonstration relation satisfies the index invariant |
| Example.DemoStartNode | example.cpp:32 | the start node of the demonstration, the closure of {1}, is {1, 2, 3} |
| Example.DemoSuccessors | example.cpp:32 | from {1, 2, 3}, `b` leads to {4} and `c` leads to {10}; from {4}, `a` leads to {5, 6, 7} |
| Example.DemoDfa | example.cpp:32 | the demonstration's automaton has exactly the moves ({1,2,3}, b, {4}), ({1,2,3}, c, {10}) and ({4}, a, {5,6,7}) |
| Example.DemoConstruction | example.cpp:32 | the construction run on the demonstration returns exactly those three moves |
| Example.CycleBuiltByAdds | transition.h:43-52 | `add(1, ' ', 2)` then `add(2, ' ', 1)` gives the two-state cycle of empty moves |
| Example.CycleClosure | transition.h:108-126 | the corrected closure of {1} over the cycle is {1, 2} |
| Example.CycleNeverEmpties | transition.h:114-124 | the as-written loop started on {1} over the cycle never empties its stack |
| Example.CycleRunsForever | transition.h:114-124 | the as-written loop over the cycle has runs of every length |

## Left out

- Printing of results (output.h) and the `main` driver's output are not modelled; only
  the relation that example.cpp builds and the construction it calls are.
- `set_empty_symbol` is modelled only as the argument of `Empty`. Calling it after some
  `add` calls, or never calling it, is not modelled. In both cases the C++ classifies
  moves by whatever `empty_symb` held at each `add`, including a default-initialised value.
- The order of the `std::stack` work lists is not modelled. The corrected closure and the
  construction take any waiting element. The as-written closure loop takes any element
  of a multiset. Results are sets, so the order does not affect them.
- `std::map` and `std::set` ordering, and copying of `States` by value, are not modelled.
  Dafny maps and sets take their place.
- RawClosure.RawTerminates: termination is proved for relations with a rank function that
  decreases along empty moves. That acyclic relations with finitely many states always
  have such a rank is not proved. The rank must decrease along every empty move of the
  relation, not only those reachable from the input. So an input that reaches no cycle,
  in a relation with a cycle elsewhere, is covered by neither this lemma nor
  `RawDiverges`. An example is `add(1,' ',2)`, `add(5,' ',6)`, `add(6,' ',5)` with input
  {1}, where the C++ stops after two iterations.
- Powerset.PowersetConstruction: this member uses the corrected closure. With the
  as-written closure, the C++ construction does not return when the start node, or any
  node it meets, reaches a cycle of empty moves.

## Findings

| source | as written | input that shows it | evidently intended | confidence | as-written member | corrected member |
|---|---|---|---|---|---|---|
| transition.h:114-124 | `epsilon_closure` marks every popped state visited and pushes its empty-move successors again, even when that state was already visited | `add(1, ' ', 2)`, `add(2, ' ', 1)`, then `epsilon_closure({1})`: 1 and 2 are pushed back forever and the loop never exits | expand a popped state only when it was not visited before (as the powerset loop at transition.h:142 does) | high; not executed | RawClosure.RawDiverges | Epsilon.EpsilonClosure |
