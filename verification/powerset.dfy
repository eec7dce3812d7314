/**
 The subset (powerset) construction. A node of the deterministic automaton is
 a set of states closed under empty moves; from node `V` the label `a` leads
 to `Delta(V, a)`, the epsilon closure of the labelled successors of `V`. The
 construction explores, from the closure of the start state, every
 (node, label) pair once and reports the triple (V, a, Delta(V, a)) for it.
 `Dfa` is the set of those triples over all reachable nodes, as a
 specification; `PowersetConstruction` is the work-list search that computes it.
 */
module Powerset {
  import opened Transitions
  import opened Epsilon

  /** A move of the deterministic automaton: (source node, label, destination node). */
  type Edge<S, Y> = (set<S>, Y, set<S>)

  /** Every subset of `U`; bounds the nodes the construction can meet. */
  ghost function Subsets<T(!new)>(U: set<T>): (P: set<set<T>>)
    ensures forall V :: V in P <==> V <= U
    decreases U
  {
    if U == {} then
      assert forall V :: V <= U ==> V == {};
      {{}}
    else
      var x :| x in U;
      var P' := Subsets(U - {x});
      var P := P' + set V | V in P' :: V + {x};
      assert forall V :: V <= U ==> V in P by {
        forall V | V <= U ensures V in P {
          if x in V {
            assert V - {x} in P';
            assert V == (V - {x}) + {x};
          }
        }
      }
      P
  }

  /** The start node: the epsilon closure of the start state. */
  ghost function Start<S(!new), Y(!new)>(t: Transition<S, Y>, start: S): set<S>
  {
    Closure(t, {start})
  }

  /** The node reached from `V` by label `a`. */
  ghost function Delta<S(!new), Y(!new)>(t: Transition<S, Y>, V: set<S>, a: Y): set<S>
  {
    Closure(t, Image(t, V, a))
  }

  /** The node reached from `V` by the labels of `w`, in order. */
  ghost function DeltaStar<S(!new), Y(!new)>(t: Transition<S, Y>, V: set<S>, w: seq<Y>): set<S>
    decreases |w|
  {
    if |w| == 0 then V else Delta(t, DeltaStar(t, V, w[..|w| - 1]), w[|w| - 1])
  }

  /** Every label of `w` leaves the node reached by the labels before it. */
  ghost predicate Walk<S(!new), Y(!new)>(t: Transition<S, Y>, V: set<S>, w: seq<Y>)
    decreases |w|
  {
    |w| == 0 || (Walk(t, V, w[..|w| - 1]) && w[|w| - 1] in EdgesOf(t, DeltaStar(t, V, w[..|w| - 1])))
  }

  /** `V` is the start node or is reached from it along outgoing labels. */
  ghost predicate ReachableNode<S(!new), Y(!new)>(t: Transition<S, Y>, start: S, V: set<S>)
  {
    exists w :: Walk(t, Start(t, start), w) && DeltaStar(t, Start(t, start), w) == V
  }

  /** Every destination of a labelled move. */
  ghost function NextTargets<S(!new), Y(!new)>(t: Transition<S, Y>): set<S>
  {
    set k, u | k in t.next && u in t.next[k] :: u
  }

  /** Every state a node can hold. */
  ghost function NfaStates<S(!new), Y(!new)>(t: Transition<S, Y>, start: S): set<S>
  {
    {start} + EpsilonTargets(t) + NextTargets(t)
  }

  /** The moves of the deterministic automaton, as a specification. */
  ghost function Dfa<S(!new), Y(!new)>(t: Transition<S, Y>, start: S): set<Edge<S, Y>>
  {
    set V, a | V in Subsets(NfaStates(t, start)) && ReachableNode(t, start, V) && a in EdgesOf(t, V)
      :: (V, a, Delta(t, V, a))
  }

  lemma StartReachable<S(!new), Y(!new)>(t: Transition<S, Y>, start: S)
    ensures ReachableNode(t, start, Start(t, start))
  {
    var w: seq<Y> := [];
    assert Walk(t, Start(t, start), w) && DeltaStar(t, Start(t, start), w) == Start(t, start);
  }

  /** Following an outgoing label from a reachable node gives a reachable node. */
  lemma ReachableStep<S(!new), Y(!new)>(t: Transition<S, Y>, start: S, V: set<S>, a: Y)
    requires ReachableNode(t, start, V) && a in EdgesOf(t, V)
    ensures ReachableNode(t, start, Delta(t, V, a))
  {
    var v0 := Start(t, start);
    var w :| Walk(t, v0, w) && DeltaStar(t, v0, w) == V;
    var w' := w + [a];
    assert w'[..|w'| - 1] == w;
    assert Walk(t, v0, w') && DeltaStar(t, v0, w') == Delta(t, V, a);
  }

  /** Every node holds only states of the relation (or the start state). */
  lemma ReachableWithin<S(!new), Y(!new)>(t: Transition<S, Y>, start: S, V: set<S>)
    requires ReachableNode(t, start, V)
    ensures V <= NfaStates(t, start)
  {
    var v0 := Start(t, start);
    var w :| Walk(t, v0, w) && DeltaStar(t, v0, w) == V;
    if |w| == 0 {
      assert V == Closure(t, {start});
    } else {
      var U := DeltaStar(t, v0, w[..|w| - 1]);
      assert V == Closure(t, Image(t, U, w[|w| - 1]));
      assert Image(t, U, w[|w| - 1]) <= NextTargets(t);
    }
  }

  /** Membership in `Dfa` without the finiteness bound. */
  lemma DfaMember<S(!new), Y(!new)>(t: Transition<S, Y>, start: S, V: set<S>, a: Y, N: set<S>)
    ensures (V, a, N) in Dfa(t, start) <==>
              ReachableNode(t, start, V) && a in EdgesOf(t, V) && N == Delta(t, V, a)
  {
    if ReachableNode(t, start, V) {
      ReachableWithin(t, start, V);
    }
  }

  /** A walk from the start node that reaches the source of a move. */
  lemma DfaSourceWalk<S(!new), Y(!new)>(t: Transition<S, Y>, start: S, V: set<S>, a: Y, N: set<S>) returns (w: seq<Y>)
    requires (V, a, N) in Dfa(t, start)
    ensures Walk(t, Start(t, start), w) && DeltaStar(t, Start(t, start), w) == V
    ensures a in EdgesOf(t, V) && N == Delta(t, V, a)
  {
    DfaMember(t, start, V, a, N);
    w :| Walk(t, Start(t, start), w) && DeltaStar(t, Start(t, start), w) == V;
  }

  /**
   The shape of every move: its label leaves the source node, its destination
   is the closure of the labelled successors of the source, and its source is
   the start node or the destination of another move.
   */
  lemma DfaShape<S(!new), Y(!new)>(t: Transition<S, Y>, start: S, V: set<S>, a: Y, N: set<S>)
    requires (V, a, N) in Dfa(t, start)
    ensures a in EdgesOf(t, V)
    ensures N == Closure(t, Image(t, V, a))
    ensures V == Start(t, start) || exists V', a' :: (V', a', V) in Dfa(t, start)
  {
    var v0 := Start(t, start);
    var w := DfaSourceWalk(t, start, V, a, N);
    if |w| > 0 {
      var U, b := DeltaStar(t, v0, w[..|w| - 1]), w[|w| - 1];
      assert ReachableNode(t, start, U);
      DfaMember(t, start, U, b, V);
    }
  }

  /** The moves form a function of (source node, label). */
  lemma DfaFunctional<S(!new), Y(!new)>(t: Transition<S, Y>, start: S, V: set<S>, a: Y, N1: set<S>, N2: set<S>)
    requires (V, a, N1) in Dfa(t, start) && (V, a, N2) in Dfa(t, start)
    ensures N1 == N2
  {
    DfaMember(t, start, V, a, N1);
    DfaMember(t, start, V, a, N2);
  }

  /**
   Every label leaving the start node, and every label leaving a destination,
   has its move: the moves are closed under exploration.
   */
  lemma DfaComplete<S(!new), Y(!new)>(t: Transition<S, Y>, start: S, V: set<S>, a: Y, N: set<S>, b: Y)
    requires (V, a, N) in Dfa(t, start) && b in EdgesOf(t, N)
    ensures (N, b, Delta(t, N, b)) in Dfa(t, start)
  {
    DfaMember(t, start, V, a, N);
    ReachableStep(t, start, V, a);
    DfaMember(t, start, N, b, Delta(t, N, b));
  }

  lemma DfaCompleteAtStart<S(!new), Y(!new)>(t: Transition<S, Y>, start: S, a: Y)
    requires a in EdgesOf(t, Start(t, start))
    ensures (Start(t, start), a, Delta(t, Start(t, start), a)) in Dfa(t, start)
  {
    StartReachable(t, start);
    DfaMember(t, start, Start(t, start), a, Delta(t, Start(t, start), a));
  }

  lemma {:induction false} WalkFirstLabel<S(!new), Y(!new)>(t: Transition<S, Y>, V: set<S>, w: seq<Y>)
    requires Walk(t, V, w) && |w| > 0
    ensures w[0] in EdgesOf(t, V)
    decreases |w|
  {
    if |w| > 1 {
      WalkFirstLabel(t, V, w[..|w| - 1]);
    }
  }

  /**
   A set of nodes that holds `V` and is closed under every outgoing label
   holds every node a walk from `V` reaches.
   */
  lemma {:induction false} WalkStaysIn<S(!new), Y(!new)>(t: Transition<S, Y>, V: set<S>, nodes: set<set<S>>, w: seq<Y>)
    requires V in nodes
    requires forall U, a :: U in nodes && a in EdgesOf(t, U) ==> Delta(t, U, a) in nodes
    requires Walk(t, V, w)
    ensures DeltaStar(t, V, w) in nodes
    decreases |w|
  {
    if |w| > 0 {
      WalkStaysIn(t, V, nodes, w[..|w| - 1]);
    }
  }

  /** When no label leaves the start node there are no moves at all. */
  lemma DfaEmpty<S(!new), Y(!new)>(t: Transition<S, Y>, start: S)
    requires EdgesOf(t, Start(t, start)) == {}
    ensures Dfa(t, start) == {}
  {
    forall e | e in Dfa(t, start) ensures false {
      DfaMember(t, start, e.0, e.1, e.2);
      var v0 := Start(t, start);
      var w :| Walk(t, v0, w) && DeltaStar(t, v0, w) == e.0;
      if |w| > 0 {
        WalkFirstLabel(t, v0, w);
      }
    }
  }

  /** The shape properties of every move, gathered for all moves at once. */
  lemma DfaProperties<S(!new), Y(!new)>(t: Transition<S, Y>, start: S)
    ensures forall V, a, N :: (V, a, N) in Dfa(t, start) ==>
              a in EdgesOf(t, V) && N == Closure(t, Image(t, V, a))
    ensures forall V, a, N :: (V, a, N) in Dfa(t, start) ==>
              V == Closure(t, {start}) || exists V', a' :: (V', a', V) in Dfa(t, start)
    ensures forall V, a, N1, N2 :: (V, a, N1) in Dfa(t, start) && (V, a, N2) in Dfa(t, start) ==> N1 == N2
    ensures EdgesOf(t, Closure(t, {start})) == {} ==> Dfa(t, start) == {}
  {
    forall V, a, N | (V, a, N) in Dfa(t, start)
      ensures a in EdgesOf(t, V) && N == Closure(t, Image(t, V, a))
      ensures V == Closure(t, {start}) || exists V', a' :: (V', a', V) in Dfa(t, start)
    {
      DfaShape(t, start, V, a, N);
    }
    if EdgesOf(t, Closure(t, {start})) == {} {
      DfaEmpty(t, start);
    }
  }

  /** `Delta` computed in two steps: the labelled successors, then their closure. */
  lemma DeltaVia<S(!new), Y(!new)>(t: Transition<S, Y>, V: set<S>, a: Y, I: set<S>, N: set<S>)
    requires Image(t, V, a) == I && Closure(t, I) == N
    ensures Delta(t, V, a) == N
  {
  }

  /**
   An automaton whose start node `A` has labels `a` (to `B`) and `b` (to `C`),
   where `B` has the single label `c` (to `D`) and `C` and `D` have none, has
   exactly three moves. This is the shape of the automaton in example.cpp.
   */
  ghost predicate FourNodes<S(!new), Y(!new)>(
    t: Transition<S, Y>, start: S, A: set<S>, B: set<S>, C: set<S>, D: set<S>, a: Y, b: Y, c: Y)
  {
    && Start(t, start) == A
    && EdgesOf(t, A) == {a, b} && EdgesOf(t, B) == {c} && EdgesOf(t, C) == {} && EdgesOf(t, D) == {}
    && Delta(t, A, a) == B && Delta(t, A, b) == C && Delta(t, B, c) == D
  }

  lemma FourNodesClosed<S(!new), Y(!new)>(
    t: Transition<S, Y>, start: S, A: set<S>, B: set<S>, C: set<S>, D: set<S>, a: Y, b: Y, c: Y)
    requires FourNodes(t, start, A, B, C, D, a, b, c)
    ensures forall V, x :: V in {A, B, C, D} && x in EdgesOf(t, V) ==> Delta(t, V, x) in {A, B, C, D}
  {
    forall V, x | V in {A, B, C, D} && x in EdgesOf(t, V) ensures Delta(t, V, x) in {A, B, C, D} {
      assert V == A || V == B;
    }
  }

  lemma FourNodesDfaWithin<S(!new), Y(!new)>(
    t: Transition<S, Y>, start: S, A: set<S>, B: set<S>, C: set<S>, D: set<S>, a: Y, b: Y, c: Y)
    requires FourNodes(t, start, A, B, C, D, a, b, c)
    ensures Dfa(t, start) <= {(A, a, B), (A, b, C), (B, c, D)}
  {
    forall e | e in Dfa(t, start) ensures e in {(A, a, B), (A, b, C), (B, c, D)} {
      var w := DfaSourceWalk(t, start, e.0, e.1, e.2);
      FourNodesWalk(t, start, A, B, C, D, a, b, c, w);
      FourNodesLabel(t, start, A, B, C, D, a, b, c, e.0, e.1);
    }
  }

  lemma FourNodesWalk<S(!new), Y(!new)>(
    t: Transition<S, Y>, start: S, A: set<S>, B: set<S>, C: set<S>, D: set<S>, a: Y, b: Y, c: Y,
    w: seq<Y>)
    requires FourNodes(t, start, A, B, C, D, a, b, c)
    requires Walk(t, Start(t, start), w)
    ensures DeltaStar(t, Start(t, start), w) in {A, B, C, D}
  {
    FourNodesClosed(t, start, A, B, C, D, a, b, c);
    WalkStaysIn(t, A, {A, B, C, D}, w);
  }

  lemma FourNodesLabel<S(!new), Y(!new)>(
    t: Transition<S, Y>, start: S, A: set<S>, B: set<S>, C: set<S>, D: set<S>, a: Y, b: Y, c: Y,
    V: set<S>, x: Y)
    requires FourNodes(t, start, A, B, C, D, a, b, c)
    requires V in {A, B, C, D} && x in EdgesOf(t, V)
    ensures (V, x, Delta(t, V, x)) in {(A, a, B), (A, b, C), (B, c, D)}
  {
    assert V == A || V == B;
  }

  lemma DfaOfFourNodes<S(!new), Y(!new)>(
    t: Transition<S, Y>, start: S, A: set<S>, B: set<S>, C: set<S>, D: set<S>, a: Y, b: Y, c: Y)
    requires FourNodes(t, start, A, B, C, D, a, b, c)
    ensures Dfa(t, start) == {(A, a, B), (A, b, C), (B, c, D)}
  {
    FourNodesDfaWithin(t, start, A, B, C, D, a, b, c);
    DfaCompleteAtStart(t, start, a);
    DfaCompleteAtStart(t, start, b);
    DfaComplete(t, start, A, a, B, c);
  }

  // ---------------------------------------------------------------------
  // Sources hold only states reachable from the start state
  // ---------------------------------------------------------------------

  /** One move of the relation, with any label. */
  ghost predicate Moves<S(!new), Y(!new)>(t: Transition<S, Y>, u: S, v: S)
  {
    v in EpsilonSuccessors(t, u) || exists a :: v in NextStates(t, u, a)
  }

  ghost predicate NfaPath<S(!new), Y(!new)>(t: Transition<S, Y>, p: seq<S>)
  {
    |p| > 0 && forall i :: 0 < i < |p| ==> Moves(t, p[i - 1], p[i])
  }

  /** `v` is reachable from `start` by moves of the relation. */
  ghost predicate NfaReaches<S(!new), Y(!new)>(t: Transition<S, Y>, start: S, v: S)
  {
    exists p :: NfaPath(t, p) && p[0] == start && p[|p| - 1] == v
  }

  lemma NfaReachesStep<S(!new), Y(!new)>(t: Transition<S, Y>, start: S, u: S, v: S)
    requires NfaReaches(t, start, u) && Moves(t, u, v)
    ensures NfaReaches(t, start, v)
  {
    var p :| NfaPath(t, p) && p[0] == start && p[|p| - 1] == u;
    assert NfaPath(t, p + [v]);
  }

  /** The closure of reachable states holds only reachable states. */
  lemma ClosureOfReachable<S(!new), Y(!new)>(t: Transition<S, Y>, start: S, X: set<S>)
    requires X <= NfaStates(t, start)
    requires forall x :: x in X ==> NfaReaches(t, start, x)
    ensures forall v :: v in Closure(t, X) ==> NfaReaches(t, start, v)
  {
    var D := set v | v in NfaStates(t, start) && NfaReaches(t, start, v);
    forall u, v | u in D && v in EpsilonSuccessors(t, u) ensures v in D {
      SuccessorsAreTargets(t, u);
      NfaReachesStep(t, start, u, v);
    }
    ClosureLeast(t, X, D);
  }

  lemma {:induction false} WalkStatesReachable<S(!new), Y(!new)>(t: Transition<S, Y>, start: S, w: seq<Y>)
    ensures forall s :: s in DeltaStar(t, Start(t, start), w) ==> NfaReaches(t, start, s)
    decreases |w|
  {
    if |w| == 0 {
      assert NfaPath(t, [start]);
      ClosureOfReachable(t, start, {start});
    } else {
      var U, a := DeltaStar(t, Start(t, start), w[..|w| - 1]), w[|w| - 1];
      WalkStatesReachable(t, start, w[..|w| - 1]);
      var I := Image(t, U, a);
      forall u | u in I ensures NfaReaches(t, start, u) {
        var s :| s in U && u in NextStates(t, s, a);
        NfaReachesStep(t, start, s, u);
      }
      assert I <= NextTargets(t);
      ClosureOfReachable(t, start, I);
    }
  }

  /**
   A state that cannot be reached from the start state never appears in the
   source node of a move.
   */
  lemma DfaSourcesReachable<S(!new), Y(!new)>(t: Transition<S, Y>, start: S, V: set<S>, a: Y, N: set<S>, s: S)
    requires (V, a, N) in Dfa(t, start) && s in V
    ensures NfaReaches(t, start, s)
  {
    DfaMember(t, start, V, a, N);
    var w :| Walk(t, Start(t, start), w) && DeltaStar(t, Start(t, start), w) == V;
    WalkStatesReachable(t, start, w);
  }

  // ---------------------------------------------------------------------
  // The work-list search
  // ---------------------------------------------------------------------

  /** A (node, label) pair the search may meet: a reachable node and a label leaving it. */
  ghost predicate Candidate<S(!new), Y(!new)>(t: Transition<S, Y>, start: S, p: (set<S>, Y))
  {
    ReachableNode(t, start, p.0) && p.1 in EdgesOf(t, p.0)
  }

  /** Every pair the search may meet. */
  ghost function Pairs<S(!new), Y(!new)>(t: Transition<S, Y>, start: S): set<(set<S>, Y)>
  {
    set V, a | V in Subsets(NfaStates(t, start)) && a in EdgesOf(t, V) :: (V, a)
  }

  lemma CandidateInPairs<S(!new), Y(!new)>(t: Transition<S, Y>, start: S, p: (set<S>, Y))
    requires Candidate(t, start, p)
    ensures p in Pairs(t, start)
  {
    ReachableWithin(t, start, p.0);
  }

  /**
   What the search keeps true: every pair met is a candidate, the result holds
   one move per processed pair, and every pair a processed move leads to (and
   every pair at the start node) is processed or still waiting.
   */
  ghost predicate PairSearchInvariant<S(!new), Y(!new)>(
    t: Transition<S, Y>, start: S,
    visited: set<(set<S>, Y)>, unvisited: set<(set<S>, Y)>, result: set<Edge<S, Y>>)
  {
    && (forall p :: p in visited ==> Candidate(t, start, p))
    && (forall p :: p in unvisited ==> Candidate(t, start, p))
    && result == (set p | p in visited :: (p.0, p.1, Delta(t, p.0, p.1)))
    && (forall a :: a in EdgesOf(t, Start(t, start)) ==>
          (Start(t, start), a) in visited || (Start(t, start), a) in unvisited)
    && (forall p, b :: p in visited && b in EdgesOf(t, Delta(t, p.0, p.1)) ==>
          (Delta(t, p.0, p.1), b) in visited || (Delta(t, p.0, p.1), b) in unvisited)
  }

  /** Before the first iteration: every label leaving the start node is waiting. */
  lemma PairSearchInit<S(!new), Y(!new)>(t: Transition<S, Y>, start: S, vs: set<S>, startEdges: set<Y>)
    requires vs == Start(t, start) && startEdges == EdgesOf(t, vs)
    ensures PairSearchInvariant(t, start, {}, set a | a in startEdges :: (vs, a), {})
  {
    StartReachable(t, start);
  }

  /** Processing a waiting pair keeps `PairSearchInvariant`. */
  lemma PairSearchStep<S(!new), Y(!new)>(
    t: Transition<S, Y>, start: S,
    visited: set<(set<S>, Y)>, unvisited: set<(set<S>, Y)>, result: set<Edge<S, Y>>,
    p: (set<S>, Y), nv: set<S>, edges: set<Y>)
    requires PairSearchInvariant(t, start, visited, unvisited, result)
    requires p in unvisited && p !in visited
    requires nv == Delta(t, p.0, p.1) && edges == EdgesOf(t, nv)
    ensures PairSearchInvariant(t, start, visited + {p},
                            unvisited - {p} + set b | b in edges :: (nv, b),
                            result + {(p.0, p.1, nv)})
  {
    ReachableStep(t, start, p.0, p.1);
  }

  /** With nothing waiting, the processed pairs are exactly the moves of `Dfa`. */
  lemma {:induction false} PairSearchComplete<S(!new), Y(!new)>(
    t: Transition<S, Y>, start: S, visited: set<(set<S>, Y)>, result: set<Edge<S, Y>>, w: seq<Y>, a: Y)
    requires PairSearchInvariant(t, start, visited, {}, result)
    requires Walk(t, Start(t, start), w) && a in EdgesOf(t, DeltaStar(t, Start(t, start), w))
    ensures (DeltaStar(t, Start(t, start), w), a) in visited
    decreases |w|
  {
    if |w| > 0 {
      var v0 := Start(t, start);
      PairSearchComplete(t, start, visited, result, w[..|w| - 1], w[|w| - 1]);
      var p := (DeltaStar(t, v0, w[..|w| - 1]), w[|w| - 1]);
      assert DeltaStar(t, v0, w) == Delta(t, p.0, p.1);
    }
  }

  lemma PairSearchResult<S(!new), Y(!new)>(
    t: Transition<S, Y>, start: S, visited: set<(set<S>, Y)>, result: set<Edge<S, Y>>)
    requires PairSearchInvariant(t, start, visited, {}, result)
    ensures result == Dfa(t, start)
  {
    forall e | e in result ensures e in Dfa(t, start) {
      var p :| p in visited && e == (p.0, p.1, Delta(t, p.0, p.1));
      DfaMember(t, start, e.0, e.1, e.2);
    }
    forall e | e in Dfa(t, start) ensures e in result {
      DfaMember(t, start, e.0, e.1, e.2);
      var v0 := Start(t, start);
      var w :| Walk(t, v0, w) && DeltaStar(t, v0, w) == e.0;
      PairSearchComplete(t, start, visited, result, w, e.1);
      assert (e.0, e.1) in visited;
    }
  }

  /** One productive iteration of `Explore`: the invariant is kept and fewer pairs remain. */
  lemma ExploreStep<S(!new), Y(!new)>(
    t: Transition<S, Y>, start: S, pairs: set<(set<S>, Y)>,
    visited: set<(set<S>, Y)>, unvisited: set<(set<S>, Y)>, result: set<Edge<S, Y>>,
    p: (set<S>, Y), nv: set<S>, edges: set<Y>)
    requires PairSearchInvariant(t, start, visited, unvisited, result)
    requires Pairs(t, start) <= pairs
    requires p in unvisited && p !in visited
    requires nv == Delta(t, p.0, p.1) && edges == EdgesOf(t, nv)
    ensures PairSearchInvariant(t, start, visited + {p},
                                unvisited - {p} + set b | b in edges :: (nv, b),
                                result + {(p.0, p.1, nv)})
    ensures p in pairs && pairs - (visited + {p}) < pairs - visited
  {
    PairSearchStep(t, start, visited, unvisited, result, p, nv, edges);
    CandidateInPairs(t, start, p);
    assert p in pairs - visited && p !in pairs - (visited + {p});
  }

  /**
   The work-list loop: take a waiting (node, label) pair; unless it was
   processed already, record (node, label, closure of the labelled
   successors) and queue every label leaving that new node.
   */
  method Explore<S(==,!new), Y(==,!new)>(
    t: Transition<S, Y>, start: S,
    visited0: set<(set<S>, Y)>, unvisited0: set<(set<S>, Y)>, result0: set<Edge<S, Y>>)
    returns (visited: set<(set<S>, Y)>, result: set<Edge<S, Y>>)
    requires PairSearchInvariant(t, start, visited0, unvisited0, result0)
    ensures PairSearchInvariant(t, start, visited, {}, result)
  {
    visited, result := visited0, result0;
    var unvisited := unvisited0;
    ghost var pairs := Pairs(t, start) + visited0;
    while unvisited != {}
      invariant PairSearchInvariant(t, start, visited, unvisited, result)
      invariant visited <= pairs
      decreases pairs - visited, unvisited
    {
      var pp :| pp in unvisited;
      if pp in visited {
        unvisited := unvisited - {pp};
      } else {
        var image := NextStatesOfSet(t, pp.0, pp.1);
        var nv := EpsilonClosure(t, image);
        var edges := GetEdgesOfSet(t, nv);
        assert nv == Delta(t, pp.0, pp.1) && edges == EdgesOf(t, nv);
        ExploreStep(t, start, pairs, visited, unvisited, result, pp, nv, edges);
        visited := visited + {pp};
        result := result + {(pp.0, pp.1, nv)};
        unvisited := unvisited - {pp} + set b | b in edges :: (nv, b);
      }
    }
  }

  /**
   The powerset construction: the start node is the closure of the start
   state, every label leaving it starts out waiting, and the work-list loop
   runs until nothing waits.
   */
  method PowersetConstruction<S(==,!new), Y(==,!new)>(t: Transition<S, Y>, start: S)
    returns (result: set<Edge<S, Y>>)
    ensures result == Dfa(t, start)
    ensures forall V, a, N :: (V, a, N) in result ==> a in EdgesOf(t, V) && N == Closure(t, Image(t, V, a))
    ensures forall V, a, N :: (V, a, N) in result ==>
              V == Closure(t, {start}) || exists V', a' :: (V', a', V) in result
    ensures forall V, a, N1, N2 :: (V, a, N1) in result && (V, a, N2) in result ==> N1 == N2
    ensures EdgesOf(t, Closure(t, {start})) == {} ==> result == {}
  {
    var vs := EpsilonClosure(t, {start});
    var startEdges := GetEdgesOfSet(t, vs);
    PairSearchInit(t, start, vs, startEdges);
    var visited;
    visited, result := Explore(t, start, {}, set a | a in startEdges :: (vs, a), {});
    PairSearchResult(t, start, visited, result);
    DfaProperties(t, start);
  }
}
