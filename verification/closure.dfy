/**
 Epsilon closure: the states reachable from a set of states by empty moves
 alone. `Closure` is the specification (reachability along paths of empty
 moves); `EpsilonClosure` is the stack-and-visited-set search, with the
 already-visited check that keeps it from looping on cycles of empty moves.
 */
module Epsilon {
  import opened Transitions

  /** A non-empty sequence of states, each an empty-move successor of the one before. */
  ghost predicate IsPath<S(!new), Y(!new)>(t: Transition<S, Y>, p: seq<S>)
  {
    |p| > 0 && forall i :: 0 < i < |p| ==> p[i] in EpsilonSuccessors(t, p[i - 1])
  }

  /** `v` is reachable from some state of `X` by zero or more empty moves. */
  ghost predicate Reaches<S(!new), Y(!new)>(t: Transition<S, Y>, X: set<S>, v: S)
  {
    exists p :: IsPath(t, p) && p[0] in X && p[|p| - 1] == v
  }

  /** `C` is closed under empty moves. */
  ghost predicate Closed<S(!new), Y(!new)>(t: Transition<S, Y>, C: set<S>)
  {
    forall u, v :: u in C && v in EpsilonSuccessors(t, u) ==> v in C
  }

  /**
   The three properties that characterise the epsilon closure `C` of `X`: it
   contains `X`, it is closed under empty moves, and it holds nothing that
   cannot be reached from `X`.
   */
  ghost predicate IsClosureOf<S(!new), Y(!new)>(t: Transition<S, Y>, X: set<S>, C: set<S>)
  {
    && X <= C
    && Closed(t, C)
    && forall v :: v in C ==> Reaches(t, X, v)
  }

  /** Every destination of an empty move. */
  ghost function EpsilonTargets<S(!new), Y(!new)>(t: Transition<S, Y>): set<S>
  {
    set s, u | s in t.emptyTransitions && u in t.emptyTransitions[s] :: u
  }

  /** The epsilon closure of `X`, as a specification. */
  ghost function Closure<S(!new), Y(!new)>(t: Transition<S, Y>, X: set<S>): set<S>
  {
    set v | v in X + EpsilonTargets(t) && Reaches(t, X, v)
  }

  lemma SuccessorsAreTargets<S(!new), Y(!new)>(t: Transition<S, Y>, u: S)
    ensures EpsilonSuccessors(t, u) <= EpsilonTargets(t)
  {
  }

  lemma ReachesStart<S(!new), Y(!new)>(t: Transition<S, Y>, X: set<S>, x: S)
    requires x in X
    ensures Reaches(t, X, x)
  {
    assert IsPath(t, [x]);
  }

  /** Reachability extends by one empty move. */
  lemma ReachesStep<S(!new), Y(!new)>(t: Transition<S, Y>, X: set<S>, u: S, v: S)
    requires Reaches(t, X, u)
    requires v in EpsilonSuccessors(t, u)
    ensures Reaches(t, X, v)
  {
    var p :| IsPath(t, p) && p[0] in X && p[|p| - 1] == u;
    var q := p + [v];
    assert IsPath(t, q);
  }

  /** A reached state is a start state or the destination of an empty move. */
  lemma ReachedIsStartOrTarget<S(!new), Y(!new)>(t: Transition<S, Y>, X: set<S>, v: S)
    requires Reaches(t, X, v)
    ensures v in X + EpsilonTargets(t)
  {
    var p :| IsPath(t, p) && p[0] in X && p[|p| - 1] == v;
    if |p| > 1 {
      SuccessorsAreTargets(t, p[|p| - 2]);
    }
  }

  /** Every state on a path from `X` lies in any closed superset of `X`. */
  lemma {:induction false} PathStaysInside<S(!new), Y(!new)>(t: Transition<S, Y>, D: set<S>, p: seq<S>)
    requires IsPath(t, p) && p[0] in D && Closed(t, D)
    ensures p[|p| - 1] in D
    decreases |p|
  {
    if |p| > 1 {
      var init := p[..|p| - 1];
      assert IsPath(t, init);
      PathStaysInside(t, D, init);
    }
  }

  /** `Closure` meets its characterisation. */
  lemma ClosureIsClosure<S(!new), Y(!new)>(t: Transition<S, Y>, X: set<S>)
    ensures IsClosureOf(t, X, Closure(t, X))
  {
    var C := Closure(t, X);
    forall x | x in X ensures x in C {
      ReachesStart(t, X, x);
    }
    forall u, v | u in C && v in EpsilonSuccessors(t, u) ensures v in C {
      ReachesStep(t, X, u, v);
      SuccessorsAreTargets(t, u);
    }
  }

  /** `Closure(t, X)` is the least superset of `X` closed under empty moves. */
  lemma ClosureLeast<S(!new), Y(!new)>(t: Transition<S, Y>, X: set<S>, D: set<S>)
    requires X <= D && Closed(t, D)
    ensures Closure(t, X) <= D
  {
    forall v | v in Closure(t, X) ensures v in D {
      var p :| IsPath(t, p) && p[0] in X && p[|p| - 1] == v;
      PathStaysInside(t, D, p);
    }
  }

  /** The characterisation pins the closure down: there is only one. */
  lemma ClosureUnique<S(!new), Y(!new)>(t: Transition<S, Y>, X: set<S>, C: set<S>)
    requires IsClosureOf(t, X, C)
    ensures C == Closure(t, X)
  {
    ClosureLeast(t, X, C);
    forall v | v in C ensures v in Closure(t, X) {
      ReachedIsStartOrTarget(t, X, v);
    }
  }

  /** A set closed under empty moves is its own closure. */
  lemma ClosureOfClosed<S(!new), Y(!new)>(t: Transition<S, Y>, X: set<S>)
    requires Closed(t, X)
    ensures Closure(t, X) == X
  {
    forall x | x in X ensures Reaches(t, X, x) {
      ReachesStart(t, X, x);
    }
    ClosureUnique(t, X, X);
  }

  /** Closing twice adds nothing. */
  lemma ClosureIdempotent<S(!new), Y(!new)>(t: Transition<S, Y>, X: set<S>)
    ensures Closure(t, Closure(t, X)) == Closure(t, X)
  {
    var C := Closure(t, X);
    ClosureIsClosure(t, X);
    forall v | v in C ensures Reaches(t, C, v) {
      ReachesStart(t, C, v);
    }
    ClosureUnique(t, C, C);
  }

  /** A larger input set has a larger closure. */
  lemma ClosureMonotone<S(!new), Y(!new)>(t: Transition<S, Y>, X1: set<S>, X2: set<S>)
    requires X1 <= X2
    ensures Closure(t, X1) <= Closure(t, X2)
  {
    ClosureIsClosure(t, X2);
    ClosureLeast(t, X1, Closure(t, X2));
  }

  /**
   What the closure search keeps true between iterations: everything seen is
   reachable and within `universe`, every input state is visited or waiting,
   and the successors of a visited state are visited or waiting.
   */
  ghost predicate SearchInvariant<S(!new), Y(!new)>(
    t: Transition<S, Y>, X: set<S>, universe: set<S>, visited: set<S>, unvisited: set<S>)
  {
    && visited <= universe && unvisited <= universe
    && X <= visited + unvisited
    && (forall u :: u in visited ==> EpsilonSuccessors(t, u) <= visited + unvisited)
    && (forall v :: v in visited ==> Reaches(t, X, v))
    && (forall v :: v in unvisited ==> Reaches(t, X, v))
  }

  /** One iteration of the closure search keeps `SearchInvariant`. */
  lemma SearchStep<S(!new), Y(!new)>(
    t: Transition<S, Y>, X: set<S>, visited: set<S>, unvisited: set<S>, v: S)
    requires SearchInvariant(t, X, X + EpsilonTargets(t), visited, unvisited)
    requires v in unvisited && v !in visited
    ensures SearchInvariant(t, X, X + EpsilonTargets(t), visited + {v},
                            unvisited - {v} + EpsilonSuccessors(t, v))
  {
    SuccessorsAreTargets(t, v);
    forall w | w in EpsilonSuccessors(t, v) ensures Reaches(t, X, w) {
      ReachesStep(t, X, v, w);
    }
  }

  /** Dropping a popped state that is already visited keeps `SearchInvariant`. */
  lemma SearchSkip<S(!new), Y(!new)>(
    t: Transition<S, Y>, X: set<S>, universe: set<S>, visited: set<S>, unvisited: set<S>, v: S)
    requires SearchInvariant(t, X, universe, visited, unvisited)
    requires v in visited
    ensures SearchInvariant(t, X, universe, visited, unvisited - {v})
  {
  }

  /** With nothing waiting, the visited states are the closure. */
  lemma SearchDone<S(!new), Y(!new)>(t: Transition<S, Y>, X: set<S>, universe: set<S>, visited: set<S>)
    requires SearchInvariant(t, X, universe, visited, {})
    ensures IsClosureOf(t, X, visited) && visited == Closure(t, X)
  {
    ClosureUnique(t, X, visited);
  }

  /**
   The closure search. States wait on a work list; a popped state that is not
   yet visited is marked visited and its empty-move successors join the work
   list. The visited check on pop is what makes the search terminate when the
   empty moves form a cycle.
   */
  method EpsilonClosure<S(==,!new), Y(==,!new)>(t: Transition<S, Y>, X: set<S>) returns (c: set<S>)
    ensures X <= c
    ensures Closed(t, c)
    ensures forall v :: v in c ==> Reaches(t, X, v)
    ensures c == Closure(t, X)
  {
    ghost var universe := X + EpsilonTargets(t);
    forall x | x in X ensures Reaches(t, X, x) {
      ReachesStart(t, X, x);
    }
    var unvisited := X;
    c := {};
    while unvisited != {}
      invariant SearchInvariant(t, X, universe, c, unvisited)
      decreases universe - c, unvisited
    {
      var v :| v in unvisited;
      if v in c {
        SearchSkip(t, X, universe, c, unvisited, v);
        unvisited := unvisited - {v};
      } else {
        SearchStep(t, X, c, unvisited, v);
        assert v in universe - c;
        c := c + {v};
        unvisited := unvisited - {v} + EpsilonSuccessors(t, v);
      }
    }
    SearchDone(t, X, universe, c);
  }
}
