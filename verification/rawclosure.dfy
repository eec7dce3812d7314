/**
 The closure loop of `epsilon_closure` exactly as written in transition.h:
 every popped state is marked visited and all its empty-move successors are
 pushed again, whether or not it was visited before. The stack is a multiset
 and any element may be popped, so every statement below holds for the
 source's last-in-first-out order in particular.

 Three facts about this loop: if the input reaches a cycle of empty moves the
 stack never empties; whenever the stack does empty, the visited set is the
 epsilon closure; and when a rank function decreases along every empty move
 (the empty moves are acyclic) the loop stops after a bounded number of
 iterations, namely the number of empty-move paths leaving the input.
 */
module RawClosure {
  import opened Transitions
  import opened Epsilon

  /** The variables of the loop: the stack of states to expand and the visited set. */
  datatype Loop<S> = Loop(unvisited: multiset<S>, visited: set<S>)

  /** Before the first iteration every input state is on the stack once. */
  function Init<S(!new)>(X: set<S>): (c: Loop<S>)
    ensures c.visited == {}
    ensures forall s :: c.unvisited[s] == (if s in X then 1 else 0)
    ensures |c.unvisited| == |X|
  {
    Loop(multiset(X), {})
  }

  /** One iteration as written: pop `v`, mark it visited, push all its successors. */
  function Iterate<S(==,!new), Y(==,!new)>(t: Transition<S, Y>, c: Loop<S>, v: S): (c': Loop<S>)
    requires v in c.unvisited
    ensures |c'.unvisited| == |c.unvisited| - 1 + |EpsilonSuccessors(t, v)|
    ensures c'.visited == c.visited + {v}
  {
    Loop(c.unvisited - multiset{v} + multiset(EpsilonSuccessors(t, v)), c.visited + {v})
  }

  /** `c'` follows `c` by one iteration that pops some state on the stack. */
  ghost predicate Step<S(!new), Y(!new)>(t: Transition<S, Y>, c: Loop<S>, c': Loop<S>)
  {
    exists v :: v in c.unvisited && c' == Iterate(t, c, v)
  }

  /** `run` lists the loop states of the first |run| - 1 iterations, for some pop order. */
  ghost predicate IsRun<S(!new), Y(!new)>(t: Transition<S, Y>, X: set<S>, run: seq<Loop<S>>)
  {
    && |run| > 0
    && run[0] == Init(X)
    && forall i :: 0 <= i < |run| - 1 ==> Step(t, run[i], run[i + 1])
  }

  lemma RunPrefix<S(!new), Y(!new)>(t: Transition<S, Y>, X: set<S>, run: seq<Loop<S>>)
    requires IsRun(t, X, run) && |run| > 1
    ensures IsRun(t, X, run[..|run| - 1])
    ensures Step(t, run[|run| - 2], run[|run| - 1])
  {
    var init := run[..|run| - 1];
    forall i | 0 <= i < |init| - 1 ensures Step(t, init[i], init[i + 1]) {
      assert init[i] == run[i] && init[i + 1] == run[i + 1];
    }
  }

  // ---------------------------------------------------------------------
  // Divergence on a cycle of empty moves
  // ---------------------------------------------------------------------

  /** `c` lies on a cycle of one or more empty moves. */
  ghost predicate OnCycle<S(!new), Y(!new)>(t: Transition<S, Y>, c: S)
  {
    exists p :: IsPath(t, p) && |p| > 1 && p[0] == c && p[|p| - 1] == c
  }

  /** Some empty-move path from `v` ends on a cycle. */
  ghost predicate LeadsToCycle<S(!new), Y(!new)>(t: Transition<S, Y>, v: S)
  {
    exists p :: IsPath(t, p) && p[0] == v && OnCycle(t, p[|p| - 1])
  }

  lemma PathSuffix<S(!new), Y(!new)>(t: Transition<S, Y>, p: seq<S>)
    requires IsPath(t, p) && |p| > 1
    ensures IsPath(t, p[1..])
  {
    forall i | 0 < i < |p| - 1 ensures p[1..][i] in EpsilonSuccessors(t, p[1..][i - 1]) {
      assert p[1..][i] == p[i + 1];
    }
  }

  /** A state that leads to a cycle has a successor that does too. */
  lemma CycleSuccessor<S(!new), Y(!new)>(t: Transition<S, Y>, v: S) returns (w: S)
    requires LeadsToCycle(t, v)
    ensures w in EpsilonSuccessors(t, v) && LeadsToCycle(t, w)
  {
    var p :| IsPath(t, p) && p[0] == v && OnCycle(t, p[|p| - 1]);
    if |p| > 1 {
      PathSuffix(t, p);
      w := p[1];
      assert p[1..][0] == w && p[1..][|p[1..]| - 1] == p[|p| - 1];
    } else {
      var q :| IsPath(t, q) && |q| > 1 && q[0] == v && q[|q| - 1] == v;
      PathSuffix(t, q);
      w := q[1];
      assert q[1..][0] == w && q[1..][|q[1..]| - 1] == v;
    }
  }

  /** Some state waiting on the stack leads to a cycle. */
  ghost predicate Doomed<S(!new), Y(!new)>(t: Transition<S, Y>, c: Loop<S>)
  {
    exists v :: v in c.unvisited && LeadsToCycle(t, v)
  }

  /** No iteration gets rid of a state that leads to a cycle. */
  lemma IterateStaysDoomed<S(!new), Y(!new)>(t: Transition<S, Y>, c: Loop<S>, v: S)
    requires Doomed(t, c) && v in c.unvisited
    ensures Doomed(t, Iterate(t, c, v))
  {
    var d :| d in c.unvisited && LeadsToCycle(t, d);
    var c' := Iterate(t, c, v);
    if d == v {
      var w := CycleSuccessor(t, v);
      assert w in c'.unvisited;
    } else {
      assert d in c'.unvisited;
    }
  }

  /** A state waiting on the stack of a doomed loop. */
  lemma Waiting<S(!new), Y(!new)>(t: Transition<S, Y>, c: Loop<S>) returns (v: S)
    requires Doomed(t, c)
    ensures v in c.unvisited
  {
    v :| v in c.unvisited && LeadsToCycle(t, v);
  }

  /**
   The as-written loop never finishes when an input state reaches a cycle of
   empty moves: after any number of iterations, in any pop order, the stack
   still holds a state, so the loop condition is still true.
   */
  lemma RawDiverges<S(!new), Y(!new)>(t: Transition<S, Y>, X: set<S>, run: seq<Loop<S>>)
    requires IsRun(t, X, run)
    requires exists x :: x in X && LeadsToCycle(t, x)
    ensures run[|run| - 1].unvisited != multiset{}
  {
    RunDoomed(t, X, run);
  }

  lemma {:induction false} RunDoomed<S(!new), Y(!new)>(t: Transition<S, Y>, X: set<S>, run: seq<Loop<S>>)
    requires IsRun(t, X, run)
    requires exists x :: x in X && LeadsToCycle(t, x)
    ensures Doomed(t, run[|run| - 1])
    decreases |run|
  {
    if |run| == 1 {
      var x :| x in X && LeadsToCycle(t, x);
      assert x in run[0].unvisited;
    } else {
      RunPrefix(t, X, run);
      RunDoomed(t, X, run[..|run| - 1]);
      var i := |run| - 1;
      var v :| v in run[i - 1].unvisited && run[i] == Iterate(t, run[i - 1], v);
      IterateStaysDoomed(t, run[i - 1], v);
    }
  }

  // ---------------------------------------------------------------------
  // The result, when there is one, is the closure
  // ---------------------------------------------------------------------

  /** What every iteration of the as-written loop keeps true. */
  ghost predicate RawInvariant<S(!new), Y(!new)>(t: Transition<S, Y>, X: set<S>, c: Loop<S>)
  {
    && (forall x :: x in X ==> x in c.visited || x in c.unvisited)
    && (forall u, w :: u in c.visited && w in EpsilonSuccessors(t, u) ==> w in c.visited || w in c.unvisited)
    && (forall v :: v in c.visited ==> Reaches(t, X, v))
    && (forall v :: v in c.unvisited ==> Reaches(t, X, v))
  }

  lemma IterateKeepsInvariant<S(!new), Y(!new)>(t: Transition<S, Y>, X: set<S>, c: Loop<S>, v: S)
    requires RawInvariant(t, X, c) && v in c.unvisited
    ensures RawInvariant(t, X, Iterate(t, c, v))
  {
    var c' := Iterate(t, c, v);
    forall w | w in c'.unvisited ensures Reaches(t, X, w) {
      if w !in c.unvisited {
        ReachesStep(t, X, v, w);
      }
    }
  }

  lemma {:induction false} RunKeepsInvariant<S(!new), Y(!new)>(t: Transition<S, Y>, X: set<S>, run: seq<Loop<S>>)
    requires IsRun(t, X, run)
    ensures RawInvariant(t, X, run[|run| - 1])
    decreases |run|
  {
    if |run| == 1 {
      forall x | x in X ensures Reaches(t, X, x) {
        ReachesStart(t, X, x);
      }
    } else {
      RunPrefix(t, X, run);
      RunKeepsInvariant(t, X, run[..|run| - 1]);
      var i := |run| - 1;
      var v :| v in run[i - 1].unvisited && run[i] == Iterate(t, run[i - 1], v);
      IterateKeepsInvariant(t, X, run[i - 1], v);
    }
  }

  /**
   Whenever the as-written loop does stop, in whatever pop order, its visited
   set is the epsilon closure of the input.
   */
  lemma RawResultIsClosure<S(!new), Y(!new)>(t: Transition<S, Y>, X: set<S>, run: seq<Loop<S>>)
    requires IsRun(t, X, run)
    requires run[|run| - 1].unvisited == multiset{}
    ensures run[|run| - 1].visited == Closure(t, X)
  {
    RunKeepsInvariant(t, X, run);
    ClosureUnique(t, X, run[|run| - 1].visited);
  }

  // ---------------------------------------------------------------------
  // Termination when the empty moves are acyclic
  // ---------------------------------------------------------------------

  /**
   `rank` strictly decreases along every empty move. Such a rank exists
   exactly when the empty moves of a finite relation have no cycle.
   */
  ghost predicate Ranked<S(!new), Y(!new)>(t: Transition<S, Y>, rank: S -> nat)
  {
    forall v, w :: w in EpsilonSuccessors(t, v) ==> rank(w) < rank(v)
  }

  lemma {:induction false} RankDecreasesAlongPath<S(!new), Y(!new)>(t: Transition<S, Y>, rank: S -> nat, p: seq<S>)
    requires Ranked(t, rank) && IsPath(t, p) && |p| > 1
    ensures rank(p[|p| - 1]) < rank(p[0])
    decreases |p|
  {
    if |p| > 2 {
      var init := p[..|p| - 1];
      assert IsPath(t, init);
      RankDecreasesAlongPath(t, rank, init);
    }
  }

  /** A ranked relation has no cycle of empty moves, so the loop cannot diverge. */
  lemma RankedIsAcyclic<S(!new), Y(!new)>(t: Transition<S, Y>, rank: S -> nat, c: S)
    requires Ranked(t, rank)
    ensures !OnCycle(t, c)
  {
    if OnCycle(t, c) {
      var p :| IsPath(t, p) && |p| > 1 && p[0] == c && p[|p| - 1] == c;
      RankDecreasesAlongPath(t, rank, p);
    }
  }

  /** The number of empty-move paths that start at `v` (`v` alone included). */
  ghost function Paths<S(!new), Y(!new)>(t: Transition<S, Y>, rank: S -> nat, v: S): nat
    requires Ranked(t, rank)
    decreases rank(v), 1, 0
  {
    1 + SuccessorPaths(t, rank, v, EpsilonSuccessors(t, v))
  }

  /** The sum of `Paths` over the successors `ws` of `v`. */
  ghost function SuccessorPaths<S(!new), Y(!new)>(t: Transition<S, Y>, rank: S -> nat, v: S, ws: set<S>): nat
    requires Ranked(t, rank) && ws <= EpsilonSuccessors(t, v)
    decreases rank(v), 0, |ws|
  {
    if ws == {} then 0
    else
      var w :| w in ws;
      Paths(t, rank, w) + SuccessorPaths(t, rank, v, ws - {w})
  }

  /** The sum of `Paths` over a stack. */
  ghost function Weight<S(!new), Y(!new)>(t: Transition<S, Y>, rank: S -> nat, m: multiset<S>): nat
    requires Ranked(t, rank)
    decreases |m|
  {
    if m == multiset{} then 0
    else
      var x :| x in m;
      Paths(t, rank, x) + Weight(t, rank, m - multiset{x})
  }

  lemma {:induction false} WeightRemove<S(!new), Y(!new)>(t: Transition<S, Y>, rank: S -> nat, m: multiset<S>, y: S)
    requires Ranked(t, rank) && y in m
    ensures Weight(t, rank, m) == Paths(t, rank, y) + Weight(t, rank, m - multiset{y})
    decreases |m|
  {
    var x :| x in m && Weight(t, rank, m) == Paths(t, rank, x) + Weight(t, rank, m - multiset{x});
    if x != y {
      WeightRemove(t, rank, m - multiset{x}, y);
      WeightRemove(t, rank, m - multiset{y}, x);
      assert m - multiset{x} - multiset{y} == m - multiset{y} - multiset{x};
    }
  }

  lemma {:induction false} WeightSum<S(!new), Y(!new)>(t: Transition<S, Y>, rank: S -> nat, m1: multiset<S>, m2: multiset<S>)
    requires Ranked(t, rank)
    ensures Weight(t, rank, m1 + m2) == Weight(t, rank, m1) + Weight(t, rank, m2)
    decreases |m2|
  {
    if m2 != multiset{} {
      var y :| y in m2;
      WeightRemove(t, rank, m1 + m2, y);
      WeightRemove(t, rank, m2, y);
      assert m1 + m2 - multiset{y} == m1 + (m2 - multiset{y});
      WeightSum(t, rank, m1, m2 - multiset{y});
    } else {
      assert m1 + m2 == m1;
    }
  }

  lemma {:induction false} WeightOfSuccessors<S(!new), Y(!new)>(t: Transition<S, Y>, rank: S -> nat, v: S, ws: set<S>)
    requires Ranked(t, rank) && ws <= EpsilonSuccessors(t, v)
    ensures Weight(t, rank, multiset(ws)) == SuccessorPaths(t, rank, v, ws)
    decreases |ws|
  {
    if ws != {} {
      var w :| w in ws && SuccessorPaths(t, rank, v, ws) == Paths(t, rank, w) + SuccessorPaths(t, rank, v, ws - {w});
      WeightOfSuccessors(t, rank, v, ws - {w});
      assert multiset(ws - {w}) == multiset(ws) - multiset{w};
      WeightRemove(t, rank, multiset(ws), w);
    }
  }

  /** Each iteration lowers the weight of the stack by exactly one. */
  lemma IterateWeight<S(!new), Y(!new)>(t: Transition<S, Y>, rank: S -> nat, c: Loop<S>, v: S)
    requires Ranked(t, rank) && v in c.unvisited
    ensures Weight(t, rank, Iterate(t, c, v).unvisited) + 1 == Weight(t, rank, c.unvisited)
  {
    var succ := EpsilonSuccessors(t, v);
    WeightRemove(t, rank, c.unvisited, v);
    WeightSum(t, rank, c.unvisited - multiset{v}, multiset(succ));
    WeightOfSuccessors(t, rank, v, succ);
  }

  lemma WeightZero<S(!new), Y(!new)>(t: Transition<S, Y>, rank: S -> nat, m: multiset<S>)
    requires Ranked(t, rank)
    ensures Weight(t, rank, m) == 0 <==> m == multiset{}
  {
  }

  /**
   On ranked (acyclic) empty moves the as-written loop stops: no run is longer
   than the number of empty-move paths leaving the input, and after exactly
   that many iterations the stack is empty.
   */
  lemma {:induction false} RawTerminates<S(!new), Y(!new)>(t: Transition<S, Y>, rank: S -> nat, X: set<S>, run: seq<Loop<S>>)
    requires Ranked(t, rank) && IsRun(t, X, run)
    ensures |run| - 1 + Weight(t, rank, run[|run| - 1].unvisited) == Weight(t, rank, multiset(X))
    ensures |run| <= 1 + Weight(t, rank, multiset(X))
    ensures |run| == 1 + Weight(t, rank, multiset(X)) ==> run[|run| - 1].unvisited == multiset{}
    decreases |run|
  {
    if |run| > 1 {
      RunPrefix(t, X, run);
      RawTerminates(t, rank, X, run[..|run| - 1]);
      var i := |run| - 1;
      var v :| v in run[i - 1].unvisited && run[i] == Iterate(t, run[i - 1], v);
      IterateWeight(t, rank, run[i - 1], v);
    }
    WeightZero(t, rank, run[|run| - 1].unvisited);
  }
}
