/**
 The transition relation of a non-deterministic finite automaton with empty
 (epsilon) moves. The relation is stored as three indexes that `Add` keeps in
 step: labelled moves keyed by (state, label), empty moves keyed by state, and
 the labels leaving each state. The set of triples added so far (`Triples`) is
 the abstract view every query is specified against.
 */
module Transitions {

  /** One move of the automaton: (source, label, destination). */
  type Triple<S, Y> = (S, Y, S)

  datatype Transition<S(==,!new), Y(==,!new)> = Transition(
    epsilon: Y,                        // the label reserved for empty moves
    next: map<(S, Y), set<S>>,         // labelled moves, by (state, label)
    emptyTransitions: map<S, set<S>>,  // empty moves, by state
    edges: map<S, set<Y>>)             // labels leaving each state

  /** The set stored under `k`, or the empty set when `k` has no entry. */
  function Lookup<K(==), V>(m: map<K, set<V>>, k: K): set<V>
  {
    if k in m then m[k] else {}
  }

  /**
   The index invariant: a (state, label) pair is a key of `next` exactly when
   the label is among the state's edges, no index holds an empty entry, and
   the epsilon label never shows up among the edges (hence never in `next`).
   */
  ghost predicate Valid<S(!new), Y(!new)>(t: Transition<S, Y>)
  {
    && (forall s, a :: (s, a) in t.next <==> s in t.edges && a in t.edges[s])
    && (forall s :: s in t.edges ==> t.epsilon !in t.edges[s] && t.edges[s] != {})
    && (forall k :: k in t.next ==> t.next[k] != {})
    && (forall s :: s in t.emptyTransitions ==> t.emptyTransitions[s] != {})
  }

  /** Every triple recorded by the three indexes. */
  ghost function Triples<S(!new), Y(!new)>(t: Transition<S, Y>): set<Triple<S, Y>>
  {
    (set k, u | k in t.next && u in t.next[k] :: (k.0, k.1, u))
    + (set s, u | s in t.emptyTransitions && u in t.emptyTransitions[s] :: (s, t.epsilon, u))
  }

  /** Where a triple of `Triples(t)` can come from. */
  lemma TriplesMembership<S(!new), Y(!new)>(t: Transition<S, Y>, s: S, a: Y, u: S)
    ensures (s, a, u) in Triples(t) <==>
      u in Lookup(t.next, (s, a)) || (a == t.epsilon && u in Lookup(t.emptyTransitions, s))
  {
    if u in Lookup(t.next, (s, a)) {
      var k := (s, a);
      assert (k.0, k.1, u) in Triples(t);
    }
    if a == t.epsilon && u in Lookup(t.emptyTransitions, s) {
      assert (s, t.epsilon, u) in Triples(t);
    }
  }

  /**
   A relation with no transitions whose empty label is `epsilon`. This takes
   the place of default construction followed by `set_empty_symbol`.
   */
  function Empty<S(==,!new), Y(==,!new)>(epsilon: Y): (t: Transition<S, Y>)
    ensures t.epsilon == epsilon
    ensures Valid(t)
    ensures Triples(t) == {}
  {
    Transition(epsilon, map[], map[], map[])
  }

  /** Records the move (st, symb, newSt). */
  function Add<S(==,!new), Y(==,!new)>(t: Transition<S, Y>, st: S, symb: Y, newSt: S): (t': Transition<S, Y>)
    ensures t'.epsilon == t.epsilon
    ensures symb == t.epsilon ==>
              && st in t'.emptyTransitions && newSt in t'.emptyTransitions[st]
              && t'.next == t.next && t'.edges == t.edges
    ensures symb != t.epsilon ==>
              && st in t'.edges && symb in t'.edges[st]
              && (st, symb) in t'.next && newSt in t'.next[(st, symb)]
              && t'.emptyTransitions == t.emptyTransitions
  {
    if symb == t.epsilon then
      t.(emptyTransitions := t.emptyTransitions[st := Lookup(t.emptyTransitions, st) + {newSt}])
    else
      t.(edges := t.edges[st := Lookup(t.edges, st) + {symb}],
         next := t.next[(st, symb) := Lookup(t.next, (st, symb)) + {newSt}])
  }

  /** `Add` keeps the index invariant. */
  lemma AddValid<S(!new), Y(!new)>(t: Transition<S, Y>, st: S, symb: Y, newSt: S)
    requires Valid(t)
    ensures Valid(Add(t, st, symb, newSt))
  {
  }

  /** `Add` records exactly one more triple and forgets none. */
  lemma AddTriples<S(!new), Y(!new)>(t: Transition<S, Y>, st: S, symb: Y, newSt: S)
    ensures Triples(Add(t, st, symb, newSt)) == Triples(t) + {(st, symb, newSt)}
  {
    var t' := Add(t, st, symb, newSt);
    forall x | x in Triples(t')
      ensures x in Triples(t) + {(st, symb, newSt)}
    {
      TriplesMembership(t', x.0, x.1, x.2);
      TriplesMembership(t, x.0, x.1, x.2);
    }
    forall x | x in Triples(t) + {(st, symb, newSt)}
      ensures x in Triples(t')
    {
      TriplesMembership(t', x.0, x.1, x.2);
      TriplesMembership(t, x.0, x.1, x.2);
    }
  }

  /**
   A valid relation is determined by its epsilon label and its triples: the
   three indexes hold no information beyond the set of moves added.
   */
  lemma TriplesDetermine<S(!new), Y(!new)>(t1: Transition<S, Y>, t2: Transition<S, Y>)
    requires Valid(t1) && Valid(t2)
    requires t1.epsilon == t2.epsilon
    requires Triples(t1) == Triples(t2)
    ensures t1 == t2
  {
    forall k | k in t1.next
      ensures k in t2.next && t1.next[k] == t2.next[k]
    {
      forall u | u in t1.next[k] ensures u in Lookup(t2.next, k) {
        TriplesMembership(t1, k.0, k.1, u);
        TriplesMembership(t2, k.0, k.1, u);
      }
      forall u | u in Lookup(t2.next, k) ensures u in t1.next[k] {
        TriplesMembership(t1, k.0, k.1, u);
        TriplesMembership(t2, k.0, k.1, u);
      }
    }
    forall k | k in t2.next
      ensures k in t1.next
    {
      var u :| u in t2.next[k];
      TriplesMembership(t1, k.0, k.1, u);
      TriplesMembership(t2, k.0, k.1, u);
    }
    assert t1.next == t2.next;
    forall s | s in t1.emptyTransitions
      ensures s in t2.emptyTransitions && t1.emptyTransitions[s] == t2.emptyTransitions[s]
    {
      forall u | u in t1.emptyTransitions[s] ensures u in Lookup(t2.emptyTransitions, s) {
        TriplesMembership(t1, s, t1.epsilon, u);
        TriplesMembership(t2, s, t1.epsilon, u);
      }
      forall u | u in Lookup(t2.emptyTransitions, s) ensures u in t1.emptyTransitions[s] {
        TriplesMembership(t1, s, t1.epsilon, u);
        TriplesMembership(t2, s, t1.epsilon, u);
      }
    }
    forall s | s in t2.emptyTransitions
      ensures s in t1.emptyTransitions
    {
      var u :| u in t2.emptyTransitions[s];
      TriplesMembership(t1, s, t1.epsilon, u);
      TriplesMembership(t2, s, t1.epsilon, u);
    }
    assert t1.emptyTransitions == t2.emptyTransitions;
    forall s | s in t1.edges
      ensures s in t2.edges && t1.edges[s] == t2.edges[s]
    {
      var a :| a in t1.edges[s];
      assert (s, a) in t2.next;
      forall b | b in t1.edges[s] ensures b in t2.edges[s] {
        assert (s, b) in t2.next;
      }
      forall b | b in t2.edges[s] ensures b in t1.edges[s] {
        assert (s, b) in t1.next;
      }
    }
    forall s | s in t2.edges
      ensures s in t1.edges
    {
      var a :| a in t2.edges[s];
      assert (s, a) in t1.next;
    }
    assert t1.edges == t2.edges;
  }

  /** Adding the same triple twice leaves the relation as adding it once. */
  lemma AddIdempotent<S(!new), Y(!new)>(t: Transition<S, Y>, st: S, symb: Y, newSt: S)
    ensures Add(Add(t, st, symb, newSt), st, symb, newSt) == Add(t, st, symb, newSt)
  {
  }

  /** The relation built by adding the triples of `ts` in order. */
  function Build<S(==,!new), Y(==,!new)>(epsilon: Y, ts: seq<Triple<S, Y>>): (t: Transition<S, Y>)
    ensures t.epsilon == epsilon
    ensures Valid(t)
    ensures Triples(t) == set x | x in ts
    decreases |ts|
  {
    if |ts| == 0 then Empty(epsilon)
    else
      var init, last := ts[..|ts| - 1], ts[|ts| - 1];
      var prefix := Build(epsilon, init);
      AddValid(prefix, last.0, last.1, last.2);
      AddTriples(prefix, last.0, last.1, last.2);
      assert ts == init + [last];
      assert (set x | x in ts) == (set x | x in init) + {last};
      Add(prefix, last.0, last.1, last.2)
  }

  /**
   The relation depends only on which triples were added, not on their order
   or repetition.
   */
  lemma BuildOrderIrrelevant<S(!new), Y(!new)>(epsilon: Y, ts1: seq<Triple<S, Y>>, ts2: seq<Triple<S, Y>>)
    requires forall x :: x in ts1 <==> x in ts2
    ensures Build(epsilon, ts1) == Build(epsilon, ts2)
  {
    var t1, t2 := Build(epsilon, ts1), Build(epsilon, ts2);
    TriplesDetermine(t1, t2);
  }

  /** The destinations of labelled moves from `s` with label `symb`. */
  function NextStates<S(==,!new), Y(==,!new)>(t: Transition<S, Y>, s: S, symb: Y): (r: set<S>)
    ensures Valid(t) ==>
              forall u :: u in r <==> symb != t.epsilon && (s, symb, u) in Triples(t)
  {
    var r := Lookup(t.next, (s, symb));
    assert Valid(t) ==> forall u :: u in r <==> symb != t.epsilon && (s, symb, u) in Triples(t) by {
      forall u ensures Valid(t) ==> (u in r <==> symb != t.epsilon && (s, symb, u) in Triples(t)) {
        TriplesMembership(t, s, symb, u);
      }
    }
    r
  }

  /** The destinations of empty moves from `s`. */
  function EpsilonSuccessors<S(==,!new), Y(==,!new)>(t: Transition<S, Y>, s: S): (r: set<S>)
    ensures Valid(t) ==> forall u :: u in r <==> (s, t.epsilon, u) in Triples(t)
  {
    var r := Lookup(t.emptyTransitions, s);
    assert Valid(t) ==> forall u :: u in r <==> (s, t.epsilon, u) in Triples(t) by {
      forall u ensures Valid(t) ==> (u in r <==> (s, t.epsilon, u) in Triples(t)) {
        TriplesMembership(t, s, t.epsilon, u);
      }
    }
    r
  }

  /** The labels of the labelled moves leaving `s`. */
  function GetEdges<S(==,!new), Y(==,!new)>(t: Transition<S, Y>, s: S): (r: set<Y>)
    ensures Valid(t) ==>
              forall a :: a in r <==> a != t.epsilon && exists u :: (s, a, u) in Triples(t)
  {
    var r := Lookup(t.edges, s);
    assert Valid(t) ==> forall a :: a in r <==> a != t.epsilon && exists u :: (s, a, u) in Triples(t) by {
      if Valid(t) {
        forall a ensures a in r <==> a != t.epsilon && exists u :: (s, a, u) in Triples(t) {
          if a in r {
            assert (s, a) in t.next;
            var u :| u in t.next[(s, a)];
            TriplesMembership(t, s, a, u);
          }
          if a != t.epsilon && exists u :: (s, a, u) in Triples(t) {
            var u :| (s, a, u) in Triples(t);
            TriplesMembership(t, s, a, u);
          }
        }
      }
    }
    r
  }

  /** The union of `NextStates(t, s, symb)` over the states `s` of `V`. */
  ghost function Image<S(!new), Y(!new)>(t: Transition<S, Y>, V: set<S>, symb: Y): set<S>
  {
    set s, u | s in V && u in NextStates(t, s, symb) :: u
  }

  /** The union of `GetEdges(t, s)` over the states `s` of `V`. */
  ghost function EdgesOf<S(!new), Y(!new)>(t: Transition<S, Y>, V: set<S>): set<Y>
  {
    set s, a | s in V && a in GetEdges(t, s) :: a
  }

  /** The set overload of `next_states`: one lookup per state, accumulated. */
  method NextStatesOfSet<S(==,!new), Y(==,!new)>(t: Transition<S, Y>, V: set<S>, symb: Y) returns (r: set<S>)
    ensures r == Image(t, V, symb)
  {
    r := {};
    var rest := V;
    while rest != {}
      invariant rest <= V
      invariant r == Image(t, V - rest, symb)
      decreases rest
    {
      var s :| s in rest;
      r := r + NextStates(t, s, symb);
      rest := rest - {s};
    }
  }

  /** The set overload of `get_edges`: one lookup per state, accumulated. */
  method GetEdgesOfSet<S(==,!new), Y(==,!new)>(t: Transition<S, Y>, V: set<S>) returns (r: set<Y>)
    ensures r == EdgesOf(t, V)
  {
    r := {};
    var rest := V;
    while rest != {}
      invariant rest <= V
      invariant r == EdgesOf(t, V - rest)
      decreases rest
    {
      var s :| s in rest;
      r := r + GetEdges(t, s);
      rest := rest - {s};
    }
  }

  /**
   The set overload of `next_states` in terms of the moves added: a state is
   in the image exactly when some state of `V` has a non-empty move to it with
   that label. In particular the epsilon label yields nothing.
   */
  lemma ImageTriples<S(!new), Y(!new)>(t: Transition<S, Y>, V: set<S>, symb: Y, u: S)
    requires Valid(t)
    ensures u in Image(t, V, symb) <==> symb != t.epsilon && exists s :: s in V && (s, symb, u) in Triples(t)
  {
    if symb != t.epsilon && exists s :: s in V && (s, symb, u) in Triples(t) {
      var s :| s in V && (s, symb, u) in Triples(t);
      assert u in NextStates(t, s, symb);
    }
  }

  /** The set overload of `get_edges` in terms of the moves added. */
  lemma EdgesOfTriples<S(!new), Y(!new)>(t: Transition<S, Y>, V: set<S>, a: Y)
    requires Valid(t)
    ensures a in EdgesOf(t, V) <==> a != t.epsilon && exists s, u :: s in V && (s, a, u) in Triples(t)
  {
    if a != t.epsilon && exists s, u :: s in V && (s, a, u) in Triples(t) {
      var s, u :| s in V && (s, a, u) in Triples(t);
      assert a in GetEdges(t, s);
    }
  }

  /** Lifting distributes over union: the overload for a set is the union of the per-state lookups. */
  lemma ImageUnion<S(!new), Y(!new)>(t: Transition<S, Y>, V1: set<S>, V2: set<S>, symb: Y)
    ensures Image(t, V1 + V2, symb) == Image(t, V1, symb) + Image(t, V2, symb)
  {
  }

  lemma ImageSingleton<S(!new), Y(!new)>(t: Transition<S, Y>, s: S, symb: Y)
    ensures Image(t, {s}, symb) == NextStates(t, s, symb)
  {
    forall u | u in NextStates(t, s, symb) ensures u in Image(t, {s}, symb) {
    }
  }

  lemma EdgesOfUnion<S(!new), Y(!new)>(t: Transition<S, Y>, V1: set<S>, V2: set<S>)
    ensures EdgesOf(t, V1 + V2) == EdgesOf(t, V1) + EdgesOf(t, V2)
  {
  }

  lemma EdgesOfSingleton<S(!new), Y(!new)>(t: Transition<S, Y>, s: S)
    ensures EdgesOf(t, {s}) == GetEdges(t, s)
  {
    forall a | a in GetEdges(t, s) ensures a in EdgesOf(t, {s}) {
    }
  }

  /** The lifted lookup of a three-element set, spelled out. */
  lemma ImageOfThree<S(!new), Y(!new)>(t: Transition<S, Y>, x: S, y: S, z: S, symb: Y)
    ensures Image(t, {x, y, z}, symb) == NextStates(t, x, symb) + NextStates(t, y, symb) + NextStates(t, z, symb)
  {
    assert {x, y, z} == {x} + {y} + {z};
    ImageUnion(t, {x} + {y}, {z}, symb);
    ImageUnion(t, {x}, {y}, symb);
    ImageSingleton(t, x, symb);
    ImageSingleton(t, y, symb);
    ImageSingleton(t, z, symb);
  }

  /** The lifted edges of a three-element set, spelled out. */
  lemma EdgesOfThree<S(!new), Y(!new)>(t: Transition<S, Y>, x: S, y: S, z: S)
    ensures EdgesOf(t, {x, y, z}) == GetEdges(t, x) + GetEdges(t, y) + GetEdges(t, z)
  {
    assert {x, y, z} == {x} + {y} + {z};
    EdgesOfUnion(t, {x} + {y}, {z});
    EdgesOfUnion(t, {x}, {y});
    EdgesOfSingleton(t, x);
    EdgesOfSingleton(t, y);
    EdgesOfSingleton(t, z);
  }

  /** Empty moves never show through the labelled queries. */
  lemma NoEpsilonLeak<S(!new), Y(!new)>(t: Transition<S, Y>, s: S)
    requires Valid(t)
    ensures t.epsilon !in GetEdges(t, s)
    ensures NextStates(t, s, t.epsilon) == {}
  {
  }
}
