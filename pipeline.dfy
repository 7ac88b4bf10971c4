/** The calls the script makes once both automata are loaded
    (IntersectionFinder.py:200-202): `solve`, then `reformat`, then
    `minimise`, whose result is written out. */
module Pipeline {
  import opened Automaton
  import opened Graph
  import opened Product
  import opened Reindex
  import opened Prune

  /** The product `solve` builds, after `reformat`. */
  ghost function Reformed(s1: Slots, s2: Slots, i1: nat, i2: nat): Slots {
    Lift(Reformatted(ReachableProduct(s1, s2, i1, i2)))
  }

  /** The initial id after `solve` and `reformat`; `minimise` keeps it. */
  ghost function Start(s1: Slots, s2: Slots, i1: nat, i2: nat): nat {
    NewInitial(ReachableProduct(s1, s2, i1, i2), PairId(i1, i2, |s2|))
  }

  /** The state list the script writes out. */
  ghost function Intersection(s1: Slots, s2: Slots, i1: nat, i2: nat): seq<State> {
    Minimised(Reformed(s1, s2, i1, i2), Start(s1, s2, i1, i2))
  }

  /** The same automaton looked up by id, as the written file describes it. */
  ghost function IntersectionById(s1: Slots, s2: Slots, i1: nat, i2: nat): Slots {
    var d := Reformed(s1, s2, i1, i2);
    Cut(d, Marks(d, Start(s1, s2, i1, i2)))
  }

  /** After `reformat` the product is contiguous and its initial state is
      present, so `minimise` may run on it. */
  lemma ReformedPrunable(s1: Slots, s2: Slots, i1: nat, i2: nat)
    requires Solvable(s1, s2, i1, i2)
    ensures Dense(Reformed(s1, s2, i1, i2))
    ensures Prunable(Reformed(s1, s2, i1, i2), Start(s1, s2, i1, i2))
  {
    var r := ReachableProduct(s1, s2, i1, i2);
    SolveShape(s1, s2, i1, i2);
    ReformatIsDense(r);
    CompactAt(r, PairId(i1, i2, |s2|));
  }

  /** The automaton the script writes out accepts exactly the words that
      both input automata accept. */
  lemma IntersectionLanguage(s1: Slots, s2: Slots, i1: nat, i2: nat, w: seq<Symbol>)
    requires Solvable(s1, s2, i1, i2)
    ensures Accepts(IntersectionById(s1, s2, i1, i2), Start(s1, s2, i1, i2), w) <==>
      Accepts(s1, i1, w) && Accepts(s2, i2, w)
  {
    var r := ReachableProduct(s1, s2, i1, i2);
    var d, init := Reformed(s1, s2, i1, i2), Start(s1, s2, i1, i2);
    SolveShape(s1, s2, i1, i2);
    ReformedPrunable(s1, s2, i1, i2);
    SolveLanguage(s1, s2, i1, i2, w);
    ReformatLanguage(r, PairId(i1, i2, |s2|), w);
    MinimisedLanguage(d, init, w);
  }

  /** Lines 200-202 of the script. */
  method Intersect(graph1: Dfa, graph2: Dfa) returns (intersection: Dfa)
    requires Solvable(graph1.states, graph2.states, graph1.initialIndex, graph2.initialIndex)
    ensures fresh(intersection)
    ensures intersection.states ==
      Lift(Intersection(graph1.states, graph2.states, graph1.initialIndex, graph2.initialIndex))
    ensures intersection.initialIndex ==
      Start(graph1.states, graph2.states, graph1.initialIndex, graph2.initialIndex)
  {
    ghost var s1, s2, i1, i2 := graph1.states, graph2.states, graph1.initialIndex, graph2.initialIndex;
    intersection := Solve(graph1, graph2);
    SolveShape(s1, s2, i1, i2);
    Reformat(intersection);
    ReformedPrunable(s1, s2, i1, i2);
    Minimise(intersection);
  }
}
