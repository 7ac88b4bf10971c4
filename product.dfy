/** `solve` and `solveInner` of IntersectionFinder.py: the product
    construction. The pair of states `(a, b)` becomes the product state with
    id `a * |S2| + b`; only pairs reachable from the initial pair are built,
    by a memoised depth-first traversal. */
module Product {
  import opened Wrappers
  import opened Automaton
  import opened Graph

  /** `a * n`, spelled as repeated addition so that the solver treats pair
      ids as a function rather than as nonlinear arithmetic. */
  function Times(a: nat, n: nat): nat {
    if a == 0 then 0 else Times(a - 1, n) + n
  }

  lemma {:induction false} TimesIsMul(a: nat, n: nat)
    ensures Times(a, n) == a * n
  {
    if a > 0 {
      TimesIsMul(a - 1, n);
    }
  }

  lemma {:induction false} TimesMono(a: nat, b: nat, n: nat)
    requires a <= b
    ensures Times(a, n) <= Times(b, n)
    decreases b
  {
    if a < b {
      TimesMono(a, b - 1, n);
    }
  }

  /** The flattened id `a * n2 + b` of the pair `(a, b)` when the second
      automaton has `n2` slots. */
  function PairId(a: nat, b: nat, n2: nat): nat {
    Times(a, n2) + b
  }

  /** Pair ids of in-range pairs are in range. */
  lemma PairIdBound(a: nat, b: nat, n1: nat, n2: nat)
    requires a < n1 && b < n2
    ensures PairId(a, b, n2) < Times(n1, n2)
  {
    TimesMono(a + 1, n1, n2);
  }

  /** Distinct in-range pairs have distinct ids. */
  lemma PairIdInjective(a: nat, b: nat, a': nat, b': nat, n2: nat)
    requires b < n2 && b' < n2
    requires PairId(a, b, n2) == PairId(a', b', n2)
    ensures a == a' && b == b'
  {
    if a < a' {
      TimesMono(a + 1, a', n2);
    } else if a' < a {
      TimesMono(a' + 1, a, n2);
    }
  }

  /** The transitions of the product state of `(a, b)`: one per symbol that
      both states have, leading to the pair of the two targets. */
  function PairTransitions(s1: Slots, s2: Slots, a: nat, b: nat): map<Symbol, nat>
    requires Populated(s1, a) && Populated(s2, b)
  {
    var t1, t2 := s1[a].value.transitions, s2[b].value.transitions;
    map c | c in t1 && c in t2 :: PairId(t1[c], t2[c], |s2|)
  }

  /** The product state of the pair `(a, b)`, present when both are. */
  function PairState(s1: Slots, s2: Slots, a: nat, b: nat): Option<State> {
    if Populated(s1, a) && Populated(s2, b) then
      Some(State(PairId(a, b, |s2|), s1[a].value.final && s2[b].value.final,
                 PairTransitions(s1, s2, a, b)))
    else None
  }

  /** The product states of the pairs `(a, 0)` to `(a, |s2| - 1)`. */
  function Row(s1: Slots, s2: Slots, a: nat): Slots {
    seq(|s2|, b requires 0 <= b => PairState(s1, s2, a, b))
  }

  /** The rows of the first `k` states of `s1`, one after the other. */
  function Grid(s1: Slots, s2: Slots, k: nat): Slots {
    if k == 0 then [] else Grid(s1, s2, k - 1) + Row(s1, s2, k - 1)
  }

  /** The complete product automaton: every pair id of `|s1| * |s2|`,
      reachable or not. */
  function FullProduct(s1: Slots, s2: Slots): Slots {
    Grid(s1, s2, |s1|)
  }

  /** The automaton `solve` returns: the full product restricted to the pairs
      reachable from the initial pair, every other slot left empty. */
  ghost function ReachableProduct(s1: Slots, s2: Slots, i1: nat, i2: nat): Slots {
    var f := FullProduct(s1, s2);
    seq(|f|, p requires 0 <= p < |f| => if Reaches(f, PairId(i1, i2, |s2|), p) then f[p] else None)
  }

  lemma {:induction false} GridSize(s1: Slots, s2: Slots, k: nat)
    ensures |Grid(s1, s2, k)| == Times(k, |s2|)
  {
    if k > 0 {
      GridSize(s1, s2, k - 1);
    }
  }

  /** Row `a` of the grid starts at `a * |s2|`. */
  lemma {:induction false} GridAt(s1: Slots, s2: Slots, k: nat, a: nat, b: nat)
    requires a < k && b < |s2|
    ensures PairId(a, b, |s2|) < |Grid(s1, s2, k)|
    ensures Grid(s1, s2, k)[PairId(a, b, |s2|)] == PairState(s1, s2, a, b)
  {
    GridSize(s1, s2, k - 1);
    if a < k - 1 {
      GridAt(s1, s2, k - 1, a, b);
    }
  }

  /** The full product has `|s1| * |s2|` slots; slot `a * |s2| + b` is the
      state of the pair `(a, b)`: final iff both are, with a transition on
      `c` iff both have one, to the pair of their targets. */
  lemma FullProductAt(s1: Slots, s2: Slots, a: nat, b: nat)
    requires a < |s1| && b < |s2|
    ensures |FullProduct(s1, s2)| == |s1| * |s2|
    ensures PairId(a, b, |s2|) < |FullProduct(s1, s2)|
    ensures FullProduct(s1, s2)[PairId(a, b, |s2|)] == PairState(s1, s2, a, b)
    ensures Populated(s1, a) && Populated(s2, b) ==>
      var s := FullProduct(s1, s2)[PairId(a, b, |s2|)].value;
      && s.index == PairId(a, b, |s2|)
      && (s.final <==> s1[a].value.final && s2[b].value.final)
      && forall c :: c in s.transitions <==>
           c in s1[a].value.transitions && c in s2[b].value.transitions
  {
    GridSize(s1, s2, |s1|);
    TimesIsMul(|s1|, |s2|);
    GridAt(s1, s2, |s1|, a, b);
  }

  /** In the full product, `(a, b)` steps to `q` exactly when some symbol
      takes `a` to `t1` and `b` to `t2` with `q` the pair of `t1, t2`. */
  lemma ProductSucc(s1: Slots, s2: Slots, a: nat, b: nat, q: nat)
    requires Populated(s1, a) && Populated(s2, b)
    ensures Succ(FullProduct(s1, s2), PairId(a, b, |s2|), q) <==>
      exists c :: c in s1[a].value.transitions && c in s2[b].value.transitions &&
        q == PairId(s1[a].value.transitions[c], s2[b].value.transitions[c], |s2|)
  {
    FullProductAt(s1, s2, a, b);
  }

  /** What `solveInner` reads of the inputs, seen from the pair id `q` in
      the product graph `f`: every pair of present states reachable from `q`
      has, on each symbol both states have, two present targets. States and
      transitions no reachable pair looks at are unconstrained. */
  ghost predicate PairsComplete(f: Slots, s1: Slots, s2: Slots, q: nat) {
    forall a: nat, b: nat {:trigger Reaches(f, q, PairId(a, b, |s2|))} ::
      Populated(s1, a) && Populated(s2, b) && Reaches(f, q, PairId(a, b, |s2|)) ==>
        forall c :: c in s1[a].value.transitions && c in s2[b].value.transitions ==>
          Populated(s1, s1[a].value.transitions[c]) && Populated(s2, s2[b].value.transitions[c])
  }

  /** The inputs `solve` handles: both initial states are present, and so
      is every target `solveInner` follows from a pair it reaches. */
  ghost predicate Solvable(s1: Slots, s2: Slots, i1: nat, i2: nat) {
    Populated(s1, i1) && Populated(s2, i2) && PairsComplete(FullProduct(s1, s2), s1, s2, PairId(i1, i2, |s2|))
  }

  /** The targets on a shared symbol of a reached pair are present. */
  lemma PairsCompleteEdge(f: Slots, s1: Slots, s2: Slots, q: nat, a: nat, b: nat, c: Symbol)
    requires PairsComplete(f, s1, s2, q)
    requires Populated(s1, a) && Populated(s2, b) && Reaches(f, q, PairId(a, b, |s2|))
    requires c in s1[a].value.transitions && c in s2[b].value.transitions
    ensures Populated(s1, s1[a].value.transitions[c]) && Populated(s2, s2[b].value.transitions[c])
  {
  }

  /** `PairsComplete` seen from a pair holds seen from each of its product
      successors. */
  lemma PairsCompleteStep(s1: Slots, s2: Slots, a: nat, b: nat, c: Symbol)
    requires Populated(s1, a) && Populated(s2, b)
    requires PairsComplete(FullProduct(s1, s2), s1, s2, PairId(a, b, |s2|))
    requires c in s1[a].value.transitions && c in s2[b].value.transitions
    ensures var t1, t2 := s1[a].value.transitions[c], s2[b].value.transitions[c];
      && Populated(s1, t1) && Populated(s2, t2)
      && PairsComplete(FullProduct(s1, s2), s1, s2, PairId(t1, t2, |s2|))
  {
    var f, p := FullProduct(s1, s2), PairId(a, b, |s2|);
    var t1, t2 := s1[a].value.transitions[c], s2[b].value.transitions[c];
    ReachesRefl(f, p);
    FullProductAt(s1, s2, a, b);
    assert Succ(f, p, PairId(t1, t2, |s2|));
    forall x: nat, y: nat | Populated(s1, x) && Populated(s2, y) && Reaches(f, PairId(t1, t2, |s2|), PairId(x, y, |s2|))
      ensures Reaches(f, p, PairId(x, y, |s2|))
    {
      ReachesStep(f, p, PairId(t1, t2, |s2|), PairId(x, y, |s2|));
    }
  }

  /** Reading a word in the full product from `(a, b)` runs both automata
      side by side: it succeeds exactly when both runs do, and ends in the
      pair of their end states, both present. */
  lemma {:induction false} ProductRun(s1: Slots, s2: Slots, a: nat, b: nat, w: seq<Symbol>)
    requires Populated(s1, a) && Populated(s2, b)
    requires PairsComplete(FullProduct(s1, s2), s1, s2, PairId(a, b, |s2|))
    ensures Run(FullProduct(s1, s2), PairId(a, b, |s2|), w) ==
      if Run(s1, a, w).Some? && Run(s2, b, w).Some?
      then Some(PairId(Run(s1, a, w).value, Run(s2, b, w).value, |s2|))
      else None
    ensures Run(s1, a, w).Some? && Run(s2, b, w).Some? ==>
      Populated(s1, Run(s1, a, w).value) && Populated(s2, Run(s2, b, w).value)
    decreases |w|
  {
    FullProductAt(s1, s2, a, b);
    if w != [] {
      var c := w[0];
      var t1, t2 := s1[a].value.transitions, s2[b].value.transitions;
      if c in t1 && c in t2 {
        PairsCompleteStep(s1, s2, a, b, c);
        ProductRun(s1, s2, t1[c], t2[c], w[1..]);
      }
    }
  }

  /** The full product accepts a word from `(a, b)` iff both automata accept
      it from `a` and `b`. */
  lemma ProductAccepts(s1: Slots, s2: Slots, a: nat, b: nat, w: seq<Symbol>)
    requires Populated(s1, a) && Populated(s2, b)
    requires PairsComplete(FullProduct(s1, s2), s1, s2, PairId(a, b, |s2|))
    ensures Accepts(FullProduct(s1, s2), PairId(a, b, |s2|), w) <==>
      Accepts(s1, a, w) && Accepts(s2, b, w)
  {
    ProductRun(s1, s2, a, b, w);
    var r1, r2 := Run(s1, a, w), Run(s2, b, w);
    if r1.Some? && r2.Some? {
      FullProductAt(s1, s2, r1.value, r2.value);
    }
  }

  /** Restricting a graph to what is reachable from `init` does not change
      any run that starts at a reachable state. */
  lemma {:induction false} RestrictedRun(f: Slots, r: Slots, init: nat, q: nat, w: seq<Symbol>)
    requires |r| == |f|
    requires forall p :: 0 <= p < |f| ==> r[p] == if Reaches(f, init, p) then f[p] else None
    requires Reaches(f, init, q)
    ensures Run(r, q, w) == Run(f, q, w)
    ensures Run(f, q, w).Some? ==> Reaches(f, init, Run(f, q, w).value)
    decreases |w|
  {
    if w != [] && Populated(f, q) && w[0] in f[q].value.transitions {
      var t := f[q].value.transitions[w[0]];
      assert Succ(f, q, t);
      ReachesEdge(f, q, t);
      ReachesTrans(f, init, q, t);
      RestrictedRun(f, r, init, t, w[1..]);
    }
  }

  /** Slot `p` of the product `solve` returns: the full product's slot when
      it is reachable from the initial pair, empty otherwise. */
  lemma ReachableProductSlot(s1: Slots, s2: Slots, i1: nat, i2: nat, p: nat)
    requires p < |s1| * |s2|
    ensures |ReachableProduct(s1, s2, i1, i2)| == |s1| * |s2|
    ensures var f := FullProduct(s1, s2);
      ReachableProduct(s1, s2, i1, i2)[p] ==
        if Reaches(f, PairId(i1, i2, |s2|), p) then f[p] else None
  {
    GridSize(s1, s2, |s1|);
    TimesIsMul(|s1|, |s2|);
  }

  /** The initial product state is the pair of initial states, built, and
      final iff both initial states are. */
  lemma ReachableProductInitial(s1: Slots, s2: Slots, i1: nat, i2: nat)
    requires Populated(s1, i1) && Populated(s2, i2)
    ensures var r := ReachableProduct(s1, s2, i1, i2);
      && PairId(i1, i2, |s2|) < |r|
      && r[PairId(i1, i2, |s2|)].Some?
      && (r[PairId(i1, i2, |s2|)].value.final <==> s1[i1].value.final && s2[i2].value.final)
  {
    FullProductAt(s1, s2, i1, i2);
    ReachesRefl(FullProduct(s1, s2), PairId(i1, i2, |s2|));
  }

  /** Every pair id `solve` reaches from the initial pair is the id of a
      pair of present states. */
  lemma ProductReachesPair(s1: Slots, s2: Slots, i1: nat, i2: nat, q: nat)
    requires Solvable(s1, s2, i1, i2)
    requires Reaches(FullProduct(s1, s2), PairId(i1, i2, |s2|), q)
    ensures exists a: nat, b: nat :: Populated(s1, a) && Populated(s2, b) && q == PairId(a, b, |s2|)
  {
    var f, init := FullProduct(s1, s2), PairId(i1, i2, |s2|);
    var S := set a: nat, b: nat | a < |s1| && b < |s2| && s1[a].Some? && s2[b].Some?
      && Reaches(f, init, PairId(a, b, |s2|)) :: PairId(a, b, |s2|);
    ReachesRefl(f, init);
    assert init in S;
    forall x, y | x in S && Succ(f, x, y) ensures y in S {
      var a: nat, b: nat :| a < |s1| && b < |s2| && s1[a].Some? && s2[b].Some?
        && Reaches(f, init, PairId(a, b, |s2|)) && x == PairId(a, b, |s2|);
      ProductSucc(s1, s2, a, b, y);
      var c :| c in s1[a].value.transitions && c in s2[b].value.transitions &&
        y == PairId(s1[a].value.transitions[c], s2[b].value.transitions[c], |s2|);
      PairsCompleteEdge(f, s1, s2, init, a, b, c);
      ReachesEdge(f, x, y);
      ReachesTrans(f, init, x, y);
    }
    ClosedReaches(f, S, init, q);
  }

  /** The slot of the pair `(a, b)` in the product `solve` returns holds
      the pair's product state when the pair is reachable from the initial
      pair, and is empty otherwise; for inputs `solve` handles it is
      populated exactly when the pair is reachable. */
  lemma ReachableProductAt(s1: Slots, s2: Slots, i1: nat, i2: nat, a: nat, b: nat)
    requires a < |s1| && b < |s2|
    ensures |ReachableProduct(s1, s2, i1, i2)| == |s1| * |s2|
    ensures PairId(a, b, |s2|) < |s1| * |s2|
    ensures var reached := Reaches(FullProduct(s1, s2), PairId(i1, i2, |s2|), PairId(a, b, |s2|));
      ReachableProduct(s1, s2, i1, i2)[PairId(a, b, |s2|)] ==
        if reached then PairState(s1, s2, a, b) else None
    ensures Solvable(s1, s2, i1, i2) ==>
      (ReachableProduct(s1, s2, i1, i2)[PairId(a, b, |s2|)].Some? <==>
         Reaches(FullProduct(s1, s2), PairId(i1, i2, |s2|), PairId(a, b, |s2|)))
  {
    var f, p := FullProduct(s1, s2), PairId(a, b, |s2|);
    FullProductAt(s1, s2, a, b);
    ReachableProductSlot(s1, s2, i1, i2, p);
    if Solvable(s1, s2, i1, i2) && Reaches(f, PairId(i1, i2, |s2|), p) {
      ProductReachesPair(s1, s2, i1, i2, p);
      var a': nat, b': nat :| Populated(s1, a') && Populated(s2, b') && p == PairId(a', b', |s2|);
      PairIdInjective(a, b, a', b', |s2|);
    }
  }

  /** The automaton `solve` returns holds every state in the slot of its
      own id, every transition of a built state leads to a built state, and
      the initial pair is built. */
  lemma SolveShape(s1: Slots, s2: Slots, i1: nat, i2: nat)
    requires Solvable(s1, s2, i1, i2)
    ensures var r := ReachableProduct(s1, s2, i1, i2);
      Indexed(r) && TargetsPopulated(r) && Populated(r, PairId(i1, i2, |s2|))
  {
    var f, r := FullProduct(s1, s2), ReachableProduct(s1, s2, i1, i2);
    var init := PairId(i1, i2, |s2|);
    GridSize(s1, s2, |s1|);
    TimesIsMul(|s1|, |s2|);
    forall p | 0 <= p < |r| && r[p].Some?
      ensures r[p].value.index == p
      ensures forall c :: c in r[p].value.transitions ==> Populated(r, r[p].value.transitions[c])
    {
      ReachableProductSlot(s1, s2, i1, i2, p);
      ProductReachesPair(s1, s2, i1, i2, p);
      var a: nat, b: nat :| Populated(s1, a) && Populated(s2, b) && p == PairId(a, b, |s2|);
      FullProductAt(s1, s2, a, b);
      forall c | c in r[p].value.transitions ensures Populated(r, r[p].value.transitions[c]) {
        var t1, t2 := s1[a].value.transitions[c], s2[b].value.transitions[c];
        var q := r[p].value.transitions[c];
        assert q == PairId(t1, t2, |s2|);
        PairsCompleteEdge(f, s1, s2, init, a, b, c);
        FullProductAt(s1, s2, t1, t2);
        assert Succ(f, p, q);
        ReachesEdge(f, p, q);
        ReachesTrans(f, init, p, q);
        ReachableProductSlot(s1, s2, i1, i2, q);
      }
    }
    ReachableProductInitial(s1, s2, i1, i2);
  }

  /** The automaton `solve` returns accepts exactly the words both inputs
      accept. */
  lemma SolveLanguage(s1: Slots, s2: Slots, i1: nat, i2: nat, w: seq<Symbol>)
    requires Solvable(s1, s2, i1, i2)
    ensures Accepts(ReachableProduct(s1, s2, i1, i2), PairId(i1, i2, |s2|), w) <==>
      Accepts(s1, i1, w) && Accepts(s2, i2, w)
  {
    var f, r := FullProduct(s1, s2), ReachableProduct(s1, s2, i1, i2);
    var init := PairId(i1, i2, |s2|);
    FullProductAt(s1, s2, i1, i2);
    forall p | 0 <= p < |f|
      ensures r[p] == if Reaches(f, init, p) then f[p] else None
    {
      ReachableProductSlot(s1, s2, i1, i2, p);
    }
    ReachesRefl(f, init);
    RestrictedRun(f, r, init, init, w);
    ProductAccepts(s1, s2, i1, i2, w);
    var e := Run(f, init, w);
    if e.Some? && e.value < |f| {
      ReachableProductSlot(s1, s2, i1, i2, e.value);
    }
  }

  /** `f` has the product state of every in-range pair at the pair's id:
      what `FullProduct` promises, without its definition. */
  ghost predicate ProductOf(f: Slots, s1: Slots, s2: Slots) {
    && |f| == Times(|s1|, |s2|)
    && forall a, b {:trigger PairState(s1, s2, a, b)} :: 0 <= a < |s1| && 0 <= b < |s2| ==>
         PairId(a, b, |s2|) < |f| && f[PairId(a, b, |s2|)] == PairState(s1, s2, a, b)
  }

  lemma FullProductIsProduct(s1: Slots, s2: Slots)
    ensures ProductOf(FullProduct(s1, s2), s1, s2)
  {
    GridSize(s1, s2, |s1|);
    forall a, b | 0 <= a < |s1| && 0 <= b < |s2|
      ensures PairId(a, b, |s2|) < |FullProduct(s1, s2)|
      ensures FullProduct(s1, s2)[PairId(a, b, |s2|)] == PairState(s1, s2, a, b)
    {
      FullProductAt(s1, s2, a, b);
    }
  }

  /** The product state of a pair of populated states, as `ProductOf`
      describes it. */
  lemma ProductOfAt(f: Slots, s1: Slots, s2: Slots, a: nat, b: nat)
    requires ProductOf(f, s1, s2)
    requires Populated(s1, a) && Populated(s2, b)
    ensures PairId(a, b, |s2|) < |f| && f[PairId(a, b, |s2|)].Some?
    ensures var s := f[PairId(a, b, |s2|)].value;
      && s.index == PairId(a, b, |s2|)
      && (s.final <==> s1[a].value.final && s2[b].value.final)
      && s.transitions == PairTransitions(s1, s2, a, b)
  {
    var s := PairState(s1, s2, a, b);
    assert PairId(a, b, |s2|) < |f| && f[PairId(a, b, |s2|)] == s;
  }

  /** The product edge on `c` from the pair `(a, b)`: there is one iff
      both states have an edge on `c`, and it leads to the pair of their
      targets, which is in range. */
  lemma ProductOfEdge(f: Slots, s1: Slots, s2: Slots, a: nat, b: nat, c: Symbol)
    requires ProductOf(f, s1, s2)
    requires Populated(s1, a) && Populated(s2, b)
    requires var t1, t2 := s1[a].value.transitions, s2[b].value.transitions;
      c in t1 && c in t2 ==> t1[c] < |s1| && t2[c] < |s2|
    ensures PairId(a, b, |s2|) < |f| && f[PairId(a, b, |s2|)].Some?
    ensures var t, t1, t2 := f[PairId(a, b, |s2|)].value.transitions,
                             s1[a].value.transitions, s2[b].value.transitions;
      && (c in t <==> c in t1 && c in t2)
      && (c in t ==> t[c] == PairId(t1[c], t2[c], |s2|) && t[c] < |f|)
  {
    ProductOfAt(f, s1, s2, a, b);
    var t1, t2 := s1[a].value.transitions, s2[b].value.transitions;
    if c in t1 && c in t2 {
      PairIdBound(t1[c], t2[c], |s1|, |s2|);
    }
  }

  /** The product state of `(a, b)` has the pair's id and is final iff
      both states are. */
  lemma ProductOfState(f: Slots, s1: Slots, s2: Slots, a: nat, b: nat)
    requires ProductOf(f, s1, s2)
    requires Populated(s1, a) && Populated(s2, b)
    ensures PairId(a, b, |s2|) < |f| && f[PairId(a, b, |s2|)].Some?
    ensures f[PairId(a, b, |s2|)].value.index == PairId(a, b, |s2|)
    ensures f[PairId(a, b, |s2|)].value.final == (s1[a].value.final && s2[b].value.final)
  {
    ProductOfAt(f, s1, s2, a, b);
  }

  /** The product state of `(a, b)` has edges only on symbols of `a`. */
  lemma ProductOfKeys(f: Slots, s1: Slots, s2: Slots, a: nat, b: nat)
    requires ProductOf(f, s1, s2)
    requires Populated(s1, a) && Populated(s2, b)
    ensures PairId(a, b, |s2|) < |f| && f[PairId(a, b, |s2|)].Some?
    ensures f[PairId(a, b, |s2|)].value.transitions.Keys <= s1[a].value.transitions.Keys
  {
    ProductOfAt(f, s1, s2, a, b);
  }

  /** The slots that hold a state. */
  ghost function Filled(s: Slots): set<nat> {
    set q | 0 <= q < |s| && s[q].Some?
  }

  /** The slots that are still empty. */
  ghost function Unfilled(s: Slots): set<nat> {
    set q | 0 <= q < |s| && s[q].None?
  }

  /** Filling an empty slot removes exactly that slot from the empty ones. */
  lemma FillShrinks(r: Slots, q: nat, s: State)
    requires q < |r| && r[q].None?
    ensures Unfilled(r[q := Some(s)]) == Unfilled(r) - {q}
    ensures q in Unfilled(r)
  {
  }

  /** The state of the product under construction: every built slot is a
      pair reachable from `init` whose id and final flag are those of the
      full product and whose transitions so far are some of its
      transitions; a slot in `done` is complete and all its successors are
      built. */
  ghost predicate Building(r: Slots, f: Slots, init: nat, done: set<nat>) {
    && |r| == |f|
    && (forall q {:trigger Reaches(f, init, q)} :: 0 <= q < |r| && r[q].Some? ==> Reaches(f, init, q))
    && (forall q :: 0 <= q < |r| && r[q].Some? ==>
          && f[q].Some?
          && r[q].value.index == f[q].value.index
          && r[q].value.final == f[q].value.final
          && forall c :: c in r[q].value.transitions ==>
               c in f[q].value.transitions && r[q].value.transitions[c] == f[q].value.transitions[c])
    && (forall q {:trigger q in done} :: q in done ==>
          && q < |r| && r[q].Some? && r[q] == f[q]
          && forall c :: c in f[q].value.transitions ==> Populated(r, f[q].value.transitions[c]))
  }

  /** Adding to a slot under construction an edge of the full product
      keeps the construction invariant. */
  lemma BuildingAddTransition(r: Slots, f: Slots, init: nat, done: set<nat>, p: nat, c: Symbol)
    requires Building(r, f, init, done)
    requires p < |r| && r[p].Some? && p !in done
    requires c in f[p].value.transitions
    ensures var s := r[p].value;
      Building(r[p := Some(s.(transitions := s.transitions[c := f[p].value.transitions[c]]))], f, init, done)
  {
  }

  /** Creating the slot of a reachable pair, with no transitions yet, keeps
      the construction invariant. */
  lemma BuildingAddState(r: Slots, f: Slots, init: nat, done: set<nat>, q: nat)
    requires Building(r, f, init, done)
    requires q < |r| && r[q].None? && Reaches(f, init, q) && f[q].Some?
    ensures Building(r[q := Some(State(f[q].value.index, f[q].value.final, map[]))], f, init, done)
  {
  }

  /** How one exploration changes the slots, from `r0` to `r`: filled
      slots stay filled, each slot it completes was empty before (or is the
      pair `p` being explored), each slot it fills is completed, and a slot
      that was already built, is not complete and is not `p` is untouched. */
  ghost predicate Grows(r0: Slots, r: Slots, done0: set<nat>, done: set<nat>, p: nat) {
    && |r| == |r0|
    && done0 <= done
    && (forall q :: 0 <= q < |r0| && r0[q].Some? ==> r[q].Some?)
    && (forall q :: q in done && q !in done0 && q != p ==> q < |r0| && r0[q].None?)
    && (forall q :: 0 <= q < |r| && r0[q].None? && r[q].Some? ==> q in done)
    && (forall q :: 0 <= q < |r| && r0[q].Some? && q !in done0 && q != p ==> r[q] == r0[q])
  }

  /** Slots are only filled, so the empty ones can only become fewer. */
  lemma GrowsUnfilled(r0: Slots, r: Slots, done0: set<nat>, done: set<nat>, p: nat)
    requires Grows(r0, r, done0, done, p)
    ensures Unfilled(r) <= Unfilled(r0)
  {
    forall q | q in Unfilled(r) ensures q in Unfilled(r0) {
      assert r[q].None?;
    }
  }

  /** Changing the slot `p` itself keeps `Grows`. */
  lemma GrowsAtP(r0: Slots, r: Slots, done0: set<nat>, done: set<nat>, p: nat, s: State)
    requires Grows(r0, r, done0, done, p) && p < |r| && r[p].Some?
    ensures Grows(r0, r[p := Some(s)], done0, done, p)
  {
  }

  /** Creating and fully exploring the empty slot `q` extends `Grows`. */
  lemma GrowsThroughChild(r0: Slots, r1: Slots, r2: Slots, r3: Slots,
                          done0: set<nat>, done1: set<nat>, done3: set<nat>, p: nat, q: nat, s: State)
    requires Grows(r0, r1, done0, done1, p)
    requires q < |r1| && r1[q].None? && q != p
    requires r2 == r1[q := Some(s)]
    requires Grows(r2, r3, done1, done3, q) && q in done3
    ensures Grows(r0, r3, done0, done3, p)
  {
    forall x | 0 <= x < |r3| && r0[x].None? && r3[x].Some? ensures x in done3 {
      if r2[x].Some? && x != q {
        assert r1[x].Some?;
      }
    }
    forall x | 0 <= x < |r0| && r0[x].Some? && x !in done0 && x != p ensures r3[x] == r0[x] {
      assert r1[x] == r0[x];
      assert x !in done1;
    }
  }

  /** The loop of `solveInner` at the pair `p`, after the symbols in
      `processed`: the construction invariant holds, the exploration grows
      from `r0`, `p` has exactly the product edges on the processed symbols
      and their targets are built. */
  ghost predicate Explore(f: Slots, init: nat, r0: Slots, done0: set<nat>, r: Slots, done: set<nat>,
                          p: nat, processed: set<Symbol>) {
    && Building(r, f, init, done)
    && Grows(r0, r, done0, done, p)
    && p !in done && p < |r| && r[p].Some? && f[p].Some?
    && r[p].value.index == f[p].value.index
    && r[p].value.final == f[p].value.final
    && r[p].value.transitions.Keys == processed * f[p].value.transitions.Keys
    && forall c :: c in processed && c in f[p].value.transitions ==>
         Populated(r, f[p].value.transitions[c])
  }

  /** The exploration of a freshly created slot starts with nothing
      processed. */
  lemma ExploreStart(f: Slots, init: nat, r0: Slots, done0: set<nat>, p: nat)
    requires Building(r0, f, init, done0)
    requires p < |r0| && p !in done0 && r0[p].Some? && r0[p].value.transitions == map[]
    ensures Explore(f, init, r0, done0, r0, done0, p, {})
  {
  }

  /** A symbol without a product edge is processed by doing nothing. */
  lemma ExploreSkip(f: Slots, init: nat, r0: Slots, done0: set<nat>, r: Slots, done: set<nat>,
                    p: nat, processed: set<Symbol>, c: Symbol)
    requires Explore(f, init, r0, done0, r, done, p, processed)
    requires c !in f[p].value.transitions
    ensures Explore(f, init, r0, done0, r, done, p, processed + {c})
  {
  }

  /** Adding the product edge on `c` whose target is already built. */
  lemma ExploreEdge(f: Slots, init: nat, r0: Slots, done0: set<nat>, r: Slots, done: set<nat>,
                    p: nat, processed: set<Symbol>, c: Symbol)
    requires Explore(f, init, r0, done0, r, done, p, processed)
    requires c in f[p].value.transitions && c !in processed
    requires Populated(r, f[p].value.transitions[c])
    ensures Explore(f, init, r0, done0,
                    r[p := Some(WithTransition(r[p].value, c, f[p].value.transitions[c]))],
                    done, p, processed + {c})
  {
    var r1 := r[p := Some(WithTransition(r[p].value, c, f[p].value.transitions[c]))];
    BuildingAddTransition(r, f, init, done, p, c);
    GrowsAtP(r0, r, done0, done, p, WithTransition(r[p].value, c, f[p].value.transitions[c]));
    WithTransitionEffect(r[p].value, c, f[p].value.transitions[c]);
    forall d | d in processed + {c} && d in f[p].value.transitions
      ensures Populated(r1, f[p].value.transitions[d])
    {
      assert Populated(r, f[p].value.transitions[d]);
    }
  }

  /** Adding the product edge on `c` whose target `q` is still empty, and
      creating `q`, prepares the exploration of `q`: everything the
      recursive call demands holds, and there are fewer empty slots than at
      the start. */
  lemma ExploreChildReady(f: Slots, init: nat, r0: Slots, done0: set<nat>, r: Slots, done: set<nat>,
                          p: nat, processed: set<Symbol>, c: Symbol, r2: Slots)
    requires Explore(f, init, r0, done0, r, done, p, processed)
    requires c in f[p].value.transitions && c !in processed
    requires var q := f[p].value.transitions[c];
      var r1 := r[p := Some(WithTransition(r[p].value, c, q))];
      && q < |r| && r1[q].None?
      && f[q].Some? && r2 == r1[q := Some(State(f[q].value.index, f[q].value.final, map[]))]
    ensures var q := f[p].value.transitions[c];
      && q != p && q !in done && r2[q].Some? && r2[q].value.transitions == map[]
      && Building(r2, f, init, done)
      && Unfilled(r2) < Unfilled(r0)
  {
    var q := f[p].value.transitions[c];
    var r1 := r[p := Some(WithTransition(r[p].value, c, q))];
    BuildingAddTransition(r, f, init, done, p, c);
    assert Reaches(f, init, p);
    assert Succ(f, p, q);
    ReachesEdge(f, p, q);
    ReachesTrans(f, init, p, q);
    BuildingAddState(r1, f, init, done, q);
    GrowsAtP(r0, r, done0, done, p, WithTransition(r[p].value, c, q));
    GrowsUnfilled(r0, r1, done0, done, p);
    FillShrinks(r1, q, State(f[q].value.index, f[q].value.final, map[]));
  }

  /** After the exploration of the child `q` returns, the edge on `c` is
      processed. */
  lemma ExploreAfterChild(f: Slots, init: nat, r0: Slots, done0: set<nat>, r: Slots, done: set<nat>,
                          p: nat, processed: set<Symbol>, c: Symbol,
                          r2: Slots, r3: Slots, done3: set<nat>)
    requires Explore(f, init, r0, done0, r, done, p, processed)
    requires c in f[p].value.transitions && c !in processed
    requires var q := f[p].value.transitions[c];
      var r1 := r[p := Some(WithTransition(r[p].value, c, q))];
      && q < |r| && r1[q].None? && q != p
      && f[q].Some? && r2 == r1[q := Some(State(f[q].value.index, f[q].value.final, map[]))]
    requires Building(r3, f, init, done3)
    requires f[p].value.transitions[c] in done3
    requires Grows(r2, r3, done, done3, f[p].value.transitions[c])
    ensures Explore(f, init, r0, done0, r3, done3, p, processed + {c})
  {
    var q := f[p].value.transitions[c];
    var s := WithTransition(r[p].value, c, q);
    var r1 := r[p := Some(s)];
    GrowsAtP(r0, r, done0, done, p, s);
    GrowsThroughChild(r0, r1, r2, r3, done0, done, done3, p, q,
                      State(f[q].value.index, f[q].value.final, map[]));
    WithTransitionEffect(r[p].value, c, q);
    assert r3[p] == r1[p];
    forall d | d in processed + {c} && d in f[p].value.transitions
      ensures Populated(r3, f[p].value.transitions[d])
    {
      if d != c {
        assert Populated(r, f[p].value.transitions[d]);
      }
    }
  }

  /** Once every symbol is processed, `p` is complete. */
  lemma ExploreFinish(f: Slots, init: nat, r0: Slots, done0: set<nat>, r: Slots, done: set<nat>,
                      p: nat, processed: set<Symbol>)
    requires Explore(f, init, r0, done0, r, done, p, processed)
    requires f[p].value.transitions.Keys <= processed
    ensures Building(r, f, init, done + {p})
    ensures Grows(r0, r, done0, done + {p}, p)
  {
    var rp, fp := r[p].value, f[p].value;
    assert rp.transitions.Keys == fp.transitions.Keys;
    assert rp.transitions == fp.transitions;
    assert rp == fp;
  }

  /** `solveInner(state1Index, state2Index)`: explores the pair whose slot
      was just created. For each symbol of the first state that the second
      state also has, it adds the product edge and, when the target pair's
      slot is still empty, creates it and explores it. Slots are filled at
      most once, which bounds the recursion by the empty slots left. */
  method SolveInner(graph1: Dfa, graph2: Dfa, intersection: Dfa, state1Index: nat, state2Index: nat,
                    ghost f: Slots, ghost init: nat, ghost done: set<nat>)
    returns (ghost done': set<nat>)
    requires intersection != graph1 && intersection != graph2
    requires Populated(graph1.states, state1Index) && Populated(graph2.states, state2Index)
    requires PairsComplete(f, graph1.states, graph2.states, init)
    requires ProductOf(f, graph1.states, graph2.states)
    requires Building(intersection.states, f, init, done)
    requires var p := PairId(state1Index, state2Index, |graph2.states|);
      && p < |intersection.states| && p !in done
      && intersection.states[p].Some? && intersection.states[p].value.transitions == map[]
    modifies intersection
    ensures Building(intersection.states, f, init, done')
    ensures PairId(state1Index, state2Index, |graph2.states|) in done'
    ensures Grows(old(intersection.states), intersection.states, done, done',
                  PairId(state1Index, state2Index, |graph2.states|))
    ensures intersection.initialIndex == old(intersection.initialIndex)
    decreases Unfilled(intersection.states)
  {
    var n2 := |graph2.states|;
    var intersectionStateIndex := PairId(state1Index, state2Index, n2);
    ghost var p := intersectionStateIndex;
    ghost var r0 := intersection.states;
    var t1 := graph1.states[state1Index].value.transitions;
    var keys := t1.Keys;
    done' := done;
    ghost var processed: set<Symbol> := {};
    ExploreStart(f, init, r0, done, p);
    while keys != {}
      invariant keys <= t1.Keys
      invariant forall c :: c in t1.Keys ==> (c in processed <==> c !in keys)
      invariant Explore(f, init, r0, done, intersection.states, done', p, processed)
      invariant intersection.initialIndex == old(intersection.initialIndex)
      decreases keys
    {
      var transition :| transition in keys;
      ghost var r := intersection.states;
      var newState1Index := graph1.PerformTransition(state1Index, transition).value;
      var newState2Index := graph2.PerformTransition(state2Index, transition);
      if newState2Index.Some? {
        PairsCompleteEdge(f, graph1.states, graph2.states, init, state1Index, state2Index, transition);
      }
      ProductOfEdge(f, graph1.states, graph2.states, state1Index, state2Index, transition);
      if newState2Index.Some? {
        var b := newState2Index.value;
        var newIntersectionStateIndex := PairId(newState1Index, b, n2);
        ghost var q := newIntersectionStateIndex;
        intersection.AddTransition(intersectionStateIndex, newIntersectionStateIndex, transition);
        if intersection.states[newIntersectionStateIndex].None? {
          var newState1Final := graph1.IsFinal(newState1Index);
          var newState2Final := graph2.IsFinal(b);
          ProductOfState(f, graph1.states, graph2.states, newState1Index, b);
          intersection.AddState(newIntersectionStateIndex, newState1Final && newState2Final);
          ghost var r2 := intersection.states;
          ExploreChildReady(f, init, r0, done, r, done', p, processed, transition, r2);
          ghost var done2 := SolveInner(graph1, graph2, intersection, newState1Index, b, f, init, done');
          ExploreAfterChild(f, init, r0, done, r, done', p, processed, transition,
                            r2, intersection.states, done2);
          done' := done2;
        } else {
          ExploreEdge(f, init, r0, done, r, done', p, processed, transition);
        }
      } else {
        ExploreSkip(f, init, r0, done, r, done', p, processed, transition);
      }
      keys := keys - {transition};
      processed := processed + {transition};
    }
    ProductOfKeys(f, graph1.states, graph2.states, state1Index, state2Index);
    ExploreFinish(f, init, r0, done, intersection.states, done', p, processed);
    done' := done' + {p};
  }

  /** `solve(graph1, graph2)`: allocates `|S1| * |S2|` empty slots, creates
      the initial pair (final iff both initial states are) and explores from
      it. The result is the full product restricted to the reachable pairs. */
  method Solve(graph1: Dfa, graph2: Dfa) returns (intersection: Dfa)
    requires Solvable(graph1.states, graph2.states, graph1.initialIndex, graph2.initialIndex)
    ensures fresh(intersection)
    ensures |intersection.states| == |graph1.states| * |graph2.states|
    ensures intersection.initialIndex ==
      PairId(graph1.initialIndex, graph2.initialIndex, |graph2.states|)
    ensures intersection.states ==
      ReachableProduct(graph1.states, graph2.states, graph1.initialIndex, graph2.initialIndex)
  {
    var i1, i2 := graph1.initialIndex, graph2.initialIndex;
    intersection := new Dfa(|graph1.states| * |graph2.states|);
    intersection.initialIndex := PairId(i1, i2, |graph2.states|);
    ghost var init := intersection.initialIndex;
    ghost var f := FullProduct(graph1.states, graph2.states);
    ghost var empty := intersection.states;
    PairIdBound(i1, i2, |graph1.states|, |graph2.states|);
    TimesIsMul(|graph1.states|, |graph2.states|);
    intersection.AddState(intersection.initialIndex, graph1.IsFinal(i1) && graph2.IsFinal(i2));
    ghost var before := intersection.states;
    SolveStart(graph1.states, graph2.states, i1, i2, empty, before);
    ghost var done := SolveInner(graph1, graph2, intersection, i1, i2, f, init, {});
    BuiltIsReachable(graph1.states, graph2.states, i1, i2, before, intersection.states, done);
  }

  /** The slots `solve` holds before its walk, all empty but the initial
      pair's, meet the precondition of the walk from the initial pair. */
  lemma SolveStart(s1: Slots, s2: Slots, i1: nat, i2: nat, empty: Slots, r: Slots)
    requires Solvable(s1, s2, i1, i2)
    requires |empty| == |s1| * |s2| && forall q :: 0 <= q < |empty| ==> empty[q] == None
    requires PairId(i1, i2, |s2|) < |empty|
    requires r == empty[PairId(i1, i2, |s2|) :=
      Some(State(PairId(i1, i2, |s2|), s1[i1].value.final && s2[i2].value.final, map[]))]
    ensures var f, init := FullProduct(s1, s2), PairId(i1, i2, |s2|);
      && ProductOf(f, s1, s2) && PairsComplete(f, s1, s2, init)
      && Building(r, f, init, {})
      && init < |r| && r[init].Some? && r[init].value.transitions == map[]
      && forall q :: 0 <= q < |r| && q != init ==> r[q].None?
  {
    var f, init := FullProduct(s1, s2), PairId(i1, i2, |s2|);
    FullProductAt(s1, s2, i1, i2);
    FullProductIsProduct(s1, s2);
    ReachesRefl(f, init);
  }

  /** What the exploration from the initial pair leaves behind is the
      reachable part of the full product: every built slot is reachable
      (the construction invariant), and the completed slots are closed
      under product edges, so every reachable slot is built. */
  lemma BuiltIsReachable(s1: Slots, s2: Slots, i1: nat, i2: nat, before: Slots, r: Slots,
                         done: set<nat>)
    requires var init := PairId(i1, i2, |s2|);
      && init < |before|
      && (forall q :: 0 <= q < |before| && q != init ==> before[q].None?)
      && Building(r, FullProduct(s1, s2), init, done)
      && Grows(before, r, {}, done, init) && init in done
    ensures r == ReachableProduct(s1, s2, i1, i2)
  {
    var f, init := FullProduct(s1, s2), PairId(i1, i2, |s2|);
    assert Filled(r) == done by {
      forall q | q in Filled(r) ensures q in done {
        assert q == init || before[q].None?;
      }
    }
    forall x, y | x in done && Succ(f, x, y) ensures y in done {
      var c :| c in f[x].value.transitions && f[x].value.transitions[c] == y;
      assert y in Filled(r);
    }
    var rp := ReachableProduct(s1, s2, i1, i2);
    GridSize(s1, s2, |s1|);
    TimesIsMul(|s1|, |s2|);
    forall q | 0 <= q < |r| ensures r[q] == rp[q] {
      ReachableProductSlot(s1, s2, i1, i2, q);
      if Reaches(f, init, q) {
        ClosedReaches(f, done, init, q);
      }
    }
  }
}
