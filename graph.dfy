/** Graph-theoretic and language notions over a state list: the successor
    relation, paths, reachability, co-reachability ("live" states) and the
    run of a word. Every property of the algorithms is stated with these. */
module Graph {
  import opened Wrappers
  import opened Automaton

  /** `b` is the target of some transition of the state in slot `a`. */
  predicate Succ(g: Slots, a: nat, b: nat) {
    Populated(g, a) && b in g[a].value.transitions.Values
  }

  /** Slot `b` holds an accepting state. */
  predicate Accepting(g: Slots, b: nat) {
    Populated(g, b) && g[b].value.final
  }

  /** Step `k` of the walk `p` follows a transition. */
  ghost predicate PathStep(g: Slots, p: seq<nat>, k: nat)
    requires k + 1 < |p|
  {
    Succ(g, p[k], p[k + 1])
  }

  /** `p` is a non-empty walk along transitions. */
  ghost predicate IsPath(g: Slots, p: seq<nat>) {
    |p| > 0 && forall k :: 0 <= k < |p| - 1 ==> PathStep(g, p, k)
  }

  /** `b` can be reached from `a` in zero or more transitions. */
  ghost predicate Reaches(g: Slots, a: nat, b: nat) {
    exists p :: IsPath(g, p) && p[0] == a && p[|p| - 1] == b
  }

  /** `a` is live: some accepting state can be reached from it. */
  ghost predicate CanReachFinal(g: Slots, a: nat) {
    exists b :: Reaches(g, a, b) && Accepting(g, b)
  }

  lemma ReachesRefl(g: Slots, a: nat)
    ensures Reaches(g, a, a)
  {
    assert IsPath(g, [a]);
  }

  lemma ReachesStep(g: Slots, a: nat, b: nat, c: nat)
    requires Succ(g, a, b) && Reaches(g, b, c)
    ensures Reaches(g, a, c)
  {
    var p :| IsPath(g, p) && p[0] == b && p[|p| - 1] == c;
    var q := [a] + p;
    forall k | 0 <= k < |q| - 1 ensures PathStep(g, q, k) {
      if k > 0 {
        assert PathStep(g, p, k - 1);
      }
    }
    assert IsPath(g, q);
  }

  lemma ReachesEdge(g: Slots, a: nat, b: nat)
    requires Succ(g, a, b)
    ensures Reaches(g, a, b)
  {
    ReachesRefl(g, b);
    ReachesStep(g, a, b, b);
  }

  lemma ReachesTrans(g: Slots, a: nat, b: nat, c: nat)
    requires Reaches(g, a, b) && Reaches(g, b, c)
    ensures Reaches(g, a, c)
  {
    var p :| IsPath(g, p) && p[0] == a && p[|p| - 1] == b;
    var q :| IsPath(g, q) && q[0] == b && q[|q| - 1] == c;
    var r := p + q[1..];
    forall k | 0 <= k < |r| - 1 ensures PathStep(g, r, k) {
      if k < |p| - 1 {
        assert PathStep(g, p, k);
      } else {
        assert PathStep(g, q, k - |p| + 1);
      }
    }
    assert IsPath(g, r);
  }

  /** A state with a successor that is live is live. */
  lemma CanReachFinalStep(g: Slots, a: nat, b: nat)
    requires Succ(g, a, b) && CanReachFinal(g, b)
    ensures CanReachFinal(g, a)
  {
    var f :| Reaches(g, b, f) && Accepting(g, f);
    ReachesStep(g, a, b, f);
  }

  /** A state that reaches a live state is live. */
  lemma CanReachFinalVia(g: Slots, a: nat, b: nat)
    requires Reaches(g, a, b) && CanReachFinal(g, b)
    ensures CanReachFinal(g, a)
  {
    var f :| Reaches(g, b, f) && Accepting(g, f);
    ReachesTrans(g, a, b, f);
  }

  /** A set closed under successors contains everything reachable from
      its members. */
  lemma {:induction false} ClosedReaches(g: Slots, S: set<nat>, a: nat, b: nat)
    requires a in S
    requires forall x, y :: x in S && Succ(g, x, y) ==> y in S
    requires Reaches(g, a, b)
    ensures b in S
  {
    var p :| IsPath(g, p) && p[0] == a && p[|p| - 1] == b;
    var k := 0;
    while k < |p| - 1
      invariant 0 <= k < |p|
      invariant p[k] in S
    {
      assert PathStep(g, p, k);
      k := k + 1;
    }
  }

  /** A set closed under successors and without accepting states holds
      no live state. */
  lemma ClosedDead(g: Slots, S: set<nat>, a: nat)
    requires a in S
    requires forall x, y :: x in S && Succ(g, x, y) ==> y in S
    requires forall x :: x in S ==> !Accepting(g, x)
    ensures !CanReachFinal(g, a)
  {
    if CanReachFinal(g, a) {
      var f :| Reaches(g, a, f) && Accepting(g, f);
      ClosedReaches(g, S, a, f);
    }
  }

  /** The state reached from `q` by reading `w`, or `None` when some symbol
      has no transition. */
  function Run(g: Slots, q: nat, w: seq<Symbol>): Option<nat>
    decreases |w|
  {
    if w == [] then Some(q)
    else if Populated(g, q) && w[0] in g[q].value.transitions then
      Run(g, g[q].value.transitions[w[0]], w[1..])
    else None
  }

  /** Reading `w` from `q` ends in an accepting state. */
  predicate Accepts(g: Slots, q: nat, w: seq<Symbol>) {
    var r := Run(g, q, w);
    r.Some? && Accepting(g, r.value)
  }

  /** Every state a run enters is reachable from where it started. */
  lemma {:induction false} RunReaches(g: Slots, q: nat, w: seq<Symbol>)
    requires Run(g, q, w).Some?
    ensures Reaches(g, q, Run(g, q, w).value)
    decreases |w|
  {
    if w == [] {
      ReachesRefl(g, q);
    } else {
      var t := g[q].value.transitions[w[0]];
      assert Succ(g, q, t);
      RunReaches(g, t, w[1..]);
      ReachesStep(g, q, t, Run(g, q, w).value);
    }
  }

  /** The start of an accepted word is live. */
  lemma AcceptsLive(g: Slots, q: nat, w: seq<Symbol>)
    requires Accepts(g, q, w)
    ensures CanReachFinal(g, q)
  {
    RunReaches(g, q, w);
  }
}
