/** The automaton container of IntersectionFinder.py: a list of state slots,
    some of which may be empty while a product is being built, and the id of
    the initial state. */
module Automaton {
  import opened Wrappers

  type Symbol = char

  /** A state: its id, whether it accepts, and its deterministic transition
      table (one target id per symbol). */
  datatype State = State(index: nat, final: bool, transitions: map<Symbol, nat>)

  /** The state list of an automaton; `None` is an empty slot. */
  type Slots = seq<Option<State>>

  /** Slot `i` exists and holds a state. */
  predicate Populated(s: Slots, i: nat) {
    i < |s| && s[i].Some?
  }

  /** Every populated slot holds the state whose id is its position, as
      loading a file and `solve` both arrange. */
  predicate Indexed(s: Slots) {
    forall i :: 0 <= i < |s| && s[i].Some? ==> s[i].value.index == i
  }

  /** Every transition of every populated slot leads to a populated slot. */
  predicate TargetsPopulated(s: Slots) {
    forall i, c :: 0 <= i < |s| && s[i].Some? && c in s[i].value.transitions ==>
      Populated(s, s[i].value.transitions[c])
  }

  /** A complete automaton: the initial id and every transition target
      name populated slots. */
  predicate WellFormed(s: Slots, init: nat) {
    Populated(s, init) && TargetsPopulated(s)
  }

  /** No empty slot, every state has its position as id and every target is
      in range: the shape `reformat` leaves behind. */
  predicate Dense(s: Slots) {
    (forall i :: 0 <= i < |s| ==> s[i].Some? && s[i].value.index == i) &&
    TargetsPopulated(s)
  }

  /** `s` with its transition on `c` set to `t`. */
  function WithTransition(s: State, c: Symbol, t: nat): State {
    s.(transitions := s.transitions[c := t])
  }

  /** Setting a transition makes `c` lead to `t`, overwriting the old
      target, and changes neither the id, the final flag nor any other
      symbol's target. */
  lemma WithTransitionEffect(s: State, c: Symbol, t: nat)
    ensures var r := WithTransition(s, c, t);
      && r.index == s.index && r.final == s.final
      && c in r.transitions && r.transitions[c] == t
      && r.transitions.Keys == s.transitions.Keys + {c}
      && forall d :: d != c && d in s.transitions ==> r.transitions[d] == s.transitions[d]
  {
  }

  class Dfa {
    var states: Slots
    var initialIndex: nat

    /** `DFA(numOfStates=n)`: `n` empty slots, initial id 0. */
    constructor (numOfStates: nat)
      ensures |states| == numOfStates
      ensures forall i :: 0 <= i < numOfStates ==> states[i] == None
      ensures initialIndex == 0
    {
      states := seq(numOfStates, _ => None);
      initialIndex := 0;
    }

    /** Puts a fresh state with no transitions in slot `stateIndex`,
        replacing whatever was there. */
    method AddState(stateIndex: nat, final: bool)
      requires stateIndex < |states|
      modifies this
      ensures states == old(states)[stateIndex := Some(State(stateIndex, final, map[]))]
      ensures initialIndex == old(initialIndex)
    {
      states := states[stateIndex := Some(State(stateIndex, final, map[]))];
    }

    /** Sets the target of symbol `c` from `fromIndex` to `toIndex`,
        silently overwriting an earlier target for `c`. */
    method AddTransition(fromIndex: nat, toIndex: nat, c: Symbol)
      requires Populated(states, fromIndex)
      modifies this
      ensures states == old(states)[fromIndex := Some(WithTransition(old(states[fromIndex].value), c, toIndex))]
      ensures initialIndex == old(initialIndex)
    {
      states := states[fromIndex := Some(WithTransition(states[fromIndex].value, c, toIndex))];
    }

    /** The target of symbol `c` from `stateIndex`, or `None` when the state
        has no transition on `c`. */
    function PerformTransition(stateIndex: nat, c: Symbol): (r: Option<nat>)
      reads this
      requires Populated(states, stateIndex)
      ensures r.Some? <==> c in states[stateIndex].value.transitions
      ensures r.Some? ==> r.value == states[stateIndex].value.transitions[c]
    {
      var t := states[stateIndex].value.transitions;
      if c in t then Some(t[c]) else None
    }

    /** Whether the state in slot `stateIndex` accepts. */
    function IsFinal(stateIndex: nat): bool
      reads this
      requires Populated(states, stateIndex)
    {
      states[stateIndex].value.final
    }
  }
}
