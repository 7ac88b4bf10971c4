/** `reformat` of IntersectionFinder.py: canonical reindexing. The populated
    slots are compacted, in their order, to the ids `0 .. N-1`, and the
    initial id and every transition target are rewritten through the one
    old-id to new-id mapping this builds. */
module Reindex {
  import opened Wrappers
  import opened Automaton
  import opened Graph

  /** The states of the populated slots, in slot order. */
  function Compact(s: Slots): seq<State>
    decreases |s|
  {
    if |s| == 0 then []
    else Compact(s[..|s| - 1]) + (if s[|s| - 1].Some? then [s[|s| - 1].value] else [])
  }

  /** The new id of the slot `i`: how many populated slots come before it. */
  function Rank(s: Slots, i: nat): nat {
    if i <= |s| then |Compact(s[..i])| else |Compact(s)|
  }

  /** Every slot as a state again, for the automaton `reformat` leaves. */
  function Lift(states: seq<State>): Slots {
    seq(|states|, k requires 0 <= k < |states| => Some(states[k]))
  }

  /** The states `c` with their positions as ids. */
  function Renumbered(c: seq<State>): seq<State> {
    seq(|c|, k requires 0 <= k < |c| => c[k].(index := k))
  }

  lemma RenumberedSnoc(c: seq<State>, x: State)
    ensures Renumbered(c + [x]) == Renumbered(c) + [x.(index := |c|)]
  {
  }

  /** The transitions `t` with every target `q` replaced by its new id. */
  function RemapTransitions(s: Slots, t: map<Symbol, nat>): map<Symbol, nat> {
    map c | c in t :: Rank(s, t[c])
  }

  /** The automaton `reformat` produces from the slots `s`: the `k`-th
      populated state gets id `k`, keeps its final flag and has its targets
      remapped. */
  function Reformatted(s: Slots): seq<State> {
    var c := Compact(s);
    seq(|c|, k requires 0 <= k < |c| => State(k, c[k].final, RemapTransitions(s, c[k].transitions)))
  }

  /** The initial id after `reformat`: the new id of the initial state when
      its slot is populated, otherwise left as it was. */
  function NewInitial(s: Slots, init: nat): nat {
    if Populated(s, init) then Rank(s, init) else init
  }

  /** No new id exceeds the old one. */
  lemma RankBound(s: Slots, i: nat)
    ensures Rank(s, i) <= i
  {
    if i <= |s| {
      CompactLength(s[..i]);
    } else {
      CompactLength(s);
    }
  }

  lemma {:induction false} CompactLength(s: Slots)
    ensures |Compact(s)| <= |s|
    decreases |s|
  {
    if |s| > 0 {
      CompactLength(s[..|s| - 1]);
    }
  }

  /** Moving past slot `i` adds one to the count exactly when it is
      populated. */
  lemma RankStep(s: Slots, i: nat)
    requires i < |s|
    ensures Compact(s[..i + 1]) ==
      Compact(s[..i]) + (if s[i].Some? then [s[i].value] else [])
    ensures Rank(s, i + 1) == Rank(s, i) + (if s[i].Some? then 1 else 0)
  {
    assert s[..i + 1][..i] == s[..i];
  }

  /** The compaction of a prefix is a prefix of the compaction. */
  lemma {:induction false} CompactPrefix(s: Slots, i: nat)
    requires i <= |s|
    ensures Compact(s[..i]) <= Compact(s)
    decreases |s| - i
  {
    if i < |s| {
      CompactPrefix(s, i + 1);
      RankStep(s, i);
    } else {
      assert s[..i] == s;
    }
  }

  /** The populated slot `i` is the state with new id `Rank(s, i)`. */
  lemma CompactAt(s: Slots, i: nat)
    requires Populated(s, i)
    ensures Rank(s, i) < |Compact(s)| && Compact(s)[Rank(s, i)] == s[i].value
  {
    RankStep(s, i);
    CompactPrefix(s, i + 1);
  }

  /** New ids grow with the slot: a populated slot gets a smaller new id
      than any later slot, so the relative order is kept and no two
      populated slots share an id. */
  lemma {:induction false} RankIncreasing(s: Slots, i: nat, j: nat)
    requires Populated(s, i) && i < j <= |s|
    ensures Rank(s, i) < Rank(s, j)
    decreases j - i
  {
    RankStep(s, j - 1);
    if i < j - 1 {
      RankIncreasing(s, i, j - 1);
    }
  }

  /** Every new id is the id of some populated slot. */
  lemma {:induction false} RankOnto(s: Slots, k: nat)
    requires k < |Compact(s)|
    ensures exists i: nat :: Populated(s, i) && Rank(s, i) == k
    decreases |s|
  {
    var n := |s| - 1;
    var p := s[..n];
    RankStep(s, n);
    assert s[..n + 1] == s;
    if k < |Compact(p)| {
      RankOnto(p, k);
      var i: nat :| Populated(p, i) && Rank(p, i) == k;
      assert p[..i] == s[..i];
      assert Populated(s, i) && Rank(s, i) == k;
    } else {
      assert Populated(s, n) && Rank(s, n) == k;
    }
  }

  /** No two populated slots get the same new id. */
  lemma RankInverse(s: Slots, i: nat, j: nat)
    requires Populated(s, i) && Populated(s, j) && Rank(s, i) == Rank(s, j)
    ensures i == j
  {
    if i < j {
      RankIncreasing(s, i, j);
    } else if j < i {
      RankIncreasing(s, j, i);
    }
  }

  /** After `reformat` no slot is empty, the state in slot `k` has id `k`,
      and every transition leads to a slot in range. */
  lemma ReformatIsDense(s: Slots)
    requires Indexed(s) && TargetsPopulated(s)
    ensures Dense(Lift(Reformatted(s)))
  {
    var r := Lift(Reformatted(s));
    var c := Compact(s);
    forall k, d | 0 <= k < |r| && d in r[k].value.transitions
      ensures Populated(r, r[k].value.transitions[d])
    {
      RankOnto(s, k);
      var i: nat :| Populated(s, i) && Rank(s, i) == k;
      CompactAt(s, i);
      var t := s[i].value.transitions[d];
      CompactAt(s, t);
    }
  }

  /** Every populated slot survives `reformat` at its new id with its final
      flag, and every state `reformat` produces comes from one of them. */
  lemma ReformatKeepsStates(s: Slots, i: nat)
    requires Populated(s, i)
    ensures Rank(s, i) < |Reformatted(s)|
    ensures Reformatted(s)[Rank(s, i)].final == s[i].value.final
    ensures Reformatted(s)[Rank(s, i)].index == Rank(s, i)
  {
    CompactAt(s, i);
  }

  /** `reformat` keeps the transition relation up to the relabelling `Rank`:
      the populated slot `i` has an edge on `c` to `t` iff the new state
      `Rank(s, i)` has an edge on `c` to `Rank(s, t)`. */
  lemma ReformatEdges(s: Slots, i: nat, c: Symbol, t: nat)
    requires Indexed(s) && TargetsPopulated(s) && Populated(s, i) && Populated(s, t)
    ensures Rank(s, i) < |Reformatted(s)|
    ensures var n := Reformatted(s)[Rank(s, i)].transitions;
      (c in s[i].value.transitions && s[i].value.transitions[c] == t) <==>
      (c in n && n[c] == Rank(s, t))
  {
    CompactAt(s, i);
    var t1 := s[i].value.transitions;
    if c in t1 && Rank(s, t1[c]) == Rank(s, t) {
      RankInverse(s, t1[c], t);
    }
  }

  /** Reading a word from a populated slot before `reformat` and from its new
      id afterwards fails or succeeds together, and ends in slots related
      by `Rank`. */
  lemma {:induction false} ReformatRun(s: Slots, q: nat, w: seq<Symbol>)
    requires Indexed(s) && TargetsPopulated(s) && Populated(s, q)
    ensures var r, n := Run(s, q, w), Run(Lift(Reformatted(s)), Rank(s, q), w);
      && (r.Some? <==> n.Some?)
      && (r.Some? ==> Populated(s, r.value) && n.value == Rank(s, r.value))
    decreases |w|
  {
    CompactAt(s, q);
    if w != [] {
      var ts := s[q].value.transitions;
      if w[0] in ts {
        ReformatEdges(s, q, w[0], ts[w[0]]);
        ReformatRun(s, ts[w[0]], w[1..]);
      }
    }
  }

  /** `reformat` does not change the accepted language. */
  lemma ReformatLanguage(s: Slots, init: nat, w: seq<Symbol>)
    requires Indexed(s) && WellFormed(s, init)
    ensures Accepts(s, init, w) <==> Accepts(Lift(Reformatted(s)), NewInitial(s, init), w)
  {
    ReformatRun(s, init, w);
    var r := Run(s, init, w);
    if r.Some? {
      CompactAt(s, r.value);
    }
  }

  /** On an automaton that is already contiguous, `reformat` changes
      nothing. */
  lemma {:induction false} ReformatDense(s: Slots, init: nat)
    requires Dense(s)
    ensures Lift(Reformatted(s)) == s
    ensures init < |s| ==> NewInitial(s, init) == init
  {
    forall i | 0 <= i <= |s| ensures Rank(s, i) == i {
      DenseRank(s, i);
    }
    assert s[..|s|] == s;
    assert |Compact(s)| == Rank(s, |s|) == |s|;
    var r := Lift(Reformatted(s));
    forall k | 0 <= k < |s| ensures r[k] == s[k] {
      CompactAt(s, k);
      var t := s[k].value.transitions;
      assert RemapTransitions(s, t) == t;
    }
  }

  lemma {:induction false} DenseRank(s: Slots, i: nat)
    requires Dense(s) && i <= |s|
    ensures Rank(s, i) == i
  {
    if i > 0 {
      DenseRank(s, i - 1);
      RankStep(s, i - 1);
    }
  }

  /** `remappings` sends every populated slot, and nothing else, to its new
      id. */
  ghost predicate IsRankMap(s: Slots, remappings: map<nat, nat>) {
    forall j: nat :: (j in remappings <==> Populated(s, j)) && (j in remappings ==> remappings[j] == Rank(s, j))
  }

  /** Sending transitions whose targets are populated slots through the
      mapping is what `RemapTransitions` describes. */
  lemma RemapAgrees(s: Slots, remappings: map<nat, nat>, t: map<Symbol, nat>, updated: map<Symbol, nat>)
    requires IsRankMap(s, remappings)
    requires forall c :: c in t ==> Populated(s, t[c])
    requires updated.Keys == t.Keys
    requires forall c :: c in updated ==> t[c] in remappings && updated[c] == remappings[t[c]]
    ensures updated == RemapTransitions(s, t)
  {
  }

  /** The `k`-th state after the first pass of `reformat` has populated
      targets, and the second pass turns it into the `k`-th state of
      `Reformatted`. */
  lemma SecondPassAt(s: Slots, k: nat)
    requires Indexed(s) && TargetsPopulated(s) && k < |Compact(s)|
    ensures |Reformatted(s)| == |Renumbered(Compact(s))| == |Compact(s)|
    ensures var x := Renumbered(Compact(s))[k];
      && (forall c :: c in x.transitions ==> Populated(s, x.transitions[c]))
      && Reformatted(s)[k] == x.(transitions := RemapTransitions(s, x.transitions))
  {
    RankOnto(s, k);
    var q: nat :| Populated(s, q) && Rank(s, q) == k;
    CompactAt(s, q);
  }

  /** The inner loop of the second pass of `reformat`: every transition of
      one state is sent through the old-to-new mapping, keeping its symbol. */
  method RemapTargets(remappings: map<nat, nat>, transitions: map<Symbol, nat>)
    returns (updated: map<Symbol, nat>)
    requires forall c :: c in transitions ==> transitions[c] in remappings
    ensures updated.Keys == transitions.Keys
    ensures forall c :: c in updated ==> updated[c] == remappings[transitions[c]]
  {
    var keys := transitions.Keys;
    updated := transitions;
    while keys != {}
      invariant keys <= transitions.Keys && updated.Keys == transitions.Keys
      invariant forall c :: c in updated ==>
        updated[c] == if c in keys then transitions[c] else remappings[transitions[c]]
      decreases keys
    {
      var transition :| transition in keys;
      var oldState := transitions[transition];
      updated := updated[transition := remappings[oldState]];
      keys := keys - {transition};
    }
  }

  /** What the first pass of `reformat` has built after the slots `s[..i]`:
      the states seen so far, renumbered in order, the mapping from their
      old ids to their new ones, and the initial id, moved once its slot has
      been passed. */
  ghost predicate FirstPass(s: Slots, init: nat, i: nat, newStates: seq<State>,
                            remappings: map<nat, nat>, initialIndex: nat)
  {
    && i <= |s|
    && |newStates| == Rank(s, i)
    && newStates == Renumbered(Compact(s[..i]))
    && (forall j: nat :: j in remappings <==> Populated(s, j) && j < i)
    && (forall j :: j in remappings ==> remappings[j] == Rank(s, j))
    && initialIndex == if Populated(s, init) && init < i then Rank(s, init) else init
  }

  lemma FirstPassStart(s: Slots, init: nat)
    ensures FirstPass(s, init, 0, [], map[], init)
  {
    assert s[..0] == [];
  }

  /** One step of the first pass: a populated slot `i` is appended with the
      next new id and recorded in the mapping, and the initial id moves when
      it is `i`; an empty slot changes nothing. */
  lemma FirstPassStep(s: Slots, init: nat, i: nat, newStates: seq<State>,
                      remappings: map<nat, nat>, initialIndex: nat)
    requires Indexed(s) && i < |s| && FirstPass(s, init, i, newStates, remappings, initialIndex)
    ensures s[i].None? ==> FirstPass(s, init, i + 1, newStates, remappings, initialIndex)
    ensures s[i].Some? ==> FirstPass(s, init, i + 1,
      newStates + [s[i].value.(index := |newStates|)],
      remappings[s[i].value.index := |newStates|],
      if initialIndex == s[i].value.index then |newStates| else initialIndex)
  {
    RankStep(s, i);
    RankBound(s, init);
    if s[i].Some? {
      RenumberedSnoc(Compact(s[..i]), s[i].value);
    }
  }

  /** `reformat(dfa)`: the first pass walks the slots in order, appending
      every state to the new list with the next new id, recording the
      old-to-new mapping and moving the initial id when it names that state;
      the second pass sends every transition target through the mapping.
      The old id of a state is its slot, as `solve` leaves it, and every
      target names a populated slot; otherwise the mapping lookup fails. */
  method Reformat(dfa: Dfa)
    requires Indexed(dfa.states) && TargetsPopulated(dfa.states)
    modifies dfa
    ensures dfa.states == Lift(Reformatted(old(dfa.states)))
    ensures dfa.initialIndex == NewInitial(old(dfa.states), old(dfa.initialIndex))
  {
    ghost var s, init := dfa.states, dfa.initialIndex;
    var remappings: map<nat, nat> := map[];
    var newStates: seq<State> := [];
    var newStateIndex := 0;
    var i := 0;
    FirstPassStart(s, init);
    while i < |dfa.states|
      invariant dfa.states == s && newStateIndex == |newStates|
      invariant FirstPass(s, init, i, newStates, remappings, dfa.initialIndex)
    {
      FirstPassStep(s, init, i, newStates, remappings, dfa.initialIndex);
      if dfa.states[i].Some? {
        var state := dfa.states[i].value;
        ghost var expected := newStates + [state.(index := newStateIndex)];
        newStates := newStates + [state];
        remappings := remappings[state.index := newStateIndex];
        if dfa.initialIndex == state.index {
          dfa.initialIndex := newStateIndex;
        }
        newStates := newStates[newStateIndex := state.(index := newStateIndex)];
        assert newStates == expected;
        newStateIndex := newStateIndex + 1;
      }
      i := i + 1;
    }
    assert s[..i] == s;
    assert IsRankMap(s, remappings);
    ghost var firstPass, result := Renumbered(Compact(s)), Reformatted(s);
    var j := 0;
    while j < |newStates|
      invariant 0 <= j <= |newStates| == |result| == |firstPass|
      invariant forall k :: 0 <= k < j ==> newStates[k] == result[k]
      invariant forall k :: j <= k < |newStates| ==> newStates[k] == firstPass[k]
      invariant dfa.initialIndex == NewInitial(s, init)
      invariant IsRankMap(s, remappings)
    {
      SecondPassAt(s, j);
      var state := newStates[j];
      var updated := RemapTargets(remappings, state.transitions);
      RemapAgrees(s, remappings, state.transitions, updated);
      newStates := newStates[j := state.(transitions := updated)];
      j := j + 1;
    }
    assert newStates == result;
    dfa.states := Lift(newStates);
  }
}
