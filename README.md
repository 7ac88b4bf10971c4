# DFA intersection finder, modelled in Dafny

IntersectionFinder.py reads two deterministic finite automata and computes the automaton of their intersection, then writes it out. The computation has three steps:

- `solve` builds the product automaton. It allocates `|S1| * |S2|` empty slots. The pair `(a, b)` gets id `a * |S2| + b`. A memoised depth-first walk from the initial pair fills only the slots of reachable pairs.
- `reformat` drops the empty slots. It gives the remaining states the ids `0 .. N-1` in slot order, and sends the initial id and every transition target through one old-to-new mapping.
- `minimise` walks depth-first from the initial state. It marks each state `True` when an accepting state can be reached from it and `False` otherwise. States on a cycle stay pending on the path state they loop back to until that state is finished. Finally it removes every state not marked `True`, and every transition into one.

The model follows the program's structure:

- `wrappers.dfy`: `Option`.
- `automaton.dfy` (module `Automaton`): the `State` record as a datatype, and the `DFA` container as the class `Dfa`. It holds a `seq<Option<State>>` (a list of slots, `None` for empty) and the initial id, with `AddState`, `AddTransition`, `PerformTransition` and `IsFinal`.
- `graph.dfy` (module `Graph`): the successor relation over slots, reachability, co-reachability ("an accepting state can be reached") and the run of a word, `Accepts`.
- `product.dfy` (module `Product`): `solve` and `solveInner` as imperative methods over the `Dfa` class. Their specification is `ReachableProduct`: the full product restricted to the pairs reachable from the initial pair.
- `reindex.dfy` (module `Reindex`): `reformat` as a method with both of its loops. Its specification is `Reformatted`, built from `Compact` (the populated slots in order) and `Rank` (the number of populated slots before a slot, which is its new id).
- `minimise.dfy` (module `Prune`):
  - `minimiseInner` is the recursive method `MinimiseInner`, with its loop over the transitions and the source's back-patching comprehensions.
  - `minimise` is `Minimise`, with its filter and its transition-pruning loop.
  - The entries of `valid` are the datatype `Verdict`: `Unvisited | Dead | Live | PendingOn(ancestor)`.
  - The walk's correctness rests on a low-link style invariant:
    - each state on the path carries a weight: `-1` when it is `True`, the path position of the state it waits on, otherwise "above everything";
    - a waiting state's successors are all accounted for by the minimum weight from its ancestor's position on.
    - This is what makes "still pending on itself, hence `False`" sound.
- `pipeline.dfy` (module `Pipeline`): the script's call sequence `solve`, then `reformat`, then `minimise` (IntersectionFinder.py:200-202), and the theorem that its result accepts exactly the words both inputs accept.

Where the Python would crash, the model has a precondition instead:

- a `None` slot dereferenced;
- a missing key in `remappings`;
- an index out of range.

`solve`, and with it the whole pipeline, asks `Solvable` of the two inputs together:
- both initial states are present;
- for every pair of present states the product reaches from the initial pair, every symbol both states have leads to two present targets.

These are the targets `solveInner` reads. A state, or a transition, that no reached pair looks at may dangle. This includes a symbol the other state of the pair lacks, and a state of one automaton that is reachable there but never paired.

Python integers are unbounded, as `nat` is.

## Model

| member | source | states |
|---|---|---|
| Automaton.Dfa.constructor | IntersectionFinder.py:5-7 | `DFA(numOfStates=n)` without a file: `n` empty slots and initial id 0 |
| Automaton.Dfa.AddState | IntersectionFinder.py:28-29 | slot `stateIndex` holds a new state with that id, the given final flag and no transitions; no other slot and not the initial id changes |
| Automaton.Dfa.AddTransition | IntersectionFinder.py:31-32 | the state in slot `fromIndex` gets its transition on `c` set to `toIndex`; every other slot and the initial id are unchanged |
| Automaton.WithTransitionEffect | IntersectionFinder.py:31-32 | setting a transition makes `c` lead to the new target, overwrites any old one, adds no other symbol, and keeps every other symbol's target, the id and the final flag |
| Automaton.Dfa.PerformTransition | IntersectionFinder.py:36-37 | returns `Some(target)` exactly when the state has a transition on the symbol, that transition's target, and `None` otherwise |
| Product.PairIdBound | IntersectionFinder.py:64-65 | the id `a * \|S2\| + b` of an in-range pair is below `\|S1\| * \|S2\|` |
| Product.PairIdInjective | IntersectionFinder.py:70 | distinct in-range pairs get distinct ids |
| Product.FullProductAt | IntersectionFinder.py:70-88 | slot `a * \|S2\| + b` of the full product holds the pair's state, with that id, final iff both components are final, and a transition on `c` iff both components have one |
| Product.ProductSucc | IntersectionFinder.py:72-81 | a pair steps to `q` exactly when some symbol takes both components to the pair whose id is `q` |
| Product.PairsCompleteStep | IntersectionFinder.py:72-89 | the targets of a reached pair on a shared symbol are present, and the precondition of the walk holds again from the pair they form: what lets each recursive call of `solveInner` read its states |
| Product.ProductRun | IntersectionFinder.py:72-81 | reading a word in the product runs both automata side by side, failing when either fails, and every pair of end states it reaches is present |
| Product.ProductAccepts | IntersectionFinder.py:72-88 | the product accepts a word from a pair iff both automata accept it from the components |
| Product.SolveInner | IntersectionFinder.py:69-89 | after exploring a pair, its slot holds exactly its product state and every target of it is populated; every populated slot is reachable from the initial pair and agrees with the product; no populated slot is emptied, a slot newly populated by the call is fully explored, the other slots already populated are unchanged, and the initial id is kept; it terminates because the empty slots get fewer |
| Product.BuiltIsReachable | IntersectionFinder.py:84-91 | once the walk from the initial pair is over, the slots are exactly the reachable product: reachable pairs populated, the rest `None` |
| Product.ProductReachesPair | IntersectionFinder.py:69-89 | for inputs `solve` handles, every pair id reachable in the product from the initial pair is the id of a pair of present states |
| Product.Solve | IntersectionFinder.py:63-92 | for the inputs `solve` handles (`Solvable`), the result has `\|S1\| * \|S2\|` slots, initial id `i1 * \|S2\| + i2`, and equals the reachable product |
| Product.ReachableProductAt | IntersectionFinder.py:84-88 | the slot of the pair `(a, b)` in the result holds the pair's product state when the pair is reachable from the initial pair, and `None` otherwise; for inputs `solve` handles it is populated exactly when the pair is reachable |
| Product.ReachableProductInitial | IntersectionFinder.py:65-67 | the initial pair's slot is populated, and final iff both initial states are final |
| Product.SolveShape | IntersectionFinder.py:70-89 | every state of the result sits in the slot of its own id, and every transition of a built state leads to a built state |
| Product.SolveLanguage | IntersectionFinder.py:63-92 | the result accepts exactly the words both inputs accept |
| Reindex.CompactAt | IntersectionFinder.py:101-103 | a populated slot's state appears in the compacted list at position `Rank`, the number of populated slots before it |
| Reindex.RankIncreasing | IntersectionFinder.py:101-108 | a populated slot gets a smaller new id than every later slot: the relative order is kept |
| Reindex.RankOnto | IntersectionFinder.py:101-108 | every new id is the new id of some populated slot |
| Reindex.RankInverse | IntersectionFinder.py:104 | no two populated slots get the same new id |
| Reindex.FirstPassStep | IntersectionFinder.py:101-108 | one step of the first loop appends the state with the next id, records its old-to-new mapping, and moves the initial id exactly when it names that state |
| Reindex.RemapTargets | IntersectionFinder.py:112-113 | the inner loop keeps every symbol and sends each target through `remappings` |
| Reindex.RemapAgrees | IntersectionFinder.py:112-113 | sending targets through a mapping that holds the new id of every populated slot yields `RemapTransitions` |
| Reindex.SecondPassAt | IntersectionFinder.py:111-113 | the second loop turns the `k`-th renumbered state into the `k`-th state of the specification |
| Reindex.Reformat | IntersectionFinder.py:95-115 | the new state list is `Reformatted` of the old slots, and the initial id is the initial state's new id |
| Reindex.ReformatIsDense | IntersectionFinder.py:101-115 | after `reformat` no slot is empty, slot `k` holds id `k`, and every target is in range |
| Reindex.ReformatKeepsStates | IntersectionFinder.py:101-108 | every populated slot survives at its new id with its final flag |
| Reindex.ReformatEdges | IntersectionFinder.py:104-113 | slot `i` has an edge on `c` to `t` iff the new state `Rank(i)` has an edge on `c` to `Rank(t)` |
| Reindex.ReformatRun | IntersectionFinder.py:104-113 | a word's run before and after `reformat` succeeds or fails together, ending in slots related by the mapping |
| Reindex.ReformatLanguage | IntersectionFinder.py:95-115 | `reformat` does not change the accepted language from the initial state |
| Reindex.ReformatDense | IntersectionFinder.py:95-115 | on an already contiguous automaton `reformat` changes neither the states nor the initial id |
| Prune.Pos | IntersectionFinder.py:146 | `path.index(x)`: the first position holding `x`, and a value of `\|path\|` exactly when `x` is absent |
| Prune.Rewrite | IntersectionFinder.py:149-157 | back-patching: once `s` is resolved to a verdict other than waiting on itself, nothing is left waiting on `s`; the states that waited on it take that verdict, and no other entry changes |
| Prune.DistinctBound | IntersectionFinder.py:125-159 | a path without repetitions over `n` ids has at most `n` entries |
| Prune.Enter | IntersectionFinder.py:124-125 | marking `s` by its final flag and pushing it establishes the loop invariant |
| Prune.RecurseReady | IntersectionFinder.py:138-139 | the walk recurses only on an unvisited state off the path; the precondition holds there, and fewer states are unvisited, so each state is entered at most once |
| Prune.AfterRecurse | IntersectionFinder.py:139-140 | after the child returns, the loop invariant holds, with the child's verdict still to be taken in |
| Prune.AbsorbStep | IntersectionFinder.py:127-153 | taking in the child's result re-establishes the loop invariant: a state never falls back from `True`, waits only on states further back, and states waiting on it follow it |
| Prune.NobodyWaits | IntersectionFinder.py:142-157 | only a state itself can make others wait on it, so only it needs back-patching at the end |
| Prune.FinishStep | IntersectionFinder.py:155-159 | a state still waiting on itself when its loop ends becomes `False` with every state waiting on it, and the walk's postcondition holds with the path restored |
| Prune.MinimiseInner | IntersectionFinder.py:122-159 | entered only for an unvisited state off the path; states on the path keep their verdicts, visited ones stay visited and `True` ones stay `True`, every newly visited state is reachable, and a visited final state is `True` |
| Prune.DeadIsDead | IntersectionFinder.py:155-157 | a `False` verdict at the end of the walk is right: no accepting state is reachable from that state |
| Prune.WalkResult | IntersectionFinder.py:117-161 | after the walk from the initial state, a state is `True` iff it is reachable from the initial state and an accepting state is reachable from it |
| Prune.FreshStart | IntersectionFinder.py:119-161 | the walk may start at the initial state with every entry `None` and an empty path |
| Prune.WalkPrunes | IntersectionFinder.py:161-169 | the walk's verdicts prune exactly as the verdicts "useful or not" do |
| Prune.PrunedAgree | IntersectionFinder.py:164-169 | only which states are `True` decides the result |
| Prune.CompactRestrict | IntersectionFinder.py:164-169 | filtering the states and then pruning each one's transitions gives the same list as the other order |
| Prune.DropTransitions | IntersectionFinder.py:167-169 | every state loses exactly its transitions into states not marked `True`, and nothing else changes |
| Prune.Minimise | IntersectionFinder.py:118-169 | the new state list is `Minimised` of the old slots and initial id, and the initial id is unchanged |
| Prune.MinimiseIdle | IntersectionFinder.py:118-169 | pruning an automaton with nothing to prune is a no-op: a contiguous automaton whose every state is reachable and can reach an accepting state comes back unchanged |
| Prune.RestrictKeeps | IntersectionFinder.py:167-169 | a state keeps its id, final flag and exactly its transitions to useful states |
| Prune.MinimisedComplete | IntersectionFinder.py:117-169 | every useful state survives, with its id and final flag and exactly its transitions to useful states |
| Prune.MinimisedSound | IntersectionFinder.py:117-169 | every surviving state comes from a useful state in that way |
| Prune.MinimisedOrder | IntersectionFinder.py:164 | surviving states keep their relative order |
| Prune.MinimisedById | IntersectionFinder.py:164-169 | when slots hold the states of their own ids, every surviving state sits in `Cut` at its id |
| Prune.CutRunSub | IntersectionFinder.py:167-169 | every run in the pruned automaton is a run in the original |
| Prune.CutRunKeep | IntersectionFinder.py:117-169 | an accepting run from a useful state survives pruning |
| Prune.MinimisedLanguage | IntersectionFinder.py:117-169 | looked up by id, the pruned automaton accepts exactly the words the original accepts |
| Pipeline.ReformedPrunable | IntersectionFinder.py:200-202 | after `solve` and `reformat` the automaton is contiguous and `minimise` may run on it |
| Pipeline.Intersect | IntersectionFinder.py:200-202 | for the inputs `solve` handles (`Solvable`), the three calls in order produce `Intersection` of the inputs, with the initial id `reformat` computed |
| Pipeline.IntersectionLanguage | IntersectionFinder.py:200-202 | the automaton the script writes out accepts exactly the words both input automata accept |

## Left out

- Loading an automaton from a JFLAP file (IntersectionFinder.py:9-26): XML parsing and file input. Automata are given as slot lists.
- `getFilename`, the prompts and `writeToFile`: console and file I/O and float-formatted layout. The script's top-level statements are modelled only as the call order in `Pipeline.Intersect`.
- The `__repr__` methods: string formatting only.
- Python `is` on integers is modelled as value equality: `valid[x] is False`, `x is stateIndex` and `valid[stateIndex] is stateIndex`. CPython guarantees identity only for small cached integers, so for large state ids the source's comparisons can differ from the model.
- States are values, not shared objects. No two slots of the script ever share a `State` object, so no aliasing is lost. The in-place writes to `state.index` and `state.transitions` become replacements of the list entries.
- The shared `path` list and the `nonlocal valid` of `minimiseInner` are parameters and results. The path comes back as it was, which is what `append`/`pop` achieve.
- Product.SolveInner and Prune.MinimiseInner: the recursion depth is not bounded. Each newly visited state adds one nested call, so on a long chain of states CPython's default recursion limit of 1000 raises RecursionError. The model proves a result for every size.
- Dictionary iteration order: every loop over a state's transitions picks the next symbol arbitrarily, so every property holds for every order.
- IsFinal has no contract: it is the query `states[i].final`, used by `AddState`'s callers and by `MinimiseInner`.
- Reindex.Reformat: requires every state to sit in the slot of its own id, which is how `solve` leaves them. On other layouts the source can move the initial id twice and pick the wrong state. Example: slots `[State(5), State(0)]` with initial id 5. The first loop sets the initial id to 0 at slot 0, then to 1 at slot 1, but the old initial state got id 0.
- Prune.Minimise: requires every transition target to be a populated slot. The source only needs this for the states the walk reaches.
- Prune.MinimisedLanguage: is stated only for slot lists whose states sit at their own ids, which is what `reformat` leaves.
- After `minimise` the ids are no longer contiguous, and the positions in the state list no longer match the ids. The result is described by id through `Cut`, which is how the written file lists it.
- Product.Solve, Product.SolveInner, Pipeline.Intersect: one class of inputs is excluded that the source can run without error. A target `b >= |S2|` in the second automaton, on a symbol from a reached pair, gives the pair id `a * |S2| + b`, which is the id of a different pair.
  - If that slot is already built, the source silently adds an edge to the other pair.
  - If it is not, line 87 raises IndexError. So does line 84 when the id is at least `|S1| * |S2|`.
  - Which of the two happens depends on the dictionary order of the walk.
- Running `minimise` on its own output is outside the model. The output generally keeps gaps between its ids, so it is not `Prunable`. For example, `[State(0, {b: 2}), State(2, final)]` has an id 2 beyond a list of length 2. On such a list the source's `valid` is too short and the walk indexes past its end (IntersectionFinder.py:120, 138).
- When the initial state is reachable to no accepting state, `minimise` removes every state but leaves the initial id pointing at a removed id. The model reproduces this and proves nothing more about it.
- The inputs are never checked for determinism or a shared alphabet. Maps from symbols make determinism structural, and a symbol missing from either automaton simply yields no product edge.
