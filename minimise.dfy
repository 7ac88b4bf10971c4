/** `minimise` and `minimiseInner` of IntersectionFinder.py: a depth-first
    walk from the initial state that marks every state it meets as leading
    to an accepting state or not, followed by the removal of every state
    that is not so marked and of every transition into one. */
module Prune {
  import opened Wrappers
  import opened Automaton
  import opened Graph
  import opened Reindex

  /** One entry of the list `valid` kept per state: `None` (not visited),
      `True` (an accepting state is reachable), `False` (none found), or the
      id of a state still on the walk's path that this state reached through
      a loop and whose outcome it shares. */
  datatype Verdict = Unvisited | Dead | Live | PendingOn(ancestor: nat)

  /** `path.index(x)`: the position of the first occurrence of `x`, or
      `|path|` when `x` does not occur. */
  function Pos(path: seq<nat>, x: nat): (r: nat)
    ensures r <= |path|
    ensures x in path <==> r < |path|
    ensures r < |path| ==> path[r] == x && x !in path[..r]
    decreases |path|
  {
    if |path| == 0 then 0
    else if path[0] == x then 0
    else
      var r' := Pos(path[1..], x);
      assert r' < |path| - 1 ==> path[..r' + 1] == [path[0]] + path[1..][..r'];
      assert x in path <==> x in path[1..] by {
        assert path == [path[0]] + path[1..];
      }
      1 + r'
  }

  /** No state occurs twice on the path. */
  predicate Distinct(p: seq<nat>) {
    forall i, j :: 0 <= i < j < |p| ==> p[i] != p[j]
  }

  lemma PosAt(p: seq<nat>, k: nat)
    requires Distinct(p) && k < |p|
    ensures Pos(p, p[k]) == k
  {
    var r := Pos(p, p[k]);
  }

  /** Appending to the path moves no earlier position. */
  lemma {:induction false} PosSnoc(p: seq<nat>, s: nat, c: nat)
    requires c in p
    ensures Pos(p + [s], c) == Pos(p, c)
    decreases |p|
  {
    if p[0] != c {
      assert (p + [s])[1..] == p[1..] + [s];
      PosSnoc(p[1..], s, c);
    }
  }

  /** A path without repetitions over the ids `0 .. n-1` has at most `n`
      entries. */
  lemma {:induction false} DistinctBound(p: seq<nat>, n: nat)
    requires Distinct(p) && forall k :: 0 <= k < |p| ==> p[k] < n
    ensures |p| <= n
    decreases n
  {
    if |p| > 0 {
      assert p[0] < n;
      DistinctBoundStep(p, n);
    }
  }

  lemma {:induction false} DistinctBoundStep(p: seq<nat>, n: nat)
    requires Distinct(p) && forall k :: 0 <= k < |p| ==> p[k] < n
    requires n > 0
    ensures |p| <= n
    decreases n, 0
  {
    if n - 1 in p {
      var i := Pos(p, n - 1);
      var q := p[..i] + p[i + 1..];
      forall a | 0 <= a < |q| ensures q[a] == p[if a < i then a else a + 1] {
      }
      forall a | 0 <= a < |q| ensures q[a] < n - 1 {
        if a < i {
          assert p[..i][a] == p[a];
        }
      }
      DistinctBound(q, n - 1);
    } else {
      DistinctBound(p, n - 1);
    }
  }

  function Min(a: int, b: int): int {
    if a <= b then a else b
  }

  /** How far back on the path a verdict points: `True` below every position,
      a state waiting on `c` at the position of `c`, everything else above
      every position (`n` is the number of states). */
  function Weight(path: seq<nat>, n: nat, x: Verdict): int {
    match x
    case Live => -1
    case PendingOn(c) => if c in path then Pos(path, c) else n
    case _ => n
  }

  /** The weight of the state at position `k` of the path. */
  function Bar(valid: seq<Verdict>, path: seq<nat>, k: nat): int
    requires k < |path|
  {
    if path[k] < |valid| then Weight(path, |valid|, valid[path[k]]) else |valid|
  }

  /** The least weight among the path's states from position `j` on. */
  function MinFrom(valid: seq<Verdict>, path: seq<nat>, j: nat): (r: int)
    ensures r <= |valid|
    decreases |path| - j
  {
    if j >= |path| then |valid| else Min(Bar(valid, path, j), MinFrom(valid, path, j + 1))
  }

  /** The least weight from position `j` on, also counting `extra`: the
      weight of a child that has just been walked and whose result its parent
      has not yet taken in. */
  function Low(valid: seq<Verdict>, path: seq<nat>, extra: int, j: nat): int {
    Min(extra, MinFrom(valid, path, j))
  }

  /** The weight a successor `y` imposes on a state that has looked at it: a
      state without accepting result still on the path counts at its own
      position, since its predecessor then waits on it. */
  function Need(valid: seq<Verdict>, path: seq<nat>, y: nat): int
    requires y < |valid|
  {
    if valid[y] == Dead then (if y in path then Pos(path, y) else |valid|)
    else Weight(path, |valid|, valid[y])
  }

  /** The successor `y` of a state waiting on the state at position `j` is
      accounted for: it is finished without an accepting state, or the path
      from position `j` on carries its weight. */
  predicate Covered(valid: seq<Verdict>, path: seq<nat>, extra: int, j: nat, y: nat) {
    && y < |valid|
    && ((valid[y] == Dead && y !in path)
        || (valid[y] != Unvisited && Low(valid, path, extra, j) <= Need(valid, path, y)))
  }

  lemma {:induction false} MinFromLe(valid: seq<Verdict>, path: seq<nat>, j: nat, k: nat)
    requires j <= k < |path|
    ensures MinFrom(valid, path, j) <= Bar(valid, path, k)
    decreases k - j
  {
    if j < k {
      MinFromLe(valid, path, j + 1, k);
    }
  }

  lemma {:induction false} MinFromAnti(valid: seq<Verdict>, path: seq<nat>, i: nat, j: nat)
    requires i <= j
    ensures MinFrom(valid, path, i) <= MinFrom(valid, path, j)
    decreases j - i
  {
    if i < j {
      MinFromAnti(valid, path, i + 1, j);
    }
  }

  /** Extending the path by `s` adds the weight of `s` to every minimum, when
      the earlier positions weigh the same. */
  lemma {:induction false} MinFromSnoc(v: seq<Verdict>, u: seq<Verdict>, path: seq<nat>, s: nat, j: nat)
    requires j <= |path| && |v| == |u|
    requires forall k :: j <= k < |path| ==> Bar(v, path + [s], k) == Bar(u, path, k)
    ensures MinFrom(v, path + [s], j) == Min(MinFrom(u, path, j), Bar(v, path + [s], |path|))
    decreases |path| - j
  {
    if j < |path| {
      MinFromSnoc(v, u, path, s, j + 1);
    }
  }

  /** Lowering the weight of the last position lowers every minimum. */
  lemma {:induction false} MinFromLast(v: seq<Verdict>, v2: seq<Verdict>, p: seq<nat>, j: nat)
    requires |p| > 0 && |v| == |v2|
    requires forall k :: 0 <= k < |p| - 1 ==> Bar(v2, p, k) == Bar(v, p, k)
    requires Bar(v2, p, |p| - 1) <= Bar(v, p, |p| - 1)
    ensures MinFrom(v2, p, j) <= MinFrom(v, p, j)
    decreases |p| - j
  {
    if j < |p| {
      MinFromLast(v, v2, p, j + 1);
    }
  }

  /** The weights of the path's states do not change when `s` is pushed,
      as long as they only wait on states already on the path. */
  lemma BarsSnoc(v: seq<Verdict>, u: seq<Verdict>, path: seq<nat>, s: nat)
    requires |v| == |u|
    requires forall k :: 0 <= k < |path| ==>
      path[k] < |v| && v[path[k]] == u[path[k]] &&
      (u[path[k]].PendingOn? ==> u[path[k]].ancestor in path)
    ensures forall k :: 0 <= k < |path| ==> Bar(v, path + [s], k) == Bar(u, path, k)
  {
    forall k | 0 <= k < |path| ensures Bar(v, path + [s], k) == Bar(u, path, k) {
      assert (path + [s])[k] == path[k];
      var x := u[path[k]];
      if x.PendingOn? {
        PosSnoc(path, s, x.ancestor);
      }
    }
  }

  /** The back-patching comprehensions of IntersectionFinder.py:149, 153
      and 157: once `s` is resolved to `x`, every state waiting on `s`
      takes `x` and nothing is left waiting on `s`; no other entry
      changes. */
  function Rewrite(valid: seq<Verdict>, s: nat, x: Verdict): (r: seq<Verdict>)
    ensures |r| == |valid|
    ensures forall k :: 0 <= k < |valid| && valid[k] == PendingOn(s) ==> r[k] == x
    ensures forall k :: 0 <= k < |valid| && valid[k] != PendingOn(s) ==> r[k] == valid[k]
    ensures x != PendingOn(s) ==> forall k :: 0 <= k < |r| ==> r[k] != PendingOn(s)
  {
    seq(|valid|, k requires 0 <= k < |valid| => if valid[k] == PendingOn(s) then x else valid[k])
  }

  /** The states not yet visited. */
  function UnvisitedSet(valid: seq<Verdict>): set<nat> {
    set k | 0 <= k < |valid| && valid[k] == Unvisited
  }

  // ---- The invariant of the walk ----------------------------------------

  /** Position `k` of the path holds a visited state that waits, if at all,
      on a state at or before position `k`. */
  predicate StackEntry(valid: seq<Verdict>, path: seq<nat>, k: nat)
    requires k < |path|
  {
    && path[k] < |valid| && valid[path[k]] != Unvisited
    && (valid[path[k]].PendingOn? ==>
          valid[path[k]].ancestor in path && Pos(path, valid[path[k]].ancestor) <= k)
  }

  predicate StackOk(valid: seq<Verdict>, path: seq<nat>) {
    Distinct(path) && forall k :: 0 <= k < |path| ==> StackEntry(valid, path, k)
  }

  /** Only states that can reach an accepting state are marked `True`. */
  ghost predicate LiveSound(g: Slots, valid: seq<Verdict>) {
    forall x :: 0 <= x < |valid| && valid[x] == Live ==> CanReachFinal(g, x)
  }

  /** The state `x` waits on `a`: `a` is on the path, waits on nobody but
      itself, is reachable from `x`, and the path from `a` on carries a
      weight no greater than the position of `a`, so that `a` will not be
      closed as `False` while `x` still waits on it. */
  ghost predicate PendingFact(g: Slots, valid: seq<Verdict>, path: seq<nat>, extra: int, x: nat, a: nat) {
    && a in path && a < |valid|
    && (valid[a] == Dead || valid[a] == PendingOn(a))
    && Reaches(g, x, a)
    && Low(valid, path, extra, Pos(path, a)) <= Pos(path, a)
  }

  ghost predicate PendingOk(g: Slots, valid: seq<Verdict>, path: seq<nat>, extra: int) {
    forall x :: 0 <= x < |valid| && valid[x].PendingOn? ==>
      PendingFact(g, valid, path, extra, x, valid[x].ancestor)
  }

  /** A finished `False` state leads only to finished `False` states. */
  ghost predicate DeadClosed(g: Slots, valid: seq<Verdict>, path: seq<nat>) {
    forall x: nat, y: nat :: x < |valid| && valid[x] == Dead && x !in path && Succ(g, x, y) ==>
      y < |valid| && valid[y] == Dead && y !in path
  }

  /** Every successor of a finished waiting state is accounted for at the
      position of the state it waits on. */
  ghost predicate PendingClosed(g: Slots, valid: seq<Verdict>, path: seq<nat>, extra: int) {
    forall x: nat, y: nat :: x < |valid| && valid[x].PendingOn? && x !in path && Succ(g, x, y) ==>
      Covered(valid, path, extra, Pos(path, valid[x].ancestor), y)
  }

  /** Every successor of a finished state has been visited. */
  ghost predicate VisitedClosed(g: Slots, valid: seq<Verdict>, path: seq<nat>) {
    forall x: nat, y: nat :: x < |valid| && valid[x] != Unvisited && x !in path && Succ(g, x, y) ==>
      y < |valid| && valid[y] != Unvisited
  }

  /** A visited accepting state is `True`. */
  predicate FinalLive(g: Slots, valid: seq<Verdict>) {
    forall x :: 0 <= x < |valid| && valid[x] != Unvisited && Accepting(g, x) ==> valid[x] == Live
  }

  /** What holds of `valid` whenever the walk stands with `path` as its
      path, a child whose weight is `extra` having just returned. */
  ghost predicate Consistent(g: Slots, valid: seq<Verdict>, path: seq<nat>, extra: int) {
    && |valid| == |g|
    && StackOk(valid, path)
    && LiveSound(g, valid)
    && PendingOk(g, valid, path, extra)
    && DeadClosed(g, valid, path)
    && PendingClosed(g, valid, path, extra)
    && VisitedClosed(g, valid, path)
    && FinalLive(g, valid)
  }

  /** How a walk from `s` with the path `path` below it may change `valid`:
      the states on the path keep their verdicts, no visited state is
      forgotten, `True` and finished `False` verdicts stay, `s` is visited,
      and every newly visited state is reachable from `s`. */
  ghost predicate Monotone(g: Slots, valid0: seq<Verdict>, path: seq<nat>, s: nat, v: seq<Verdict>) {
    && |v| == |valid0| && s < |v| && v[s] != Unvisited
    && (forall k :: 0 <= k < |path| && path[k] < |v| ==> v[path[k]] == valid0[path[k]])
    && (forall x :: 0 <= x < |v| && valid0[x] != Unvisited ==> v[x] != Unvisited)
    && (forall x :: 0 <= x < |v| && valid0[x] == Live ==> v[x] == Live)
    && (forall x :: 0 <= x < |v| && valid0[x] == Dead && x !in path ==> v[x] == Dead)
    && (forall x :: 0 <= x < |v| && valid0[x] == Unvisited && v[x] != Unvisited ==> Reaches(g, s, x))
  }

  /** Every successor accounted for below the path before the walk is still
      accounted for after it. */
  ghost predicate Carried(valid0: seq<Verdict>, path: seq<nat>, v: seq<Verdict>, path': seq<nat>, extra: int) {
    forall j, y :: 0 <= j < |path| && Covered(valid0, path, |valid0|, j, y) ==> Covered(v, path', extra, j, y)
  }

  /** What `minimiseInner(s)` needs: every transition target exists, `s` is
      populated, not yet visited and not on the path. */
  ghost predicate InnerPre(g: Slots, valid: seq<Verdict>, path: seq<nat>, s: nat) {
    && TargetsPopulated(g) && Populated(g, s) && |valid| == |g|
    && valid[s] == Unvisited && s !in path
    && Consistent(g, valid, path, |g|)
  }

  /** What `minimiseInner(s)` leaves behind, the path restored: the verdict
      of `s` is the weight its caller has yet to take in. */
  ghost predicate InnerPost(g: Slots, valid0: seq<Verdict>, path: seq<nat>, s: nat, v: seq<Verdict>) {
    && Monotone(g, valid0, path, s, v)
    && Consistent(g, v, path, Weight(path, |v|, v[s]))
    && Carried(valid0, path, v, path, Weight(path, |v|, v[s]))
  }

  /** A child `t` of `s` that the loop has dealt with. */
  ghost predicate ChildOk(v: seq<Verdict>, stack: seq<nat>, s: nat, extra: int, t: nat)
    requires s < |v|
  {
    && t < |v| && v[t] != Unvisited
    && (v[s] == Dead ==> v[t] == Dead && t !in stack)
    && (v[s].PendingOn? ==> Covered(v, stack, extra, Pos(stack, v[s].ancestor), t))
  }

  /** The loop invariant of `minimiseInner(s)` after the symbols in
      `processed`. */
  ghost predicate Frame(g: Slots, valid0: seq<Verdict>, path: seq<nat>, s: nat, v: seq<Verdict>,
                        processed: set<Symbol>, extra: int)
  {
    && TargetsPopulated(g) && Populated(g, s) && |valid0| == |g| && valid0[s] == Unvisited && s !in path
    && processed <= g[s].value.transitions.Keys
    && Consistent(g, v, path + [s], extra)
    && Monotone(g, valid0, path, s, v)
    && Carried(valid0, path, v, path + [s], extra)
    && forall c :: c in processed ==> ChildOk(v, path + [s], s, extra, g[s].value.transitions[c])
  }

  /** The path `path + [s]` has `s` last and is a path without
      repetitions. */
  lemma StackTop(path: seq<nat>, s: nat)
    requires Distinct(path) && s !in path
    ensures Distinct(path + [s]) && (path + [s])[|path|] == s && Pos(path + [s], s) == |path|
  {
    PosAt(path + [s], |path|);
  }

  /** The top of a path without repetitions is at the last position. */
  lemma StackLast(path: seq<nat>, s: nat)
    requires Distinct(path + [s])
    ensures Distinct(path) && s !in path && (path + [s])[|path|] == s && Pos(path + [s], s) == |path|
  {
    PosAt(path + [s], |path|);
    forall i, j | 0 <= i < j < |path| ensures path[i] != path[j] {
      assert (path + [s])[i] == path[i] && (path + [s])[j] == path[j];
    }
  }

  // ---- Entering a state ----------------------------------------------------

  /** Entering `s` records its own final flag as its first verdict
      (IntersectionFinder.py:124). */
  function Entered(g: Slots, valid: seq<Verdict>, s: nat): seq<Verdict>
    requires Populated(g, s) && s < |valid|
  {
    valid[s := if g[s].value.final then Live else Dead]
  }

  /** Entering `s` and pushing it lowers no minimum of weights and changes
      no successor's weight. */
  lemma EnterWeights(g: Slots, valid0: seq<Verdict>, path: seq<nat>, s: nat)
    requires InnerPre(g, valid0, path, s)
    ensures var v, p := Entered(g, valid0, s), path + [s];
      && (forall j :: 0 <= j <= |path| ==> Low(v, p, |g|, j) <= Low(valid0, path, |g|, j))
      && (forall y :: 0 <= y < |g| && y != s ==> Need(v, p, y) == Need(valid0, path, y))
  {
    var v, p := Entered(g, valid0, s), path + [s];
    forall k | 0 <= k < |path|
      ensures path[k] < |v| && v[path[k]] == valid0[path[k]]
      ensures valid0[path[k]].PendingOn? ==> valid0[path[k]].ancestor in path
    {
      assert StackEntry(valid0, path, k);
    }
    BarsSnoc(v, valid0, path, s);
    forall j | 0 <= j <= |path| ensures Low(v, p, |g|, j) <= Low(valid0, path, |g|, j) {
      MinFromSnoc(v, valid0, path, s, j);
    }
    forall y | 0 <= y < |g| && y != s ensures Need(v, p, y) == Need(valid0, path, y) {
      if y in path {
        PosSnoc(path, s, y);
      }
      if valid0[y].PendingOn? {
        assert PendingFact(g, valid0, path, |g|, y, valid0[y].ancestor);
        PosSnoc(path, s, valid0[y].ancestor);
      }
    }
  }

  lemma EnterCovered(g: Slots, valid0: seq<Verdict>, path: seq<nat>, s: nat, j: nat, y: nat)
    requires InnerPre(g, valid0, path, s) && j <= |path|
    requires Covered(valid0, path, |g|, j, y)
    ensures Covered(Entered(g, valid0, s), path + [s], |g|, j, y)
  {
    EnterWeights(g, valid0, path, s);
  }

  /** The states waiting on somebody keep their part of the invariant when
      `s` is entered. */
  lemma EnterPending(g: Slots, valid0: seq<Verdict>, path: seq<nat>, s: nat)
    requires InnerPre(g, valid0, path, s)
    ensures PendingOk(g, Entered(g, valid0, s), path + [s], |g|)
    ensures PendingClosed(g, Entered(g, valid0, s), path + [s], |g|)
  {
    var v, p, n := Entered(g, valid0, s), path + [s], |g|;
    EnterWeights(g, valid0, path, s);
    forall x | 0 <= x < |v| && v[x].PendingOn? ensures PendingFact(g, v, p, n, x, v[x].ancestor) {
      var a := v[x].ancestor;
      assert PendingFact(g, valid0, path, n, x, a);
      PosSnoc(path, s, a);
    }
    forall x: nat, y: nat | x < |v| && v[x].PendingOn? && x !in p && Succ(g, x, y)
      ensures Covered(v, p, n, Pos(p, v[x].ancestor), y)
    {
      var a := v[x].ancestor;
      assert PendingFact(g, valid0, path, n, x, a);
      PosSnoc(path, s, a);
      EnterCovered(g, valid0, path, s, Pos(path, a), y);
    }
  }

  /** Entering `s` establishes the loop invariant with nothing processed. */
  lemma Enter(g: Slots, valid0: seq<Verdict>, path: seq<nat>, s: nat)
    requires InnerPre(g, valid0, path, s)
    ensures Frame(g, valid0, path, s, Entered(g, valid0, s), {}, |g|)
  {
    var v, p, n := Entered(g, valid0, s), path + [s], |g|;
    StackTop(path, s);
    forall k | 0 <= k < |p| ensures StackEntry(v, p, k) {
      if k < |path| {
        assert StackEntry(valid0, path, k);
        var x := valid0[path[k]];
        if x.PendingOn? {
          PosSnoc(path, s, x.ancestor);
        }
      }
    }
    if g[s].value.final {
      ReachesRefl(g, s);
      assert Accepting(g, s);
    }
    EnterWeights(g, valid0, path, s);
    EnterPending(g, valid0, path, s);
    forall j, y | 0 <= j < |path| && Covered(valid0, path, n, j, y) ensures Covered(v, p, n, j, y) {
      EnterCovered(g, valid0, path, s, j, y);
    }
    ReachesRefl(g, s);
  }

  // ---- Walking a child -----------------------------------------------------

  /** An unvisited child off the path may be walked: its precondition holds
      and fewer states are unvisited than when `s` was entered. */
  lemma RecurseReady(g: Slots, valid0: seq<Verdict>, path: seq<nat>, s: nat, v: seq<Verdict>,
                     processed: set<Symbol>, c: Symbol)
    requires Frame(g, valid0, path, s, v, processed, |g|)
    requires c in g[s].value.transitions
    requires var t := g[s].value.transitions[c];
      t !in path + [s] && t < |v| && v[t] == Unvisited
    ensures InnerPre(g, v, path + [s], g[s].value.transitions[c])
    ensures UnvisitedSet(v) < UnvisitedSet(valid0)
  {
    var t := g[s].value.transitions[c];
    assert Populated(g, t);
    assert s in UnvisitedSet(valid0) - UnvisitedSet(v);
  }

  /** After the walk of the child `t` returns, the loop invariant holds
      with the child's weight still to be taken in. */
  lemma AfterRecurse(g: Slots, valid0: seq<Verdict>, path: seq<nat>, s: nat, v: seq<Verdict>,
                     processed: set<Symbol>, c: Symbol, v': seq<Verdict>)
    requires Frame(g, valid0, path, s, v, processed, |g|)
    requires c in g[s].value.transitions
    requires var t := g[s].value.transitions[c];
      t !in path + [s] && t < |v| && v[t] == Unvisited
    requires InnerPost(g, v, path + [s], g[s].value.transitions[c], v')
    ensures Frame(g, valid0, path, s, v', processed, Weight(path + [s], |g|, v'[g[s].value.transitions[c]]))
  {
    var t, p, n := g[s].value.transitions[c], path + [s], |g|;
    var e := Weight(p, n, v'[t]);
    assert Succ(g, s, t);
    assert p[|path|] == s;
    forall k | 0 <= k < |path| ensures p[k] == path[k] {
    }
    forall x | 0 <= x < |v'| && valid0[x] == Unvisited && v'[x] != Unvisited ensures Reaches(g, s, x) {
      if v[x] == Unvisited {
        ReachesStep(g, s, t, x);
      }
    }
    forall j, y | 0 <= j < |path| && Covered(valid0, path, n, j, y) ensures Covered(v', p, e, j, y) {
      assert Covered(v, p, n, j, y);
    }
    forall d | d in processed ensures ChildOk(v', p, s, e, g[s].value.transitions[d]) {
      assert ChildOk(v, p, s, n, g[s].value.transitions[d]);
      if v[s].PendingOn? {
        assert StackEntry(v, p, |path|);
      }
    }
  }

  // ---- Taking in a child's result ------------------------------------------

  /** The update of `valid` after the child result `r` of `s`: a state not
      yet `True` takes over a result that waits on a state further back on
      the path, or becomes `True`, and every state waiting on `s` follows. */
  function Absorb(v: seq<Verdict>, stack: seq<nat>, s: nat, r: Verdict): seq<Verdict>
    requires s < |v|
  {
    if v[s] == Live then v
    else if r.PendingOn? then
      if !v[s].PendingOn? || Pos(stack, r.ancestor) < Pos(stack, v[s].ancestor) then
        Rewrite(v[s := r], s, r)
      else v
    else if r == Live then Rewrite(v[s := Live], s, Live)
    else v
  }

  /** Taking in `r` sets the verdict of `s` as described by `AbsorbShape`,
      and moves exactly the states waiting on `s` along with it. */
  lemma AbsorbFacts(v: seq<Verdict>, stack: seq<nat>, s: nat, r: Verdict)
    requires s < |v|
    ensures AbsorbShape(v, Absorb(v, stack, s, r), stack, s, r)
  {
  }

  /** The states `AbsorbFacts` relates: `v2` is `v` after the result `r`
      of a child of `s` was taken in with the path `p`. */
  ghost predicate AbsorbShape(v: seq<Verdict>, v2: seq<Verdict>, p: seq<nat>, s: nat, r: Verdict) {
    && s < |v| && |v2| == |v|
    && (forall x :: 0 <= x < |v| && x != s ==>
          v2[x] == if v[x] == PendingOn(s) && v2[s] != v[s] then v2[s] else v[x])
    && (v2[s] == v[s] || (v[s] != Live && ((r.PendingOn? && v2[s] == r &&
          (!v[s].PendingOn? || Pos(p, r.ancestor) < Pos(p, v[s].ancestor))) ||
          (r == Live && v2[s] == Live))))
    && (v2[s] == v[s] ==> (v[s] == Live ||
          (r.PendingOn? && v[s].PendingOn? && Pos(p, r.ancestor) >= Pos(p, v[s].ancestor)) ||
          (!r.PendingOn? && r != Live)))
  }

  /** What is known of the result `r` the loop reads for the child `t`. */
  ghost predicate ResultShape(g: Slots, v: seq<Verdict>, p: seq<nat>, s: nat, t: nat, r: Verdict) {
    && Succ(g, s, t) && t < |v| && v[t] != Unvisited && r != Unvisited && |p| <= |v|
    && Need(v, p, t) == Weight(p, |v|, r)
    && (r.PendingOn? ==> && r.ancestor in p && r.ancestor < |v|
                         && (v[r.ancestor] == Dead || v[r.ancestor] == PendingOn(r.ancestor))
                         && Reaches(g, t, r.ancestor))
    && (r == Live ==> CanReachFinal(g, t))
  }

  /** The weights after taking in `r`: no state below `s` on the path
      changes, `s` weighs at most what it weighed and at most what `r`
      weighs, and no minimum rises. */
  ghost predicate WeightShape(v: seq<Verdict>, v2: seq<Verdict>, path: seq<nat>, s: nat, r: Verdict, extra: int) {
    var p, n := path + [s], |v|;
    && |v2| == n && s < n
    && (forall k :: 0 <= k < |path| ==> path[k] < n && v2[path[k]] == v[path[k]])
    && (forall a :: a in path ==> a < n && v2[a] == v[a])
    && Weight(p, n, v2[s]) <= Weight(p, n, v[s])
    && Weight(p, n, v2[s]) <= Weight(p, n, r)
    && (forall j :: 0 <= j <= |path| ==> Low(v2, p, n, j) <= Low(v, p, extra, j))
    && (forall j :: 0 <= j <= |path| ==> MinFrom(v2, p, j) <= Weight(p, n, v2[s]))
  }

  /** The conditions under which the loop takes in the result `r` of the
      child `t` reached on `c`: `r` is what the source reads, `PendingOn(t)`
      for a `False` state on the path, and `extra` is the child's weight
      when it was just walked. */
  ghost predicate AbsorbPre(g: Slots, valid0: seq<Verdict>, path: seq<nat>, s: nat, v: seq<Verdict>,
                            processed: set<Symbol>, extra: int, c: Symbol, r: Verdict)
  {
    && Frame(g, valid0, path, s, v, processed, extra)
    && c in g[s].value.transitions
    && var t := g[s].value.transitions[c];
    && t < |v| && v[t] != Unvisited
    && r == (if t in path + [s] && v[t] == Dead then PendingOn(t) else v[t])
    && (extra == |g| || (t !in path + [s] && extra == Weight(path + [s], |g|, v[t])))
  }

  lemma AbsorbResult(g: Slots, v: seq<Verdict>, p: seq<nat>, s: nat, extra: int, t: nat, r: Verdict)
    requires |v| == |g| && StackOk(v, p) && PendingOk(g, v, p, extra) && LiveSound(g, v)
    requires Succ(g, s, t) && t < |v| && v[t] != Unvisited
    requires r == (if t in p && v[t] == Dead then PendingOn(t) else v[t])
    ensures ResultShape(g, v, p, s, t, r)
  {
    forall k | 0 <= k < |p| ensures p[k] < |g| {
      assert StackEntry(v, p, k);
    }
    DistinctBound(p, |g|);
    if r == PendingOn(t) && t in p && v[t] == Dead {
      ReachesRefl(g, t);
    } else if r.PendingOn? {
      assert PendingFact(g, v, p, extra, t, r.ancestor);
    }
  }

  /** Taking in `r` changes no state below `s` on the path. */
  lemma AbsorbBelow(v: seq<Verdict>, v2: seq<Verdict>, path: seq<nat>, s: nat, r: Verdict)
    requires AbsorbShape(v, v2, path + [s], s, r) && StackOk(v, path + [s])
    ensures forall k :: 0 <= k < |path| ==> path[k] < |v| && v2[path[k]] == v[path[k]]
    ensures forall a :: a in path ==> a < |v| && v2[a] == v[a]
    ensures forall k :: 0 <= k < |path| ==> Bar(v2, path + [s], k) == Bar(v, path + [s], k)
  {
    var p, n := path + [s], |v|;
    StackLast(path, s);
    forall k | 0 <= k < |path| ensures path[k] < n && v2[path[k]] == v[path[k]] {
      assert p[k] == path[k];
      assert StackEntry(v, p, k);
    }
    forall a | a in path ensures a < n && v2[a] == v[a] {
      assert path[Pos(path, a)] == a;
    }
    forall k | 0 <= k < |path| ensures Bar(v2, p, k) == Bar(v, p, k) {
      assert p[k] == path[k];
    }
  }

  lemma AbsorbWeights(v: seq<Verdict>, v2: seq<Verdict>, path: seq<nat>, s: nat, t: nat, r: Verdict, extra: int)
    requires AbsorbShape(v, v2, path + [s], s, r)
    requires StackOk(v, path + [s]) && t < |v| && |path + [s]| <= |v|
    requires r == (if t in path + [s] && v[t] == Dead then PendingOn(t) else v[t]) && r != Unvisited
    requires r.PendingOn? ==> r.ancestor in path + [s]
    requires extra == |v| || (t !in path + [s] && extra == Weight(path + [s], |v|, v[t]))
    ensures WeightShape(v, v2, path, s, r, extra)
  {
    var p, n := path + [s], |v|;
    StackLast(path, s);
    AbsorbBelow(v, v2, path, s, r);
    assert StackEntry(v, p, |path|);
    forall j | 0 <= j <= |path| ensures MinFrom(v2, p, j) <= Weight(p, n, v2[s]) {
      MinFromLe(v2, p, j, |path|);
    }
    forall j | 0 <= j <= |path| ensures Low(v2, p, n, j) <= Low(v, p, extra, j) {
      MinFromLast(v, v2, p, j);
    }
  }

  lemma CoveredMono(v: seq<Verdict>, p: seq<nat>, extra: int, i: nat, j: nat, y: nat)
    requires i <= j && Covered(v, p, extra, j, y)
    ensures Covered(v, p, extra, i, y)
  {
    MinFromAnti(v, p, i, j);
  }

  /** A successor accounted for before `r` is taken in still is. */
  lemma AbsorbCovered(v: seq<Verdict>, v2: seq<Verdict>, path: seq<nat>, s: nat, r: Verdict, extra: int, j: nat, y: nat)
    requires AbsorbShape(v, v2, path + [s], s, r) && WeightShape(v, v2, path, s, r, extra)
    requires Pos(path + [s], s) == |path|
    requires j <= |path| && Covered(v, path + [s], extra, j, y)
    ensures Covered(v2, path + [s], |v|, j, y)
  {
  }

  /** The states waiting on somebody after `r` is taken in satisfy their
      part of the invariant. */
  lemma AbsorbPendingOk(g: Slots, v: seq<Verdict>, v2: seq<Verdict>, path: seq<nat>, s: nat, t: nat, r: Verdict, extra: int)
    requires AbsorbShape(v, v2, path + [s], s, r) && WeightShape(v, v2, path, s, r, extra)
    requires ResultShape(g, v, path + [s], s, t, r)
    requires StackOk(v, path + [s]) && PendingOk(g, v, path + [s], extra)
    ensures PendingOk(g, v2, path + [s], |v|)
  {
    var p, n := path + [s], |v|;
    StackLast(path, s);
    assert StackEntry(v, p, |path|);
    forall x | 0 <= x < |v2| && v2[x].PendingOn? ensures PendingFact(g, v2, p, n, x, v2[x].ancestor) {
      var a := v2[x].ancestor;
      if v2[s] != v[s] && (x == s || v[x] == PendingOn(s)) {
        ReachesStep(g, s, t, a);
        if x != s {
          assert PendingFact(g, v, p, extra, x, s);
          ReachesTrans(g, x, s, a);
        }
      } else {
        assert PendingFact(g, v, p, extra, x, a);
      }
    }
  }

  lemma AbsorbPendingClosed(g: Slots, v: seq<Verdict>, v2: seq<Verdict>, path: seq<nat>, s: nat, r: Verdict, extra: int)
    requires AbsorbShape(v, v2, path + [s], s, r) && WeightShape(v, v2, path, s, r, extra)
    requires StackOk(v, path + [s]) && PendingOk(g, v, path + [s], extra) && PendingClosed(g, v, path + [s], extra)
    requires v2[s].PendingOn? ==> v2[s].ancestor in path + [s]
    ensures PendingClosed(g, v2, path + [s], |v|)
  {
    var p, n := path + [s], |v|;
    StackLast(path, s);
    forall x: nat, y: nat | x < |v2| && v2[x].PendingOn? && x !in p && Succ(g, x, y)
      ensures Covered(v2, p, n, Pos(p, v2[x].ancestor), y)
    {
      var a := v2[x].ancestor;
      if v2[s] != v[s] && v[x] == PendingOn(s) {
        AbsorbCovered(v, v2, path, s, r, extra, |path|, y);
        CoveredMono(v2, p, n, Pos(p, a), |path|, y);
      } else {
        assert PendingFact(g, v, p, extra, x, a);
        AbsorbCovered(v, v2, path, s, r, extra, Pos(p, a), y);
      }
    }
  }

  /** The child `t` satisfies its part of the loop invariant once its
      result `r` is taken in. */
  lemma AbsorbNewChild(g: Slots, v: seq<Verdict>, v2: seq<Verdict>, path: seq<nat>, s: nat, t: nat, r: Verdict, extra: int)
    requires AbsorbShape(v, v2, path + [s], s, r) && WeightShape(v, v2, path, s, r, extra)
    requires ResultShape(g, v, path + [s], s, t, r)
    requires StackOk(v, path + [s])
    requires r == (if t in path + [s] && v[t] == Dead then PendingOn(t) else v[t])
    ensures ChildOk(v2, path + [s], s, |v|, t)
  {
    var p, n := path + [s], |v|;
    StackLast(path, s);
    assert StackEntry(v, p, |path|);
    if v2[s].PendingOn? {
      assert v2[s].ancestor in p;
      if !(v[t] == Dead && t !in p) {
        MinFromLe(v2, p, Pos(p, v2[s].ancestor), |path|);
        assert Need(v2, p, t) >= Weight(p, n, v2[s]);
      }
    }
  }

  /** A child dealt with before `t` still satisfies its part of the loop
      invariant once `r` is taken in. */
  lemma AbsorbOldChild(v: seq<Verdict>, v2: seq<Verdict>, path: seq<nat>, s: nat, r: Verdict, extra: int, u: nat)
    requires AbsorbShape(v, v2, path + [s], s, r) && WeightShape(v, v2, path, s, r, extra)
    requires StackOk(v, path + [s])
    requires v2[s].PendingOn? ==> v2[s].ancestor in path + [s]
    requires ChildOk(v, path + [s], s, extra, u)
    ensures ChildOk(v2, path + [s], s, |v|, u)
  {
    var p, n := path + [s], |v|;
    StackLast(path, s);
    assert StackEntry(v, p, |path|);
    if v2[s].PendingOn? && v[s].PendingOn? {
      var a' := v[s].ancestor;
      AbsorbCovered(v, v2, path, s, r, extra, Pos(p, a'), u);
      CoveredMono(v2, p, n, Pos(p, v2[s].ancestor), Pos(p, a'), u);
    }
  }

  /** The path keeps its shape after `r` is taken in. */
  lemma AbsorbStack(g: Slots, v: seq<Verdict>, v2: seq<Verdict>, path: seq<nat>, s: nat, r: Verdict, extra: int)
    requires AbsorbShape(v, v2, path + [s], s, r) && WeightShape(v, v2, path, s, r, extra)
    requires StackOk(v, path + [s]) && (v2[s].PendingOn? ==> v2[s].ancestor in path + [s])
    ensures StackOk(v2, path + [s])
  {
    var p := path + [s];
    StackLast(path, s);
    assert StackEntry(v, p, |path|);
    forall k | 0 <= k < |p| ensures StackEntry(v2, p, k) {
      assert StackEntry(v, p, k);
      if k < |path| {
        assert p[k] == path[k];
      }
    }
  }

  /** The `True` verdicts stay sound after `r` is taken in. */
  lemma AbsorbLive(g: Slots, v: seq<Verdict>, v2: seq<Verdict>, path: seq<nat>, s: nat, t: nat, r: Verdict, extra: int)
    requires AbsorbShape(v, v2, path + [s], s, r)
    requires ResultShape(g, v, path + [s], s, t, r)
    requires LiveSound(g, v) && PendingOk(g, v, path + [s], extra) && FinalLive(g, v) && v[s] != Unvisited
    ensures LiveSound(g, v2) && FinalLive(g, v2)
  {
    var p := path + [s];
    if v2[s] == Live && v[s] != Live {
      CanReachFinalStep(g, s, t);
    }
    forall x | 0 <= x < |v2| && v2[x] == Live ensures CanReachFinal(g, x) {
      if x != s && v[x] == PendingOn(s) && v2[s] != v[s] {
        assert PendingFact(g, v, p, extra, x, s);
        CanReachFinalVia(g, x, s);
      }
    }
  }

  /** The closure and history parts of the invariant after `r` is taken
      in. */
  lemma AbsorbRest(g: Slots, valid0: seq<Verdict>, v: seq<Verdict>, v2: seq<Verdict>, path: seq<nat>, s: nat,
                   r: Verdict, extra: int)
    requires AbsorbShape(v, v2, path + [s], s, r) && WeightShape(v, v2, path, s, r, extra)
    requires StackOk(v, path + [s]) && DeadClosed(g, v, path + [s]) && VisitedClosed(g, v, path + [s])
    requires Monotone(g, valid0, path, s, v) && valid0[s] == Unvisited
    requires Carried(valid0, path, v, path + [s], extra)
    ensures DeadClosed(g, v2, path + [s]) && VisitedClosed(g, v2, path + [s])
    ensures Monotone(g, valid0, path, s, v2) && Carried(valid0, path, v2, path + [s], |v|)
  {
    var p, n := path + [s], |v|;
    StackLast(path, s);
    forall j, y | 0 <= j < |path| && Covered(valid0, path, n, j, y) ensures Covered(v2, p, n, j, y) {
      AbsorbCovered(v, v2, path, s, r, extra, j, y);
    }
  }

  /** Taking in the result of the child reached on `c` re-establishes the
      loop invariant with `c` processed. */
  lemma AbsorbStep(g: Slots, valid0: seq<Verdict>, path: seq<nat>, s: nat, v: seq<Verdict>,
                   processed: set<Symbol>, extra: int, c: Symbol, r: Verdict)
    requires AbsorbPre(g, valid0, path, s, v, processed, extra, c, r)
    ensures Frame(g, valid0, path, s, Absorb(v, path + [s], s, r), processed + {c}, |g|)
    ensures r.PendingOn? ==> r.ancestor in path + [s]
    ensures s < |v| && v[s].PendingOn? ==> v[s].ancestor in path + [s]
  {
    var v2, p, n := Absorb(v, path + [s], s, r), path + [s], |g|;
    var trans := g[s].value.transitions;
    var t := trans[c];
    assert Succ(g, s, t);
    AbsorbFacts(v, p, s, r);
    AbsorbResult(g, v, p, s, extra, t, r);
    AbsorbWeights(v, v2, path, s, t, r, extra);
    AbsorbPendingOk(g, v, v2, path, s, t, r, extra);
    AbsorbPendingClosed(g, v, v2, path, s, r, extra);
    AbsorbStack(g, v, v2, path, s, r, extra);
    AbsorbLive(g, v, v2, path, s, t, r, extra);
    AbsorbRest(g, valid0, v, v2, path, s, r, extra);
    AbsorbNewChild(g, v, v2, path, s, t, r, extra);
    forall d | d in processed ensures ChildOk(v2, p, s, n, trans[d]) {
      AbsorbOldChild(v, v2, path, s, r, extra, trans[d]);
    }
  }

  // ---- Leaving a state -----------------------------------------------------

  /** The end of `minimiseInner(s)`: a state that waits on nothing but
      itself once its children are done reaches no accepting state, and
      neither does any state waiting on it; all of them become `False`. */
  function Finish(v: seq<Verdict>, s: nat): seq<Verdict>
    requires s < |v|
  {
    if v[s] == PendingOn(s) then Rewrite(v[s := Dead], s, Dead) else v
  }

  /** The part of the loop invariant the end of `minimiseInner(s)` relies
      on most. */
  ghost predicate Closing(g: Slots, v: seq<Verdict>, path: seq<nat>, s: nat) {
    && |v| == |g| && s < |v|
    && StackOk(v, path + [s])
    && PendingOk(g, v, path + [s], |g|)
  }

  /** The loop invariant once every symbol of `s` is processed. */
  ghost predicate Finished(g: Slots, valid0: seq<Verdict>, path: seq<nat>, s: nat, v: seq<Verdict>) {
    Populated(g, s) && Frame(g, valid0, path, s, v, g[s].value.transitions.Keys, |g|)
  }

  lemma FinishFacts(v: seq<Verdict>, s: nat)
    requires s < |v|
    ensures |Finish(v, s)| == |v|
    ensures forall x :: 0 <= x < |v| ==>
      Finish(v, s)[x] == (if v[s] == PendingOn(s) && (x == s || v[x] == PendingOn(s)) then Dead else v[x])
  {
  }

  lemma PosKeep(path: seq<nat>, s: nat, c: nat)
    ensures c in path ==> Pos(path + [s], c) == Pos(path, c)
  {
    if c in path {
      PosSnoc(path, s, c);
    }
  }

  /** Popping `s` leaves every state below it and every minimum of
      weights below it as it was, `s` aside. */
  lemma FinishPath(g: Slots, v: seq<Verdict>, path: seq<nat>, s: nat)
    requires Closing(g, v, path, s)
    ensures Distinct(path) && s !in path && |path| < |v|
    ensures forall k :: 0 <= k < |path| ==>
      && path[k] < |v| && path[k] != s && v[path[k]] != PendingOn(s)
      && Finish(v, s)[path[k]] == v[path[k]] && StackEntry(Finish(v, s), path, k)
    ensures forall j :: 0 <= j <= |path| ==>
      MinFrom(v, path + [s], j) == Min(MinFrom(Finish(v, s), path, j), Weight(path + [s], |v|, v[s]))
  {
    var p, vend := path + [s], Finish(v, s);
    StackLast(path, s);
    FinishFacts(v, s);
    forall k | 0 <= k < |p| ensures p[k] < |v| {
      assert StackEntry(v, p, k);
    }
    DistinctBound(p, |v|);
    forall k | 0 <= k < |path|
      ensures path[k] < |v| && path[k] != s && v[path[k]] != PendingOn(s)
      ensures vend[path[k]] == v[path[k]] && StackEntry(vend, path, k)
      ensures vend[path[k]].PendingOn? ==> vend[path[k]].ancestor in path
    {
      assert p[k] == path[k];
      assert StackEntry(v, p, k);
      var x := v[path[k]];
      if x.PendingOn? {
        PosKeep(path, s, x.ancestor);
      }
    }
    BarsSnoc(v, vend, path, s);
    forall j | 0 <= j <= |path|
      ensures MinFrom(v, p, j) == Min(MinFrom(vend, path, j), Weight(p, |v|, v[s]))
    {
      MinFromSnoc(v, vend, path, s, j);
    }
  }

  /** Only `s` itself lets other states wait on `s`: a `False` state at the
      top of the path carries a weight above every position. */
  lemma NobodyWaits(g: Slots, v: seq<Verdict>, path: seq<nat>, s: nat)
    requires Closing(g, v, path, s) && v[s] != PendingOn(s)
    ensures forall x :: 0 <= x < |v| ==> v[x] != PendingOn(s)
  {
    var p := path + [s];
    FinishPath(g, v, path, s);
    assert Low(v, p, |g|, |path|) == Min(|g|, Weight(p, |v|, v[s]));
  }

  /** A state that still waits on somebody after `s` is popped waited on
      the same state before, and that state is below `s`. */
  lemma FinishWait(g: Slots, v: seq<Verdict>, path: seq<nat>, s: nat, x: nat)
    requires Closing(g, v, path, s) && x < |v| && Finish(v, s)[x].PendingOn?
    ensures var a := Finish(v, s)[x].ancestor;
      && v[x] == Finish(v, s)[x] && a != s && a in path && Pos(path + [s], a) == Pos(path, a)
      && PendingFact(g, v, path + [s], |v|, x, a)
  {
    FinishFacts(v, s);
    if v[s] != PendingOn(s) {
      NobodyWaits(g, v, path, s);
    }
    var a := v[x].ancestor;
    assert PendingFact(g, v, path + [s], |v|, x, a);
    PosKeep(path, s, a);
  }

  /** The weight a successor imposes is the same after the pop, unless the
      successor has just become `False`. */
  lemma NeedPop(g: Slots, v: seq<Verdict>, path: seq<nat>, s: nat, y: nat)
    requires Closing(g, v, path, s) && y < |v| && v[y] != Unvisited
    ensures var vend := Finish(v, s);
      (vend[y] == Dead && y !in path) || (vend[y] == v[y] && Need(vend, path, y) == Need(v, path + [s], y))
  {
    FinishFacts(v, s);
    FinishPath(g, v, path, s);
    if v[s] == PendingOn(s) && (y == s || v[y] == PendingOn(s)) {
      // y is dropped with s; no open call on the path waits on s
      assert Finish(v, s)[y] == Dead;
    } else {
      if v[s] != PendingOn(s) {
        NobodyWaits(g, v, path, s);
      }
      assert Finish(v, s)[y] == v[y];
      PosKeep(path, s, y);
      if v[y].PendingOn? {
        assert PendingFact(g, v, path + [s], |v|, y, v[y].ancestor);
        PosKeep(path, s, v[y].ancestor);
      }
    }
  }

  /** The minima below `s` do not rise when `s` is popped, except when `s`
      closes as `False`: a minimum then equal to the position of `s` may
      rise. */
  lemma FinishLow(g: Slots, v: seq<Verdict>, path: seq<nat>, s: nat, j: nat)
    requires Closing(g, v, path, s) && j <= |path|
    ensures var vend := Finish(v, s);
      || Low(vend, path, Weight(path, |v|, vend[s]), j) <= Low(v, path + [s], |v|, j)
      || (v[s] == PendingOn(s) && Low(v, path + [s], |v|, j) == |path|)
  {
    FinishFacts(v, s);
    FinishPath(g, v, path, s);
    StackLast(path, s);
    assert StackEntry(v, path + [s], |path|);
    if v[s].PendingOn? && v[s] != PendingOn(s) {
      PosKeep(path, s, v[s].ancestor);
    }
  }

  /** A successor that makes the closing state `s` wait on itself becomes
      `False`, off the path. */
  lemma DeadAfter(g: Slots, v: seq<Verdict>, path: seq<nat>, s: nat, y: nat)
    requires Closing(g, v, path, s) && v[s] == PendingOn(s)
    requires y < |v| && v[y] != Unvisited && Need(v, path + [s], y) >= |path|
    ensures Finish(v, s)[y] == Dead && y !in path
  {
    FinishFacts(v, s);
    FinishPath(g, v, path, s);
    StackLast(path, s);
    PosKeep(path, s, y);
    if v[y].PendingOn? {
      assert PendingFact(g, v, path + [s], |v|, y, v[y].ancestor);
    }
  }

  /** A successor accounted for at position `j` below `s` is still
      accounted for once `s` is popped. */
  lemma OkPop(g: Slots, v: seq<Verdict>, path: seq<nat>, s: nat, j: nat, y: nat)
    requires Closing(g, v, path, s) && j < |path| && Covered(v, path + [s], |v|, j, y)
    ensures Covered(Finish(v, s), path, Weight(path, |v|, Finish(v, s)[s]), j, y)
  {
    FinishFacts(v, s);
    NeedPop(g, v, path, s, y);
    FinishLow(g, v, path, s, j);
    if v[s] == PendingOn(s) && Need(v, path + [s], y) >= |path| {
      DeadAfter(g, v, path, s, y);
    }
  }

  /** Every successor of `s` is a child the loop has dealt with. */
  lemma ChildOf(g: Slots, valid0: seq<Verdict>, path: seq<nat>, s: nat, v: seq<Verdict>, y: nat)
    requires Finished(g, valid0, path, s, v)
    requires Succ(g, s, y)
    ensures ChildOk(v, path + [s], s, |g|, y)
  {
    var trans := g[s].value.transitions;
    var c :| c in trans && trans[c] == y;
  }

  lemma FinishVisited(g: Slots, valid0: seq<Verdict>, path: seq<nat>, s: nat, v: seq<Verdict>)
    requires Finished(g, valid0, path, s, v)
    ensures StackOk(Finish(v, s), path) && LiveSound(g, Finish(v, s)) && FinalLive(g, Finish(v, s))
    ensures VisitedClosed(g, Finish(v, s), path) && Monotone(g, valid0, path, s, Finish(v, s))
  {
    var vend := Finish(v, s);
    FinishFacts(v, s);
    FinishPath(g, v, path, s);
    forall x: nat, y: nat | x < |vend| && vend[x] != Unvisited && x !in path && Succ(g, x, y)
      ensures y < |vend| && vend[y] != Unvisited
    {
      if x == s {
        ChildOf(g, valid0, path, s, v, y);
      }
    }
  }

  lemma FinishPending(g: Slots, valid0: seq<Verdict>, path: seq<nat>, s: nat, v: seq<Verdict>)
    requires Finished(g, valid0, path, s, v)
    ensures PendingOk(g, Finish(v, s), path, Weight(path, |g|, Finish(v, s)[s]))
  {
    var vend, p := Finish(v, s), path + [s];
    FinishFacts(v, s);
    FinishPath(g, v, path, s);
    forall x | 0 <= x < |vend| && vend[x].PendingOn?
      ensures PendingFact(g, vend, path, Weight(path, |g|, vend[s]), x, vend[x].ancestor)
    {
      var a := vend[x].ancestor;
      FinishWait(g, v, path, s, x);
      FinishLow(g, v, path, s, Pos(path, a));
    }
  }

  lemma FinishDead(g: Slots, valid0: seq<Verdict>, path: seq<nat>, s: nat, v: seq<Verdict>)
    requires Finished(g, valid0, path, s, v)
    ensures DeadClosed(g, Finish(v, s), path)
  {
    var vend, p := Finish(v, s), path + [s];
    FinishFacts(v, s);
    FinishPath(g, v, path, s);
    StackLast(path, s);
    assert MinFrom(vend, path, |path|) == |vend|;
    forall x: nat, y: nat | x < |vend| && vend[x] == Dead && x !in path && Succ(g, x, y)
      ensures y < |vend| && vend[y] == Dead && y !in path
    {
      if x == s {
        ChildOf(g, valid0, path, s, v, y);
      }
      if v[s] == PendingOn(s) && (x == s || v[x] == PendingOn(s)) {
        assert Covered(v, p, |g|, |path|, y);
        if !(v[y] == Dead && y !in p) {
          DeadAfter(g, v, path, s, y);
        }
      }
    }
  }

  lemma FinishClosed(g: Slots, valid0: seq<Verdict>, path: seq<nat>, s: nat, v: seq<Verdict>)
    requires Finished(g, valid0, path, s, v)
    ensures PendingClosed(g, Finish(v, s), path, Weight(path, |g|, Finish(v, s)[s]))
    ensures Carried(valid0, path, Finish(v, s), path, Weight(path, |g|, Finish(v, s)[s]))
  {
    var vend, p := Finish(v, s), path + [s];
    FinishFacts(v, s);
    StackLast(path, s);
    forall x: nat, y: nat | x < |vend| && vend[x].PendingOn? && x !in path && Succ(g, x, y)
      ensures Covered(vend, path, Weight(path, |g|, vend[s]), Pos(path, vend[x].ancestor), y)
    {
      FinishWait(g, v, path, s, x);
      if x == s {
        ChildOf(g, valid0, path, s, v, y);
      }
      OkPop(g, v, path, s, Pos(path, vend[x].ancestor), y);
    }
    forall j, y | 0 <= j < |path| && Covered(valid0, path, |g|, j, y)
      ensures Covered(vend, path, Weight(path, |g|, vend[s]), j, y)
    {
      OkPop(g, v, path, s, j, y);
    }
  }

  /** Once every child is dealt with, the end of `minimiseInner(s)`
      establishes its postcondition. */
  lemma FinishStep(g: Slots, valid0: seq<Verdict>, path: seq<nat>, s: nat, v: seq<Verdict>)
    requires Finished(g, valid0, path, s, v)
    ensures InnerPost(g, valid0, path, s, Finish(v, s))
  {
    FinishFacts(v, s);
    FinishVisited(g, valid0, path, s, v);
    FinishPending(g, valid0, path, s, v);
    FinishDead(g, valid0, path, s, v);
    FinishClosed(g, valid0, path, s, v);
  }

  // ---- The walk ----------------------------------------------------------

  /** `minimiseInner(stateIndex)`: `valid` and `path` are the lists the
      source shares between the calls; the path comes back as it was and
      the new `valid` is returned. */
  method MinimiseInner(dfa: Dfa, stateIndex: nat, valid: seq<Verdict>, path: seq<nat>) returns (valid': seq<Verdict>)
    requires InnerPre(dfa.states, valid, path, stateIndex)
    ensures |valid'| == |valid|
    ensures InnerPost(dfa.states, valid, path, stateIndex, valid')
    decreases UnvisitedSet(valid)
  {
    ghost var g := dfa.states;
    var s := stateIndex;
    Enter(g, valid, path, s);
    var v := valid[s := if dfa.IsFinal(s) then Live else Dead];
    var stack := path + [s];
    var keys := dfa.states[s].value.transitions.Keys;
    ghost var processed: set<Symbol> := {};
    while keys != {}
      invariant keys !! processed && keys + processed == g[s].value.transitions.Keys
      invariant Frame(g, valid, path, s, v, processed, |g|)
      decreases keys
    {
      var c :| c in keys;
      var t := dfa.PerformTransition(s, c).value;
      assert Populated(g, t);
      ghost var extra := |g|;
      var result: Verdict;
      if t in stack {
        assert StackEntry(v, stack, Pos(stack, t));
        result := if v[t] == Dead then PendingOn(t) else v[t];
      } else {
        if v[t] == Unvisited {
          RecurseReady(g, valid, path, s, v, processed, c);
          ghost var before := v;
          v := MinimiseInner(dfa, t, v, stack);
          AfterRecurse(g, valid, path, s, before, processed, c, v);
          extra := Weight(stack, |g|, v[t]);
        }
        result := v[t];
      }
      ghost var mid := v;
      AbsorbStep(g, valid, path, s, v, processed, extra, c, result);
      if v[s] != Live {
        if result.PendingOn? {
          // Both states looked up with `path.index` are on the path, so
          // the lookup of IntersectionFinder.py:146 never raises.
          assert result.ancestor in stack;
          assert v[s].PendingOn? ==> v[s].ancestor in stack;
          if !v[s].PendingOn? || Pos(stack, result.ancestor) < Pos(stack, v[s].ancestor) {
            v := v[s := result];
            v := Rewrite(v, s, result);
          }
        } else if result == Live {
          v := v[s := Live];
          v := Rewrite(v, s, Live);
        }
      }
      assert v == Absorb(mid, stack, s, result);
      processed := processed + {c};
      keys := keys - {c};
    }
    FinishStep(g, valid, path, s, v);
    ghost var last := v;
    if v[s] == PendingOn(s) {
      v := v[s := Dead];
      v := Rewrite(v, s, Dead);
    }
    assert v == Finish(last, s);
    valid' := v;
  }

  // ---- What the walk decides ---------------------------------------------

  /** A state worth keeping: reachable from `init`, and an accepting state
      is reachable from it. */
  ghost predicate Useful(g: Slots, init: nat, x: nat) {
    Reaches(g, init, x) && CanReachFinal(g, x)
  }

  /** A `False` verdict at the end of the walk is right. */
  lemma DeadIsDead(g: Slots, v: seq<Verdict>, x: nat)
    requires |v| == |g| && DeadClosed(g, v, []) && FinalLive(g, v) && x < |v|
    ensures v[x] == Dead ==> !CanReachFinal(g, x)
  {
    if v[x] == Dead {
      var dead := set y | 0 <= y < |v| && v[y] == Dead;
      ClosedDead(g, dead, x);
    }
  }

  /** After `minimiseInner(dfa.initialIndex)` on a fresh `valid`, exactly
      the useful states are marked `True`. */
  lemma WalkResult(g: Slots, init: nat, v: seq<Verdict>)
    requires InnerPost(g, seq(|g|, _ => Unvisited), [], init, v)
    ensures |v| == |g|
    ensures forall x :: 0 <= x < |g| ==> (v[x] == Live <==> Useful(g, init, x))
  {
    var visited := set y | 0 <= y < |v| && v[y] != Unvisited;
    forall x | 0 <= x < |g| ensures v[x] == Live <==> Useful(g, init, x) {
      DeadIsDead(g, v, x);
      if Useful(g, init, x) {
        ClosedReaches(g, visited, init, x);
      }
    }
  }

  // ---- Removing what the walk rejected -------------------------------------

  /** The transitions whose targets are marked `True`, the others dropped
      (IntersectionFinder.py:168-169). */
  function KeepTargets(t: map<Symbol, nat>, valid: seq<Verdict>): map<Symbol, nat> {
    map c | c in t && t[c] < |valid| && valid[t[c]] == Live :: t[c]
  }

  function Restrict(x: State, valid: seq<Verdict>): State {
    x.(transitions := KeepTargets(x.transitions, valid))
  }

  /** The slots with every state whose id is not marked `True` emptied;
      `Compact` of it is the filtered state list of
      IntersectionFinder.py:164. */
  function Mask(g: Slots, valid: seq<Verdict>): Slots {
    seq(|g|, i requires 0 <= i < |g| =>
      if g[i].Some? && g[i].value.index < |valid| && valid[g[i].value.index] == Live then g[i] else None)
  }

  function RestrictAll(s: Slots, valid: seq<Verdict>): Slots {
    seq(|s|, i requires 0 <= i < |s| => if s[i].Some? then Some(Restrict(s[i].value, valid)) else None)
  }

  /** The kept states with their kept transitions, by original slot; for
      an automaton whose slots hold the states of their own ids this is the
      result of `minimise` looked up by id. */
  function Cut(g: Slots, valid: seq<Verdict>): Slots {
    RestrictAll(Mask(g, valid), valid)
  }

  /** The state list `minimise` leaves for the verdicts `valid`. */
  function Pruned(g: Slots, valid: seq<Verdict>): seq<State> {
    Compact(Cut(g, valid))
  }

  /** The verdicts the walk from `init` arrives at. */
  ghost function Marks(g: Slots, init: nat): seq<Verdict> {
    seq(|g|, x requires 0 <= x < |g| => if Useful(g, init, x) then Live else Dead)
  }

  /** The state list `minimise` leaves behind. */
  ghost function Minimised(g: Slots, init: nat): seq<State> {
    Pruned(g, Marks(g, init))
  }

  /** Pruning an automaton that has nothing to prune changes nothing: when
      the slots are contiguous and every state is reachable from `init`
      and can reach an accepting state, `minimise` keeps every state with
      every transition. */
  lemma MinimiseIdle(g: Slots, init: nat)
    requires Dense(g) && init < |g|
    requires forall x :: 0 <= x < |g| ==> Useful(g, init, x)
    ensures Lift(Minimised(g, init)) == g
  {
    var m := Marks(g, init);
    assert Cut(g, m) == g by {
      forall i | 0 <= i < |g| ensures Cut(g, m)[i] == g[i] {
        var t := g[i].value.transitions;
        assert Mask(g, m)[i] == g[i];
        assert KeepTargets(t, m) == t;
      }
    }
    DenseRank(g, |g|);
    assert g[..|g|] == g;
    forall i | 0 <= i < |g| ensures Minimised(g, init)[i] == g[i].value {
      DenseRank(g, i);
      CompactAt(g, i);
    }
  }

  /** Restricting the transitions commutes with dropping the empty slots. */
  lemma {:induction false} CompactRestrict(s: Slots, valid: seq<Verdict>)
    ensures |Compact(RestrictAll(s, valid))| == |Compact(s)|
    ensures forall k :: 0 <= k < |Compact(s)| ==>
      Compact(RestrictAll(s, valid))[k] == Restrict(Compact(s)[k], valid)
    decreases |s|
  {
    if |s| > 0 {
      var n := |s| - 1;
      assert RestrictAll(s, valid)[..n] == RestrictAll(s[..n], valid);
      CompactRestrict(s[..n], valid);
    }
  }

  /** Only which states are marked `True` matters. */
  lemma PrunedAgree(g: Slots, v1: seq<Verdict>, v2: seq<Verdict>)
    requires |v1| == |v2| && forall x :: 0 <= x < |v1| ==> (v1[x] == Live <==> v2[x] == Live)
    ensures Pruned(g, v1) == Pruned(g, v2)
  {
    forall t: map<Symbol, nat> ensures KeepTargets(t, v1) == KeepTargets(t, v2) {
    }
    assert Cut(g, v1) == Cut(g, v2);
  }

  /** What `minimise` needs: every slot holds a state whose id is in range,
      every transition leads to a populated slot and the initial slot is
      populated. */
  predicate Prunable(g: Slots, init: nat) {
    && (forall i :: 0 <= i < |g| ==> g[i].Some? && g[i].value.index < |g|)
    && TargetsPopulated(g) && init < |g|
  }

  /** The walk may start at the initial state with nothing visited. */
  lemma FreshStart(g: Slots, init: nat)
    requires Prunable(g, init)
    ensures InnerPre(g, seq(|g|, _ => Unvisited), [], init)
  {
  }

  /** The verdicts the walk ends with prune as `Marks` does. */
  lemma WalkPrunes(g: Slots, init: nat, v: seq<Verdict>)
    requires InnerPost(g, seq(|g|, _ => Unvisited), [], init, v)
    ensures Pruned(g, v) == Minimised(g, init)
  {
    WalkResult(g, init, v);
    PrunedAgree(g, v, Marks(g, init));
  }

  /** The loop of IntersectionFinder.py:167-169: every state loses its
      transitions into states not marked `True`. */
  method DropTransitions(dfa: Dfa, valid: seq<Verdict>)
    requires forall i :: 0 <= i < |dfa.states| ==> dfa.states[i].Some?
    modifies dfa
    ensures dfa.states == RestrictAll(old(dfa.states), valid)
    ensures dfa.initialIndex == old(dfa.initialIndex)
  {
    ghost var before := dfa.states;
    var i := 0;
    while i < |dfa.states|
      invariant 0 <= i <= |dfa.states| == |before|
      invariant dfa.initialIndex == old(dfa.initialIndex)
      invariant forall k :: 0 <= k < i ==> dfa.states[k] == RestrictAll(before, valid)[k]
      invariant forall k :: i <= k < |before| ==> dfa.states[k] == before[k]
    {
      var state := dfa.states[i].value;
      dfa.states := dfa.states[i := Some(state.(transitions := KeepTargets(state.transitions, valid)))];
      i := i + 1;
    }
  }

  /** `minimise(dfa)`. */
  method Minimise(dfa: Dfa)
    requires Prunable(dfa.states, dfa.initialIndex)
    modifies dfa
    ensures dfa.states == Lift(Minimised(old(dfa.states), old(dfa.initialIndex)))
    ensures dfa.initialIndex == old(dfa.initialIndex)
  {
    ghost var g := dfa.states;
    var path: seq<nat> := [];
    var valid := seq(|dfa.states|, _ => Unvisited);
    FreshStart(g, dfa.initialIndex);
    valid := MinimiseInner(dfa, dfa.initialIndex, valid, path);
    ghost var result := Pruned(g, valid);
    WalkPrunes(g, dfa.initialIndex, valid);
    var kept := Compact(Mask(dfa.states, valid));
    CompactRestrict(Mask(g, valid), valid);
    dfa.states := Lift(kept);
    DropTransitions(dfa, valid);
    assert dfa.states == Lift(result);
  }

  // ---- What `minimise` leaves behind --------------------------------------

  /** `y` is what becomes of the state `x`: same id and acceptance, and
      exactly the transitions of `x` that lead to useful states. */
  ghost predicate KeptAs(g: Slots, init: nat, x: State, y: State) {
    && y.index == x.index && y.final == x.final
    && (forall c :: c in y.transitions <==> c in x.transitions && Useful(g, init, x.transitions[c]))
    && (forall c :: c in y.transitions ==> y.transitions[c] == x.transitions[c])
  }

  lemma RestrictKeeps(g: Slots, init: nat, x: State)
    requires forall c :: c in x.transitions ==> x.transitions[c] < |g|
    ensures KeptAs(g, init, x, Restrict(x, Marks(g, init)))
  {
  }

  /** Every useful state survives, at the position given by the number of
      surviving slots before it. */
  lemma MinimisedComplete(g: Slots, init: nat, i: nat)
    requires Prunable(g, init) && i < |g| && Useful(g, init, g[i].value.index)
    ensures var r, k := Minimised(g, init), Rank(Cut(g, Marks(g, init)), i);
      k < |r| && KeptAs(g, init, g[i].value, r[k])
  {
    var h := Cut(g, Marks(g, init));
    assert Populated(h, i);
    CompactAt(h, i);
    RestrictKeeps(g, init, g[i].value);
  }

  /** Every surviving state comes from a useful state. */
  lemma MinimisedSound(g: Slots, init: nat, k: nat)
    requires Prunable(g, init) && k < |Minimised(g, init)|
    ensures exists i: nat ::
      && i < |g| && Useful(g, init, g[i].value.index)
      && Rank(Cut(g, Marks(g, init)), i) == k && KeptAs(g, init, g[i].value, Minimised(g, init)[k])
  {
    var h := Cut(g, Marks(g, init));
    RankOnto(h, k);
    var i: nat :| Populated(h, i) && Rank(h, i) == k;
    CompactAt(h, i);
    RestrictKeeps(g, init, g[i].value);
  }

  /** The surviving states keep their relative order. */
  lemma MinimisedOrder(g: Slots, init: nat, i: nat, j: nat)
    requires Prunable(g, init) && i < j < |g| && Useful(g, init, g[i].value.index)
    ensures Rank(Cut(g, Marks(g, init)), i) < Rank(Cut(g, Marks(g, init)), j)
  {
    var h := Cut(g, Marks(g, init));
    assert Populated(h, i);
    RankIncreasing(h, i, j);
  }

  /** When every slot holds the state of its own id, `Cut` is the result
      looked up by id: every surviving state sits in the slot of its id. */
  lemma MinimisedById(g: Slots, init: nat, k: nat)
    requires Prunable(g, init) && Indexed(g) && k < |Minimised(g, init)|
    ensures var r := Minimised(g, init);
      r[k].index < |g| && Cut(g, Marks(g, init))[r[k].index] == Some(r[k])
  {
    var h := Cut(g, Marks(g, init));
    RankOnto(h, k);
    var i: nat :| Populated(h, i) && Rank(h, i) == k;
    CompactAt(h, i);
  }

  /** A run in the pruned automaton is a run in the original. */
  lemma {:induction false} CutRunSub(g: Slots, v: seq<Verdict>, q: nat, w: seq<Symbol>)
    requires Run(Cut(g, v), q, w).Some?
    ensures Run(g, q, w) == Run(Cut(g, v), q, w)
    decreases |w|
  {
    if w != [] {
      CutRunSub(g, v, Cut(g, v)[q].value.transitions[w[0]], w[1..]);
    }
  }

  /** An accepting run from a useful state survives pruning. */
  lemma {:induction false} CutRunKeep(g: Slots, init: nat, q: nat, w: seq<Symbol>)
    requires Prunable(g, init) && Indexed(g) && Useful(g, init, q) && Accepts(g, q, w)
    ensures Accepts(Cut(g, Marks(g, init)), q, w)
    decreases |w|
  {
    if w != [] {
      var t := g[q].value.transitions[w[0]];
      assert Succ(g, q, t);
      ReachesEdge(g, q, t);
      ReachesTrans(g, init, q, t);
      AcceptsLive(g, t, w[1..]);
      CutRunKeep(g, init, t, w[1..]);
    }
  }

  /** On an automaton whose slots hold the states of their own ids,
      `minimise` keeps the language: looked up by id, the result accepts
      exactly the words the original accepts. */
  lemma MinimisedLanguage(g: Slots, init: nat, w: seq<Symbol>)
    requires Prunable(g, init) && Indexed(g)
    ensures Accepts(Cut(g, Marks(g, init)), init, w) <==> Accepts(g, init, w)
  {
    var h := Cut(g, Marks(g, init));
    if Accepts(h, init, w) {
      CutRunSub(g, Marks(g, init), init, w);
    }
    if Accepts(g, init, w) {
      ReachesRefl(g, init);
      AcceptsLive(g, init, w);
      CutRunKeep(g, init, init, w);
    }
  }
}
