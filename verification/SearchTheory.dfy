/** The search problem (src/ai/search/SearchProblem.h), the step of the three searches on
    abstract states, and what holds over whole runs. */
module SearchTheory {
  import opened DataType

  // The problem -----------------------------------------------------------------

  datatype Problem = Problem(expand: Elem -> seq<Elem>, heuristic: Elem -> int)

  ghost function Succ(p: Problem, k: int): set<int> {
    KeySet(p.expand(Elem(k, [])))
  }

  ghost predicate IsGoalKey(p: Problem, k: int) {
    p.heuristic(Elem(k, [])) == 0
  }

  /** The callbacks depend on the key only: which keys come out, and whether it is a goal. The
      rest of an element (a move history, say) may be carried along freely. */
  ghost predicate KeyDetermined(p: Problem) {
    && (forall e :: KeySet(p.expand(e)) == Succ(p, e.key))
    && (forall e :: p.heuristic(e) == 0 <==> IsGoalKey(p, e.key))
  }

  // Paths -------------------------------------------------------------------------

  ghost predicate ElemPath(p: Problem, es: seq<Elem>) {
    |es| > 0 && forall i :: 0 <= i < |es| - 1 ==> es[i + 1] in p.expand(es[i])
  }

  ghost predicate KeyPath(p: Problem, ks: seq<int>) {
    |ks| > 0 && forall i :: 0 <= i < |ks| - 1 ==> ks[i + 1] in Succ(p, ks[i])
  }

  /** `b` comes out of `a` by exactly `n` expand edges. */
  ghost predicate ReachedIn(p: Problem, a: Elem, b: Elem, n: nat) {
    exists es :: ElemPath(p, es) && |es| == n + 1 && es[0] == a && es[n] == b
  }

  ghost predicate Reached(p: Problem, a: Elem, b: Elem) {
    exists n: nat :: ReachedIn(p, a, b, n)
  }

  ghost predicate NoReachableGoal(p: Problem, a: Elem) {
    forall e :: Reached(p, a, e) ==> p.heuristic(e) != 0
  }

  ghost predicate ReachedKey(p: Problem, a: Elem, k: int) {
    exists e: Elem :: e.key == k && Reached(p, a, e)
  }

  ghost function KeysAlong(es: seq<Elem>): seq<int> {
    seq(|es|, i requires 0 <= i < |es| => es[i].key)
  }

  lemma ElemPathHasKeys(p: Problem, es: seq<Elem>)
    requires KeyDetermined(p) && ElemPath(p, es)
    ensures KeyPath(p, KeysAlong(es))
  {
    forall i | 0 <= i < |es| - 1
      ensures KeysAlong(es)[i + 1] in Succ(p, KeysAlong(es)[i])
    {
      assert es[i + 1] in p.expand(es[i]);
      assert es[i + 1].key in KeySet(p.expand(es[i]));
    }
  }

  lemma KeyPathPrefix(p: Problem, ks: seq<int>)
    requires KeyPath(p, ks) && |ks| > 1
    ensures KeyPath(p, ks[..|ks| - 1]) && ks[|ks| - 1] in Succ(p, ks[|ks| - 2])
  {
    var front := ks[..|ks| - 1];
    forall i | 0 <= i < |front| - 1
      ensures front[i + 1] in Succ(p, front[i])
    {
      assert ks[i + 1] in Succ(p, ks[i]);
    }
    assert ks[|ks| - 2 + 1] in Succ(p, ks[|ks| - 2]);
  }

  lemma ReachOneMore(p: Problem, a: Elem, b: Elem, n: nat, c: Elem)
    requires ReachedIn(p, a, b, n) && c in p.expand(b)
    ensures ReachedIn(p, a, c, n + 1)
  {
    var es :| ElemPath(p, es) && |es| == n + 1 && es[0] == a && es[n] == b;
    assert ElemPath(p, es + [c]);
  }

  lemma ReachSelf(p: Problem, a: Elem)
    ensures ReachedIn(p, a, a, 0)
  {
    assert ElemPath(p, [a]);
  }

  // One step ------------------------------------------------------------------------

  /** What a step returns: -1, 0, 1 with the state written to `goal_state`, or 2. */
  datatype Outcome = Exhausted | Continue | Goal(state: Elem) | Failed

  /** Breadth-first, depth-first and best-first. */
  datatype Policy = Queue | Stack | Ordered

  datatype Snapshot = Snapshot(frontier: seq<Elem>, closed: set<int>)

  /** The elements whose key is not closed, in order. */
  function Fresh(es: seq<Elem>, closed: set<int>): seq<Elem> {
    if es == [] then []
    else Fresh(es[..|es| - 1], closed) + if es[|es| - 1].key in closed then [] else [es[|es| - 1]]
  }

  function Reversed<T>(s: seq<T>): seq<T> {
    seq(|s|, i requires 0 <= i < |s| => s[|s| - 1 - i])
  }

  function Popped(policy: Policy, f: seq<Elem>): Elem
    requires f != []
  {
    if policy == Ordered then f[|f| - 1] else f[0]
  }

  function Rest(policy: Policy, f: seq<Elem>): seq<Elem>
    requires f != []
  {
    if policy == Ordered then f[..|f| - 1] else f[1..]
  }

  /** How the children of a state enter the frontier. */
  ghost predicate Pushed(policy: Policy, rest: seq<Elem>, kids: seq<Elem>, closed: set<int>, f: seq<Elem>) {
    match policy
    case Queue => f == rest + Fresh(kids, closed)
    case Stack => f == Reversed(Fresh(kids, closed)) + rest
    case Ordered => Sorted(Order(true), f) && multiset(f) == multiset(rest) + multiset(kids)
  }

  ghost predicate StepTo(policy: Policy, p: Problem, s: Snapshot, o: Outcome, s': Snapshot) {
    if s.frontier == [] then
      o == Exhausted && s' == s
    else
      var x, rest := Popped(policy, s.frontier), Rest(policy, s.frontier);
      if x.key in s.closed then
        o == Continue && s' == Snapshot(rest, s.closed)
      else if p.heuristic(x) == 0 then
        o == Goal(x) && s' == Snapshot(rest, s.closed)
      else
        && o == Continue
        && s'.closed == s.closed + {x.key}
        && Pushed(policy, rest, p.expand(x), s.closed, s'.frontier)
  }

  /** A step that returned 2: nothing got closed. Either it gave up at once, or the popped entry is
      gone and some of its first children were pushed; a batch of children is merged as a whole or not at all. */
  ghost predicate GaveUp(policy: Policy, p: Problem, s: Snapshot, s': Snapshot) {
    && s.frontier != [] && s'.closed == s.closed
    && (s'.frontier == s.frontier ||
        var x, rest := Popped(policy, s.frontier), Rest(policy, s.frontier);
        x.key !in s.closed && p.heuristic(x) != 0 && PartlyPushed(policy, rest, p.expand(x), s.closed, s'.frontier))
  }

  ghost predicate PartlyPushed(policy: Policy, rest: seq<Elem>, kids: seq<Elem>, closed: set<int>, f: seq<Elem>) {
    if policy == Ordered then f == rest || Pushed(policy, rest, kids, closed, f)
    else exists n: nat :: n <= |kids| && Pushed(policy, rest, kids[..n], closed, f)
  }

  // Runs ----------------------------------------------------------------------------

  function Start(init: Elem): Snapshot {
    Snapshot([init], {})
  }

  /** Step `i` of the run returned 0. */
  ghost predicate StepAt(policy: Policy, p: Problem, run: seq<Snapshot>, i: nat)
    requires i + 1 < |run|
  {
    StepTo(policy, p, run[i], Continue, run[i + 1])
  }

  ghost predicate Steps(policy: Policy, p: Problem, run: seq<Snapshot>) {
    |run| > 0 && forall i :: 0 <= i < |run| - 1 ==> StepAt(policy, p, run, i)
  }

  ghost predicate IsRun(policy: Policy, p: Problem, init: Elem, run: seq<Snapshot>) {
    Steps(policy, p, run) && run[0] == Start(init)
  }

  ghost predicate AnyStep(policy: Policy, p: Problem, s: Snapshot, s': Snapshot) {
    GaveUp(policy, p, s, s') || exists o :: StepTo(policy, p, s, o, s')
  }

  /** Step `i` of a run in which any step may also have returned 1, -1 or 2. */
  ghost predicate AnyStepAt(policy: Policy, p: Problem, run: seq<Snapshot>, i: nat)
    requires i + 1 < |run|
  {
    AnyStep(policy, p, run[i], run[i + 1])
  }

  /** A client that goes on after goals and failures. */
  ghost predicate AnyRun(policy: Policy, p: Problem, init: Elem, run: seq<Snapshot>) {
    && |run| > 0 && run[0] == Start(init)
    && forall i :: 0 <= i < |run| - 1 ==> AnyStepAt(policy, p, run, i)
  }

  lemma {:induction false} FreshMembers(es: seq<Elem>, closed: set<int>, e: Elem)
    ensures e in Fresh(es, closed) <==> e in es && e.key !in closed
  {
    if es != [] {
      FreshMembers(es[..|es| - 1], closed, e);
      assert es == es[..|es| - 1] + [es[|es| - 1]];
    }
  }

  lemma ReversedMembers<T>(s: seq<T>, x: T)
    ensures x in Reversed(s) <==> x in s
  {
    if x in s {
      var i :| 0 <= i < |s| && s[i] == x;
      assert Reversed(s)[|s| - 1 - i] == x;
    }
  }

  /** What every policy does to the members of the frontier when it expands `x`. */
  lemma PushedMembers(policy: Policy, rest: seq<Elem>, kids: seq<Elem>, closed: set<int>, f: seq<Elem>, e: Elem)
    requires Pushed(policy, rest, kids, closed, f)
    ensures e in f ==> e in rest || e in kids
    ensures e in rest ==> e in f
    ensures e in kids && e.key !in closed ==> e in f
  {
    FreshMembers(kids, closed, e);
    ReversedMembers(Fresh(kids, closed), e);
    if policy == Ordered {
      assert e in f <==> e in multiset(f);
      assert e in rest <==> e in multiset(rest);
      assert e in kids <==> e in multiset(kids);
    }
  }

  lemma RestMembers(policy: Policy, f: seq<Elem>, e: Elem)
    requires f != []
    ensures e in f <==> e in Rest(policy, f) || e == Popped(policy, f)
  {
    if policy == Ordered {
      assert f == Rest(policy, f) + [Popped(policy, f)];
    } else {
      assert f == [Popped(policy, f)] + Rest(policy, f);
    }
  }

  lemma RunGoesOn(policy: Policy, p: Problem, init: Elem, run: seq<Snapshot>, s: Snapshot)
    requires IsRun(policy, p, init, run) && StepTo(policy, p, run[|run| - 1], Continue, s)
    ensures IsRun(policy, p, init, run + [s])
  {
    var longer := run + [s];
    forall i | 0 <= i < |longer| - 1
      ensures StepAt(policy, p, longer, i)
    {
      if i < |run| - 1 {
        assert StepAt(policy, p, run, i);
      }
    }
  }

  // Soundness and completeness, all three searches ---------------------------------

  ghost predicate Pending(s: Snapshot, k: int) {
    k in s.closed || exists e :: e in s.frontier && e.key == k
  }

  ghost predicate SearchInv(p: Problem, init: Elem, s: Snapshot) {
    && (forall e :: e in s.frontier ==> Reached(p, init, e))
    && (forall k :: k in s.closed ==> !IsGoalKey(p, k) && ReachedKey(p, init, k))
    && Pending(s, init.key)
    && (forall k, j :: k in s.closed && j in Succ(p, k) ==> Pending(s, j))
  }

  lemma SearchInvStart(p: Problem, init: Elem)
    ensures SearchInv(p, init, Start(init))
  {
    ReachSelf(p, init);
    assert init in Start(init).frontier;
  }

  lemma PendingKept(policy: Policy, p: Problem, s: Snapshot, s': Snapshot, k: int)
    requires StepTo(policy, p, s, Continue, s') && Pending(s, k)
    ensures Pending(s', k)
  {
    if k !in s.closed {
      var e :| e in s.frontier && e.key == k;
      RestMembers(policy, s.frontier, e);
      if e != Popped(policy, s.frontier) && Popped(policy, s.frontier).key !in s.closed {
        PushedMembers(policy, Rest(policy, s.frontier), p.expand(Popped(policy, s.frontier)), s.closed, s'.frontier, e);
      }
    }
  }

  lemma SearchInvStep(policy: Policy, p: Problem, init: Elem, s: Snapshot, s': Snapshot)
    requires KeyDetermined(p) && SearchInv(p, init, s) && StepTo(policy, p, s, Continue, s')
    ensures SearchInv(p, init, s')
  {
    var x, rest := Popped(policy, s.frontier), Rest(policy, s.frontier);
    RestMembers(policy, s.frontier, x);
    var n: nat :| ReachedIn(p, init, x, n);
    forall e | e in s'.frontier
      ensures Reached(p, init, e)
    {
      RestMembers(policy, s.frontier, e);
      if x.key !in s.closed {
        PushedMembers(policy, rest, p.expand(x), s.closed, s'.frontier, e);
        if e in p.expand(x) {
          ReachOneMore(p, init, x, n, e);
        }
      }
    }
    PendingKept(policy, p, s, s', init.key);
    forall k, j | k in s'.closed && j in Succ(p, k)
      ensures Pending(s', j)
    {
      if k in s.closed {
        PendingKept(policy, p, s, s', j);
      } else {
        assert j in KeySet(p.expand(x));
        var e :| e in p.expand(x) && e.key == j;
        PushedMembers(policy, rest, p.expand(x), s.closed, s'.frontier, e);
      }
    }
  }

  lemma {:induction false} SearchInvAlong(policy: Policy, p: Problem, init: Elem, run: seq<Snapshot>, i: nat)
    requires KeyDetermined(p) && IsRun(policy, p, init, run) && i < |run|
    ensures SearchInv(p, init, run[i])
  {
    if i == 0 {
      SearchInvStart(p, init);
    } else {
      SearchInvAlong(policy, p, init, run, i - 1);
      assert StepAt(policy, p, run, i - 1);
      SearchInvStep(policy, p, init, run[i - 1], run[i]);
    }
  }

  lemma {:induction false} PathEndsClosed(p: Problem, init: Elem, s: Snapshot, ks: seq<int>)
    requires SearchInv(p, init, s) && s.frontier == []
    requires KeyPath(p, ks) && ks[0] == init.key
    ensures ks[|ks| - 1] in s.closed
  {
    if |ks| > 1 {
      var front := ks[..|ks| - 1];
      KeyPathPrefix(p, ks);
      PathEndsClosed(p, init, s, front);
      assert Pending(s, ks[|ks| - 1]);
    }
  }

  lemma {:induction false} FrontierReached(policy: Policy, p: Problem, init: Elem, run: seq<Snapshot>, i: nat, e: Elem)
    requires AnyRun(policy, p, init, run) && i < |run| && e in run[i].frontier
    ensures Reached(p, init, e)
  {
    if i == 0 {
      ReachSelf(p, init);
    } else {
      var s := run[i - 1];
      assert AnyStepAt(policy, p, run, i - 1);
      if e in s.frontier {
        FrontierReached(policy, p, init, run, i - 1, e);
      } else {
        FrontierGrows(policy, p, s, run[i], e);
        var x := Popped(policy, s.frontier);
        RestMembers(policy, s.frontier, x);
        FrontierReached(policy, p, init, run, i - 1, x);
        var n: nat :| ReachedIn(p, init, x, n);
        ReachOneMore(p, init, x, n, e);
      }
    }
  }

  lemma PartlyPushedMembers(policy: Policy, rest: seq<Elem>, kids: seq<Elem>, closed: set<int>, f: seq<Elem>, e: Elem)
    requires PartlyPushed(policy, rest, kids, closed, f) && e in f
    ensures e in rest || e in kids
  {
    if policy != Ordered {
      var n: nat :| n <= |kids| && Pushed(policy, rest, kids[..n], closed, f);
      PushedMembers(policy, rest, kids[..n], closed, f, e);
    } else if f != rest {
      PushedMembers(policy, rest, kids, closed, f, e);
    }
  }

  lemma FrontierGrows(policy: Policy, p: Problem, s: Snapshot, s': Snapshot, e: Elem)
    requires AnyStep(policy, p, s, s')
    requires e in s'.frontier && e !in s.frontier
    ensures s.frontier != [] && e in p.expand(Popped(policy, s.frontier))
  {
    if s.frontier != [] {
      var x, rest := Popped(policy, s.frontier), Rest(policy, s.frontier);
      RestMembers(policy, s.frontier, e);
      if GaveUp(policy, p, s, s') {
        PartlyPushedMembers(policy, rest, p.expand(x), s.closed, s'.frontier, e);
      } else if x.key !in s.closed && p.heuristic(x) != 0 {
        PushedMembers(policy, rest, p.expand(x), s.closed, s'.frontier, e);
      }
    }
  }

  /** A goal that any of the searches returns was reached from the initial state by real expand
      edges and has heuristic 0, also after earlier goals and failed steps. */
  lemma GoalIsSound(policy: Policy, p: Problem, init: Elem, run: seq<Snapshot>, g: Elem, last: Snapshot)
    requires AnyRun(policy, p, init, run)
    requires StepTo(policy, p, run[|run| - 1], Goal(g), last)
    ensures Reached(p, init, g) && p.heuristic(g) == 0
  {
    RestMembers(policy, run[|run| - 1].frontier, g);
    FrontierReached(policy, p, init, run, |run| - 1, g);
  }

  lemma RunIsAnyRun(policy: Policy, p: Problem, init: Elem, run: seq<Snapshot>)
    requires IsRun(policy, p, init, run)
    ensures AnyRun(policy, p, init, run)
  {
    forall i | 0 <= i < |run| - 1
      ensures AnyStepAt(policy, p, run, i)
    {
      assert StepAt(policy, p, run, i);
    }
  }

  /** If the run ends in -1, the closed set is exactly the reachable keys, and no reachable state
      is a goal. */
  lemma ExhaustedMeansNoGoal(policy: Policy, p: Problem, init: Elem, run: seq<Snapshot>)
    requires KeyDetermined(p) && IsRun(policy, p, init, run)
    requires run[|run| - 1].frontier == []
    ensures NoReachableGoal(p, init)
    ensures forall k :: k in run[|run| - 1].closed <==> ReachedKey(p, init, k)
  {
    var s := run[|run| - 1];
    SearchInvAlong(policy, p, init, run, |run| - 1);
    ExhaustedState(p, init, s);
  }

  lemma ExhaustedState(p: Problem, init: Elem, s: Snapshot)
    requires KeyDetermined(p) && SearchInv(p, init, s) && s.frontier == []
    ensures NoReachableGoal(p, init)
    ensures forall k :: k in s.closed <==> ReachedKey(p, init, k)
  {
    forall e | Reached(p, init, e)
      ensures e.key in s.closed && p.heuristic(e) != 0
    {
      var n: nat :| ReachedIn(p, init, e, n);
      var es :| ElemPath(p, es) && |es| == n + 1 && es[0] == init && es[n] == e;
      ElemPathHasKeys(p, es);
      PathEndsClosed(p, init, s, KeysAlong(es));
    }
  }

  // Termination, all three searches ---------------------------------------------------

  /** A finite set of keys that holds the start and is closed under expansion. */
  ghost predicate Universe(p: Problem, init: Elem, u: set<int>) {
    init.key in u && forall k, j :: k in u && j in Succ(p, k) ==> j in u
  }

  ghost predicate Within(s: Snapshot, u: set<int>) {
    s.closed <= u && forall e :: e in s.frontier ==> e.key in u
  }

  /** Smaller in the lexicographic order on (unclosed keys, frontier length). */
  ghost predicate Closer(u: set<int>, s: Snapshot, s': Snapshot) {
    |u - s'.closed| < |u - s.closed| || (s'.closed == s.closed && |s'.frontier| < |s.frontier|)
  }

  /** Every step that returns 0 stays inside the universe and gets closer to the end. */
  lemma StepDecreases(policy: Policy, p: Problem, init: Elem, u: set<int>, s: Snapshot, s': Snapshot)
    requires KeyDetermined(p) && Universe(p, init, u) && Within(s, u)
    requires StepTo(policy, p, s, Continue, s')
    ensures Within(s', u)
    ensures Closer(u, s, s')
  {
    var x, rest := Popped(policy, s.frontier), Rest(policy, s.frontier);
    RestMembers(policy, s.frontier, x);
    forall e | e in s'.frontier
      ensures e.key in u
    {
      RestMembers(policy, s.frontier, e);
      if x.key !in s.closed {
        PushedMembers(policy, rest, p.expand(x), s.closed, s'.frontier, e);
        if e in p.expand(x) {
          assert e.key in KeySet(p.expand(x));
        }
      }
    }
    if x.key !in s.closed {
      assert u - s'.closed == (u - s.closed) - {x.key};
    }
  }

  // The client loop ----------------------------------------------------------------------

  /** `run` is a run that has only returned 0 so far and ended in `s`. */
  ghost predicate Underway(policy: Policy, p: Problem, init: Elem, u: set<int>, run: seq<Snapshot>, s: Snapshot) {
    && KeyDetermined(p) && Universe(p, init, u) && IsRun(policy, p, init, run)
    && run[|run| - 1] == s && Within(s, u)
  }

  /** What an outcome other than 0 says about the problem. */
  ghost predicate Verdict(policy: Policy, p: Problem, init: Elem, o: Outcome) {
    match o
    case Goal(g) => Reached(p, init, g) && p.heuristic(g) == 0 && (policy == Queue ==> NearestGoal(p, init, g))
    case Exhausted => NoReachableGoal(p, init)
    case Continue => true
    case Failed => true
  }

  lemma LoopStarts(policy: Policy, p: Problem, init: Elem, u: set<int>)
    requires KeyDetermined(p) && Universe(p, init, u)
    ensures Underway(policy, p, init, u, [Start(init)], Start(init))
  {
  }

  lemma LoopTurns(policy: Policy, p: Problem, init: Elem, u: set<int>, run: seq<Snapshot>,
                  s: Snapshot, o: Outcome, s': Snapshot)
    requires Underway(policy, p, init, u, run, s)
    requires o == Failed || StepTo(policy, p, s, o, s')
    ensures Verdict(policy, p, init, o)
    ensures o == Continue ==> Underway(policy, p, init, u, run + [s'], s') && Closer(u, s, s')
  {
    match o
    case Continue =>
      StepDecreases(policy, p, init, u, s, s');
      RunGoesOn(policy, p, init, run, s');
    case Goal(g) =>
      RunIsAnyRun(policy, p, init, run);
      GoalIsSound(policy, p, init, run, g, s');
      if policy == Queue {
        BfsIsOptimal(p, init, run, g, s');
      }
    case Exhausted =>
      ExhaustedMeansNoGoal(policy, p, init, run);
    case Failed =>
  }

  // Breadth-first search finds a nearest goal ---------------------------------------------

  ghost predicate Covered(s: Snapshot, ds: seq<nat>, depth: map<int, nat>, k: int, n: nat)
    requires |ds| == |s.frontier| && depth.Keys == s.closed
  {
    || (k in s.closed && depth[k] <= n)
    || exists i :: 0 <= i < |ds| && s.frontier[i].key == k && ds[i] <= n
  }

  ghost predicate Labelled(s: Snapshot, ds: seq<nat>, depth: map<int, nat>) {
    && |ds| == |s.frontier|
    && depth.Keys == s.closed
    && (forall i, j :: 0 <= i <= j < |ds| ==> ds[i] <= ds[j] <= ds[0] + 1)
    && (forall k :: k in s.closed && |ds| > 0 ==> depth[k] <= ds[0])
  }

  /** `ds` labels the frontier entries and `depth` the closed keys with path lengths. */
  ghost predicate BfsInv(p: Problem, init: Elem, s: Snapshot, ds: seq<nat>, depth: map<int, nat>) {
    && Labelled(s, ds, depth)
    && (forall i :: 0 <= i < |ds| ==> ReachedIn(p, init, s.frontier[i], ds[i]))
    && (forall k :: k in s.closed ==> !IsGoalKey(p, k))
    && Covered(s, ds, depth, init.key, 0)
    && (forall k, j :: k in s.closed && j in Succ(p, k) ==> Covered(s, ds, depth, j, depth[k] + 1))
  }

  ghost function NextLabels(p: Problem, s: Snapshot, ds: seq<nat>): seq<nat>
    requires |ds| == |s.frontier| > 0
  {
    var x := s.frontier[0];
    if x.key in s.closed then ds[1..]
    else ds[1..] + seq(|Fresh(p.expand(x), s.closed)|, _ => ds[0] + 1)
  }

  ghost function NextDepth(s: Snapshot, ds: seq<nat>, depth: map<int, nat>): map<int, nat>
    requires |ds| == |s.frontier| > 0
  {
    var x := s.frontier[0];
    if x.key in s.closed then depth else depth[x.key := ds[0]]
  }

  lemma CoveredKept(p: Problem, s: Snapshot, ds: seq<nat>, depth: map<int, nat>, s': Snapshot, k: int, n: nat)
    requires Labelled(s, ds, depth) && StepTo(Queue, p, s, Continue, s')
    requires Covered(s, ds, depth, k, n)
    ensures |NextLabels(p, s, ds)| == |s'.frontier| && NextDepth(s, ds, depth).Keys == s'.closed
    ensures Covered(s', NextLabels(p, s, ds), NextDepth(s, ds, depth), k, n)
  {
    var ds', x := NextLabels(p, s, ds), s.frontier[0];
    if !(k in s.closed && depth[k] <= n) {
      var i :| 0 <= i < |ds| && s.frontier[i].key == k && ds[i] <= n;
      if i > 0 {
        assert s'.frontier[i - 1] == s.frontier[i] && ds'[i - 1] == ds[i];
      }
    }
  }

  lemma BfsReachedStep(p: Problem, init: Elem, s: Snapshot, ds: seq<nat>, depth: map<int, nat>, s': Snapshot, i: nat)
    requires BfsInv(p, init, s, ds, depth) && StepTo(Queue, p, s, Continue, s')
    requires i < |s'.frontier|
    ensures i < |NextLabels(p, s, ds)| && ReachedIn(p, init, s'.frontier[i], NextLabels(p, s, ds)[i])
  {
    var x := s.frontier[0];
    if i < |ds| - 1 {
      assert s'.frontier[i] == s.frontier[i + 1] && NextLabels(p, s, ds)[i] == ds[i + 1];
    } else {
      FreshMembers(p.expand(x), s.closed, s'.frontier[i]);
      ReachOneMore(p, init, x, ds[0], s'.frontier[i]);
    }
  }

  lemma LabelledStep(p: Problem, s: Snapshot, ds: seq<nat>, depth: map<int, nat>, s': Snapshot)
    requires Labelled(s, ds, depth) && StepTo(Queue, p, s, Continue, s')
    ensures Labelled(s', NextLabels(p, s, ds), NextDepth(s, ds, depth))
  {
    var ds' := NextLabels(p, s, ds);
    assert forall i :: 0 <= i < |ds| - 1 ==> ds'[i] == ds[i + 1];
    assert forall i :: |ds| - 1 <= i < |ds'| ==> ds'[i] == ds[0] + 1;
  }

  lemma BfsInvStep(p: Problem, init: Elem, s: Snapshot, ds: seq<nat>, depth: map<int, nat>, s': Snapshot)
    requires KeyDetermined(p) && BfsInv(p, init, s, ds, depth) && StepTo(Queue, p, s, Continue, s')
    ensures BfsInv(p, init, s', NextLabels(p, s, ds), NextDepth(s, ds, depth))
  {
    var x, ds', depth' := s.frontier[0], NextLabels(p, s, ds), NextDepth(s, ds, depth);
    LabelledStep(p, s, ds, depth, s');
    CoveredKept(p, s, ds, depth, s', init.key, 0);
    forall i | 0 <= i < |ds'|
      ensures ReachedIn(p, init, s'.frontier[i], ds'[i])
    {
      BfsReachedStep(p, init, s, ds, depth, s', i);
    }
    forall k, j | k in s'.closed && j in Succ(p, k)
      ensures Covered(s', ds', depth', j, depth'[k] + 1)
    {
      SuccessorCovered(p, init, s, ds, depth, s', k, j);
    }
  }

  lemma SuccessorCovered(p: Problem, init: Elem, s: Snapshot, ds: seq<nat>, depth: map<int, nat>,
                         s': Snapshot, k: int, j: int)
    requires KeyDetermined(p) && BfsInv(p, init, s, ds, depth) && StepTo(Queue, p, s, Continue, s')
    requires k in s'.closed && j in Succ(p, k)
    ensures |NextLabels(p, s, ds)| == |s'.frontier| && NextDepth(s, ds, depth).Keys == s'.closed
    ensures Covered(s', NextLabels(p, s, ds), NextDepth(s, ds, depth), j, NextDepth(s, ds, depth)[k] + 1)
  {
    if k in s.closed {
      CoveredKept(p, s, ds, depth, s', j, depth[k] + 1);
    } else {
      ChildCovered(p, s, ds, depth, s', j);
    }
  }

  lemma ChildCovered(p: Problem, s: Snapshot, ds: seq<nat>, depth: map<int, nat>, s': Snapshot, j: int)
    requires KeyDetermined(p) && Labelled(s, ds, depth) && StepTo(Queue, p, s, Continue, s')
    requires s.frontier != [] && s.frontier[0].key !in s.closed
    requires j in Succ(p, s.frontier[0].key)
    ensures |NextLabels(p, s, ds)| == |s'.frontier| && NextDepth(s, ds, depth).Keys == s'.closed
    ensures Covered(s', NextLabels(p, s, ds), NextDepth(s, ds, depth), j, ds[0] + 1)
  {
    var x := s.frontier[0];
    var kids := Fresh(p.expand(x), s.closed);
    if j !in s.closed {
      assert j in KeySet(p.expand(x));
      var e :| e in p.expand(x) && e.key == j;
      FreshMembers(p.expand(x), s.closed, e);
      var i :| 0 <= i < |kids| && kids[i] == e;
      assert s'.frontier[|ds| - 1 + i] == e && NextLabels(p, s, ds)[|ds| - 1 + i] == ds[0] + 1;
    }
  }

  lemma BfsInvStart(p: Problem, init: Elem)
    ensures BfsInv(p, init, Start(init), [0], map[])
  {
    ReachSelf(p, init);
  }

  lemma BfsInvNext(p: Problem, init: Elem, run: seq<Snapshot>, i: nat, ds: seq<nat>, depth: map<int, nat>)
    returns (ds': seq<nat>, depth': map<int, nat>)
    requires KeyDetermined(p) && IsRun(Queue, p, init, run) && 0 < i < |run| && BfsInv(p, init, run[i - 1], ds, depth)
    ensures BfsInv(p, init, run[i], ds', depth')
  {
    assert StepAt(Queue, p, run, i - 1);
    BfsInvStep(p, init, run[i - 1], ds, depth, run[i]);
    ds', depth' := NextLabels(p, run[i - 1], ds), NextDepth(run[i - 1], ds, depth);
  }

  lemma {:induction false} BfsInvAlong(p: Problem, init: Elem, run: seq<Snapshot>, i: nat)
    returns (ds: seq<nat>, depth: map<int, nat>)
    requires KeyDetermined(p) && IsRun(Queue, p, init, run) && i < |run|
    ensures BfsInv(p, init, run[i], ds, depth)
  {
    if i == 0 {
      ds, depth := [0], map[];
      BfsInvStart(p, init);
    } else {
      var before, depths := BfsInvAlong(p, init, run, i - 1);
      ds, depth := BfsInvNext(p, init, run, i, before, depths);
    }
  }

  /** Everything nearer than the front entry is already closed. */
  lemma {:induction false} NearerIsClosed(p: Problem, init: Elem, s: Snapshot, ds: seq<nat>, depth: map<int, nat>,
                                          ks: seq<int>)
    requires BfsInv(p, init, s, ds, depth) && |ds| > 0
    requires KeyPath(p, ks) && ks[0] == init.key && |ks| <= ds[0]
    ensures ks[|ks| - 1] in s.closed && depth[ks[|ks| - 1]] <= |ks| - 1
  {
    if |ks| > 1 {
      var front := ks[..|ks| - 1];
      KeyPathPrefix(p, ks);
      NearerIsClosed(p, init, s, ds, depth, front);
      assert front[|front| - 1] in s.closed;
      assert Covered(s, ds, depth, ks[|ks| - 1], depth[ks[|ks| - 2]] + 1);
    }
  }

  /** The goal is reached by some number of expand edges, and no goal by fewer. */
  ghost predicate NearestGoal(p: Problem, init: Elem, g: Elem) {
    && p.heuristic(g) == 0
    && exists n: nat :: ReachedIn(p, init, g, n)
                && forall e, m :: ReachedIn(p, init, e, m) && p.heuristic(e) == 0 ==> n <= m
  }

  lemma FrontGoalIsNearest(p: Problem, init: Elem, s: Snapshot, ds: seq<nat>, depth: map<int, nat>)
    requires KeyDetermined(p) && BfsInv(p, init, s, ds, depth) && s.frontier != []
    requires p.heuristic(s.frontier[0]) == 0
    ensures NearestGoal(p, init, s.frontier[0])
  {
    forall e, m | ReachedIn(p, init, e, m) && p.heuristic(e) == 0
      ensures ds[0] <= m
    {
      var es :| ElemPath(p, es) && |es| == m + 1 && es[0] == init && es[m] == e;
      ElemPathHasKeys(p, es);
      if m < ds[0] {
        NearerIsClosed(p, init, s, ds, depth, KeysAlong(es));
      }
    }
    assert ReachedIn(p, init, s.frontier[0], ds[0]);
  }

  /** BFS optimality over whole runs. */
  lemma BfsIsOptimal(p: Problem, init: Elem, run: seq<Snapshot>, g: Elem, last: Snapshot)
    requires KeyDetermined(p) && IsRun(Queue, p, init, run)
    requires StepTo(Queue, p, run[|run| - 1], Goal(g), last)
    ensures NearestGoal(p, init, g)
  {
    var ds, depth := BfsInvAlong(p, init, run, |run| - 1);
    FrontGoalIsNearest(p, init, run[|run| - 1], ds, depth);
  }

  // Depth-first search covers exactly what the popped state can still reach ----------------

  /** A path from `a` to `k` with no key in `avoid`. */
  ghost predicate ReachAvoiding(p: Problem, avoid: set<int>, a: int, k: int) {
    exists ks :: KeyPath(p, ks) && ks[0] == a && ks[|ks| - 1] == k && AllOutside(ks, avoid)
  }

  ghost predicate AllOutside(ks: seq<int>, avoid: set<int>) {
    forall i :: 0 <= i < |ks| ==> ks[i] !in avoid
  }

  ghost predicate SomeReaches(p: Problem, avoid: set<int>, es: seq<Elem>, k: int) {
    exists i :: 0 <= i < |es| && ReachAvoiding(p, avoid, es[i].key, k)
  }

  lemma KeyPathSuffix(p: Problem, ks: seq<int>, j: nat)
    requires KeyPath(p, ks) && j < |ks|
    ensures KeyPath(p, ks[j..])
  {
    forall i | 0 <= i < |ks[j..]| - 1
      ensures ks[j..][i + 1] in Succ(p, ks[j..][i])
    {
      assert ks[j + i + 1] in Succ(p, ks[j + i]);
    }
  }

  lemma ReachThrough(p: Problem, avoid: set<int>, x: int, c: int, k: int)
    requires x !in avoid && c in Succ(p, x) && ReachAvoiding(p, avoid + {x}, c, k)
    ensures ReachAvoiding(p, avoid, x, k)
  {
    var ks :| KeyPath(p, ks) && ks[0] == c && ks[|ks| - 1] == k && AllOutside(ks, avoid + {x});
    var path := [x] + ks;
    forall i | 0 <= i < |path| - 1
      ensures path[i + 1] in Succ(p, path[i])
    {
      if i > 0 {
        assert ks[i - 1 + 1] in Succ(p, ks[i - 1]);
      }
    }
    assert AllOutside(path, avoid);
    assert KeyPath(p, path) && path[|path| - 1] == k;
  }

  lemma LastOccurrence(ks: seq<int>, x: int) returns (j: nat)
    requires x in ks
    ensures j < |ks| && ks[j] == x && x !in ks[j + 1..]
  {
    j := |ks| - 1;
    while ks[j] != x
      invariant 0 <= j < |ks| && x in ks[..j + 1] && x !in ks[j + 1..]
      decreases j
    {
      j := j - 1;
    }
  }

  /** A path that avoids `avoid` either misses `x`, ends at `x`, or goes on from a successor of
      `x` while avoiding `x` too. */
  lemma SplitAtLast(p: Problem, avoid: set<int>, a: int, x: int, k: int)
    requires ReachAvoiding(p, avoid, a, k)
    ensures (a != x && ReachAvoiding(p, avoid + {x}, a, k)) || k == x
            || exists c :: c in Succ(p, x) && c !in avoid && ReachAvoiding(p, avoid + {x}, c, k)
  {
    var ks :| KeyPath(p, ks) && ks[0] == a && ks[|ks| - 1] == k && AllOutside(ks, avoid);
    if x in ks {
      var j := LastOccurrence(ks, x);
      if j + 1 < |ks| {
        KeyPathSuffix(p, ks, j + 1);
        assert AllOutside(ks[j + 1..], avoid + {x});
        assert ks[j + 1..][|ks[j + 1..]| - 1] == k;
        assert ks[j + 1] in Succ(p, ks[j]);
        assert ReachAvoiding(p, avoid + {x}, ks[j + 1], k);
      }
    } else {
      assert AllOutside(ks, avoid + {x});
    }
  }

  lemma AvoidLess(p: Problem, avoid: set<int>, x: int, a: int, k: int)
    requires ReachAvoiding(p, avoid + {x}, a, k)
    ensures ReachAvoiding(p, avoid, a, k)
  {
    var ks :| KeyPath(p, ks) && ks[0] == a && ks[|ks| - 1] == k && AllOutside(ks, avoid + {x});
    assert AllOutside(ks, avoid);
  }

  lemma SomeReachesMember(p: Problem, avoid: set<int>, es: seq<Elem>, e: Elem, k: int)
    requires e in es && ReachAvoiding(p, avoid, e.key, k)
    ensures SomeReaches(p, avoid, es, k)
  {
  }

  /** Expanding the top of the stack trades it for its fresh children without changing what the
      prefix still covers. */
  lemma ExpandKeepsCover(p: Problem, closed: set<int>, x: Elem, below: seq<Elem>, k: int)
    requires KeyDetermined(p) && x.key !in closed
    ensures (k in closed || SomeReaches(p, closed, [x] + below, k))
       <==> (k in closed + {x.key}
             || SomeReaches(p, closed + {x.key}, Reversed(Fresh(p.expand(x), closed)) + below, k))
  {
    var kids := Reversed(Fresh(p.expand(x), closed));
    var closed' := closed + {x.key};
    if k in closed' || SomeReaches(p, closed', kids + below, k) {
      CoverShrinksBack(p, closed, x, below, k);
    }
    if SomeReaches(p, closed, [x] + below, k) && k != x.key {
      var i :| 0 <= i < |[x] + below| && ReachAvoiding(p, closed, ([x] + below)[i].key, k);
      var e := ([x] + below)[i];
      SplitAtLast(p, closed, e.key, x.key, k);
      if e.key != x.key && ReachAvoiding(p, closed', e.key, k) {
        assert e in below;
        SomeReachesMember(p, closed', kids + below, e, k);
      } else {
        var c :| c in Succ(p, x.key) && c !in closed && ReachAvoiding(p, closed', c, k);
        assert c in KeySet(p.expand(x));
        var ce :| ce in p.expand(x) && ce.key == c;
        FreshMembers(p.expand(x), closed, ce);
        ReversedMembers(Fresh(p.expand(x), closed), ce);
        SomeReachesMember(p, closed', kids + below, ce, k);
      }
    }
  }

  lemma CoverShrinksBack(p: Problem, closed: set<int>, x: Elem, below: seq<Elem>, k: int)
    requires KeyDetermined(p) && x.key !in closed
    requires k in closed + {x.key}
          || SomeReaches(p, closed + {x.key}, Reversed(Fresh(p.expand(x), closed)) + below, k)
    ensures k in closed || SomeReaches(p, closed, [x] + below, k)
  {
    var kids := Reversed(Fresh(p.expand(x), closed));
    if k == x.key {
      assert KeyPath(p, [k]) && AllOutside([k], closed);
      assert ReachAvoiding(p, closed, k, k);
      SomeReachesMember(p, closed, [x] + below, x, k);
    } else if k !in closed {
      var i :| 0 <= i < |kids + below| && ReachAvoiding(p, closed + {x.key}, (kids + below)[i].key, k);
      var e := (kids + below)[i];
      if i < |kids| {
        ReversedMembers(Fresh(p.expand(x), closed), e);
        FreshMembers(p.expand(x), closed, e);
        assert e.key in KeySet(p.expand(x));
        ReachThrough(p, closed, x.key, e.key, k);
        SomeReachesMember(p, closed, [x] + below, x, k);
      } else {
        AvoidLess(p, closed, x.key, e.key, k);
        SomeReachesMember(p, closed, [x] + below, e, k);
      }
    }
  }

  lemma DropClosedTop(p: Problem, closed: set<int>, x: Elem, below: seq<Elem>, k: int)
    requires x.key in closed
    ensures SomeReaches(p, closed, [x] + below, k) <==> SomeReaches(p, closed, below, k)
  {
    assert !ReachAvoiding(p, closed, x.key, k);
    if SomeReaches(p, closed, [x] + below, k) {
      var i :| 0 <= i < |[x] + below| && ReachAvoiding(p, closed, ([x] + below)[i].key, k);
      SomeReachesMember(p, closed, below, below[i - 1], k);
    }
    if SomeReaches(p, closed, below, k) {
      var i :| 0 <= i < |below| && ReachAvoiding(p, closed, below[i].key, k);
      SomeReachesMember(p, closed, [x] + below, below[i], k);
    }
  }

  /** When a run that starts with the stack `top + below` first gets back to the height of
      `below`, the stack is `below` again, and what got closed is exactly what `top` reaches
      around the states closed before. */
  lemma {:induction false} StackCover(p: Problem, run: seq<Snapshot>, top: seq<Elem>, below: seq<Elem>, k: int)
    requires KeyDetermined(p) && Steps(Stack, p, run)
    requires run[0].frontier == top + below
    requires forall i :: 0 <= i < |run| - 1 ==> |run[i].frontier| > |below|
    requires |run[|run| - 1].frontier| == |below|
    ensures run[|run| - 1].frontier == below
    ensures k in run[|run| - 1].closed <==> k in run[0].closed || SomeReaches(p, run[0].closed, top, k)
    decreases |run|
  {
    if |run| == 1 {
      assert top == [];
    } else {
      var x, closed := top[0], run[0].closed;
      assert StepAt(Stack, p, run, 0);
      assert run[0].frontier[1..] == top[1..] + below;
      assert top == [x] + top[1..];
      assert Steps(Stack, p, run[1..]) by {
        forall i | 0 <= i < |run[1..]| - 1
          ensures StepAt(Stack, p, run[1..], i)
        {
          assert StepAt(Stack, p, run, i + 1);
        }
      }
      if x.key in closed {
        StackCover(p, run[1..], top[1..], below, k);
        DropClosedTop(p, closed, x, top[1..], k);
      } else {
        var kids := Reversed(Fresh(p.expand(x), closed));
        assert run[1].frontier == (kids + top[1..]) + below;
        StackCover(p, run[1..], kids + top[1..], below, k);
        ExpandKeepsCover(p, closed, x, top[1..], k);
      }
    }
  }

  /** DFS exact coverage: popping the unclosed `x` and running until the stack is `below` again
      closes exactly the states that `x` reaches along paths avoiding the closed ones. */
  lemma DfsExactCoverage(p: Problem, run: seq<Snapshot>, x: Elem, below: seq<Elem>)
    requires KeyDetermined(p) && Steps(Stack, p, run)
    requires run[0].frontier == [x] + below && x.key !in run[0].closed
    requires forall i :: 0 <= i < |run| - 1 ==> |run[i].frontier| > |below|
    requires |run[|run| - 1].frontier| == |below|
    ensures run[|run| - 1].frontier == below
    ensures forall k :: k in run[|run| - 1].closed
                   <==> k in run[0].closed || ReachAvoiding(p, run[0].closed, x.key, k)
  {
    forall k
      ensures run[|run| - 1].frontier == below
      ensures k in run[|run| - 1].closed <==> k in run[0].closed || ReachAvoiding(p, run[0].closed, x.key, k)
    {
      StackCover(p, run, [x], below, k);
      if ReachAvoiding(p, run[0].closed, x.key, k) {
        SomeReachesMember(p, run[0].closed, [x], x, k);
      }
    }
  }

  // Children enter the frontier in order ----------------------------------------------------

  /** `picked` lists the indices of the unclosed elements in ascending order. */
  ghost predicate Unclosed(es: seq<Elem>, closed: set<int>, picked: seq<nat>) {
    && (forall n :: 0 <= n < |picked| ==> picked[n] < |es| && es[picked[n]].key !in closed)
    && (forall m, n :: 0 <= m < n < |picked| ==> picked[m] < picked[n])
    && (forall i {:trigger i in picked} :: 0 <= i < |es| && es[i].key !in closed ==> i in picked)
  }

  ghost predicate Lists(f: seq<Elem>, es: seq<Elem>, picked: seq<nat>) {
    |f| == |picked| && forall n :: 0 <= n < |picked| ==> picked[n] < |es| && f[n] == es[picked[n]]
  }

  lemma UnclosedMore(es: seq<Elem>, closed: set<int>, picked: seq<nat>, e: Elem)
    requires Unclosed(es, closed, picked)
    ensures Unclosed(es + [e], closed, if e.key in closed then picked else picked + [|es|])
  {
    var picked' := if e.key in closed then picked else picked + [|es|];
    forall i | 0 <= i < |es| + 1 && (es + [e])[i].key !in closed
      ensures i in picked'
    {
      if i == |es| {
        assert picked'[|picked|] == i;
      } else {
        assert i in picked;
      }
    }
  }

  lemma ListsMore(f: seq<Elem>, es: seq<Elem>, picked: seq<nat>, e: Elem)
    requires Lists(f, es, picked)
    ensures Lists(f, es + [e], picked) && Lists(f + [e], es + [e], picked + [|es|])
  {
  }

  lemma {:induction false} FreshIsUnclosed(es: seq<Elem>, closed: set<int>) returns (picked: seq<nat>)
    ensures Unclosed(es, closed, picked) && Lists(Fresh(es, closed), es, picked)
  {
    if es == [] {
      picked := [];
    } else {
      var front, e := es[..|es| - 1], es[|es| - 1];
      var before := FreshIsUnclosed(front, closed);
      assert es == front + [e];
      UnclosedMore(front, closed, before, e);
      ListsMore(Fresh(front, closed), front, before, e);
      picked := if e.key in closed then before else before + [|front|];
    }
  }

  /** After an expansion the frontier holds the old rest and, at the end a push works on, exactly the
      unclosed children: in the order of `expand` behind the queue, in the opposite order on the stack. */
  lemma ChildrenInOrder(policy: Policy, p: Problem, s: Snapshot, s': Snapshot) returns (picked: seq<nat>)
    requires policy != Ordered && StepTo(policy, p, s, Continue, s')
    requires s.frontier != [] && s.frontier[0].key !in s.closed
    ensures Unclosed(p.expand(s.frontier[0]), s.closed, picked)
    ensures var kids, rest, f := p.expand(s.frontier[0]), s.frontier[1..], s'.frontier;
      && |f| == |rest| + |picked|
      && (policy == Queue ==> f[..|rest|] == rest)
      && (policy == Queue ==> forall n :: 0 <= n < |picked| ==> f[|rest| + n] == kids[picked[n]])
      && (policy == Stack ==> f[|picked|..] == rest)
      && (policy == Stack ==> forall n :: 0 <= n < |picked| ==> f[|picked| - 1 - n] == kids[picked[n]])
  {
    picked := FreshIsUnclosed(p.expand(s.frontier[0]), s.closed);
  }

  /** A depth-first search goes on with the last unclosed child, which a breadth-first search visits last. */
  lemma LastChildPlace(policy: Policy, p: Problem, s: Snapshot, s': Snapshot, last: nat)
    requires policy != Ordered && StepTo(policy, p, s, Continue, s')
    requires s.frontier != [] && s.frontier[0].key !in s.closed
    requires last < |p.expand(s.frontier[0])| && p.expand(s.frontier[0])[last].key !in s.closed
    requires forall j :: last < j < |p.expand(s.frontier[0])| ==> p.expand(s.frontier[0])[j].key in s.closed
    ensures s'.frontier != []
    ensures s'.frontier[if policy == Stack then 0 else |s'.frontier| - 1] == p.expand(s.frontier[0])[last]
  {
    var picked := ChildrenInOrder(policy, p, s, s');
    assert last in picked;
    assert picked[|picked| - 1] == last;
  }

  /** The first child enters a queue right behind the entries that were there. */
  lemma FirstChildPlace(p: Problem, s: Snapshot, s': Snapshot, first: nat)
    requires StepTo(Queue, p, s, Continue, s') && s.frontier != [] && s.frontier[0].key !in s.closed
    requires first < |p.expand(s.frontier[0])| && p.expand(s.frontier[0])[first].key !in s.closed
    requires forall j :: 0 <= j < first ==> p.expand(s.frontier[0])[j].key in s.closed
    ensures |s'.frontier| >= |s.frontier| && s'.frontier[|s.frontier| - 1] == p.expand(s.frontier[0])[first]
  {
    var picked := ChildrenInOrder(Queue, p, s, s');
    assert first in picked;
    assert picked[0] == first;
  }

  /** Depth-first order: after `x` was expanded, everything that its last unclosed child reaches is closed
      before the search comes back to an earlier child. */
  lemma LastChildFirst(p: Problem, run: seq<Snapshot>, x: Elem, below: seq<Elem>, last: nat)
    requires KeyDetermined(p) && Steps(Stack, p, run) && |run| > 2
    requires run[0].frontier == [x] + below && x.key !in run[0].closed
    requires last < |p.expand(x)| && p.expand(x)[last].key !in run[0].closed + {x.key}
    requires forall j :: last < j < |p.expand(x)| ==> p.expand(x)[j].key in run[0].closed
    requires forall i :: 0 < i < |run| - 1 ==> |run[i].frontier| >= |run[1].frontier|
    requires |run[|run| - 1].frontier| < |run[1].frontier|
    ensures run[1].frontier != [] && run[1].frontier[0] == p.expand(x)[last]
    ensures run[|run| - 1].frontier == run[1].frontier[1..]
    ensures forall k :: k in run[|run| - 1].closed
                   <==> k in run[0].closed || k == x.key
                        || ReachAvoiding(p, run[0].closed + {x.key}, p.expand(x)[last].key, k)
  {
    assert StepAt(Stack, p, run, 0);
    LastChildPlace(Stack, p, run[0], run[1], last);
    var rest := run[1..];
    forall i | 0 <= i < |rest| - 1
      ensures StepAt(Stack, p, rest, i)
    {
      assert StepAt(Stack, p, run, i + 1);
    }
    forall i | 0 <= i < |rest| - 1
      ensures |rest[i].frontier| > |run[1].frontier| - 1
    {
      assert rest[i] == run[i + 1];
    }
    assert StepAt(Stack, p, run, |run| - 2);
    FrontierShrinksByOne(Stack, p, run[|run| - 2], run[|run| - 1]);
    DfsExactCoverage(p, rest, p.expand(x)[last], run[1].frontier[1..]);
  }

  /** A step takes one entry at most. */
  lemma FrontierShrinksByOne(policy: Policy, p: Problem, s: Snapshot, s': Snapshot)
    requires policy != Ordered && StepTo(policy, p, s, Continue, s')
    ensures |s'.frontier| >= |s.frontier| - 1
  {
  }

  // Best-first search always takes a least entry -------------------------------------------

  lemma {:induction false} FrontierStaysSorted(p: Problem, init: Elem, run: seq<Snapshot>, i: nat)
    requires AnyRun(Ordered, p, init, run) && i < |run|
    ensures Sorted(Order(true), run[i].frontier)
  {
    if i > 0 {
      FrontierStaysSorted(p, init, run, i - 1);
      assert AnyStepAt(Ordered, p, run, i - 1);
    }
  }

  /** Over every run, failures and all, the popped entry has a least key. */
  lemma BestFirstTakesLeast(p: Problem, init: Elem, run: seq<Snapshot>, i: nat, e: Elem)
    requires AnyRun(Ordered, p, init, run) && i < |run| && e in run[i].frontier
    ensures Popped(Ordered, run[i].frontier).key <= e.key
  {
    FrontierStaysSorted(p, init, run, i);
    var f := run[i].frontier;
    var j :| 0 <= j < |f| && f[j] == e;
    assert Order(true).Rank(f[j]) <= Order(true).Rank(f[|f| - 1]);
  }
}
