/** Best-first search, src/ai/search/informed/BestFirst.c. */
module BestFirst {
  import opened DataType
  import opened SearchTheory
  import HeapSort
  import SortedArray
  import HashSet

  /** The next step will not hand the heapsort a batch of one, which is undefined there
      (HeapSort.FirstParentInBounds): the frontier is empty, or the entry on turn is dropped, is a
      goal, or does not have exactly one child. */
  ghost predicate Mergeable(p: Problem, s: Snapshot) {
    s.frontier != [] ==>
      var x := Popped(Ordered, s.frontier);
      x.key in s.closed || p.heuristic(x) == 0 || |p.expand(x)| != 1
  }

  /** No state that a search from `initial` could expand has exactly one child. */
  ghost predicate NoSingleChild(p: Problem, initial: Elem) {
    forall e :: Reached(p, initial, e) && p.heuristic(e) != 0 ==> |p.expand(e)| != 1
  }

  lemma PoppedIsReached(p: Problem, initial: Elem, run: seq<Snapshot>)
    requires IsRun(Ordered, p, initial, run) && run[|run| - 1].frontier != []
    ensures Reached(p, initial, Popped(Ordered, run[|run| - 1].frontier))
  {
    var f := run[|run| - 1].frontier;
    RunIsAnyRun(Ordered, p, initial, run);
    RestMembers(Ordered, f, Popped(Ordered, f));
    FrontierReached(Ordered, p, initial, run, |run| - 1, Popped(Ordered, f));
  }

  lemma RunIsMergeable(p: Problem, initial: Elem, run: seq<Snapshot>)
    requires NoSingleChild(p, initial) && IsRun(Ordered, p, initial, run)
    ensures Mergeable(p, run[|run| - 1])
  {
    if run[|run| - 1].frontier != [] {
      PoppedIsReached(p, initial, run);
    }
  }

  /** A batch that the next step merges fits the address space, as any batch in memory does. */
  ghost predicate BatchFits(p: Problem, s: Snapshot, size: nat) {
    s.frontier != [] ==>
      var x := Popped(Ordered, s.frontier);
      x.key in s.closed || p.heuristic(x) == 0 || HeapSort.Addressable(|p.expand(x)|, size)
  }

  /** So do the batches of all states that a search from `initial` could expand. */
  ghost predicate BatchesFit(p: Problem, initial: Elem, size: nat) {
    forall e :: Reached(p, initial, e) && p.heuristic(e) != 0 ==> HeapSort.Addressable(|p.expand(e)|, size)
  }

  lemma RunBatchFits(p: Problem, initial: Elem, run: seq<Snapshot>, size: nat)
    requires BatchesFit(p, initial, size) && IsRun(Ordered, p, initial, run)
    ensures BatchFits(p, run[|run| - 1], size)
  {
    if run[|run| - 1].frontier != [] {
      PoppedIsReached(p, initial, run);
    }
  }

  /** A search as bestfs_create leaves it, which ignores a failed insert of the initial state. */
  function Created(initial: Elem, lost: bool): Snapshot {
    if lost then Snapshot([], {}) else Start(initial)
  }

  /** Some run of zero returns that leads to -1 although a goal is reachable. */
  ghost predicate WronglyExhausted(p: Problem, initial: Elem, s: Snapshot) {
    exists run: seq<Snapshot> :: Steps(Ordered, p, run) && run[0] == s && run[|run| - 1].frontier == []
                  && !NoReachableGoal(p, initial)
  }

  /** What a caller sees of it: a search that reports "nothing left" at all does so at its first step
      exactly when the initial state was lost. */
  lemma FirstStepExhausted(p: Problem, initial: Elem, lost: bool, run: seq<Snapshot>)
    requires Steps(Ordered, p, run) && run[0] == Created(initial, lost) && run[|run| - 1].frontier == []
    ensures |run| == 1 <==> lost
  {
    if |run| > 1 {
      assert StepAt(Ordered, p, run, 0);
    }
  }

  /** A created search can report "nothing left" wrongly exactly when the initial state was lost
      and there is a goal to be found. */
  lemma ExhaustedIsWrong(p: Problem, initial: Elem, lost: bool)
    requires KeyDetermined(p)
    ensures WronglyExhausted(p, initial, Created(initial, lost)) <==> lost && !NoReachableGoal(p, initial)
  {
    var s := Created(initial, lost);
    if lost {
      assert Steps(Ordered, p, [s]);
    } else if WronglyExhausted(p, initial, s) {
      var run: seq<Snapshot> :| Steps(Ordered, p, run) && run[0] == s && run[|run| - 1].frontier == []
                 && !NoReachableGoal(p, initial);
      ExhaustedMeansNoGoal(Ordered, p, initial, run);
    }
  }

  /** So -1 can come back although the initial state itself is a goal. */
  lemma LostInitialState(initial: Elem)
    ensures var p, s := Problem(_ => [], _ => 0), Created(initial, true);
      && StepTo(Ordered, p, s, Exhausted, s)
      && KeyDetermined(p) && NoSingleChild(p, initial) && !NoReachableGoal(p, initial)
  {
    var p := Problem(_ => [], _ => 0);
    ReachSelf(p, initial);
    assert Reached(p, initial, initial);
  }

  /** Merges the children into the frontier, closed ones too. */
  method MergeChildren(frontier: SortedArray.SortedArray, children: seq<Elem>, lasts: bool) returns (failed: bool)
    requires frontier.Valid() && frontier.order == Order(true) && |children| != 1
    modifies frontier.Repr
    ensures frontier.Valid() && fresh(frontier.Repr - old(frontier.Repr))
    ensures !failed ==> Pushed(Ordered, old(frontier.contents), children, {}, frontier.contents)
    ensures failed ==> frontier.contents == old(frontier.contents)
    ensures lasts && HeapSort.Addressable(|children|, frontier.elementSize) ==> !failed
  {
    failed := false;
    if |children| != 0 {
      failed := frontier.MergeBatch(children, lasts);
      if !failed {
        frontier.MergedWithMultiset(old(frontier.contents), children, frontier.contents);
      }
    } else {
      assert multiset(children) == multiset{};
    }
  }

  class BestFirstState {
    const frontier: SortedArray.SortedArray
    const closed: HashSet.HashSet
    const problem: Problem
    ghost var state: Snapshot
    ghost var Repr: set<object>

    ghost predicate Valid()
      reads this, Repr
    {
      && this in Repr && frontier in Repr && closed in Repr && closed.table in Repr
      && frontier.Repr <= Repr && this !in frontier.Repr
      && frontier.Repr !! closed.Repr()
      && frontier.Valid() && closed.Valid()
      && frontier.order == Order(true)
      && state == Snapshot(frontier.contents, closed.contents.Keys)
    }

    constructor (frontier: SortedArray.SortedArray, closed: HashSet.HashSet, problem: Problem)
      requires frontier.Valid() && closed.Valid() && frontier.Repr !! closed.Repr()
      requires frontier.order == Order(true)
      ensures Valid() && Repr == {this} + frontier.Repr + closed.Repr() && this.problem == problem
      ensures this.frontier == frontier && this.closed == closed
      ensures state == Snapshot(frontier.contents, closed.contents.Keys)
    {
      this.frontier, this.closed, this.problem := frontier, closed, problem;
      state, Repr := Snapshot(frontier.contents, closed.contents.Keys), {this} + frontier.Repr + closed.Repr();
    }

    /** Brings the ghost fields up to date. */
    ghost method Update()
      modifies this
      ensures state == Snapshot(frontier.contents, closed.contents.Keys)
      ensures Repr == {this} + frontier.Repr + closed.Repr()
    {
      state, Repr := Snapshot(frontier.contents, closed.contents.Keys), {this} + frontier.Repr + closed.Repr();
    }

    /** The frontier orders by the reversed comparison; `size` is the size of an element in bytes. */
    static method NewFrontier(initial: Elem, size: nat, lasts: bool, granted: bool)
      returns (frontier: SortedArray.SortedArray?)
      requires size > 0
      ensures lasts ==> frontier != null
      ensures frontier != null ==> fresh(frontier.Repr) && frontier.Valid() && frontier.order == Order(true)
      ensures frontier != null ==> frontier.elementSize == size
      ensures frontier != null ==> frontier.contents == if granted then [initial] else []
    {
      var ok := AllocateWhile(lasts);
      if !ok {
        return null;
      }
      var list := new SortedArray.SortedArray(Order(true), size);
      var _, _ := list.Insert(initial, granted);
      return list;
    }

    /** bestfs_create; `granted` is the answer to the insert of the initial state, and `lasts` is
        about the other allocations. */
    static method Create(problem: Problem, initial: Elem, hash: int -> nat, size: nat, lasts: bool, granted: bool)
      returns (s: BestFirstState?)
      requires size > 0
      ensures lasts ==> s != null
      ensures s != null ==> s.Valid() && s.problem == problem && s.state == Created(initial, !granted)
      ensures s != null ==> s.frontier.elementSize == size
      ensures s != null ==> fresh(s) && fresh(s.frontier.Repr) && fresh(s.closed.Repr())
      ensures s != null ==> s.Repr == {s} + s.frontier.Repr + s.closed.Repr()
    {
      var gotObject := AllocateWhile(lasts);
      var gotInterface := AllocateWhile(lasts);
      if !gotObject || !gotInterface {
        return null;
      }
      var frontier := NewFrontier(initial, size, lasts, granted);
      if frontier == null {
        return null;
      }
      var closed := HashSet.HashSet.CreateDefault(hash, lasts);
      if closed == null {
        return null;
      }
      s := new BestFirstState(frontier, closed, problem);
    }

    method PushAll(children: seq<Elem>, lasts: bool) returns (failed: bool)
      requires Valid() && |children| != 1
      modifies Repr
      ensures Valid() && fresh(Repr - old(Repr)) && state.closed == old(state.closed)
      ensures !failed ==> Pushed(Ordered, old(state.frontier), children, state.closed, state.frontier)
      ensures failed ==> state.frontier == old(state.frontier)
      ensures lasts && HeapSort.Addressable(|children|, frontier.elementSize) ==> !failed
    {
      failed := MergeChildren(frontier, children, lasts);
      Update();
    }

    /** Adds the key of `current` to the closed set. */
    method Close(current: Elem, lasts: bool) returns (failed: bool)
      requires Valid()
      modifies Repr
      ensures Valid() && fresh(Repr - old(Repr)) && state.frontier == old(state.frontier)
      ensures lasts ==> !failed
      ensures state.closed == if failed then old(state.closed) else old(state.closed) + {current.key}
    {
      var granted := AllocateWhile(lasts);
      failed := closed.Add(current, lasts, granted);
      Update();
    }

    /** Merges in the children of `current` and closes it. */
    method Expand(current: Elem, lasts: bool) returns (o: Outcome)
      requires Valid() && |problem.expand(current)| != 1
      modifies Repr
      ensures Valid() && fresh(Repr - old(Repr))
      ensures o == Continue ||
              (o == Failed && !(lasts && HeapSort.Addressable(|problem.expand(current)|, frontier.elementSize)))
      ensures o == Failed ==> state.closed == old(state.closed)
      ensures PartlyPushed(Ordered, old(state.frontier), problem.expand(current), old(state.closed), state.frontier)
      ensures o == Continue ==> state.closed == old(state.closed) + {current.key}
      ensures o == Continue ==>
                Pushed(Ordered, old(state.frontier), problem.expand(current), old(state.closed), state.frontier)
    {
      var pushFailed := PushAll(problem.expand(current), lasts);
      if pushFailed {
        return Failed;
      }
      var addFailed := Close(current, lasts);
      return if addFailed then Failed else Continue;
    }

    /** Pops the next state. */
    method Take(lasts: bool) returns (failed: bool, current: Elem)
      requires Valid()
      modifies Repr
      ensures Valid() && fresh(Repr - old(Repr)) && state.closed == old(state.closed)
      ensures failed <==> old(state.frontier) == []
      ensures !failed ==> current == Popped(Ordered, old(state.frontier))
      ensures !failed ==> state.frontier == Rest(Ordered, old(state.frontier))
    {
      var granted := AllocateWhile(lasts);
      failed, current := frontier.Pop(granted);
      Update();
    }

    /** bestfs_step. Failed is 2, which comes only when memory does not last. */
    method Step(lasts: bool) returns (o: Outcome)
      requires Valid() && Mergeable(problem, state)
      modifies Repr
      ensures Valid() && fresh(Repr - old(Repr))
      ensures o != Failed ==> StepTo(Ordered, problem, old(state), o, state)
      ensures lasts && BatchFits(problem, old(state), frontier.elementSize) ==> o != Failed
      ensures o == Failed ==> GaveUp(Ordered, problem, old(state), state)
      ensures o == Exhausted <==> old(state.frontier) == []
      ensures o.Goal? ==> o.state == Popped(Ordered, old(state.frontier)) && o.state.key !in old(state.closed)
    {
      if frontier.length == 0 {
        return Exhausted;
      }
      var room := AllocateWhile(lasts);
      if !room {
        return Failed;
      }
      var popFailed, current := Take(lasts);
      if popFailed {
        return Failed;
      }
      var seen := closed.Contains(current);
      if seen {
        return Continue;
      }
      if problem.heuristic(current) == 0 {
        return Goal(current);
      }
      o := Expand(current, lasts);
    }

    /** A step inside the client loop. */
    method Turn(lasts: bool, ghost initial: Elem, ghost universe: set<int>, ghost run: seq<Snapshot>)
      returns (o: Outcome)
      requires Valid() && NoSingleChild(problem, initial)
      requires Underway(Ordered, problem, initial, universe, run, state)
      modifies Repr
      ensures Valid() && fresh(Repr - old(Repr))
      ensures Verdict(Ordered, problem, initial, o)
      ensures lasts && BatchesFit(problem, initial, frontier.elementSize) ==> o != Failed
      ensures o == Continue ==> Underway(Ordered, problem, initial, universe, run + [state], state)
      ensures o == Continue ==> Closer(universe, old(state), state)
    {
      ghost var before := state;
      RunIsMergeable(problem, initial, run);
      if BatchesFit(problem, initial, frontier.elementSize) {
        RunBatchFits(problem, initial, run, frontier.elementSize);
      }
      o := Step(lasts);
      LoopTurns(Ordered, problem, initial, universe, run, before, o, state);
    }

    /** Steps until something other than 0 comes back. */
    method Loop(lasts: bool, ghost initial: Elem, ghost universe: set<int>) returns (o: Outcome)
      requires Valid() && NoSingleChild(problem, initial)
      requires Underway(Ordered, problem, initial, universe, [state], state)
      modifies Repr
      ensures o != Continue && Verdict(Ordered, problem, initial, o)
      ensures lasts && BatchesFit(problem, initial, frontier.elementSize) ==> o != Failed
    {
      ghost var run := [state];
      o := Continue;
      while o == Continue
        invariant Valid() && fresh(Repr - old(Repr))
        invariant lasts && BatchesFit(problem, initial, frontier.elementSize) ==> o != Failed
        invariant if o == Continue then Underway(Ordered, problem, initial, universe, run, state)
                  else Verdict(Ordered, problem, initial, o)
        decreases o == Continue, |universe - state.closed|, |state.frontier|
      {
        o := Turn(lasts, initial, universe, run);
        run := run + [state];
      }
    }

    /** The client loop from a newly created search, on any finite problem. If the initial state was
        lost, its first step is its last. */
    method Search(lasts: bool, ghost initial: Elem, ghost lost: bool, ghost universe: set<int>) returns (o: Outcome)
      requires Valid() && state == Created(initial, lost) && NoSingleChild(problem, initial)
      requires KeyDetermined(problem) && Universe(problem, initial, universe)
      modifies Repr
      ensures o != Continue
      ensures if lost then o == Exhausted else Verdict(Ordered, problem, initial, o)
      ensures lasts && !lost && BatchesFit(problem, initial, frontier.elementSize) ==>
                if NoReachableGoal(problem, initial) then o == Exhausted else o.Goal?
    {
      if frontier.length == 0 {
        o := Step(lasts);
      } else {
        LoopStarts(Ordered, problem, initial, universe);
        o := Loop(lasts, initial, universe);
      }
    }
  }
}
