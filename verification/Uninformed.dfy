/** Breadth-first and depth-first search. src/ai/search/uninformed/BFS.c and DFS.c are the same
    code but for the end of the list that children go to. */
module Uninformed {
  import opened DataType
  import opened SearchTheory
  import Dequeue
  import HashSet

  /** The list with the initial state in it. */
  method NewFrontier(initial: Elem, lasts: bool) returns (frontier: Dequeue.Dequeue?)
    ensures lasts ==> frontier != null
    ensures frontier != null ==> fresh(frontier.Repr) && frontier.Valid() && frontier.contents == [initial]
  {
    var ok := AllocateWhile(lasts);
    if !ok {
      return null;
    }
    var list := new Dequeue.Dequeue();
    var granted := AllocateWhile(lasts);
    var failed := list.PushFront(initial, granted);
    if failed {
      return null;
    }
    return list;
  }

  /** What the frontier is after pushing `kids` in turn. */
  ghost function AfterPushes(policy: Policy, before: seq<Elem>, kids: seq<Elem>): seq<Elem> {
    if policy == Queue then before + kids else Reversed(kids) + before
  }

  lemma PushOneMore(policy: Policy, before: seq<Elem>, kids: seq<Elem>, x: Elem)
    ensures AfterPushes(policy, before, kids + [x])
         == if policy == Queue then AfterPushes(policy, before, kids) + [x] else [x] + AfterPushes(policy, before, kids)
  {
    assert Reversed(kids + [x]) == [x] + Reversed(kids);
  }

  lemma PushNone(policy: Policy, before: seq<Elem>)
    ensures AfterPushes(policy, before, []) == before
  {
    assert Reversed<Elem>([]) == [];
  }

  /** The first `done` children, pushed as the policy asks. */
  lemma PushesAreAllowed(policy: Policy, before: seq<Elem>, children: seq<Elem>, done: nat, keys: set<int>)
    requires policy != Ordered && done <= |children|
    ensures var after := AfterPushes(policy, before, Fresh(children[..done], keys));
      PartlyPushed(policy, before, children, keys, after)
      && (done == |children| ==> Pushed(policy, before, children, keys, after))
  {
    assert Pushed(policy, before, children[..done], keys, AfterPushes(policy, before, Fresh(children[..done], keys)));
    assert children[..|children|] == children;
  }

  /** To the back for breadth-first, to the front for depth-first. */
  method Push(policy: Policy, frontier: Dequeue.Dequeue, child: Elem, granted: bool,
              ghost before: seq<Elem>, ghost kids: seq<Elem>)
    returns (failed: bool)
    requires frontier.Valid() && frontier.contents == AfterPushes(policy, before, kids)
    modifies frontier.Repr
    ensures frontier.Valid() && fresh(frontier.Repr - old(frontier.Repr))
    ensures failed <==> !granted
    ensures !failed ==> frontier.contents == AfterPushes(policy, before, kids + [child])
    ensures failed ==> frontier.contents == old(frontier.contents)
  {
    if policy == Queue {
      failed := frontier.PushBack(child, granted);
    } else {
      failed := frontier.PushFront(child, granted);
    }
    PushOneMore(policy, before, kids, child);
  }

  lemma FreshOneMore(es: seq<Elem>, i: nat, closed: set<int>)
    requires i < |es|
    ensures Fresh(es[..i + 1], closed) == Fresh(es[..i], closed) + if es[i].key in closed then [] else [es[i]]
  {
    assert es[..i + 1][..i] == es[..i];
  }

  /** Child `i`, unless it is closed. `kids` are the children pushed so far. */
  method PushChild(policy: Policy, frontier: Dequeue.Dequeue, closed: HashSet.HashSet, children: seq<Elem>, i: nat,
                   lasts: bool, ghost before: seq<Elem>, ghost kids: seq<Elem>, ghost keys: set<int>)
    returns (failed: bool, ghost kids': seq<Elem>)
    requires frontier.Valid() && closed.Valid() && closed.contents.Keys == keys && i < |children|
    requires kids == Fresh(children[..i], keys) && frontier.contents == AfterPushes(policy, before, kids)
    modifies frontier.Repr
    ensures frontier.Valid() && fresh(frontier.Repr - old(frontier.Repr))
    ensures lasts ==> !failed
    ensures kids' == if failed then kids else Fresh(children[..i + 1], keys)
    ensures frontier.contents == AfterPushes(policy, before, kids')
  {
    FreshOneMore(children, i, keys);
    failed, kids' := false, kids;
    var seen := closed.Contains(children[i]);
    if !seen {
      var granted := AllocateWhile(lasts);
      failed := Push(policy, frontier, children[i], granted, before, kids);
      kids' := if failed then kids else kids + [children[i]];
    }
  }

  /** Pushes the children that are not closed, until one does not fit. */
  method PushChildren(policy: Policy, frontier: Dequeue.Dequeue, closed: HashSet.HashSet, children: seq<Elem>,
                      lasts: bool)
    returns (failed: bool, ghost done: nat)
    requires frontier.Valid() && closed.Valid() && frontier.Repr !! closed.Repr()
    modifies frontier.Repr
    ensures frontier.Valid() && fresh(frontier.Repr - old(frontier.Repr))
    ensures lasts ==> !failed
    ensures done <= |children| && (!failed ==> done == |children|)
    ensures frontier.contents
         == AfterPushes(policy, old(frontier.contents), Fresh(children[..done], closed.contents.Keys))
  {
    ghost var before, keys, kids := frontier.contents, closed.contents.Keys, [];
    PushNone(policy, before);
    for i := 0 to |children|
      invariant frontier.Valid() && fresh(frontier.Repr - old(frontier.Repr))
      invariant kids == Fresh(children[..i], keys) && frontier.contents == AfterPushes(policy, before, kids)
    {
      var full;
      full, kids := PushChild(policy, frontier, closed, children, i, lasts, before, kids, keys);
      if full {
        return true, i;
      }
    }
    return false, |children|;
  }

  /** BFSState and DFSState. */
  class UninformedState {
    const policy: Policy
    const frontier: Dequeue.Dequeue
    const closed: HashSet.HashSet
    const problem: Problem
    ghost var state: Snapshot
    ghost var Repr: set<object>

    ghost predicate Valid()
      reads this, Repr
    {
      && this in Repr && frontier in Repr && closed in Repr && closed.table in Repr
      && frontier.Repr <= Repr && this !in frontier.Repr
      && frontier.Repr !! closed.Repr()
      && frontier.Valid() && closed.Valid()
      && state == Snapshot(frontier.contents, closed.contents.Keys)
      && policy != Ordered
    }

    constructor (policy: Policy, frontier: Dequeue.Dequeue, closed: HashSet.HashSet, problem: Problem)
      requires frontier.Valid() && closed.Valid() && frontier.Repr !! closed.Repr() && policy != Ordered
      ensures Valid() && Repr == {this} + frontier.Repr + closed.Repr()
      ensures this.problem == problem && this.policy == policy
      ensures this.frontier == frontier && this.closed == closed
      ensures state == Snapshot(frontier.contents, closed.contents.Keys)
    {
      this.policy, this.frontier, this.closed, this.problem := policy, frontier, closed, problem;
      state, Repr := Snapshot(frontier.contents, closed.contents.Keys), {this} + frontier.Repr + closed.Repr();
    }

    /** Brings the ghost fields up to date. */
    ghost method Update()
      modifies this
      ensures state == Snapshot(frontier.contents, closed.contents.Keys)
      ensures Repr == {this} + frontier.Repr + closed.Repr()
    {
      state, Repr := Snapshot(frontier.contents, closed.contents.Keys), {this} + frontier.Repr + closed.Repr();
    }

    /** bfs_create (Queue) and dfs_create (Stack). */
    static method Create(policy: Policy, problem: Problem, initial: Elem, hash: int -> nat, lasts: bool)
      returns (s: UninformedState?)
      requires policy != Ordered
      ensures lasts ==> s != null
      ensures s != null ==> s.Valid() && s.state == Start(initial)
      ensures s != null ==> fresh(s) && fresh(s.frontier.Repr) && fresh(s.closed.Repr())
      ensures s != null ==> s.Repr == {s} + s.frontier.Repr + s.closed.Repr()
      ensures s != null ==> s.problem == problem && s.policy == policy
    {
      var ok := AllocateWhile(lasts);
      if !ok {
        return null;
      }
      var frontier := NewFrontier(initial, lasts);
      if frontier == null {
        return null;
      }
      var closed := HashSet.HashSet.CreateDefault(hash, lasts);
      if closed == null {
        return null;
      }
      s := new UninformedState(policy, frontier, closed, problem);
    }

    method PushAll(children: seq<Elem>, lasts: bool) returns (failed: bool)
      requires Valid()
      modifies Repr
      ensures Valid() && fresh(Repr - old(Repr)) && state.closed == old(state.closed)
      ensures lasts ==> !failed
      ensures !failed ==> Pushed(policy, old(state.frontier), children, state.closed, state.frontier)
      ensures PartlyPushed(policy, old(state.frontier), children, state.closed, state.frontier)
    {
      ghost var before, done := state, 0;
      failed, done := PushChildren(policy, frontier, closed, children, lasts);
      PushesAreAllowed(policy, before.frontier, children, done, before.closed);
      Update();
    }

    /** Adds the key of `current` to the closed set. */
    method Close(current: Elem, lasts: bool) returns (failed: bool)
      requires Valid()
      modifies Repr
      ensures Valid() && fresh(Repr - old(Repr)) && state.frontier == old(state.frontier)
      ensures lasts ==> !failed
      ensures state.closed == if failed then old(state.closed) else old(state.closed) + {current.key}
    {
      var granted := AllocateWhile(lasts);
      failed := closed.Add(current, lasts, granted);
      Update();
    }

    /** Pushes the children of `current` and closes it. */
    method Expand(current: Elem, lasts: bool) returns (o: Outcome)
      requires Valid()
      modifies Repr
      ensures Valid() && fresh(Repr - old(Repr))
      ensures o == Continue || (o == Failed && !lasts)
      ensures o == Failed ==> state.closed == old(state.closed)
      ensures PartlyPushed(policy, old(state.frontier), problem.expand(current), old(state.closed), state.frontier)
      ensures o == Continue ==> state.closed == old(state.closed) + {current.key}
      ensures o == Continue ==>
                Pushed(policy, old(state.frontier), problem.expand(current), old(state.closed), state.frontier)
    {
      var pushFailed := PushAll(problem.expand(current), lasts);
      if pushFailed {
        return Failed;
      }
      var addFailed := Close(current, lasts);
      return if addFailed then Failed else Continue;
    }

    /** Pops the next state. */
    method Take() returns (failed: bool, current: Elem)
      requires Valid()
      modifies Repr
      ensures Valid() && fresh(Repr - old(Repr)) && state.closed == old(state.closed)
      ensures failed <==> old(state.frontier) == []
      ensures !failed ==> current == Popped(policy, old(state.frontier))
      ensures !failed ==> state.frontier == Rest(policy, old(state.frontier))
    {
      failed, current := frontier.PopFront();
      Update();
    }

    /** bfs_step and dfs_step. Failed is 2, which comes only when memory does not last. */
    method Step(lasts: bool) returns (o: Outcome)
      requires Valid()
      modifies Repr
      ensures Valid() && fresh(Repr - old(Repr))
      ensures o != Failed ==> StepTo(policy, problem, old(state), o, state)
      ensures lasts ==> o != Failed
      ensures o == Failed ==> GaveUp(policy, problem, old(state), state)
      ensures o == Exhausted <==> old(state.frontier) == []
      ensures o.Goal? ==> o.state == Popped(policy, old(state.frontier)) && o.state.key !in old(state.closed)
    {
      if frontier.length == 0 {
        return Exhausted;
      }
      var room := AllocateWhile(lasts);
      if !room {
        return Failed;
      }
      var popFailed, current := Take();
      if popFailed {
        return Failed;
      }
      var seen := closed.Contains(current);
      if seen {
        return Continue;
      }
      if problem.heuristic(current) == 0 {
        return Goal(current);
      }
      o := Expand(current, lasts);
    }

    /** A step inside the client loop. */
    method Turn(lasts: bool, ghost initial: Elem, ghost universe: set<int>, ghost run: seq<Snapshot>)
      returns (o: Outcome)
      requires Valid() && Underway(policy, problem, initial, universe, run, state)
      modifies Repr
      ensures Valid() && fresh(Repr - old(Repr))
      ensures Verdict(policy, problem, initial, o) && (lasts ==> o != Failed)
      ensures o == Continue ==> Underway(policy, problem, initial, universe, run + [state], state)
      ensures o == Continue ==> Closer(universe, old(state), state)
    {
      ghost var before := state;
      o := Step(lasts);
      LoopTurns(policy, problem, initial, universe, run, before, o, state);
    }

    /** Steps until something other than 0 comes back. */
    method Loop(lasts: bool, ghost initial: Elem, ghost universe: set<int>) returns (o: Outcome)
      requires Valid() && Underway(policy, problem, initial, universe, [state], state)
      modifies Repr
      ensures o != Continue && Verdict(policy, problem, initial, o) && (lasts ==> o != Failed)
    {
      ghost var run := [state];
      o := Continue;
      while o == Continue
        invariant Valid() && fresh(Repr - old(Repr))
        invariant lasts ==> o != Failed
        invariant if o == Continue then Underway(policy, problem, initial, universe, run, state)
                  else Verdict(policy, problem, initial, o)
        decreases o == Continue, |universe - state.closed|, |state.frontier|
      {
        o := Turn(lasts, initial, universe, run);
        run := run + [state];
      }
    }

    /** The client loop from a newly created search, on any finite problem. While memory lasts it
        decides whether a goal can be reached. */
    method Search(lasts: bool, ghost initial: Elem, ghost universe: set<int>) returns (o: Outcome)
      requires Valid() && state == Start(initial)
      requires KeyDetermined(problem) && Universe(problem, initial, universe)
      modifies Repr
      ensures o != Continue && Verdict(policy, problem, initial, o)
      ensures lasts ==> if NoReachableGoal(problem, initial) then o == Exhausted else o.Goal?
    {
      LoopStarts(policy, problem, initial, universe);
      o := Loop(lasts, initial, universe);
    }
  }
}
