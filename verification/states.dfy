/**
 * State and StateStack: a state owns a list of systems and two "last" flags; the stack
 * updates and draws its states from the top down, stopping after the first state whose
 * flag for that pass is set.
 */
module States {
  import opened Wrappers
  import opened Seqs

  type StateId = nat
  type SystemId = nat

  datatype State = State(id: StateId, systems: seq<SystemId>, lastDrawn: bool, lastUpdated: bool)

  /** The two top-down passes of the stack. */
  datatype Pass = Drawing | Updating

  /** A stack of states, bottom first; the last element is the top. */
  type Stack = seq<State>

  /** State() and State(lastDrawn, lastUpdated): no systems, flags false by default. */
  function NewState(id: StateId, lastDrawn: bool := false, lastUpdated: bool := false): (st: State)
    ensures st.systems == []
    ensures st.lastDrawn == lastDrawn && st.lastUpdated == lastUpdated
  {
    State(id, [], lastDrawn, lastUpdated)
  }

  /** State::addSystem: appends, even when the system is already there. */
  function AddSystem(st: State, s: SystemId): (r: State)
    ensures r.systems == st.systems + [s]
    ensures r.id == st.id && r.lastDrawn == st.lastDrawn && r.lastUpdated == st.lastUpdated
  {
    st.(systems := st.systems + [s])
  }

  /** State::dropSystem: removes the first occurrence; absent systems are ignored. */
  function DropSystem(st: State, s: SystemId): (r: State)
    ensures s !in st.systems ==> r == st
    ensures s in st.systems ==>
      r.systems == st.systems[..IndexOf(st.systems, s)] + st.systems[IndexOf(st.systems, s) + 1..]
    ensures multiset(r.systems) == multiset(st.systems) - multiset{s}
    ensures r.id == st.id && r.lastDrawn == st.lastDrawn && r.lastUpdated == st.lastUpdated
  {
    RemoveFirstMultiset(st.systems, s);
    st.(systems := RemoveFirst(st.systems, s))
  }

  /** A system added twice runs twice; one drop leaves one copy. */
  lemma DropRemovesOneCopy(st: State, s: SystemId)
    ensures multiset(DropSystem(AddSystem(AddSystem(st, s), s), s).systems)[s] == multiset(st.systems)[s] + 1
  {
  }

  /** Adding a system and then dropping it restores a state that did not hold it. */
  lemma AddThenDrop(st: State, s: SystemId)
    requires s !in st.systems
    ensures DropSystem(AddSystem(st, s), s) == st
  {
    RemoveFirstAppended(st.systems, s);
  }

  /** State::update / State::draw: the value returned, which asks the stack to stop. */
  function Stops(st: State, pass: Pass): (r: bool)
    ensures pass == Drawing ==> (r <==> st.lastDrawn)
    ensures pass == Updating ==> (r <==> st.lastUpdated)
  {
    match pass
    case Drawing => st.lastDrawn
    case Updating => st.lastUpdated
  }

  /** StateStack::push. */
  function Push(stack: Stack, st: State): (r: Stack)
    ensures |r| == |stack| + 1 && r[..|stack|] == stack && r[|stack|] == st
  {
    stack + [st]
  }

  /** StateStack::top: the last pushed state, or null on an empty stack. */
  function Top(stack: Stack): (r: Option<State>)
    ensures r.None? <==> stack == []
    ensures r.Some? ==> r.value == stack[|stack| - 1]
  {
    if |stack| > 0 then Some(stack[|stack| - 1]) else None
  }

  /** StateStack::pop: removes and returns the top; an empty stack is left alone. */
  function Pop(stack: Stack): (r: (Stack, Option<State>))
    ensures r.1 == Top(stack)
    ensures stack == [] ==> r.0 == []
    ensures stack != [] ==> r.0 == stack[..|stack| - 1]
  {
    if |stack| > 0 then (stack[..|stack| - 1], Some(stack[|stack| - 1])) else (stack, None)
  }

  /** StateStack::clear and StateStack::empty. */
  function Clear(stack: Stack): (r: Stack)
    ensures r == [] && Empty(r)
  {
    []
  }

  function Empty(stack: Stack): (r: bool)
    ensures r <==> Top(stack).None?
  {
    |stack| == 0
  }

  /** pop undoes push. */
  lemma PopAfterPush(stack: Stack, st: State)
    ensures Pop(Push(stack, st)) == (stack, Some(st))
  {
  }

  /** push after pop restores a non-empty stack. */
  lemma PushAfterPop(stack: Stack)
    requires stack != []
    ensures Push(Pop(stack).0, Pop(stack).1.value) == stack
  {
  }

  /** The states in the order the passes visit them: top first. */
  function TopDown(stack: Stack): (r: seq<State>)
    ensures |r| == |stack|
    ensures forall i :: 0 <= i < |r| ==> r[i] == stack[|stack| - 1 - i]
  {
    if stack == [] then [] else [stack[|stack| - 1]] + TopDown(stack[..|stack| - 1])
  }

  /**
   * How many states a pass visits: up to and including the first that stops it, or all
   * of them when none does.
   */
  function Reach(sts: seq<State>, pass: Pass): (n: nat)
    ensures n <= |sts|
  {
    if sts == [] then 0 else if Stops(sts[0], pass) then 1 else 1 + Reach(sts[1..], pass)
  }

  /** Reach is the position just after the first stopping state, or the whole run. */
  lemma {:induction false} ReachStopRule(sts: seq<State>, pass: Pass)
    ensures sts != [] ==> Reach(sts, pass) > 0
    ensures forall i :: 0 <= i < Reach(sts, pass) - 1 ==> !Stops(sts[i], pass)
    ensures Reach(sts, pass) < |sts| ==> Stops(sts[Reach(sts, pass) - 1], pass)
    ensures Reach(sts, pass) == |sts| && sts != [] && !Stops(sts[|sts| - 1], pass) ==>
              forall i :: 0 <= i < |sts| ==> !Stops(sts[i], pass)
  {
    if sts != [] && !Stops(sts[0], pass) {
      ReachStopRule(sts[1..], pass);
      forall i | 0 <= i < Reach(sts, pass) - 1
        ensures !Stops(sts[i], pass)
      {
        if i > 0 {
          assert sts[i] == sts[1..][i - 1];
        }
      }
    }
  }

  /** The systems run by a run of states, each state's systems in their stored order. */
  function SystemRuns(sts: seq<State>): (r: seq<SystemId>)
    ensures sts != [] ==> |sts[0].systems| <= |r| && r[..|sts[0].systems|] == sts[0].systems
  {
    if sts == [] then [] else sts[0].systems + SystemRuns(sts[1..])
  }

  /** Every system of every state in the run is run. */
  lemma {:induction false} SystemRunsCoversAll(sts: seq<State>, i: nat)
    requires i < |sts|
    ensures multiset(sts[i].systems) <= multiset(SystemRuns(sts))
  {
    if i > 0 {
      SystemRunsCoversAll(sts[1..], i - 1);
      assert sts[1..][i - 1] == sts[i];
    }
  }

  lemma {:induction false} SystemRunsSnoc(sts: seq<State>, st: State)
    ensures SystemRuns(sts + [st]) == SystemRuns(sts) + st.systems
  {
    if sts == [] {
      assert sts + [st] == [st];
    } else {
      assert (sts + [st])[0] == sts[0];
      assert (sts + [st])[1..] == sts[1..] + [st];
      SystemRunsSnoc(sts[1..], st);
    }
  }

  /**
   * StateStack::update and StateStack::draw: walk the states from the top down, running
   * each one's systems, and stop after the first state that returns true. Returns the
   * states visited, in order, and the systems run, in order.
   */
  method Walk(stack: Stack, pass: Pass) returns (visited: seq<State>, ran: seq<SystemId>)
    ensures visited == TopDown(stack)[..Reach(TopDown(stack), pass)]
    ensures ran == SystemRuns(visited)
  {
    var order := TopDown(stack);
    visited, ran := [], [];
    var i := 0;
    var stop := false;
    while i < |order| && !stop
      invariant 0 <= i <= |order|
      invariant visited == order[..i]
      invariant ran == SystemRuns(visited)
      invariant stop ==> Reach(order, pass) == i
      invariant !stop ==> Reach(order, pass) == i + Reach(order[i..], pass)
    {
      var st := order[i];
      assert order[i..][1..] == order[i + 1..];
      SystemRunsSnoc(visited, st);
      ran := ran + st.systems;
      visited := visited + [st];
      stop := Stops(st, pass);
      i := i + 1;
    }
  }

  /** The walk visits the top state first, and the states below a stopping state are never visited. */
  lemma WalkStopsAtFirst(stack: Stack, pass: Pass, k: nat)
    requires k < |stack| && Stops(stack[k], pass)
    ensures Reach(TopDown(stack), pass) <= |stack| - k
  {
    var order := TopDown(stack);
    ReachStopRule(order, pass);
    assert order[|stack| - 1 - k] == stack[k];
  }

  /** A stack whose top state stops the pass visits only that state. */
  lemma TopStops(stack: Stack, st: State, pass: Pass)
    requires Stops(st, pass)
    ensures TopDown(Push(stack, st))[..1] == [st]
    ensures Reach(TopDown(Push(stack, st)), pass) == 1
  {
  }

  /**
   * A pause screen over a game: when the pause state's update returns true, the game
   * underneath is not updated; when it returns false, both are, pause first.
   */
  method PauseScenario(game: State, pause: State) returns (blocked: seq<State>, passing: seq<State>)
    ensures blocked == [pause.(lastUpdated := true)]
    ensures passing == [pause.(lastUpdated := false), game]
  {
    var ignored;
    blocked, ignored := Walk([game, pause.(lastUpdated := true)], Updating);
    passing, ignored := Walk([game, pause.(lastUpdated := false)], Updating);
  }
}
