/**
 * TaskQueue: a vector of tasks that hands out the most recently added task first.
 */
module Tasks {
  import opened Wrappers

  /** A std::function task: empty, or a callable identified by a number. */
  type Task = Option<nat>

  /** The queue's vector, oldest task first. */
  type Queue = seq<Task>

  /** TaskQueue::add: emplace_back. */
  function Add(q: Queue, t: Task): (r: Queue)
    ensures |r| == |q| + 1 && r[|q|] == t
    ensures forall i :: 0 <= i < |q| ==> r[i] == q[i]
  {
    q + [t]
  }

  /** operator<<(queue, task): the same as add. */
  function Shl(q: Queue, t: Task): (r: Queue)
    ensures |r| == |q| + 1 && Take(r) == (q, t)
  {
    Add(q, t)
  }

  /** TaskQueue::take: an empty task from an empty queue, otherwise the back task, removed. */
  function Take(q: Queue): (r: (Queue, Task))
    ensures q == [] ==> r == ([], None)
    ensures q != [] ==> r.0 + [r.1] == q
  {
    if q == [] then ([], None) else (q[..|q| - 1], q[|q| - 1])
  }

  /** add followed by take returns the task just added and restores the queue. */
  lemma TakeAfterAdd(q: Queue, t: Task)
    ensures Take(Add(q, t)) == (q, t)
  {
  }

  /** Take n tasks, one after another: the tasks in the order take hands them out. */
  function TakeAll(q: Queue): seq<Task>
    decreases |q|
  {
    if q == [] then [] else [Take(q).1] + TakeAll(Take(q).0)
  }

  function Reverse(q: seq<Task>): seq<Task>
  {
    if q == [] then [] else Reverse(q[1..]) + [q[0]]
  }

  /** Draining the queue hands the tasks out last-in first-out: in reverse order of adding. */
  lemma {:induction false} TakeAllIsReverse(q: Queue)
    ensures TakeAll(q) == Reverse(q)
    decreases |q|
  {
    if q != [] {
      var front := q[..|q| - 1];
      TakeAllIsReverse(front);
      ReverseSnoc(front, q[|q| - 1]);
      assert front + [q[|q| - 1]] == q;
    }
  }

  lemma {:induction false} ReverseSnoc(q: seq<Task>, t: Task)
    ensures Reverse(q + [t]) == [t] + Reverse(q)
  {
    if q == [] {
      assert q + [t] == [t];
    } else {
      assert (q + [t])[0] == q[0];
      assert (q + [t])[1..] == q[1..] + [t];
      ReverseSnoc(q[1..], t);
    }
  }

  /** Tasks a, b, c added in that order are taken as c, b, a. */
  lemma ThreeTasksLifo(a: Task, b: Task, c: Task)
    ensures TakeAll(Add(Add(Add([], a), b), c)) == [c, b, a]
  {
    TakeAllIsReverse([a, b, c]);
    assert Add(Add(Add([], a), b), c) == [a, b, c];
    assert [a, b, c][1..] == [b, c];
    assert [b, c][1..] == [c];
    assert Reverse([c]) == [c];
    assert Reverse([b, c]) == [c, b];
  }
}
