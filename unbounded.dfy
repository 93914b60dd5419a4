/**
 * unbounded.ts: the first single-slot mailbox, without `close`. A consumer
 * `load`s the oldest pushed item into the head promise, then takes it with
 * `next`.
 */
module UnboundedQueue {
  import opened Results

  /** A `Deferred` promise: still pending, or resolved with a value. */
  datatype Deferred<T> = Pending | Resolved(value: T)

  /** What `next` gives: the head's value, the wait on a pending head, or the
      "call load first" error. */
  datatype Next<T> = Item(item: T) | Waiting | Failed(error: Error)

  class Unbounded<T> {
    var head: Option<Deferred<T>>
    var backlog: seq<T>
    var loaded: bool

    /** `loaded` says exactly that the head exists and is resolved, and a
        pending head is only ever waiting on an empty backlog. */
    ghost predicate Valid()
      reads this
    {
      && (loaded <==> head.Some? && head.value.Resolved?)
      && (head == Some(Pending) ==> backlog == [])
    }

    /** The items pushed and not yet taken, oldest first. */
    ghost function Contents(): seq<T>
      reads this
    {
      (if head.Some? && head.value.Resolved? then [head.value.value] else []) + backlog
    }

    constructor ()
      ensures Valid() && Contents() == []
      ensures head == Some(Pending) && !loaded
    {
      head := Some(Pending);
      backlog := [];
      loaded := false;
    }

    /** `push`: resolves a waiting head, or queues the item behind the
        others. */
    method Push(next: T)
      requires Valid()
      modifies this
      ensures Valid() && Contents() == old(Contents()) + [next]
      ensures old(head) == Some(Pending) ==> head == Some(Resolved(next)) && loaded
      ensures old(head) != Some(Pending) ==> head == old(head) && backlog == old(backlog) + [next]
    {
      if head.Some? && !loaded {
        loaded := true;
        head := Some(Resolved(next));
      } else {
        backlog := backlog + [next];
      }
    }

    /**
     * `load`: 0 and nothing changes when the head is already loaded;
     * otherwise a missing head is created, and the oldest backlog item, if
     * any, resolves it (result 1). The queued items stay the same.
     */
    method Load() returns (n: nat)
      requires Valid()
      modifies this
      ensures Valid() && Contents() == old(Contents())
      ensures old(loaded) ==> n == 0 && head == old(head) && backlog == old(backlog)
      ensures n == 1 <==> !old(loaded) && old(backlog) != []
      ensures n == 1 ==> head == Some(Resolved(old(backlog)[0])) && backlog == old(backlog)[1..]
      ensures n <= 1 && head.Some?
      ensures loaded <==> Contents() != []
    {
      if loaded {
        return 0;
      }
      if head.None? {
        head := Some(Pending);
      }
      if |backlog| < 1 {
        return 0;
      }
      loaded := true;
      var next := backlog[0];
      backlog := backlog[1..];
      head := Some(Resolved(next));
      return 1;
    }

    /** `next`: "call load first" without a head; a pending head is waited
        on; a resolved head gives its value and is cleared. */
    method Next() returns (r: Next<T>)
      requires Valid()
      modifies this
      ensures Valid()
      ensures old(head).None? ==> r == Failed(NotLoaded)
      ensures old(head) == Some(Pending) ==> r == Waiting
      ensures !old(loaded) ==> head == old(head) && backlog == old(backlog) && !loaded
      ensures old(loaded) ==> r == Item(old(Contents())[0]) && Contents() == old(Contents())[1..]
      ensures old(loaded) ==> head.None? && !loaded
    {
      if head.None? {
        return Failed(NotLoaded);
      }
      match head.value
      case Pending =>
        r := Waiting;
      case Resolved(v) =>
        head := None;
        loaded := false;
        r := Item(v);
    }
  }

  /** One turn of the consumer loop, `load()` then `next()`: the oldest queued
      item, or a wait when nothing is queued. */
  method Take<T>(q: Unbounded<T>) returns (r: Next<T>)
    requires q.Valid()
    modifies q
    ensures q.Valid()
    ensures old(q.Contents()) != [] ==> r == Item(old(q.Contents())[0]) && q.Contents() == old(q.Contents())[1..]
    ensures old(q.Contents()) == [] ==> r == Waiting && q.Contents() == []
  {
    var n := q.Load();
    r := q.Next();
  }

  /** The numbers `from`, `from + 1`, ..., below `to`. */
  function Interval(from: int, to: int): (r: seq<int>)
    requires from <= to
    ensures |r| == to - from && forall i :: 0 <= i < |r| ==> r[i] == from + i
  {
    seq(to - from, i => from + i)
  }

  /**
   * unbounded_test.ts: rounds of three pushes of the next numbers, each
   * drained by a consumer doing `load` + `next`: the consumer receives
   * 1, 2, 3, ... in order, and then waits on an empty queue.
   */
  method PushInRounds(rounds: nat) returns (got: seq<int>, last: Next<int>)
    ensures got == Interval(1, 3 * rounds + 1)
    ensures last == Waiting
  {
    var q := new Unbounded<int>();
    var counter := 0;
    got := [];
    var k := 0;
    while k < rounds
      invariant 0 <= k <= rounds && counter == 3 * k
      invariant q.Valid() && q.Contents() == []
      invariant got == Interval(1, counter + 1)
    {
      PushThree(q, counter);
      var taken := TakeThree(q, counter);
      assert Interval(1, counter + 4) == Interval(1, counter + 1) + Interval(counter + 1, counter + 4);
      got := got + taken;
      counter := counter + 3;
      k := k + 1;
    }
    last := Take(q);
  }

  /** The producer's turn: pushes `counter + 1` to `counter + 3`. */
  method PushThree(q: Unbounded<int>, counter: int)
    requires q.Valid() && q.Contents() == []
    modifies q
    ensures q.Valid() && q.Contents() == Interval(counter + 1, counter + 4)
  {
    var j := 0;
    while j < 3
      invariant 0 <= j <= 3
      invariant q.Valid() && q.Contents() == Interval(counter + 1, counter + 1 + j)
    {
      q.Push(counter + 1 + j);
      assert Interval(counter + 1, counter + 2 + j) == Interval(counter + 1, counter + 1 + j) + [counter + 1 + j];
      j := j + 1;
    }
  }

  /** The consumer's three turns: the three queued numbers, in order. */
  method TakeThree(q: Unbounded<int>, counter: int) returns (taken: seq<int>)
    requires q.Valid() && q.Contents() == Interval(counter + 1, counter + 4)
    modifies q
    ensures q.Valid() && q.Contents() == []
    ensures taken == Interval(counter + 1, counter + 4)
  {
    taken := [];
    var j := 0;
    while j < 3
      invariant 0 <= j <= 3
      invariant q.Valid() && q.Contents() == Interval(counter + 1 + j, counter + 4)
      invariant taken == Interval(counter + 1, counter + 1 + j)
    {
      var r := Take(q);
      taken := taken + [r.item];
      j := j + 1;
    }
  }
}
