/**
 * misc/unbounded.ts: the closable single-slot mailbox. A consumer `load`s the
 * oldest pushed item into the head promise and then takes it with `next`;
 * `close` pushes a `null` sentinel after the last item.
 */
module MiscUnboundedQueue {
  import opened Results

  /** A `Deferred` promise: still pending, or resolved with a value. */
  datatype Deferred<T> = Pending | Resolved(value: T)

  /**
   * What `next` gives: the head's value (`None` is `null`), the wait on a
   * head that is still pending (the consumer suspends), or an error.
   */
  datatype Next<T> = Item(item: Option<T>) | Waiting | Failed(error: Error)

  class Unbounded<T> {
    var head: Option<Deferred<Option<T>>>
    var backlog: seq<Option<T>>
    var loaded: bool
    var closed: bool

    /** `loaded` says exactly that the head exists and is resolved, and a
        pending head is only ever waiting on an empty backlog. */
    ghost predicate Valid()
      reads this
    {
      && (loaded <==> head.Some? && head.value.Resolved?)
      && (head == Some(Pending) ==> backlog == [])
    }

    /** The items pushed and not yet taken, oldest first: a resolved head's
        value, then the backlog. */
    ghost function Contents(): seq<Option<T>>
      reads this
    {
      (if head.Some? && head.value.Resolved? then [head.value.value] else []) + backlog
    }

    /** A fresh queue: a pending head, nothing queued, open. */
    constructor ()
      ensures Valid() && Contents() == []
      ensures head == Some(Pending) && !loaded && !closed
    {
      head := Some(Pending);
      backlog := [];
      loaded := false;
      closed := false;
    }

    /** `innerPush`: fails once closed; otherwise resolves a waiting head, or
        queues the item behind the others. */
    method InnerPush(next: Option<T>) returns (r: Result<()>)
      requires Valid()
      modifies this
      ensures Valid() && closed == old(closed)
      ensures old(closed) ==> r == Err(QueueClosed) && Contents() == old(Contents())
      ensures !old(closed) ==> r == Ok(()) && Contents() == old(Contents()) + [next]
      ensures old(head) == Some(Pending) && !old(closed) ==> head == Some(Resolved(next)) && loaded
    {
      if closed {
        return Err(QueueClosed);
      }
      if head.Some? && !loaded {
        loaded := true;
        head := Some(Resolved(next));
      } else {
        backlog := backlog + [next];
      }
      r := Ok(());
    }

    /** `close`: pushes the `null` sentinel the first time only. */
    method Close()
      requires Valid()
      modifies this
      ensures Valid() && closed
      ensures Contents() == old(Contents()) + (if old(closed) then [] else [None])
    {
      if closed {
        return;
      }
      var pushed := InnerPush(None);
      closed := true;
    }

    method Push(next: T) returns (r: Result<()>)
      requires Valid()
      modifies this
      ensures Valid() && closed == old(closed)
      ensures old(closed) ==> r == Err(QueueClosed) && Contents() == old(Contents())
      ensures !old(closed) ==> r == Ok(()) && Contents() == old(Contents()) + [Some(next)]
    {
      r := InnerPush(Some(next));
    }

    /**
     * `load`: 0 and nothing changes when the head is already loaded;
     * otherwise a missing head is created, and the oldest backlog item, if
     * any, resolves it (result 1). The queued items stay the same.
     */
    method Load() returns (n: nat)
      requires Valid()
      modifies this
      ensures Valid() && closed == old(closed) && Contents() == old(Contents())
      ensures old(loaded) ==> n == 0 && head == old(head) && backlog == old(backlog)
      ensures n == 1 <==> !old(loaded) && old(backlog) != []
      ensures n == 1 ==> head == Some(Resolved(old(backlog)[0])) && backlog == old(backlog)[1..]
      ensures n <= 1 && head.Some?
      ensures loaded <==> Contents() != []
    {
      if loaded {
        return 0;
      }
      if head.None? {
        head := Some(Pending);
      }
      if |backlog| < 1 {
        return 0;
      }
      loaded := true;
      var next := backlog[0];
      backlog := backlog[1..];
      head := Some(Resolved(next));
      return 1;
    }

    /**
     * `next`: with no head, `null` once closed and an error before; a
     * pending head is waited on; a resolved head gives its value and is
     * cleared, so the next item needs another `load`.
     */
    method Next() returns (r: Next<T>)
      requires Valid()
      modifies this
      ensures Valid() && closed == old(closed)
      ensures old(head).None? ==> r == (if closed then Item(None) else Failed(NotLoaded))
      ensures old(head) == Some(Pending) ==> r == Waiting
      ensures !old(loaded) ==> head == old(head) && backlog == old(backlog) && !loaded
      ensures old(loaded) ==> r == Item(old(Contents())[0]) && Contents() == old(Contents())[1..]
      ensures old(loaded) ==> head.None? && !loaded
    {
      if head.None? {
        if closed {
          return Item(None);
        }
        return Failed(NotLoaded);
      }
      match head.value
      case Pending =>
        r := Waiting;
      case Resolved(v) =>
        head := None;
        loaded := false;
        r := Item(v);
    }
  }

  /**
   * One step of the consumer loop, `load()` then `next()`: the oldest queued
   * item, or a wait when nothing is queued (even after `close` has been
   * consumed, because `load` re-creates a pending head).
   */
  method Take<T>(q: Unbounded<T>) returns (r: Next<T>)
    requires q.Valid()
    modifies q
    ensures q.Valid() && q.closed == old(q.closed)
    ensures old(q.Contents()) != [] ==> r == Item(old(q.Contents())[0]) && q.Contents() == old(q.Contents())[1..]
    ensures old(q.Contents()) == [] ==> r == Waiting && q.Contents() == []
  {
    var n := q.Load();
    r := q.Next();
  }

  function Range(n: nat): (r: seq<int>)
    ensures |r| == n && forall i :: 0 <= i < n ==> r[i] == i
  {
    seq(n, i => i)
  }

  function Wrap(s: seq<int>): (r: seq<Option<int>>)
    ensures |r| == |s| && forall i :: 0 <= i < |s| ==> r[i] == Some(s[i])
  {
    seq(|s|, i requires 0 <= i < |s| => Some(s[i]))
  }

  /**
   * misc/unbounded_test.ts: `total` items pushed, the queue closed, then
   * `load` + `next` until `null`: every item comes out once, in push order,
   * and the `null` ends the loop.
   */
  method PushCloseDrain(total: nat) returns (got: seq<int>)
    ensures got == Range(total)
  {
    var q := new Unbounded<int>();
    var i := 0;
    while i < total
      invariant 0 <= i <= total
      invariant q.Valid() && !q.closed && q.Contents() == Wrap(Range(i))
    {
      var pushed := q.Push(i);
      assert Wrap(Range(i + 1)) == Wrap(Range(i)) + [Some(i)];
      i := i + 1;
    }
    q.Close();
    got := [];
    var done := false;
    while !done
      invariant q.Valid() && q.closed
      invariant |got| <= total
      invariant !done ==> got == Range(total)[..|got|]
      invariant !done ==> q.Contents() == Wrap(Range(total)[|got|..]) + [None]
      invariant done ==> got == Range(total)
      decreases |q.Contents()| + (if done then 0 else 1)
    {
      var r := Take(q);
      if r.Item? && r.item.Some? {
        got := got + [r.item.value];
        assert q.Contents() == Wrap(Range(total)[|got|..]) + [None];
      } else {
        done := true;
      }
    }
  }
}
