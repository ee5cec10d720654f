/**
 * The part of `asyncio.Queue` the transfer scripts rely on, as a single-threaded object:
 * the FIFO of waiting items and the count of unfinished tasks that `join()` waits for.
 */
module Queues {
  class TaskQueue<T> {
    /** Items put and not yet taken, oldest first. */
    var pending: seq<T>
    /** Incremented by every put, decremented by every `task_done()`. */
    var unfinished: nat

    /** Every waiting item is still unfinished. */
    ghost predicate Valid()
      reads this
    {
      |pending| <= unfinished
    }

    constructor ()
      ensures pending == [] && unfinished == 0
      ensures Valid()
    {
      pending := [];
      unfinished := 0;
    }

    /** `queue.empty()`. */
    predicate Empty()
      reads this
    {
      |pending| == 0
    }

    /** `join()` returns once every put item has been marked done. */
    predicate Joined()
      reads this
    {
      unfinished == 0
    }

    /** `queue.put_nowait(x)` on an unbounded queue. */
    method PutNowait(x: T)
      modifies this
      ensures pending == old(pending) + [x]
      ensures unfinished == old(unfinished) + 1
      ensures old(Valid()) ==> Valid()
    {
      pending := pending + [x];
      unfinished := unfinished + 1;
    }

    /** `await queue.get()` on a non-empty queue: takes the oldest item without suspending. */
    method Get() returns (x: T)
      requires !Empty()
      modifies this
      ensures old(pending) == [x] + pending
      ensures unfinished == old(unfinished)
    {
      x := pending[0];
      pending := pending[1..];
    }

    /** `queue.task_done()`; it raises `ValueError` when nothing is unfinished. */
    method TaskDone()
      requires unfinished > 0
      modifies this
      ensures unfinished == old(unfinished) - 1
      ensures pending == old(pending)
    {
      unfinished := unfinished - 1;
    }
  }
}
