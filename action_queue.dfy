/** The handoff buffer between the stream listener (producer) and the retweet
    worker (consumer): Python's `queue.LifoQueue()` with no size bound, so a
    put never blocks and a get hands out the most recently put item. */
module ActionQueue {

  datatype Option<T> = None | Some(value: T)

  class LifoQueue<T> {
    /** Items waiting for the worker, oldest first; the top of the stack is last. */
    var items: seq<T>

    constructor ()
      ensures items == []
    {
      items := [];
    }

    /** `put(x)`: unbounded, so it always succeeds and pushes `x` on top. */
    method Put(x: T)
      modifies this
      ensures items == old(items) + [x]
    {
      items := items + [x];
    }

    /** `get(block=True)`: pops the top item. On an empty queue the worker's
        call waits for a producer; here that is the `None` answer and nothing
        changes. */
    method Get() returns (r: Option<T>)
      modifies this
      ensures old(items) == [] ==> r == None && items == []
      ensures old(items) != [] ==>
        r == Some(old(items)[|old(items)| - 1]) && items == old(items)[..|old(items)| - 1]
    {
      if items == [] {
        r := None;
      } else {
        r := Some(items[|items| - 1]);
        items := items[..|items| - 1];
      }
    }
  }

  /** Last in, first out: what is put is what the next get returns, and the
      queue is back where it was. */
  method PutThenGet<T>(q: LifoQueue<T>, x: T) returns (r: Option<T>)
    modifies q
    ensures r == Some(x)
    ensures q.items == old(q.items)
  {
    q.Put(x);
    r := q.Get();
    assert old(q.items) + [x] == q.items + [x];
  }

  /** Two puts come back in reverse order. */
  method GetReversesPuts<T>(q: LifoQueue<T>, x: T, y: T) returns (first: Option<T>, second: Option<T>)
    modifies q
    ensures first == Some(y) && second == Some(x)
    ensures q.items == old(q.items)
  {
    q.Put(x);
    q.Put(y);
    first := q.Get();
    second := q.Get();
  }
}
