/** The abstract behaviour a bounded FIFO queue promises, with no indices and no
    slots: the stored items, oldest first, never more than `capacity` of them.
    This is the reference the circular buffer in `Ring` is proved against. */
module BoundedQueue {

  /** Appends `x` at the tail when fewer than `capacity` items are stored;
      otherwise refuses and leaves the queue as it was (no blocking, no overwrite). */
  function Push<T>(q: seq<T>, capacity: nat, x: T): (bool, seq<T>)
  {
    if |q| >= capacity then (false, q) else (true, q + [x])
  }

  /** Takes the oldest item. On an empty queue it refuses and hands back the
      caller's `item` untouched, as an out-parameter that is never assigned. */
  function Pop<T>(q: seq<T>, item: T): (bool, T, seq<T>)
  {
    if |q| == 0 then (false, item, q) else (true, q[0], q[1..])
  }
}
