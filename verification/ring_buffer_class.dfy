/** The buffer as the program holds it: a mutable object over a fixed array,
    with a ghost sequence `contents` for the items it logically stores. Each
    method is proved to make exactly the step the functional model `Ring`
    describes. Access is assumed to be serialised by the caller. */
module RingBufferClass {
  import BoundedQueue
  import Ring

  class RingBuffer<T> {
    const buffer: array<T>
    const capacity: nat
    var front: nat
    var rear: nat
    var count: nat
    ghost var contents: seq<T>

    /** The object's fields viewed as a value of the functional model. */
    ghost function State(): Ring.Buffer<T>
      reads this, buffer
    {
      Ring.Buffer(buffer[..], capacity, front, rear, count)
    }

    /** The object invariant: the fields form a valid buffer whose logical
        contents are `contents`. */
    ghost predicate Valid()
      reads this, buffer
    {
      Ring.Valid(State()) && contents == Ring.Contents(State())
    }

    /** Builds an empty buffer with `size` slots, each holding `blank`. */
    constructor (size: nat, blank: T)
      ensures Valid()
      ensures State() == Ring.Create(size, blank)
      ensures contents == []
      ensures fresh(buffer)
    {
      var slots := new T[size](_ => blank);
      assert slots[..] == seq(size, _ => blank);
      capacity := size;
      buffer := slots;
      front, rear, count := 0, 0, 0;
      contents := [];
    }

    /** Appends `item` unless the buffer is full; refuses without blocking and
        without overwriting anything otherwise. */
    method Push(item: T) returns (ok: bool)
      requires Valid()
      modifies this, buffer
      ensures Valid()
      ensures ok == Ring.Push(old(State()), item).ok
      ensures State() == Ring.Push(old(State()), item).buffer
      ensures (ok, contents) == BoundedQueue.Push(old(contents), capacity, item)
    {
      ghost var before := State();
      ghost var step := Ring.Push(before, item);
      if count >= capacity {
        return false;
      }
      buffer[rear] := item;
      rear := (rear + 1) % capacity;
      count := count + 1;
      contents := contents + [item];
      ok := true;
      assert buffer[..] == before.slots[before.rear := item];
      assert State() == step.buffer;
    }

    /** Takes the oldest item unless the buffer is empty. `item` plays the
        caller's out-parameter: on failure it is handed back unchanged. The
        item is copied, so the array is not written. */
    method Pop(item: T) returns (ok: bool, result: T)
      requires Valid()
      modifies this
      ensures Valid()
      ensures (ok, result) == (Ring.Pop(old(State()), item).ok, Ring.Pop(old(State()), item).item)
      ensures State() == Ring.Pop(old(State()), item).buffer
      ensures (ok, result, contents) == BoundedQueue.Pop(old(contents), item)
    {
      ghost var before := State();
      ghost var step := Ring.Pop(before, item);
      if count == 0 {
        return false, item;
      }
      result := buffer[front];
      front := (front + 1) % capacity;
      count := count - 1;
      contents := contents[1..];
      ok := true;
      assert State() == step.buffer;
    }
  }
}
