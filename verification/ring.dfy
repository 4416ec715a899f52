/** Functional model of the fixed-capacity circular FIFO `RingBuffer`:
    a backing store sized once at construction, a read index `front`, a write
    index `rear` and an item `count`. Both indices advance modulo the capacity,
    and a capacity of 0 is allowed. */
module Ring {
  import BoundedQueue

  /** The buffer's state. `slots` is the backing vector; `capacity` is the
      size it was built with. */
  datatype Buffer<T> = Buffer(slots: seq<T>, capacity: nat, front: nat, rear: nat, count: nat)

  /** Result of `Push`: whether the item was stored, and the state afterwards. */
  datatype PushOutcome<T> = PushOutcome(ok: bool, buffer: Buffer<T>)

  /** Result of `Pop`: whether an item was taken, the caller's out-parameter
      afterwards, and the state afterwards. */
  datatype PopOutcome<T> = PopOutcome(ok: bool, item: T, buffer: Buffer<T>)

  /** The slot `a` places on from slot 0 of a store of `n` slots, going round
      at most once. This is `a % n` on that range (`WrapIsMod`), written
      without division so that proofs stay in linear arithmetic. */
  function Wrap(a: nat, n: nat): nat
    requires a < 2 * n
  {
    if a < n then a else a - n
  }

  /** Representation invariant. With no slots both indices stay at 0; otherwise
      both are slot positions and `rear` is `count` places after `front`,
      wrapping around the end of the store. */
  predicate Valid<T>(b: Buffer<T>)
  {
    && |b.slots| == b.capacity
    && b.count <= b.capacity
    && if b.capacity == 0 then b.front == 0 && b.rear == 0
       else b.front < b.capacity && b.rear < b.capacity
            && b.rear == Wrap(b.front + b.count, b.capacity)
  }

  /** The logical contents, oldest first: the `count` slots starting at
      `front`, read circularly. */
  function Contents<T>(b: Buffer<T>): (q: seq<T>)
    requires Valid(b)
    ensures |q| == b.count
  {
    seq(b.count, i requires 0 <= i < b.count => b.slots[Wrap(b.front + i, b.capacity)])
  }

  /** The one place the model divides by the capacity. Its precondition is
      what makes a capacity of 0 safe: `Push` and `Pop` only reach it after
      their guards have established that there is at least one slot. */
  function Advance(i: nat, capacity: nat): (j: nat)
    requires i < capacity
    ensures j < capacity
    ensures j == if i + 1 == capacity then 0 else i + 1
  {
    (i + 1) % capacity
  }

  /** A freshly constructed buffer: `capacity` slots, each holding `blank`
      (the default value of the item type), and nothing stored. */
  function Create<T>(capacity: nat, blank: T): (b: Buffer<T>)
    ensures Valid(b)
    ensures Contents(b) == []
    ensures b.capacity == capacity && |b.slots| == capacity
    ensures b.front == 0 && b.rear == 0 && b.count == 0
  {
    Buffer(seq(capacity, _ => blank), capacity, 0, 0, 0)
  }

  /** Stores `x` at the tail unless the buffer is full. */
  function Push<T>(b: Buffer<T>, x: T): (r: PushOutcome<T>)
    requires Valid(b)
    ensures Valid(r.buffer)
    ensures r.ok <==> b.count < b.capacity
    ensures (r.ok, Contents(r.buffer)) == BoundedQueue.Push(Contents(b), b.capacity, x)
    ensures !r.ok ==> r.buffer == b
    ensures r.ok ==>
      && r.buffer.capacity == b.capacity
      && r.buffer.front == b.front
      && r.buffer.count == b.count + 1
      && r.buffer.rear == (if b.rear + 1 == b.capacity then 0 else b.rear + 1)
      && r.buffer.slots == b.slots[b.rear := x]
  {
    if b.count >= b.capacity then
      PushOutcome(false, b)
    else
      PushContents(b, x);
      PushOutcome(true, b.(slots := b.slots[b.rear := x],
                          rear := Advance(b.rear, b.capacity),
                          count := b.count + 1))
  }

  /** Takes the oldest item unless the buffer is empty. The item is copied out
      of its slot, so the slots themselves are never modified. */
  function Pop<T>(b: Buffer<T>, item: T): (r: PopOutcome<T>)
    requires Valid(b)
    ensures Valid(r.buffer)
    ensures r.ok <==> b.count != 0
    ensures (r.ok, r.item, Contents(r.buffer)) == BoundedQueue.Pop(Contents(b), item)
    ensures !r.ok ==> r.buffer == b && r.item == item
    ensures r.ok ==>
      && r.buffer.capacity == b.capacity
      && r.buffer.slots == b.slots
      && r.buffer.rear == b.rear
      && r.buffer.count == b.count - 1
      && r.buffer.front == (if b.front + 1 == b.capacity then 0 else b.front + 1)
  {
    if b.count == 0 then
      PopOutcome(false, item, b)
    else
      var b' := b.(front := Advance(b.front, b.capacity), count := b.count - 1);
      PopContents(b);
      assert Contents(b)[0] == b.slots[Wrap(b.front, b.capacity)];
      PopOutcome(true, b.slots[b.front], b')
  }

  /** `Wrap` is the remainder the program computes. */
  lemma WrapIsMod(a: nat, n: nat)
    requires a < 2 * n
    ensures Wrap(a, n) == a % n
  {
  }

  /** The representation invariant in the program's own terms: `rear` is
      `(front + count) % capacity`, and the i-th oldest item sits in slot
      `(front + i) % capacity`. */
  lemma ValidModular<T>(b: Buffer<T>)
    requires Valid(b) && b.capacity > 0
    ensures b.rear == (b.front + b.count) % b.capacity
    ensures forall i :: 0 <= i < b.count ==> Contents(b)[i] == b.slots[(b.front + i) % b.capacity]
  {
    WrapIsMod(b.front + b.count, b.capacity);
    forall i | 0 <= i < b.count
      ensures Contents(b)[i] == b.slots[(b.front + i) % b.capacity]
    {
      WrapIsMod(b.front + i, b.capacity);
    }
  }

  /** Writing `x` at `rear` of a non-full buffer appends it to the contents:
      `rear` is not one of the occupied positions. */
  lemma PushContents<T>(b: Buffer<T>, x: T)
    requires Valid(b) && b.count < b.capacity
    ensures Valid(b.(slots := b.slots[b.rear := x], rear := Advance(b.rear, b.capacity), count := b.count + 1))
    ensures Contents(b.(slots := b.slots[b.rear := x], rear := Advance(b.rear, b.capacity), count := b.count + 1))
            == Contents(b) + [x]
  {
    var b' := b.(slots := b.slots[b.rear := x], rear := Advance(b.rear, b.capacity), count := b.count + 1);
    assert Valid(b');
    forall i | 0 <= i < b.count
      ensures Contents(b')[i] == Contents(b)[i]
    {
      assert Contents(b')[i] == b'.slots[Wrap(b.front + i, b.capacity)];
    }
    assert Contents(b')[b.count] == x;
  }

  /** Moving `front` one place on drops exactly the oldest item. */
  lemma PopContents<T>(b: Buffer<T>)
    requires Valid(b) && b.count != 0
    ensures Valid(b.(front := Advance(b.front, b.capacity), count := b.count - 1))
    ensures Contents(b.(front := Advance(b.front, b.capacity), count := b.count - 1)) == Contents(b)[1..]
  {
    var b' := b.(front := Advance(b.front, b.capacity), count := b.count - 1);
    assert Valid(b');
    forall i | 0 <= i < b'.count
      ensures Contents(b')[i] == Contents(b)[i + 1]
    {
      assert Contents(b')[i] == b.slots[Wrap(b'.front + i, b.capacity)];
      assert Contents(b)[i + 1] == b.slots[Wrap(b.front + i + 1, b.capacity)];
    }
  }
}
