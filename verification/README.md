# RingBuffer — a verified model of the server's bounded message buffer

The server in `main.cpp` stores every message it receives in a `RingBuffer`. This is a
fixed-capacity circular FIFO queue of strings:

- a backing vector is sized once by the constructor;
- `front_` is the read index, `rear_` the write index, and `count_` the number of stored items;
- `Push` refuses when the buffer is full: it never blocks and never overwrites;
- `Pop` refuses when the buffer is empty;
- both indices advance modulo the capacity.

This project models that class and proves its behaviour in four modules:

- `BoundedQueue` (`bounded_queue.dfy`) is the reference behaviour. It is a plain sequence of
  items, oldest first, at most `capacity` long, with `Push` and `Pop` defined on it.
- `Ring` (`ring.dfy`) is the functional model of the class. The datatype `Buffer` has the
  slots, the capacity, `front`, `rear` and `count`. The predicate `Valid` is the representation
  invariant. `Contents` is the abstraction function: it returns the `count` slots that start
  at `front`, read circularly. Both are written with `Wrap`, which subtracts the capacity at
  most once instead of dividing. `ValidModular` proves that this gives the program's
  `% capacity_` positions. `Create`, `Push` and `Pop` are the constructor and the two
  operations. In this module the only `%` is in `Advance`, which requires a non-zero capacity.
  Dafny rejects a division by zero, so the fact that `Push` and `Pop` verify shows that the
  guards at lines 27 and 35 always run before the modulo. A capacity of 0 is therefore allowed.
- `Traces` (`traces.dfy`) runs a sequence of calls on both the buffer and the reference queue.
  `RunRefines` proves that they give the same replies and end with the same contents. `Fill`,
  `Overflow`, `Fifo` and `WrapAround` are derived from `RunRefines` and facts about the
  reference queue. Two lemmas are proved directly on the buffer instead:
  - `ZeroCapacity` is its own induction over the call sequence;
  - `WrapAroundSlots` steps through `Ring.Push` and `Ring.Pop` one call at a time to reach the
    concrete slots and indices.
- `RingBufferClass` (`ring_buffer_class.dfy`) is the class as the program holds it. It keeps
  its items in an `array<T>`, with `front`, `rear` and `count` fields and a ghost `contents`
  sequence. Each method is proved to take exactly the step that `Ring` describes. Its `Push`
  and `Pop` compute `(rear + 1) % capacity` and `(front + 1) % capacity` directly, as the
  program does. Dafny checks each of those divisors against zero in the same way, and they
  too are reached only after the guards. The constructor's `fresh(buffer)` and the methods'
  `modifies`/`old` clauses describe how the object changes state. The value-level statements
  about `Ring` carry the same facts.

The global instance is built with `kBufferSize` (512) at `main.cpp:48`, not with
`kRingBufferSize` (1024). For that reason the capacity is a constructor parameter in every
layer, not a constant. Items are a type parameter `T`; the program uses `std::string`. The
constructor's `resize` fills the slots with default-constructed strings. The model passes that
value in as `blank`.

Two facts about `main.cpp` shape the model:

- A capacity of 0 is accepted. In that case both indices stay at 0, because the guards at
  `main.cpp:27` and `main.cpp:35` refuse every call before an index is moved. The bound
  `front, rear < capacity` therefore holds only when the capacity is positive.
- A refused `Pop` returns at `main.cpp:35` without assigning its out-parameter. The model
  passes the caller's item in and hands it back unchanged.

## Model

| member | source | states |
|---|---|---|
| Ring.Create | main.cpp:22-24 | A new buffer has `capacity` slots, `front = rear = count = 0`, satisfies the representation invariant and holds no items |
| Ring.Advance | main.cpp:29 | The index step stays below the capacity and wraps to 0 exactly when it passes the last slot; it can only be reached with a non-zero capacity |
| Ring.Push | main.cpp:26-32 | Succeeds iff `count < capacity`. A refused push leaves the whole state unchanged. A successful push appends the item to the contents (as the reference queue does), writes only slot `rear`, advances `rear` with wrap-around, adds one to `count`, keeps `front`, and preserves the invariant |
| Ring.Pop | main.cpp:34-40 | Succeeds iff `count != 0`. A refused pop leaves the state and the caller's item unchanged. A successful pop returns the oldest item and drops it from the contents (as the reference queue does), advances `front` with wrap-around, takes one from `count`, leaves the slots and `rear` unchanged, and preserves the invariant |
| Ring.ValidModular | main.cpp:26-40 | In a valid buffer with at least one slot, `rear == (front + count) % capacity`, and the i-th oldest item is in slot `(front + i) % capacity` |
| Ring.PushContents | main.cpp:28-30 | Writing at `rear` of a non-full buffer and advancing `rear` keeps the invariant and appends exactly that item to the logical contents |
| Ring.PopContents | main.cpp:36-38 | Advancing `front` of a non-empty buffer keeps the invariant and drops exactly the oldest item from the logical contents |
| Traces.RunBuffer | main.cpp:26-40 | Any sequence of pushes and pops keeps the representation invariant and the capacity |
| Traces.RunRefines | main.cpp:26-40 | For every valid state and every sequence of calls, the buffer gives the same replies as the abstract bounded queue and ends with the same contents |
| Traces.Fill | main.cpp:26-32 | Serialised pushes of up to `capacity` items into a new buffer all succeed, and the buffer then holds exactly those items in order, with `count` equal to their number |
| Traces.Overflow | main.cpp:27 | After `capacity` successful pushes the next push is refused, and the count and contents stay as they were |
| Traces.Fifo | main.cpp:26-40 | Items pushed into a new buffer that has room for them come out of the pops in the order they were pushed, and the buffer is then empty |
| Traces.ZeroCapacity | main.cpp:27-37 | With capacity 0, every push and every pop is refused and the state never changes |
| Traces.WrapAround | main.cpp:29-37 | With four slots: push a, b, c, d, pop twice, push e, f, then pop four times; the last four pops yield c, d, e, f in that order |
| Traces.WrapAroundSlots | main.cpp:28-37 | In that scenario, e and f are written over the first two slots and both indices end at slot 2 |
| RingBufferClass.RingBuffer.Push | main.cpp:26-32 | The array-based method takes the same step as `Ring.Push` and updates the ghost contents as the reference queue's push does |
| RingBufferClass.RingBuffer.Pop | main.cpp:34-40 | The array-based method takes the same step as `Ring.Pop`, returns the item the reference queue's pop returns, and never writes the array |

## Left out

- `MakeServer` (`main.cpp:51-79`) is not modelled: it only makes socket, setsockopt, bind and listen calls and exits on failure.
- `ConnectionHandler` (`main.cpp:81-109`) is not modelled: it is `recv`, `send`, `close` and console output. Its effect on the buffer would be: a negative read pushes nothing; otherwise the handler makes exactly one push of the first `result` bytes (`result <= 512`) and ignores the push's result.
- The mutex and `lock_guard` (`main.cpp:49`, `main.cpp:94`) and the accept loop in `main`, which starts a detached thread per connection (`main.cpp:111-123`), are not modelled. The buffer is treated as single-threaded, with access serialised by the caller.
- Item contents are opaque (a type parameter). No byte-level behaviour of the strings is involved.
- The indices and the count are `size_t` in the program and unbounded naturals here. The only increment is of a value below the capacity, which itself fits in a `size_t`, so no wrap-around is lost.
- Ring.Push: `Push` takes its argument by rvalue reference and moves from it (`main.cpp:26`, `main.cpp:28`). A successful push leaves the caller's string moved-from, and a refused one leaves it intact. `Ring.Push` and the class's `Push` take the item by value, so they cannot state this. The only caller passes a temporary (`main.cpp:96`), so no part of the program can observe the difference.
- Ring.Create: `buffer_.resize` (`main.cpp:23`) can throw `std::length_error` or `std::bad_alloc`. `Ring.Create` and the class constructor are total, because allocation failure belongs to the C++ runtime, not to the buffer's logic.
- Ring.Pop: the string copy at `main.cpp:36` can throw `std::bad_alloc` before `front_` moves, which would leave the state unchanged. `Ring.Pop` and the class's `Pop` are total, for the same reason.
