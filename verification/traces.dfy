/** Sequences of buffer operations, run both on the circular buffer and on the
    abstract bounded queue. The buffer is proved to answer every run exactly
    as the queue does, and the FIFO, overflow, wrap-around and zero-capacity
    behaviour is derived from that. */
module Traces {
  import BoundedQueue
  import Ring

  /** One call made by a caller that serialises its access to the buffer. */
  datatype Op<T> = PushOp(x: T) | PopOp

  /** What a call answers: `Push` its flag; `Pop` its flag and the caller's
      item variable afterwards. */
  datatype Reply<T> = Pushed(ok: bool) | Popped(ok: bool, item: T)

  /** The replies of a run and the state it ends in. */
  datatype Trace<T, S> = Trace(replies: seq<Reply<T>>, state: S)

  /** Runs `ops` on the buffer. A caller that pops keeps one item variable,
      which each `Pop` overwrites only when it succeeds. */
  function RunBuffer<T>(b: Ring.Buffer<T>, item: T, ops: seq<Op<T>>): (t: Trace<T, Ring.Buffer<T>>)
    requires Ring.Valid(b)
    ensures Ring.Valid(t.state)
    ensures t.state.capacity == b.capacity
    ensures |t.replies| == |ops|
    decreases |ops|
  {
    if ops == [] then Trace([], b)
    else match ops[0]
      case PushOp(x) =>
        var p := Ring.Push(b, x);
        var rest := RunBuffer(p.buffer, item, ops[1..]);
        Trace([Pushed(p.ok)] + rest.replies, rest.state)
      case PopOp =>
        var p := Ring.Pop(b, item);
        var rest := RunBuffer(p.buffer, p.item, ops[1..]);
        Trace([Popped(p.ok, p.item)] + rest.replies, rest.state)
  }

  /** Runs `ops` on the abstract queue of the given capacity. */
  function RunQueue<T>(q: seq<T>, capacity: nat, item: T, ops: seq<Op<T>>): Trace<T, seq<T>>
    decreases |ops|
  {
    if ops == [] then Trace([], q)
    else match ops[0]
      case PushOp(x) =>
        var (ok, q') := BoundedQueue.Push(q, capacity, x);
        var rest := RunQueue(q', capacity, item, ops[1..]);
        Trace([Pushed(ok)] + rest.replies, rest.state)
      case PopOp =>
        var (ok, item', q') := BoundedQueue.Pop(q, item);
        var rest := RunQueue(q', capacity, item', ops[1..]);
        Trace([Popped(ok, item')] + rest.replies, rest.state)
  }

  /** The buffer refines the queue: every run gives the same replies, and the
      final contents are the queue's final state. */
  lemma {:induction false} RunRefines<T>(b: Ring.Buffer<T>, item: T, ops: seq<Op<T>>)
    requires Ring.Valid(b)
    ensures RunBuffer(b, item, ops).replies == RunQueue(Ring.Contents(b), b.capacity, item, ops).replies
    ensures Ring.Contents(RunBuffer(b, item, ops).state) == RunQueue(Ring.Contents(b), b.capacity, item, ops).state
    decreases |ops|
  {
    if ops != [] {
      match ops[0]
      case PushOp(x) =>
        RunRefines(Ring.Push(b, x).buffer, item, ops[1..]);
      case PopOp =>
        RunRefines(Ring.Pop(b, item).buffer, Ring.Pop(b, item).item, ops[1..]);
    }
  }

  /** One `Push` per item, in order. */
  function Pushes<T>(xs: seq<T>): (ops: seq<Op<T>>)
    ensures |ops| == |xs|
  {
    seq(|xs|, i requires 0 <= i < |xs| => PushOp(xs[i]))
  }

  /** `n` calls of `Pop`. */
  function Pops<T>(n: nat): (ops: seq<Op<T>>)
    ensures |ops| == n
  {
    seq(n, _ => PopOp)
  }

  /** `n` successful `Push` replies. */
  function Accepted<T>(n: nat): seq<Reply<T>>
  {
    seq(n, _ => Pushed(true))
  }

  /** The successful `Pop` replies that hand out `xs` in order. */
  function Delivered<T>(xs: seq<T>): seq<Reply<T>>
  {
    seq(|xs|, i requires 0 <= i < |xs| => Popped(true, xs[i]))
  }

  /** Pushing `xs` onto a queue with room for all of them accepts every one
      and appends them in order; whatever follows runs from there. */
  lemma {:induction false} QueuePushes<T>(q: seq<T>, capacity: nat, item: T, xs: seq<T>, rest: seq<Op<T>>)
    requires |q| + |xs| <= capacity
    ensures RunQueue(q, capacity, item, Pushes(xs) + rest)
            == var t := RunQueue(q + xs, capacity, item, rest); Trace(Accepted(|xs|) + t.replies, t.state)
    decreases |xs|
  {
    if xs == [] {
      assert Pushes(xs) + rest == rest;
      assert q + xs == q;
    } else {
      var ops := Pushes(xs) + rest;
      assert ops[0] == PushOp(xs[0]);
      assert ops[1..] == Pushes(xs[1..]) + rest;
      QueuePushes(q + [xs[0]], capacity, item, xs[1..], rest);
      assert (q + [xs[0]]) + xs[1..] == q + xs;
      assert [Pushed(true)] + Accepted<T>(|xs| - 1) == Accepted<T>(|xs|);
    }
  }

  /** Popping `n` times from a queue holding at least `n` items hands out
      the oldest `n`, oldest first; whatever follows runs from the rest, with
      the caller's item variable holding the last one handed out. */
  lemma {:induction false} QueuePops<T>(q: seq<T>, capacity: nat, item: T, n: nat, rest: seq<Op<T>>)
    requires 0 < n <= |q|
    ensures RunQueue(q, capacity, item, Pops(n) + rest)
            == var t := RunQueue(q[n..], capacity, q[n - 1], rest); Trace(Delivered(q[..n]) + t.replies, t.state)
    decreases n
  {
    var ops := Pops(n) + rest;
    assert ops[0] == PopOp;
    if n == 1 {
      assert ops[1..] == rest;
      assert Delivered(q[..1]) == [Popped(true, q[0])];
    } else {
      assert ops[1..] == Pops(n - 1) + rest;
      QueuePops(q[1..], capacity, q[0], n - 1, rest);
      assert q[1..][n - 1..] == q[n..];
      assert q[1..][n - 2] == q[n - 1];
      assert [Popped(true, q[0])] + Delivered(q[1..][..n - 1]) == Delivered(q[..n]);
    }
  }

  /** Popping as many times as there are items hands them all out, oldest
      first, and leaves the queue empty. */
  lemma {:induction false} QueueDrains<T>(q: seq<T>, capacity: nat, item: T)
    ensures RunQueue(q, capacity, item, Pops(|q|)) == Trace(Delivered(q), [])
    decreases |q|
  {
    if q != [] {
      var ops: seq<Op<T>> := Pops(|q|);
      assert ops[0] == PopOp;
      assert ops[1..] == Pops(|q| - 1);
      QueueDrains(q[1..], capacity, q[0]);
      assert [Popped(true, q[0])] + Delivered(q[1..]) == Delivered(q);
    }
  }

  /** Serialised pushes into a fresh buffer with room for all of them: each
      one succeeds exactly once, none is lost or duplicated, and the count
      equals the number of pushes. */
  lemma Fill<T>(capacity: nat, blank: T, item: T, xs: seq<T>)
    requires |xs| <= capacity
    ensures RunBuffer(Ring.Create(capacity, blank), item, Pushes(xs)).replies == Accepted(|xs|)
    ensures Ring.Contents(RunBuffer(Ring.Create(capacity, blank), item, Pushes(xs)).state) == xs
    ensures RunBuffer(Ring.Create(capacity, blank), item, Pushes(xs)).state.count == |xs|
  {
    var b := Ring.Create(capacity, blank);
    RunRefines(b, item, Pushes(xs));
    QueuePushes([], capacity, item, xs, []);
    assert Pushes(xs) + [] == Pushes(xs);
    assert [] + xs == xs;
  }

  /** After `capacity` successful pushes into a fresh buffer the next push is
      refused, and the buffer still holds exactly those `capacity` items. */
  lemma Overflow<T>(capacity: nat, blank: T, item: T, xs: seq<T>, y: T)
    requires |xs| == capacity
    ensures RunBuffer(Ring.Create(capacity, blank), item, Pushes(xs) + [PushOp(y)]).replies
            == Accepted(capacity) + [Pushed(false)]
    ensures Ring.Contents(RunBuffer(Ring.Create(capacity, blank), item, Pushes(xs) + [PushOp(y)]).state) == xs
    ensures RunBuffer(Ring.Create(capacity, blank), item, Pushes(xs) + [PushOp(y)]).state.count == capacity
  {
    var b := Ring.Create(capacity, blank);
    RunRefines(b, item, Pushes(xs) + [PushOp(y)]);
    QueuePushes([], capacity, item, xs, [PushOp(y)]);
    assert [] + xs == xs;
  }

  /** FIFO order: items pushed into a fresh buffer with room for them all come
      back out in the order they went in, and the buffer ends empty. */
  lemma Fifo<T>(capacity: nat, blank: T, item: T, xs: seq<T>)
    requires |xs| <= capacity
    ensures RunBuffer(Ring.Create(capacity, blank), item, Pushes(xs) + Pops(|xs|)).replies
            == Accepted(|xs|) + Delivered(xs)
    ensures RunBuffer(Ring.Create(capacity, blank), item, Pushes(xs) + Pops(|xs|)).state.count == 0
  {
    var b := Ring.Create(capacity, blank);
    RunRefines(b, item, Pushes(xs) + Pops(|xs|));
    QueuePushes([], capacity, item, xs, Pops(|xs|));
    assert [] + xs == xs;
    QueueDrains(xs, capacity, item);
  }

  /** With no slots, every call is refused and the buffer never changes, so
      the modulo in `Ring.Advance` is never reached. */
  lemma {:induction false} ZeroCapacity<T>(b: Ring.Buffer<T>, item: T, ops: seq<Op<T>>)
    requires Ring.Valid(b) && b.capacity == 0
    ensures RunBuffer(b, item, ops).state == b
    ensures forall i :: 0 <= i < |ops| ==> !RunBuffer(b, item, ops).replies[i].ok
    decreases |ops|
  {
    if ops != [] {
      ZeroCapacity(b, item, ops[1..]);
    }
  }

  /** The wrap-around scenario with four slots: push a, b, c, d, pop twice,
      push e and f (both written over the slots a and b occupied), then pop
      four times. The pops hand out c, d, e, f in that order. */
  lemma WrapAround<T>(blank: T, item: T, a: T, b: T, c: T, d: T, e: T, f: T)
    ensures RunBuffer(Ring.Create(4, blank), item, Pushes([a, b, c, d]) + Pops(2) + Pushes([e, f]) + Pops(4)).replies
            == Accepted(4) + Delivered([a, b]) + Accepted(2) + Delivered([c, d, e, f])
  {
    var tail := Pushes([e, f]) + Pops(4);
    var ops := Pushes([a, b, c, d]) + Pops(2) + Pushes([e, f]) + Pops(4);
    assert ops == Pushes([a, b, c, d]) + (Pops(2) + tail);
    RunRefines(Ring.Create(4, blank), item, ops);
    QueuePushes([], 4, item, [a, b, c, d], Pops(2) + tail);
    assert [] + [a, b, c, d] == [a, b, c, d];
    QueuePops([a, b, c, d], 4, item, 2, tail);
    assert [a, b, c, d][2..] == [c, d] && [a, b, c, d][..2] == [a, b];
    QueuePushes([c, d], 4, b, [e, f], Pops(4));
    assert [c, d] + [e, f] == [c, d, e, f];
    QueueDrains([c, d, e, f], 4, b);
  }

  /** In the same scenario the indices really do wrap: after the pushes of
      e and f, `rear` has passed the end of the store, e and f sit in the
      first two slots, the store is full again, and both indices point at
      slot 2. */
  lemma WrapAroundSlots<T>(blank: T, item: T, a: T, b: T, c: T, d: T, e: T, f: T)
    ensures var s := RunBuffer(Ring.Create(4, blank), item, Pushes([a, b, c, d]) + Pops(2) + Pushes([e, f])).state;
            s.slots == [e, f, c, d] && s.front == 2 && s.rear == 2 && s.count == 4
  {
    var ops := Pushes([a, b, c, d]) + Pops(2) + Pushes([e, f]);
    assert ops == [PushOp(a), PushOp(b), PushOp(c), PushOp(d), PopOp, PopOp, PushOp(e), PushOp(f)];
    var b0 := Ring.Buffer([blank, blank, blank, blank], 4, 0, 0, 0);
    assert Ring.Create(4, blank) == b0;
    var b1 := Ring.Buffer([a, blank, blank, blank], 4, 0, 1, 1);
    assert Ring.Push(b0, a) == Ring.PushOutcome(true, b1);
    var b2 := Ring.Buffer([a, b, blank, blank], 4, 0, 2, 2);
    assert Ring.Push(b1, b) == Ring.PushOutcome(true, b2);
    var b3 := Ring.Buffer([a, b, c, blank], 4, 0, 3, 3);
    assert Ring.Push(b2, c) == Ring.PushOutcome(true, b3);
    var b4 := Ring.Buffer([a, b, c, d], 4, 0, 0, 4);
    assert Ring.Push(b3, d) == Ring.PushOutcome(true, b4);
    var b5 := Ring.Buffer([a, b, c, d], 4, 1, 0, 3);
    assert Ring.Pop(b4, item) == Ring.PopOutcome(true, a, b5);
    var b6 := Ring.Buffer([a, b, c, d], 4, 2, 0, 2);
    assert Ring.Pop(b5, a) == Ring.PopOutcome(true, b, b6);
    var b7 := Ring.Buffer([e, b, c, d], 4, 2, 1, 3);
    assert Ring.Push(b6, e) == Ring.PushOutcome(true, b7);
    var b8 := Ring.Buffer([e, f, c, d], 4, 2, 2, 4);
    assert Ring.Push(b7, f) == Ring.PushOutcome(true, b8);
    assert RunBuffer(b7, b, ops[7..]).state == b8;
    assert RunBuffer(b6, b, ops[6..]).state == b8;
    assert RunBuffer(b5, a, ops[5..]).state == b8;
    assert RunBuffer(b4, item, ops[4..]).state == b8;
    assert RunBuffer(b3, item, ops[3..]).state == b8;
    assert RunBuffer(b2, item, ops[2..]).state == b8;
    assert RunBuffer(b1, item, ops[1..]).state == b8;
  }
}
