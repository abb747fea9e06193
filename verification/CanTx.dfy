/** Draining a project's CAN transmit queue through a C interface (runtime/src/sim/project.rs,
    runtime/src/sim/project_loader.rs): a buffer that doubles up to a hard cap. */
module CanTx {
  import opened Common

  const MAX_FFI_BUFFER_CAPACITY: nat := 65536
  const STATUS_OK: nat := 0
  const STATUS_BUFFER_TOO_SMALL: nat := 5

  datatype FfiError = Failed(status: nat) | BadCount(written: nat) | TooLarge

  /** What one call reports, and what it left in the caller's buffer. */
  datatype Reply<F> = Reply(status: nat, written: nat, fill: nat -> F)

  /** A library, as its answers to the k-th call with a given capacity. */
  type Library<F> = (nat, nat) -> Reply<F>

  function NextCapacity(capacity: nat): Result<nat, FfiError> {
    if capacity >= MAX_FFI_BUFFER_CAPACITY then Err(TooLarge)
    else
      var doubled := Min(2 * capacity, U32_MAX);
      Ok(if doubled < 2 then 2 else if doubled > MAX_FFI_BUFFER_CAPACITY then MAX_FFI_BUFFER_CAPACITY else doubled)
  }

  /** Below the cap the capacity strictly grows, and never past the cap. */
  lemma CapacityGrows(capacity: nat)
    ensures NextCapacity(capacity).Ok? <==> capacity < MAX_FFI_BUFFER_CAPACITY
    ensures NextCapacity(capacity).Ok? ==> capacity < NextCapacity(capacity).value <= MAX_FFI_BUFFER_CAPACITY
  {
  }

  function Delivered<F>(reply: Reply<F>): seq<F> {
    seq(reply.written, i requires 0 <= i < reply.written => reply.fill(i))
  }

  /** The whole drain from the k-th call on, for any library whatsoever. */
  function Drained<F>(library: Library<F>, k: nat, capacity: nat): Result<seq<F>, FfiError>
    decreases MAX_FFI_BUFFER_CAPACITY - capacity
  {
    var reply := library(k, capacity);
    if reply.status != STATUS_OK && reply.status != STATUS_BUFFER_TOO_SMALL then Err(Failed(reply.status))
    else if reply.written > capacity then Err(BadCount(reply.written))
    else if reply.status == STATUS_OK then Ok(Delivered(reply))
    else
      match NextCapacity(capacity)
      case Err(e) => Err(e)
      case Ok(larger) => Prepend(Delivered(reply), Drained(library, k + 1, larger))
  }

  function CapacityAt(k: nat): (r: nat)
    ensures 32 <= r <= MAX_FFI_BUFFER_CAPACITY
  {
    if k == 0 then 32 else Min(2 * CapacityAt(k - 1), MAX_FFI_BUFFER_CAPACITY)
  }

  /** Room of the calls before the k-th. */
  function Offset(k: nat): nat {
    if k == 0 then 0 else Offset(k - 1) + CapacityAt(k - 1)
  }

  lemma Capacities()
    ensures CapacityAt(11) == MAX_FFI_BUFFER_CAPACITY && CapacityAt(10) == 32768
  {
    assert CapacityAt(4) == 512;
    assert CapacityAt(8) == 8192;
  }

  /** The capacities of the first twelve calls double exactly. */
  lemma {:induction false} CapacityDoubles(k: nat)
    requires k <= 11
    ensures Offset(k) + 32 == CapacityAt(k)
    ensures k < 11 <==> CapacityAt(k) < MAX_FFI_BUFFER_CAPACITY
  {
    Capacities();
    if k > 0 {
      CapacityDoubles(k - 1);
    }
    if k < 11 {
      CapacityMonotone(k, 10);
    }
  }

  lemma {:induction false} CapacityMonotone(a: nat, b: nat)
    requires a <= b
    ensures CapacityAt(a) <= CapacityAt(b)
    decreases b - a
  {
    if a < b {
      CapacityMonotone(a, b - 1);
    }
  }

  lemma FirstCapacity()
    ensures CapacityAt(0) == 32
  {
  }

  /** A loaded library, counting the calls made to it. */
  class Handle<F> {
    const library: Library<F>
    var calls: nat

    constructor (library: Library<F>)
      ensures this.library == library && calls == 0
    {
      this.library := library;
      calls := 0;
    }

    method SimCanTx(capacity: nat) returns (reply: Reply<F>)
      modifies this`calls
      ensures calls == old(calls) + 1 && reply == library(old(calls), capacity)
    {
      reply := library(calls, capacity);
      calls := calls + 1;
    }
  }

  /** The runtime's loop. Whatever the library does, at most twelve calls are made. */
  method CanTx<F>(handle: Handle<F>) returns (r: Result<seq<F>, FfiError>)
    modifies handle`calls
    ensures r == Drained(handle.library, old(handle.calls), 32)
    ensures old(handle.calls) < handle.calls <= old(handle.calls) + 12
  {
    hide CapacityAt, Offset;
    ghost var start := handle.calls;
    var out: seq<F> := [];
    var capacity := 32;
    ghost var k := 0;
    FirstCapacity();
    PrependTwice([], out, Drained(handle.library, start, 32));
    while true
      invariant k <= 11 && capacity == CapacityAt(k) && handle.calls == start + k
      invariant Drained(handle.library, start, 32) == Prepend(out, Drained(handle.library, start + k, capacity))
      decreases 11 - k
    {
      NextCall(k);
      var reply := handle.SimCanTx(capacity);
      if reply.status != STATUS_OK && reply.status != STATUS_BUFFER_TOO_SMALL {
        return Err(Failed(reply.status));
      }
      if reply.written > capacity {
        return Err(BadCount(reply.written));
      }
      ghost var before := out;
      out := out + Delivered(reply);
      if reply.status == STATUS_BUFFER_TOO_SMALL {
        var larger := NextCapacity(capacity);
        if larger.Err? {
          return Err(larger.error);
        }
        PrependTwice(before, Delivered(reply), Drained(handle.library, start + k + 1, larger.value));
        capacity := larger.value;
        k := k + 1;
        continue;
      }
      return Ok(out);
    }
  }

  // ----- what any library's answers lead to

  /** Call k asks for another one. */
  predicate Short<F>(library: Library<F>, k: nat) {
    library(k, CapacityAt(k)).status == 5 && library(k, CapacityAt(k)).written <= CapacityAt(k)
  }

  /** The frames of the first n calls, one call after the other. */
  function Collected<F>(library: Library<F>, n: nat): seq<F> {
    if n == 0 then [] else Collected(library, n - 1) + Delivered(library(n - 1, CapacityAt(n - 1)))
  }

  lemma {:induction false} DrainUpTo<F>(library: Library<F>, n: nat)
    requires n <= 11 && forall k :: 0 <= k < n ==> Short(library, k)
    ensures Drained(library, 0, 32) == Prepend(Collected(library, n), Drained(library, n, CapacityAt(n)))
  {
    hide CapacityAt, Delivered;
    FirstCapacity();
    if n == 0 {
      PrependTwice([], [], Drained(library, 0, 32));
      assert Collected(library, 0) == [];
    } else {
      DrainUpTo(library, n - 1);
      NextCall(n - 1);
      var frames, rest := Delivered(library(n - 1, CapacityAt(n - 1))), Drained(library, n, CapacityAt(n));
      assert Short(library, n - 1);
      assert Drained(library, n - 1, CapacityAt(n - 1)) == Prepend(frames, rest);
      PrependTwice(Collected(library, n - 1), frames, rest);
    }
  }

  /** The first call that does not ask for another one decides: its own frames complete those
      collected, or its status or its impossible count fails the drain. If the twelfth asks
      for another one, the drain fails too. */
  lemma FirstCallDecides<F>(library: Library<F>, n: nat)
    requires n <= 11 && (forall k :: 0 <= k < n ==> Short(library, k)) && (n < 11 ==> !Short(library, n))
    ensures var reply := library(n, CapacityAt(n));
            Drained(library, 0, 32) ==
              if reply.status != 0 && reply.status != 5 then Err(Failed(reply.status))
              else if reply.written > CapacityAt(n) then Err(BadCount(reply.written))
              else if reply.status == 5 then Err(TooLarge)
              else Ok(Collected(library, n) + Delivered(reply))
  {
    DrainUpTo(library, n);
    NextCall(n);
    hide CapacityAt, Delivered, Collected, Offset;
  }

  /** A library that hands out its queue front to back, as much as fits each call, and says
      whether something was left. */
  ghost predicate Conforming<F(!new)>(library: Library<F>, queue: seq<F>) {
    forall k :: Offset(k) <= |queue| ==> Hands(library(k, CapacityAt(k)), queue[Offset(k)..], CapacityAt(k))
  }

  predicate Hands<F(==)>(reply: Reply<F>, rest: seq<F>, capacity: nat) {
    && reply.status == (if |rest| <= capacity then STATUS_OK else STATUS_BUFFER_TOO_SMALL)
    && reply.written == (if |rest| <= capacity then |rest| else capacity)
    && forall i :: 0 <= i < reply.written ==> reply.fill(i) == rest[i]
  }

  /** Twelve calls have room for 32 + 64 + ... + 65536 = 131040 frames. */
  lemma NextCall(k: nat)
    requires k <= 11
    ensures Offset(k) + CapacityAt(k) <= 131040
    ensures k < 11 ==> NextCapacity(CapacityAt(k)) == Ok(CapacityAt(k + 1)) && Offset(k + 1) == Offset(k) + CapacityAt(k)
    ensures k == 11 ==> NextCapacity(CapacityAt(k)) == Err(TooLarge) && Offset(k) + CapacityAt(k) == 131040
  {
    CapacityDoubles(k);
    Capacities();
  }

  lemma LastCall<F>(library: Library<F>, k: nat, capacity: nat, rest: seq<F>)
    requires Hands(library(k, capacity), rest, capacity) && |rest| <= capacity
    ensures Drained(library, k, capacity) == Ok(rest)
  {
    assert Delivered(library(k, capacity)) == rest;
  }

  lemma FullCall<F>(library: Library<F>, k: nat, capacity: nat, rest: seq<F>)
    requires Hands(library(k, capacity), rest, capacity) && |rest| > capacity
    ensures Drained(library, k, capacity) ==
            match NextCapacity(capacity)
            case Err(e) => Err(e)
            case Ok(larger) => Prepend(rest[..capacity], Drained(library, k + 1, larger))
  {
    assert Delivered(library(k, capacity)) == rest[..capacity];
  }

  function FromOffset<F>(queue: seq<F>, offset: nat): Result<seq<F>, FfiError>
    requires offset <= |queue|
  {
    if |queue| <= 131040 then Ok(queue[offset..]) else Err(TooLarge)
  }

  lemma SliceAndRest<F>(queue: seq<F>, offset: nat, capacity: nat)
    requires offset + capacity <= |queue|
    ensures Prepend(queue[offset..][..capacity], FromOffset(queue, offset + capacity)) == FromOffset(queue, offset)
  {
    assert queue[offset..][..capacity] + queue[offset + capacity..] == queue[offset..];
  }

  lemma HandsAt<F(!new)>(library: Library<F>, queue: seq<F>, k: nat)
    requires Conforming(library, queue) && Offset(k) <= |queue|
    ensures Hands(library(k, CapacityAt(k)), queue[Offset(k)..], CapacityAt(k))
  {
  }

  lemma {:induction false} DrainsRest<F(!new)>(library: Library<F>, queue: seq<F>, k: nat)
    requires Conforming(library, queue) && k <= 11 && Offset(k) <= |queue|
    ensures Drained(library, k, CapacityAt(k)) == FromOffset(queue, Offset(k))
    decreases 11 - k
  {
    hide Hands, Drained, CapacityAt, Offset, NextCapacity, Conforming, Prepend;
    var rest, capacity := queue[Offset(k)..], CapacityAt(k);
    HandsAt(library, queue, k);
    NextCall(k);
    if |rest| <= capacity {
      LastCall(library, k, capacity, rest);
    } else {
      FullCall(library, k, capacity, rest);
      if k < 11 {
        DrainsRest(library, queue, k + 1);
        SliceAndRest(queue, Offset(k), capacity);
      }
    }
  }

  /** A conforming library's queue is returned whole and in order exactly when it holds at
      most 131040 frames; otherwise the drain fails. */
  lemma QueueReturnedIff<F(!new)>(library: Library<F>, queue: seq<F>)
    requires Conforming(library, queue)
    ensures Drained(library, 0, 32) == if |queue| <= 131040 then Ok(queue) else Err(TooLarge)
  {
    DrainsRest(library, queue, 0);
    assert queue[0..] == queue;
  }
}
