/** The lightbikes history buffer (lightbikes/src/lightbikes/utils/RingBuffer.hpp):
    a fixed array written round-robin, remembering the most recent pushes. */
module LightbikesRingBuffer {

  function Min(a: nat, b: nat): nat {
    if a < b then a else b
  }

  /** The index `offset` places behind `head` in a circular array of
      `maxSize` slots, computed as `get` does. */
  function Back(head: nat, offset: nat, maxSize: nat): (i: nat)
    requires head < maxSize && offset < maxSize
    ensures i < maxSize && (i + offset) % maxSize == head
  {
    if head < offset then head + maxSize - offset else head - offset
  }

  /** Stepping the head forward by one slot moves every offset one further back. */
  lemma BackAfterStep(head: nat, offset: nat, maxSize: nat)
    requires head < maxSize && 0 < offset < maxSize
    ensures Back((head + 1) % maxSize, offset, maxSize) == Back(head, offset - 1, maxSize)
  {
    if head + 1 == maxSize {
      assert (head + 1) % maxSize == 0;
    } else {
      assert (head + 1) % maxSize == head + 1;
    }
  }

  /** The slot one step ahead of `head` is the one `maxSize - 1` places
      behind it, so it holds none of the `maxSize - 1` most recent offsets. */
  lemma BackAfterPush(head: nat, offset: nat, maxSize: nat)
    requires head < maxSize && 0 < offset < maxSize
    ensures Back((head + 1) % maxSize, offset, maxSize) == Back(head, offset - 1, maxSize)
    ensures Back(head, offset - 1, maxSize) != (head + 1) % maxSize
  {
    BackAfterStep(head, offset, maxSize);
  }

  class RingBuffer<T> {
    const maxSize: nat
    const internalBuffer: array<T>
    var head: nat
    var currentSize: nat
    /** Every element pushed so far, oldest first. */
    ghost var pushed: seq<T>

    /** The last `currentSize` pushes sit at `head`, `head - 1`, ... going
        round the array, and the count saturates at `maxSize`. */
    ghost predicate Valid()
      reads this, internalBuffer
    {
      && internalBuffer.Length == maxSize
      && (if maxSize == 0 then head == 0 else head < maxSize)
      && currentSize == Min(|pushed|, maxSize)
      && forall k :: 0 <= k < currentSize ==>
           internalBuffer[Back(head, k, maxSize)] == pushed[|pushed| - 1 - k]
    }

    /** The constructor: nothing pushed yet. `new Type[size]` leaves the slots
        indeterminate; `fill` stands for whatever they hold. */
    constructor (size: nat, fill: T)
      ensures Valid() && fresh(internalBuffer)
      ensures maxSize == size && pushed == [] && currentSize == 0 && head == 0
    {
      maxSize := size;
      internalBuffer := new T[size](_ => fill);
      head := 0;
      currentSize := 0;
      pushed := [];
    }

    /** `push`: the head moves one slot forward (the modulus is undefined
        behaviour for a zero-size buffer), the element is written there,
        and the size grows until it reaches `maxSize`. */
    method Push(elem: T)
      requires Valid() && maxSize > 0
      modifies this, internalBuffer
      ensures Valid() && pushed == old(pushed) + [elem]
      ensures head == (old(head) + 1) % maxSize && internalBuffer[head] == elem
      ensures currentSize == if old(currentSize) != maxSize then old(currentSize) + 1 else maxSize
      ensures forall i :: 0 <= i < maxSize && i != head ==> internalBuffer[i] == old(internalBuffer[i])
    {
      ghost var oldHead, oldPushed := head, pushed;
      head := (head + 1) % maxSize;
      internalBuffer[head] := elem;
      if currentSize != maxSize {
        currentSize := currentSize + 1;
      }
      pushed := pushed + [elem];
      forall k | 0 < k < currentSize
        ensures internalBuffer[Back(head, k, maxSize)] == pushed[|pushed| - 1 - k]
      {
        BackAfterPush(oldHead, k, maxSize);
        assert pushed[|pushed| - 1 - k] == oldPushed[|oldPushed| - 1 - (k - 1)];
      }
    }

    /** `get`: the element pushed `offset` pushes before the latest one. */
    function Get(offset: nat): (r: T)
      reads this, internalBuffer
      requires Valid() && offset < currentSize
      ensures r == pushed[|pushed| - 1 - offset]
    {
      internalBuffer[Back(head, offset, maxSize)]
    }

    /** `size`: the number of pushes, capped at `maxSize`. */
    function Size(): (n: nat)
      reads this, internalBuffer
      requires Valid()
      ensures n == Min(|pushed|, maxSize) && n <= maxSize
    {
      currentSize
    }
  }

  // ---------------------------------------------------------------------
  // RingBuffer.test.cpp, replayed on the model.

  /** `constructor`: a new buffer of ten slots has size 0. */
  method ConstructorTest() returns (size: nat)
    ensures size == 0
  {
    var buffer := new RingBuffer<int>(10, 0);
    size := buffer.Size();
  }

  /** `pushPopWorks`: ten pushes grow the size one by one with the latest
      push at offset 0; ten more keep the size at 10, with the latest push
      at offset 0 and the tenth most recent at offset 9. */
  method PushPopTest() returns (size: nat, latest: int, oldest: int)
    ensures size == 10 && latest == 19 && oldest == 10
  {
    var buffer := new RingBuffer<int>(10, 0);
    var i := 0;
    while i < 10
      invariant 0 <= i <= 10
      invariant buffer.Valid() && buffer.maxSize == 10
      invariant buffer.pushed == seq(i, k => k)
    {
      buffer.Push(i);
      assert buffer.Size() == i + 1;
      assert buffer.Get(0) == i;
      i := i + 1;
    }
    assert buffer.Size() == 10;
    i := 0;
    while i < 10
      invariant 0 <= i <= 10
      invariant buffer.Valid() && buffer.maxSize == 10
      invariant buffer.pushed == seq(10 + i, k => k)
    {
      buffer.Push(i + 10);
      assert buffer.Size() == 10;
      assert buffer.Get(0) == i + 10;
      assert buffer.Get(9) == i + 1;
      i := i + 1;
    }
    size, latest, oldest := buffer.Size(), buffer.Get(0), buffer.Get(9);
  }
}
