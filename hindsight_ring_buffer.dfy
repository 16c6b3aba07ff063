/** The rollback frame cache of the hindsight netcode library
    (rust_games/hindsight/src/hindsight/ring_buffer.rs): a fixed number of
    slots for consecutive frames, starting at the oldest kept frame. */
module HindsightRingBuffer {
  import opened Common

  /** The frame-indexed view of a cache whose oldest kept frame is `oldest`:
      slot `i` holds frame `oldest + i`. */
  function WindowView<T>(oldest: nat, buffer: seq<T>): (m: map<nat, T>)
    ensures forall f :: f in m <==> oldest <= f < oldest + |buffer|
  {
    map f | oldest <= f < oldest + |buffer| :: SlotOf(oldest, buffer, f)
  }

  /** The slot that holds `frame`. */
  function SlotOf<T>(oldest: nat, buffer: seq<T>, frame: nat): T
    requires oldest <= frame < oldest + |buffer|
  {
    buffer[frame - oldest]
  }

  /** Overwriting a slot changes only that slot's frame. */
  lemma WindowViewUpdate<T>(oldest: nat, buffer: seq<T>, i: nat, v: T)
    requires i < |buffer|
    ensures WindowView(oldest, buffer[i := v]) == WindowView(oldest, buffer)[oldest + i := v]
  {
    var m, m' := WindowView(oldest, buffer), WindowView(oldest, buffer[i := v]);
    assert m'.Keys == m[oldest + i := v].Keys;
    forall f | f in m' ensures m'[f] == m[oldest + i := v][f] {
      if f != oldest + i {
        assert buffer[i := v][f - oldest] == buffer[f - oldest];
      }
    }
  }

  /** Dropping the front slot and appending one slides the window by one
      frame: the oldest frame goes, the frame just past the window comes. */
  lemma WindowViewAdvance<T>(oldest: nat, buffer: seq<T>, v: T)
    requires |buffer| > 0
    ensures WindowView(oldest + 1, buffer[1..] + [v])
         == (WindowView(oldest, buffer) - {oldest})[oldest + |buffer| := v]
  {
    var b := buffer[1..] + [v];
    var m, m' := WindowView(oldest, buffer), WindowView(oldest + 1, b);
    var r := (m - {oldest})[oldest + |buffer| := v];
    assert m'.Keys == r.Keys;
    forall f | f in m' ensures m'[f] == r[f] {
      if f < oldest + |buffer| {
        assert b[f - (oldest + 1)] == buffer[f - oldest];
      }
    }
  }

  class FrameCache<T> {
    var oldestFrame: u32
    var capacity: nat
    var buffer: seq<T>

    /** The buffer always holds exactly `capacity` slots. */
    ghost predicate Valid()
      reads this
    {
      |buffer| == capacity
    }

    ghost function View(): map<nat, T>
      reads this
    {
      WindowView(oldestFrame, buffer)
    }

    /** `FrameCache::new`: `capacity` default values, oldest frame 0. */
    constructor (capacity: nat, default: T)
      ensures Valid() && this.capacity == capacity && oldestFrame == 0
      ensures buffer == seq(capacity, _ => default)
    {
      var b: seq<T> := [];
      var i := 0;
      while i < capacity
        invariant i <= capacity
        invariant b == seq(i, _ => default)
      {
        b := b + [default];
        i := i + 1;
      }
      oldestFrame := 0;
      this.capacity := capacity;
      buffer := b;
    }

    /** `get_mut`, read side: the value kept for `frame`, which must lie
        in the window (the source asserts it). The window's end is computed
        as a `u32` sum, which must not overflow. */
    function Get(frame: u32): (r: T)
      reads this
      requires Valid() && oldestFrame + capacity <= U32_MAX
      requires oldestFrame <= frame < oldestFrame + capacity
      ensures frame in View() && r == View()[frame]
    {
      buffer[frame - oldestFrame]
    }

    /** `set`: inside the window the frame's slot is overwritten; one frame
        past the window the front slot is dropped and the window slides by
        one; further ahead, or behind the window, the source panics. The
        buffer length is checked to stay at `capacity` (a debug assertion),
        which a zero-capacity cache would violate. */
    method Set(frame: u32, value: T)
      requires Valid() && capacity > 0
      requires oldestFrame <= frame <= oldestFrame + capacity
      modifies this
      ensures Valid() && capacity == old(capacity)
      ensures old(frame - oldestFrame < capacity) ==>
        oldestFrame == old(oldestFrame) && buffer == old(buffer)[frame - oldestFrame := value]
      ensures old(frame - oldestFrame == capacity) ==>
        oldestFrame == old(oldestFrame) + 1 && buffer == old(buffer)[1..] + [value]
      ensures old(frame - oldestFrame < capacity) ==> View() == old(View())[frame := value]
      ensures old(frame - oldestFrame == capacity) ==>
        View() == (old(View()) - {old(oldestFrame)})[frame := value]
    {
      var index := frame - oldestFrame;
      if index == capacity {
        WindowViewAdvance(oldestFrame, buffer, value);
        buffer := buffer[1..] + [value];
        oldestFrame := oldestFrame + 1;
      } else {
        WindowViewUpdate(oldestFrame, buffer, index, value);
        buffer := buffer[index := value];
      }
    }
  }
}
