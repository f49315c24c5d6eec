/** `RingBuffer`: fixed slots in one flat byte array, with head, tail and count. First as a value, so that
    the thread protocol can speak about it, then as the class that updates the array in place. */
module Ring {
  import opened Bytes

  const SLOT_SIZE := 2048
  const MAX_CAPACITY := 65536

  /** x modulo the capacity, for the values below twice the capacity that occur. */
  function Index(x: nat, c: nat): nat
    requires x < 2 * c
  {
    if x < c then x else x - c
  }

  lemma IndexIsModulo(x: nat, c: nat)
    requires x < 2 * c
    ensures Index(x, c) == x % c
  {
  }

  /** The code's own form, `(i + 1) % capacity_`. */
  function Advance(i: nat, c: nat): (n: nat)
    requires i < c
    ensures n == Index(i + 1, c)
  {
    if i + 1 == c then
      assert (i + 1) % c == 0; (i + 1) % c
    else
      (i + 1) % c
  }

  /** A `memcpy` into the array. */
  function Splice(b: seq<Byte>, at: nat, data: seq<Byte>): (r: seq<Byte>)
    requires at + |data| <= |b|
    ensures |r| == |b|
  {
    b[..at] + data + b[at + |data|..]
  }

  /** `count` elements of a circular sequence, from `tail` on. */
  ghost function Window<T>(a: seq<T>, tail: nat, count: nat): (q: seq<T>)
    requires tail < |a| && count <= |a|
    ensures |q| == count && forall k :: 0 <= k < count ==> q[k] == a[Index(tail + k, |a|)]
  {
    seq(count, k requires 0 <= k < count => a[Index(tail + k, |a|)])
  }

  datatype Ring = Ring(capacity: nat, buffer: seq<Byte>, sizes: seq<nat>, head: nat, tail: nat, count: nat)
  {
    /** What the memory layout alone guarantees. */
    ghost predicate Shaped() {
      && 0 < capacity <= MAX_CAPACITY
      && |buffer| == capacity * SLOT_SIZE
      && |sizes| == capacity
      && head < capacity
      && tail < capacity
      && forall i :: 0 <= i < capacity ==> sizes[i] <= SLOT_SIZE
    }

    ghost predicate Valid() {
      && Shaped()
      && count <= capacity
      && head == Index(tail + count, capacity)
    }

    /** The bytes stored in physical slot i. */
    ghost function Slot(i: nat): seq<Byte>
      requires Shaped() && i < capacity
    {
      buffer[i * SLOT_SIZE..i * SLOT_SIZE + sizes[i]]
    }

    ghost function Slots(): (a: seq<seq<Byte>>)
      requires Shaped()
      ensures |a| == capacity && forall i :: 0 <= i < capacity ==> a[i] == Slot(i)
    {
      seq(capacity, i requires 0 <= i < capacity => Slot(i))
    }

    /** The queue: `count` slots starting at `tail`, wrapping around. */
    ghost function Contents(): (q: seq<seq<Byte>>)
      requires Valid()
      ensures |q| == count
    {
      Window(Slots(), tail, count)
    }

    /** The critical section of `write`: copy into the head slot, record its size, advance. */
    ghost function Put(data: seq<Byte>): Ring
      requires Shaped() && |data| <= SLOT_SIZE
    {
      var at := head * SLOT_SIZE;
      Ring(capacity, Splice(buffer, at, data), sizes[head := |data|],
           Index(head + 1, capacity), tail, count + 1)
    }

    /** The critical section of `read`, apart from the bytes handed out; `count` is an unsigned 64-bit
        number, so taking from an empty ring would wrap it around. */
    ghost function Take(): Ring
      requires Shaped()
    {
      this.(tail := Index(tail + 1, capacity), count := if count == 0 then TWO_64 - 1 else count - 1)
    }
  }

  ghost predicate Empty(r: Ring)
  {
    r.Valid() && r.count == 0 && r.head == 0 && r.tail == 0
  }

  // ---- FIFO behaviour of one critical section ---------------------------------------------------

  lemma SpliceInside(b: seq<Byte>, at: nat, data: seq<Byte>)
    requires at + |data| <= |b|
    ensures |Splice(b, at, data)| == |b| && Splice(b, at, data)[at..at + |data|] == data
  {
  }

  lemma SpliceOutside(b: seq<Byte>, at: nat, data: seq<Byte>, i: nat, j: nat)
    requires at + |data| <= |b| && i <= j <= |b| && (j <= at || at + |data| <= i)
    ensures Splice(b, at, data)[i..j] == b[i..j]
  {
  }

  /** A write changes no byte and no size of any slot but the head slot. */
  lemma PutFrame(r: Ring, data: seq<Byte>, i: nat)
    requires r.Shaped() && |data| <= SLOT_SIZE && i < r.capacity
    ensures r.Put(data).Shaped()
    ensures r.Put(data).Slot(i) == if i == r.head then data else r.Slot(i)
  {
    var at := r.head * SLOT_SIZE;
    SpliceInside(r.buffer, at, data);
    if i < r.head {
      SpliceOutside(r.buffer, at, data, i * SLOT_SIZE, i * SLOT_SIZE + r.sizes[i]);
    } else if i > r.head {
      assert i * SLOT_SIZE >= at + SLOT_SIZE;
      SpliceOutside(r.buffer, at, data, i * SLOT_SIZE, i * SLOT_SIZE + r.sizes[i]);
    }
  }

  /** With space left, the head slot is not one of the live ones. */
  lemma HeadIsFree(r: Ring, k: nat)
    requires r.Valid() && r.count < r.capacity && k < r.count
    ensures Index(r.tail + k, r.capacity) != r.head
  {
  }

  lemma WindowGrows<T>(a: seq<T>, tail: nat, count: nat, x: T)
    requires tail < |a| && count < |a|
    ensures Window(a[Index(tail + count, |a|) := x], tail, count + 1) == Window(a, tail, count) + [x]
  {
  }

  lemma WindowShrinks<T>(a: seq<T>, tail: nat, count: nat)
    requires tail < |a| && 0 < count <= |a|
    ensures Window(a, tail, count) == [a[tail]] + Window(a, Index(tail + 1, |a|), count - 1)
  {
  }

  lemma PutSlots(r: Ring, data: seq<Byte>)
    requires r.Shaped() && |data| <= SLOT_SIZE
    ensures r.Put(data).Shaped() && r.Put(data).Slots() == r.Slots()[r.head := data]
  {
    PutFrame(r, data, r.head);
    forall i | 0 <= i < r.capacity ensures r.Put(data).Slots()[i] == r.Slots()[r.head := data][i] {
      PutFrame(r, data, i);
    }
  }

  /** A write with space left appends exactly its bytes to the queue, across the wrap-around too. */
  lemma PutAppends(r: Ring, data: seq<Byte>)
    requires r.Valid() && r.count < r.capacity && |data| <= SLOT_SIZE
    ensures r.Put(data).Valid()
    ensures r.Put(data).Contents() == r.Contents() + [data]
  {
    PutSlots(r, data);
    WindowGrows(r.Slots(), r.tail, r.count, data);
  }

  /** A read removes exactly the front of the queue. */
  lemma TakeRemoves(r: Ring)
    requires r.Valid() && r.count > 0
    ensures r.Take().Valid()
    ensures r.Contents() == [r.Slot(r.tail)] + r.Take().Contents()
  {
    WindowShrinks(r.Slots(), r.tail, r.count);
    assert r.Take().Slots() == r.Slots();
  }

  // ---- The class --------------------------------------------------------------------------------

  datatype Outcome = Refused | MustWait | Stopped | Done

  class RingBuffer {
    const capacity: nat
    const buffer: array<Byte>
    const sizes: array<nat>
    var head: nat
    var tail: nat
    var count: nat

    ghost function Snapshot(): Ring
      reads this, buffer, sizes
    {
      Ring(capacity, buffer[..], sizes[..], head, tail, count)
    }

    ghost predicate Valid()
      reads this, buffer, sizes
    {
      Snapshot().Valid()
    }

    constructor (capacity: nat)
      requires 0 < capacity <= MAX_CAPACITY
      ensures Empty(Snapshot()) && this.capacity == capacity
      ensures fresh(buffer) && fresh(sizes)
    {
      this.capacity := capacity;
      buffer := new Byte[capacity * SLOT_SIZE](_ => 0);
      sizes := new nat[capacity](_ => 0);
      head, tail, count := 0, 0, 0;
    }

    /** The throwing constructor: capacities outside 1..65536 are rejected. */
    static method Create(capacity: nat) returns (r: Option<RingBuffer>)
      ensures r.Some? <==> 0 < capacity <= 65536
      ensures r.Some? ==> fresh(r.value) && fresh(r.value.buffer) && fresh(r.value.sizes)
      ensures r.Some? ==> Empty(r.value.Snapshot()) && r.value.capacity == capacity
    {
      if capacity == 0 || capacity > MAX_CAPACITY {
        return None;
      }
      var ring := new RingBuffer(capacity);
      return Some(ring);
    }

    /** One pass through `write` with the lock held: the wait predicate sees the stop flag as `stopAtTest`,
        the check after the wait sees it as `stopAtCheck`. `MustWait` stands for blocking in the wait. */
    method Write(data: seq<Byte>, stopAtTest: bool, stopAtCheck: bool) returns (r: Outcome)
      requires Valid()
      requires stopAtTest ==> stopAtCheck
      modifies this`head, this`count, buffer, sizes
      ensures Valid()
      ensures r == Refused <==> |data| == 0 || |data| > SLOT_SIZE
      ensures r == MustWait <==> 0 < |data| <= SLOT_SIZE && old(count) == capacity && !stopAtTest
      ensures r == Stopped <==> 0 < |data| <= SLOT_SIZE && old(count) == capacity && stopAtTest
      ensures r != Done ==> Snapshot() == old(Snapshot())
      ensures r == Done ==> |data| <= SLOT_SIZE && Snapshot() == old(Snapshot()).Put(data)
      ensures r == Done ==> Snapshot().Contents() == old(Snapshot()).Contents() + [data]
    {
      if |data| == 0 || |data| > SLOT_SIZE {
        return Refused;
      }
      if count == capacity && !stopAtTest {
        return MustWait;
      }
      if stopAtCheck && count == capacity {
        return Stopped;
      }
      ghost var before := Snapshot();
      PutAppends(before, data);
      var at := head * SLOT_SIZE;
      forall k | 0 <= k < |data| {
        buffer[at + k] := data[k];
      }
      assert buffer[..] == Splice(before.buffer, at, data);
      sizes[head] := |data|;
      head, count := Advance(head, capacity), count + 1;
      assert Snapshot() == before.Put(data);
      return Done;
    }

    /** The `memcpy` out of the array. */
    method CopyOut(at: nat, size: nat, dest: array<Byte>)
      requires dest != buffer && size <= dest.Length && at + size <= buffer.Length
      modifies dest
      ensures dest[..size] == buffer[at..at + size] && dest[size..] == old(dest[size..])
    {
      forall k | 0 <= k < size {
        dest[k] := buffer[at + k];
      }
    }

    /** One pass through `read` with the lock held, copying into the caller's buffer. */
    method Read(dest: array<Byte>, stopAtTest: bool, stopAtCheck: bool) returns (r: Outcome, size: nat)
      requires Valid() && dest != buffer && dest.Length >= SLOT_SIZE
      requires stopAtTest ==> stopAtCheck
      modifies this`tail, this`count, dest
      ensures Valid()
      ensures r == MustWait <==> old(count) == 0 && !stopAtTest
      ensures r == Stopped <==> old(count) == 0 && stopAtTest
      ensures r != Refused
      ensures r != Done ==> Snapshot() == old(Snapshot()) && dest[..] == old(dest[..]) && size == 0
      ensures r == Done ==> old(count) > 0 && Snapshot() == old(Snapshot()).Take()
      ensures r == Done ==> size <= SLOT_SIZE && dest[size..] == old(dest[size..])
      ensures r == Done ==> old(Snapshot()).Contents() == [dest[..size]] + Snapshot().Contents()
    {
      if count == 0 && !stopAtTest {
        return MustWait, 0;
      }
      if stopAtCheck && count == 0 {
        return Stopped, 0;
      }
      ghost var before := Snapshot();
      TakeRemoves(before);
      size := sizes[tail];
      CopyOut(tail * SLOT_SIZE, size, dest);
      assert dest[..size] == before.Slot(tail);
      tail, count := Advance(tail, capacity), count - 1;
      return Done, size;
    }
  }
}
