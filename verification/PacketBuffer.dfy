/** `PacketBuffer`: every ring slot holds an 8-byte capture timestamp followed by the frame. */
module PacketBuffer {
  import opened Bytes
  import opened Ring

  const TIMESTAMP_SIZE := 8
  const MAX_FRAME := SLOT_SIZE - TIMESTAMP_SIZE

  datatype Stamped = Stamped(ts: U64, frame: seq<Byte>)

  /** The slot image of a stamped frame. */
  function Encode(p: Stamped): (slot: seq<Byte>)
    ensures |slot| == TIMESTAMP_SIZE + |p.frame|
  {
    LittleEndian(p.ts, TIMESTAMP_SIZE) + p.frame
  }

  function Decode(slot: seq<Byte>): Stamped
    requires |slot| >= TIMESTAMP_SIZE
  {
    TimestampRange();
    FromLittleEndianRoundTrip(slot[..TIMESTAMP_SIZE]);
    Stamped(FromLittleEndian(slot[..TIMESTAMP_SIZE]), slot[TIMESTAMP_SIZE..])
  }

  lemma DecodeEncode(p: Stamped)
    ensures Decode(Encode(p)) == p
  {
    TimestampRange();
    LittleEndianRoundTrip(p.ts, TIMESTAMP_SIZE);
    assert Encode(p)[..TIMESTAMP_SIZE] == LittleEndian(p.ts, TIMESTAMP_SIZE);
  }

  lemma EncodeDecode(slot: seq<Byte>)
    requires |slot| >= TIMESTAMP_SIZE
    ensures Encode(Decode(slot)) == slot
  {
    FromLittleEndianRoundTrip(slot[..TIMESTAMP_SIZE]);
  }

  /** Slots as `PacketBuffer::write` fills them. */
  ghost predicate Framed(q: seq<seq<Byte>>) {
    forall k :: 0 <= k < |q| ==> TIMESTAMP_SIZE < |q[k]| <= SLOT_SIZE
  }

  lemma Front(q: seq<seq<Byte>>, front: seq<Byte>, rest: seq<seq<Byte>>)
    requires q == [front] + rest
    ensures q[0] == front && q[1..] == rest
    ensures Framed(q) ==> Framed(rest) && TIMESTAMP_SIZE < |front|
  {
    forall k | 0 <= k < |rest| ensures rest[k] == q[k + 1] {
    }
  }

  /** The two copies out of a slot: the timestamp, and the frame to the start of the caller's buffer. */
  method Unpack(slot: seq<Byte>, dest: array<Byte>) returns (ts: U64)
    requires TIMESTAMP_SIZE <= |slot| <= dest.Length + TIMESTAMP_SIZE
    modifies dest
    ensures slot == Encode(Stamped(ts, dest[..|slot| - TIMESTAMP_SIZE]))
    ensures dest[|slot| - TIMESTAMP_SIZE..] == old(dest[|slot| - TIMESTAMP_SIZE..])
  {
    ts := Decode(slot).ts;
    EncodeDecode(slot);
    forall k | 0 <= k < |slot| - TIMESTAMP_SIZE {
      dest[k] := slot[TIMESTAMP_SIZE + k];
    }
    assert dest[..|slot| - TIMESTAMP_SIZE] == slot[TIMESTAMP_SIZE..];
  }

  /** The checks on a slot read from the ring, and its delivery. */
  method Deliver(slot: seq<Byte>, dest: array<Byte>) returns (r: ReadOutcome, size: nat, ts: U64)
    modifies dest
    ensures r == Corrupt || r == TooBig || r == Got
    ensures r == Corrupt <==> |slot| < TIMESTAMP_SIZE
    ensures r == TooBig <==> |slot| > dest.Length + TIMESTAMP_SIZE
    ensures r == Got ==>
              size <= dest.Length && slot == Encode(Stamped(ts, dest[..size])) && dest[size..] == old(dest[size..])
    ensures r != Got ==> dest[..] == old(dest[..])
  {
    if |slot| < TIMESTAMP_SIZE {
      return Corrupt, 0, 0;
    }
    size := |slot| - TIMESTAMP_SIZE;
    if size > dest.Length {
      return TooBig, size, 0;
    }
    ts := Unpack(slot, dest);
    return Got, size, ts;
  }

  datatype ReadOutcome = Waits | Halted | Corrupt | TooBig | Got

  class PacketBuffer {
    const ring: RingBuffer

    constructor (ring: RingBuffer)
      ensures this.ring == ring
    {
      this.ring := ring;
    }

    ghost predicate Valid()
      reads ring, ring.buffer, ring.sizes
    {
      ring.Valid()
    }

    ghost function Queue(): seq<seq<Byte>>
      requires Valid()
      reads ring, ring.buffer, ring.sizes
    {
      ring.Snapshot().Contents()
    }

    method Write(frame: seq<Byte>, now: U64, stopAtTest: bool, stopAtCheck: bool) returns (r: Outcome)
      requires Valid()
      requires stopAtTest ==> stopAtCheck
      modifies ring`head, ring`count, ring.buffer, ring.sizes
      ensures Valid()
      ensures r == Refused <==> |frame| == 0 || |frame| > 2040
      ensures r == Stopped ==> stopAtCheck && |old(Queue())| == ring.capacity
      ensures r == MustWait ==> !stopAtTest && |old(Queue())| == ring.capacity
      ensures old(Framed(Queue())) ==> Framed(Queue())
      ensures Queue() == if r == Done then old(Queue()) + [Encode(Stamped(now, frame))] else old(Queue())
    {
      if |frame| == 0 || |frame| > MAX_FRAME {
        return Refused;
      }
      r := ring.Write(LittleEndian(now, TIMESTAMP_SIZE) + frame, stopAtTest, stopAtCheck);
    }

    method ReadSlot(stopAtTest: bool, stopAtCheck: bool) returns (o: Outcome, slot: seq<Byte>)
      requires Valid()
      requires stopAtTest ==> stopAtCheck
      modifies ring`tail, ring`count
      ensures Valid() && o != Refused && |slot| <= SLOT_SIZE
      ensures o == MustWait || o == Stopped ==> old(Queue()) == [] && Queue() == []
      ensures o == Stopped ==> stopAtCheck
      ensures o == Done ==> old(Queue()) != [] && old(Queue())[0] == slot && Queue() == old(Queue())[1..]
      ensures old(Framed(Queue())) ==> Framed(Queue()) && (o == Done ==> TIMESTAMP_SIZE < |slot|)
    {
      ghost var before := Queue();
      var buf := new Byte[SLOT_SIZE](_ => 0);
      var n;
      o, n := ring.Read(buf, stopAtTest, stopAtCheck);
      slot := buf[..n];
      if o == Done {
        Front(before, slot, Queue());
      }
    }

    /** On slots written by `Write` the corruption branch is dead, and with room for 2040 bytes so is the
        size branch: every read gives back exactly the stamped frame at the front of the queue. */
    method Read(dest: array<Byte>, stopAtTest: bool, stopAtCheck: bool)
      returns (r: ReadOutcome, size: nat, ts: U64)
      requires Valid() && dest != ring.buffer
      requires stopAtTest ==> stopAtCheck
      modifies ring`tail, ring`count, dest
      ensures Valid()
      ensures old(Framed(Queue())) ==> r != Corrupt && Framed(Queue())
      ensures dest.Length >= 2040 ==> r != TooBig
      ensures r == Waits || r == Halted ==> old(Queue()) == [] && Queue() == [] && (r == Halted ==> stopAtCheck)
      ensures r == Corrupt || r == TooBig || r == Got ==> old(Queue()) != [] && Queue() == old(Queue())[1..]
      ensures r == Got ==>
                && size <= dest.Length
                && old(Queue())[0] == Encode(Stamped(ts, dest[..size]))
                && dest[size..] == old(dest[size..])
      ensures r != Got ==> dest[..] == old(dest[..])
    {
      var o, slot := ReadSlot(stopAtTest, stopAtCheck);
      if o == MustWait {
        return Waits, 0, 0;
      } else if o == Stopped {
        return Halted, 0, 0;
      }
      r, size, ts := Deliver(slot, dest);
    }
  }
}
