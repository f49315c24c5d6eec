/** `FlowTable`: records updated frame by frame, against a recomputation from the whole history. */
module FlowTracker {
  import opened Bytes
  import opened Parsers
  import opened Dissector
  import opened Stats

  datatype FlowRecord = FlowRecord(
    flowKey: string, firstSeen: U64, lastSeen: U64,
    totalBytes: U64, inboundBytes: U64, outboundBytes: U64,
    synCount: U32, synAckCount: U32, rstCount: U32,
    retransmitCount: U32, retransmitSet: set<U32>)

  /** Unsigned addition at the two counter widths. */
  function Add64(a: U64, b: U64): U64 {
    if a + b < TWO_64 then a + b else a + b - TWO_64
  }

  function Inc32(a: U32): U32 {
    if a + 1 < TWO_32 then a + 1 else 0
  }

  type Table = map<string, FlowRecord>

  const FRESH := FlowRecord("", 0, 0, 0, 0, 0, 0, 0, 0, 0, {})

  predicate Syn(f: EnrichedFrame) { f.flags / 0x02 % 2 == 1 }
  predicate Rst(f: EnrichedFrame) { f.flags / 0x04 % 2 == 1 }
  predicate Ack(f: EnrichedFrame) { f.flags / 0x10 % 2 == 1 }
  predicate Sequenced(f: EnrichedFrame) { f.protocol == 6 && f.seqNum != 0 }

  function Lookup(t: Table, key: string): FlowRecord {
    if key in t then t[key] else FRESH
  }

  predicate IsRetransmit(t: Table, f: EnrichedFrame) {
    Sequenced(f) && f.seqNum in Lookup(t, f.flowKey).retransmitSet
  }

  /** One update of one record; counters wrap at their C++ width. */
  function Touch(r: FlowRecord, f: EnrichedFrame): FlowRecord {
    var size := f.packetSize;
    var tcp := f.protocol == 6;
    FlowRecord(
      if r.flowKey == "" then f.flowKey else r.flowKey,
      if r.flowKey == "" then f.timestamp else r.firstSeen,
      f.timestamp,
      Add64(r.totalBytes, size),
      if f.direction == Inbound then Add64(r.inboundBytes, size) else r.inboundBytes,
      if f.direction == Outbound then Add64(r.outboundBytes, size) else r.outboundBytes,
      if tcp && Syn(f) && !Ack(f) then Inc32(r.synCount) else r.synCount,
      if tcp && Syn(f) && Ack(f) then Inc32(r.synAckCount) else r.synAckCount,
      if tcp && Rst(f) then Inc32(r.rstCount) else r.rstCount,
      if Sequenced(f) && f.seqNum in r.retransmitSet then Inc32(r.retransmitCount) else r.retransmitCount,
      if Sequenced(f) then r.retransmitSet + {f.seqNum} else r.retransmitSet)
  }

  function Step(t: Table, f: EnrichedFrame): Table {
    t[f.flowKey := Touch(Lookup(t, f.flowKey), f)]
  }

  /** The first part of `update`: identity, timestamps and byte counters. */
  method CountBytes(before: FlowRecord, f: EnrichedFrame) returns (rec: FlowRecord)
    ensures rec == before.(
      flowKey := if before.flowKey == "" then f.flowKey else before.flowKey,
      firstSeen := if before.flowKey == "" then f.timestamp else before.firstSeen,
      lastSeen := f.timestamp,
      totalBytes := Add64(before.totalBytes, f.packetSize),
      inboundBytes := if f.direction == Inbound then Add64(before.inboundBytes, f.packetSize) else before.inboundBytes,
      outboundBytes := if f.direction == Outbound then Add64(before.outboundBytes, f.packetSize) else before.outboundBytes)
  {
    rec := before;
    if rec.flowKey == "" {
      rec := rec.(flowKey := f.flowKey, firstSeen := f.timestamp);
    }
    rec := rec.(lastSeen := f.timestamp);
    rec := rec.(totalBytes := Add64(rec.totalBytes, f.packetSize));
    if f.direction == Inbound {
      rec := rec.(inboundBytes := Add64(rec.inboundBytes, f.packetSize));
    } else if f.direction == Outbound {
      rec := rec.(outboundBytes := Add64(rec.outboundBytes, f.packetSize));
    }
  }

  /** The TCP part of `update`. */
  method CountTcp(before: FlowRecord, f: EnrichedFrame) returns (rec: FlowRecord, isRetransmit: bool)
    requires f.protocol == 6
    ensures isRetransmit == (Sequenced(f) && f.seqNum in before.retransmitSet)
    ensures rec == before.(
      synCount := if Syn(f) && !Ack(f) then Inc32(before.synCount) else before.synCount,
      synAckCount := if Syn(f) && Ack(f) then Inc32(before.synAckCount) else before.synAckCount,
      rstCount := if Rst(f) then Inc32(before.rstCount) else before.rstCount,
      retransmitCount := if isRetransmit then Inc32(before.retransmitCount) else before.retransmitCount,
      retransmitSet := if Sequenced(f) then before.retransmitSet + {f.seqNum} else before.retransmitSet)
  {
    rec, isRetransmit := before, false;
    if Syn(f) {
      if Ack(f) {
        rec := rec.(synAckCount := Inc32(rec.synAckCount));
      } else {
        rec := rec.(synCount := Inc32(rec.synCount));
      }
    }
    if Rst(f) {
      rec := rec.(rstCount := Inc32(rec.rstCount));
    }
    if f.seqNum != 0 {
      if f.seqNum in rec.retransmitSet {
        rec := rec.(retransmitCount := Inc32(rec.retransmitCount));
        isRetransmit := true;
      }
      rec := rec.(retransmitSet := rec.retransmitSet + {f.seqNum});
    }
  }

  class FlowTable {
    var table: Table

    constructor ()
      ensures table == map[]
    {
      table := map[];
    }

    method Update(f: EnrichedFrame) returns (isRetransmit: bool)
      modifies this
      ensures table == Step(old(table), f)
      ensures isRetransmit == IsRetransmit(old(table), f)
    {
      var rec := if f.flowKey in table then table[f.flowKey] else FRESH;
      isRetransmit := false;
      rec := CountBytes(rec, f);
      if f.protocol == 6 {
        rec, isRetransmit := CountTcp(rec, f);
      }
      table := table[f.flowKey := rec];
    }

    method Get(key: string) returns (rec: FlowRecord)
      ensures rec == Lookup(table, key)
    {
      rec := if key in table then table[key] else FRESH;
    }

    /** `flow_tracker`: update, then a copy of the record. */
    method Track(f: EnrichedFrame) returns (rec: FlowRecord, isRetransmit: bool)
      modifies this
      ensures table == Step(old(table), f)
      ensures rec == Lookup(table, f.flowKey)
      ensures isRetransmit == IsRetransmit(old(table), f)
    {
      isRetransmit := Update(f);
      rec := Get(f.flowKey);
    }
  }

  /** The table after a whole history. */
  function After(h: seq<EnrichedFrame>): Table {
    if h == [] then map[] else Step(After(h[..|h| - 1]), h[|h| - 1])
  }

  // ---- The reference: recompute a record from the frames of its key -----------------------------

  function OfKey(h: seq<EnrichedFrame>, key: string): (g: seq<EnrichedFrame>)
    ensures forall i :: 0 <= i < |g| ==> g[i].flowKey == key && g[i] in h
  {
    if h == [] then []
    else OfKey(h[..|h| - 1], key) + (if h[|h| - 1].flowKey == key then [h[|h| - 1]] else [])
  }

  function Total(h: seq<EnrichedFrame>, weight: EnrichedFrame -> nat): nat {
    if h == [] then 0 else Total(h[..|h| - 1], weight) + weight(h[|h| - 1])
  }

  function Size(f: EnrichedFrame): nat { f.packetSize }
  function SizeIn(f: EnrichedFrame): nat { if f.direction == Inbound then f.packetSize else 0 }
  function SizeOut(f: EnrichedFrame): nat { if f.direction == Outbound then f.packetSize else 0 }
  function OneSyn(f: EnrichedFrame): nat { if f.protocol == 6 && Syn(f) && !Ack(f) then 1 else 0 }
  function OneSynAck(f: EnrichedFrame): nat { if f.protocol == 6 && Syn(f) && Ack(f) then 1 else 0 }
  function OneRst(f: EnrichedFrame): nat { if f.protocol == 6 && Rst(f) then 1 else 0 }
  function OneSequenced(f: EnrichedFrame): nat { if Sequenced(f) then 1 else 0 }

  function SeqNums(h: seq<EnrichedFrame>): set<U32> {
    set f | f in h && Sequenced(f) :: f.seqNum
  }

  /** What the record of a key must be, given the nonempty list g of its frames. A frame counts as a
      retransmission when its sequence number is not new, so there are as many as there are sequenced
      frames beyond the distinct numbers. The empty key never looks initialised. */
  function Summary(g: seq<EnrichedFrame>): FlowRecord
    requires g != []
  {
    var last := g[|g| - 1];
    FlowRecord(
      last.flowKey, if last.flowKey == "" then last.timestamp else g[0].timestamp, last.timestamp,
      Total(g, Size) % TWO_64, Total(g, SizeIn) % TWO_64, Total(g, SizeOut) % TWO_64,
      Total(g, OneSyn) % TWO_32, Total(g, OneSynAck) % TWO_32, Total(g, OneRst) % TWO_32,
      Repeats(g) % TWO_32, SeqNums(g))
  }

  /** Sequenced frames beyond the distinct sequence numbers. */
  function Repeats(g: seq<EnrichedFrame>): nat {
    DistinctAtMost(g);
    Total(g, OneSequenced) - |SeqNums(g)|
  }

  lemma {:induction false} DistinctAtMost(g: seq<EnrichedFrame>)
    ensures |SeqNums(g)| <= Total(g, OneSequenced)
  {
    if g != [] {
      var n := |g| - 1;
      DistinctAtMost(g[..n]);
      assert g == g[..n] + [g[n]];
      SeqNumsAppend(g[..n], g[n]);
    }
  }

  lemma Wrap32(n: nat)
    ensures (n + 1) % TWO_32 == Inc32(n % TWO_32)
  {
  }

  lemma SeqNumsAppend(g: seq<EnrichedFrame>, f: EnrichedFrame)
    ensures SeqNums(g + [f]) == SeqNums(g) + (if Sequenced(f) then {f.seqNum} else {})
  {
  }

  lemma TotalAppend(g: seq<EnrichedFrame>, f: EnrichedFrame, weight: EnrichedFrame -> nat)
    ensures Total(g + [f], weight) == Total(g, weight) + weight(f)
  {
  }

  lemma TotalWrap64(g: seq<EnrichedFrame>, f: EnrichedFrame, weight: EnrichedFrame -> nat)
    requires weight(f) < TWO_64
    ensures Total(g + [f], weight) % TWO_64 == Add64(Total(g, weight) % TWO_64, weight(f))
  {
  }

  lemma TotalWrap32(g: seq<EnrichedFrame>, f: EnrichedFrame, weight: EnrichedFrame -> nat)
    requires weight(f) <= 1
    ensures Total(g + [f], weight) % TWO_32
            == if weight(f) == 1 then Inc32(Total(g, weight) % TWO_32) else Total(g, weight) % TWO_32
  {
  }

  lemma RepeatsStep(g: seq<EnrichedFrame>, f: EnrichedFrame)
    ensures Repeats(g + [f]) == Repeats(g) + (if Sequenced(f) && f.seqNum in SeqNums(g) then 1 else 0)
  {
    TotalAppend(g, f, OneSequenced);
    SeqNumsAppend(g, f);
    if Sequenced(f) && f.seqNum !in SeqNums(g) {
      assert |SeqNums(g) + {f.seqNum}| == |SeqNums(g)| + 1;
    } else if Sequenced(f) {
      assert SeqNums(g) + {f.seqNum} == SeqNums(g);
    }
  }

  lemma RepeatsAppend(g: seq<EnrichedFrame>, f: EnrichedFrame)
    ensures Repeats(g + [f]) % TWO_32
            == if Sequenced(f) && f.seqNum in SeqNums(g) then Inc32(Repeats(g) % TWO_32) else Repeats(g) % TWO_32
  {
    RepeatsStep(g, f);
    Wrap32(Repeats(g));
  }

  /** The record an update starts from. */
  function Base(g: seq<EnrichedFrame>): FlowRecord {
    if g == [] then FRESH else Summary(g)
  }

  lemma TouchBytes(g: seq<EnrichedFrame>, f: EnrichedFrame)
    ensures var r, s := Touch(Base(g), f), Summary(g + [f]);
            r.totalBytes == s.totalBytes && r.inboundBytes == s.inboundBytes && r.outboundBytes == s.outboundBytes
  {
    TotalWrap64(g, f, Size);
    TotalWrap64(g, f, SizeIn);
    TotalWrap64(g, f, SizeOut);
  }

  lemma TouchFlags(g: seq<EnrichedFrame>, f: EnrichedFrame)
    ensures var r, s := Touch(Base(g), f), Summary(g + [f]);
            r.synCount == s.synCount && r.synAckCount == s.synAckCount && r.rstCount == s.rstCount
  {
    TotalWrap32(g, f, OneSyn);
    TotalWrap32(g, f, OneSynAck);
    TotalWrap32(g, f, OneRst);
  }

  lemma TouchStamps(g: seq<EnrichedFrame>, f: EnrichedFrame)
    requires forall i :: 0 <= i < |g| ==> g[i].flowKey == f.flowKey
    ensures var r, s := Touch(Base(g), f), Summary(g + [f]);
            r.flowKey == s.flowKey && r.firstSeen == s.firstSeen && r.lastSeen == s.lastSeen
  {
  }

  lemma TouchSeqNums(g: seq<EnrichedFrame>, f: EnrichedFrame)
    ensures var r, s := Touch(Base(g), f), Summary(g + [f]);
            r.retransmitCount == s.retransmitCount && r.retransmitSet == s.retransmitSet
  {
    assert Base(g).retransmitSet == SeqNums(g);
    assert Base(g).retransmitCount == Repeats(g) % TWO_32;
    RepeatsAppend(g, f);
    SeqNumsAppend(g, f);
  }

  /** The incremental update of a summary is the summary of the longer list. */
  lemma TouchSummary(g: seq<EnrichedFrame>, f: EnrichedFrame)
    requires forall i :: 0 <= i < |g| ==> g[i].flowKey == f.flowKey
    ensures Touch(Base(g), f) == Summary(g + [f])
  {
    TouchBytes(g, f);
    TouchFlags(g, f);
    TouchStamps(g, f);
    TouchSeqNums(g, f);
  }

  /** The entry for a key is the summary of g, and absent when g is empty. */
  ghost predicate Entry(t: Table, key: string, g: seq<EnrichedFrame>) {
    (key in t <==> g != []) && (g != [] ==> t[key] == Summary(g))
  }

  lemma EntryStep(t: Table, key: string, g: seq<EnrichedFrame>, f: EnrichedFrame)
    requires Entry(t, key, g) && forall i :: 0 <= i < |g| ==> g[i].flowKey == key
    ensures Entry(Step(t, f), key, if f.flowKey == key then g + [f] else g)
  {
    if f.flowKey == key {
      TouchSummary(g, f);
    }
  }

  /** After any history, the table holds exactly the keys seen, each with the record recomputed from the
      frames of that key alone. */
  lemma {:induction false} MatchesRecomputation(h: seq<EnrichedFrame>, key: string)
    ensures Entry(After(h), key, OfKey(h, key))
  {
    if h != [] {
      var n := |h| - 1;
      MatchesRecomputation(h[..n], key);
      EntryStep(After(h[..n]), key, OfKey(h[..n], key), h[n]);
      assert OfKey(h, key) == if h[n].flowKey == key then OfKey(h[..n], key) + [h[n]] else OfKey(h[..n], key);
    }
  }

  lemma {:induction false} OfKeyIdempotent(h: seq<EnrichedFrame>, key: string)
    requires forall i :: 0 <= i < |h| ==> h[i].flowKey == key
    ensures OfKey(h, key) == h
  {
    if h != [] {
      OfKeyIdempotent(h[..|h| - 1], key);
    }
  }

  /** Flow isolation: frames of other keys make no difference to a record. */
  lemma Isolation(h: seq<EnrichedFrame>, key: string)
    ensures Lookup(After(h), key) == Lookup(After(OfKey(h, key)), key)
  {
    MatchesRecomputation(h, key);
    OfKeyIdempotent(OfKey(h, key), key);
    MatchesRecomputation(OfKey(h, key), key);
  }

  lemma {:induction false} OfKeyMember(h: seq<EnrichedFrame>, key: string, f: EnrichedFrame)
    ensures f in OfKey(h, key) <==> f in h && f.flowKey == key
  {
    if h != [] {
      var n := |h| - 1;
      OfKeyMember(h[..n], key, f);
      assert h == h[..n] + [h[n]];
    }
  }

  /** The flag is raised exactly when an earlier TCP frame of the same flow had the same nonzero number. */
  lemma {:induction false} RetransmitExactly(h: seq<EnrichedFrame>, f: EnrichedFrame)
    ensures IsRetransmit(After(h), f) <==>
              && f.protocol == 6 && f.seqNum != 0
              && exists e :: e in h && e.flowKey == f.flowKey && e.protocol == 6 && e.seqNum == f.seqNum
  {
    var g := OfKey(h, f.flowKey);
    MatchesRecomputation(h, f.flowKey);
    if IsRetransmit(After(h), f) {
      assert g != [] && f.seqNum in SeqNums(g);
      var e :| e in g && Sequenced(e) && e.seqNum == f.seqNum;
      OfKeyMember(h, f.flowKey, e);
    } else if Sequenced(f) {
      forall e | e in h && e.flowKey == f.flowKey && Sequenced(e)
        ensures e.seqNum != f.seqNum
      {
        OfKeyMember(h, f.flowKey, e);
        assert e.seqNum in SeqNums(g);
      }
    }
  }

  /** The sequence numbers seen, and how many frames repeated one of them. */
  lemma RetransmitTotals(h: seq<EnrichedFrame>, key: string)
    requires key in After(h)
    ensures var g, r := OfKey(h, key), After(h)[key];
            && r.retransmitSet == SeqNums(g)
            && r.retransmitCount == Repeats(g) % TWO_32 && Repeats(g) + |SeqNums(g)| == Total(g, OneSequenced)
  {
    MatchesRecomputation(h, key);
  }

  /** Key, first and last timestamp of every stored record; a nonempty key is what keeps the first one. */
  lemma RecordIdentity(h: seq<EnrichedFrame>, key: string)
    requires key in After(h)
    ensures var g, r := OfKey(h, key), After(h)[key];
            && g != [] && r.flowKey == key && r.lastSeen == g[|g| - 1].timestamp
            && (r.firstSeen == g[0].timestamp <==> key != "" || g[0].timestamp == g[|g| - 1].timestamp)
  {
    MatchesRecomputation(h, key);
  }

  // ---- Reordering -------------------------------------------------------------------------------

  lemma {:induction false} OfKeyMultiset(h: seq<EnrichedFrame>, key: string, f: EnrichedFrame)
    ensures multiset(OfKey(h, key))[f] == if f.flowKey == key then multiset(h)[f] else 0
  {
    if h != [] {
      var n := |h| - 1;
      OfKeyMultiset(h[..n], key, f);
      assert h == h[..n] + [h[n]];
      CountAppend(h[..n], h[n], f);
      OfKeyAppend(h[..n], h[n], key);
      if h[n].flowKey == key {
        CountAppend(OfKey(h[..n], key), h[n], f);
      }
    }
  }

  lemma {:induction false} OfKeyAppend(h: seq<EnrichedFrame>, f: EnrichedFrame, key: string)
    ensures OfKey(h + [f], key) == if f.flowKey == key then OfKey(h, key) + [f] else OfKey(h, key)
  {
    assert (h + [f])[..|h|] == h;
  }

  lemma CountAppend<T>(s: seq<T>, x: T, f: T)
    ensures multiset(s + [x])[f] == multiset(s)[f] + (if x == f then 1 else 0)
  {
  }

  lemma OfKeyReorder(h: seq<EnrichedFrame>, h': seq<EnrichedFrame>, key: string)
    requires multiset(h) == multiset(h')
    ensures multiset(OfKey(h, key)) == multiset(OfKey(h', key)) && |OfKey(h, key)| == |OfKey(h', key)|
  {
    var g, g' := OfKey(h, key), OfKey(h', key);
    forall f ensures multiset(g)[f] == multiset(g')[f] {
      OfKeyMultiset(h, key, f);
      OfKeyMultiset(h', key, f);
    }
    assert multiset(g) == multiset(g');
    assert |multiset(g)| == |g| && |multiset(g')| == |g'|;
  }

  lemma {:induction false} TotalConcat(a: seq<EnrichedFrame>, b: seq<EnrichedFrame>, weight: EnrichedFrame -> nat)
    ensures Total(a + b, weight) == Total(a, weight) + Total(b, weight)
  {
    if b == [] {
      assert a + b == a;
    } else {
      var n := |b| - 1;
      TotalConcat(a, b[..n], weight);
      assert (a + b)[..|a + b| - 1] == a + b[..n];
    }
  }

  lemma TotalMiddle(a: seq<EnrichedFrame>, f: EnrichedFrame, b: seq<EnrichedFrame>, weight: EnrichedFrame -> nat)
    ensures Total(a + [f] + b, weight) == weight(f) + Total(a + b, weight)
  {
    TotalConcat(a + [f], b, weight);
    TotalAppend(a, f, weight);
    TotalConcat(a, b, weight);
  }

  lemma TotalRemove(h: seq<EnrichedFrame>, i: nat, weight: EnrichedFrame -> nat)
    requires i < |h|
    ensures Total(h, weight) == weight(h[i]) + Total(h[..i] + h[i + 1..], weight)
  {
    SplitAt(h, i);
    TotalMiddle(h[..i], h[i], h[i + 1..], weight);
  }

  lemma {:induction false} TotalReorder(g: seq<EnrichedFrame>, h: seq<EnrichedFrame>, weight: EnrichedFrame -> nat)
    requires multiset(g) == multiset(h)
    ensures Total(g, weight) == Total(h, weight)
    decreases |g|
  {
    if g == [] {
      assert |multiset(h)| == 0;
    } else {
      var i := PermutationHead(g, h);
      TotalReorder(g[1..], h[..i] + h[i + 1..], weight);
      TotalRemove(h, i, weight);
      TotalRemove(g, 0, weight);
      assert g[..0] + g[1..] == g[1..];
    }
  }

  lemma SummaryReorder(g: seq<EnrichedFrame>, h: seq<EnrichedFrame>)
    requires g != [] && h != [] && multiset(g) == multiset(h)
    ensures Counters(Summary(g)) == Counters(Summary(h))
  {
    TotalReorder(g, h, Size);
    TotalReorder(g, h, SizeIn);
    TotalReorder(g, h, SizeOut);
    TotalReorder(g, h, OneSyn);
    TotalReorder(g, h, OneSynAck);
    TotalReorder(g, h, OneRst);
    TotalReorder(g, h, OneSequenced);
    assert forall f :: f in g <==> f in multiset(g);
    assert forall f :: f in h <==> f in multiset(h);
    assert SeqNums(g) == SeqNums(h);
  }

  /** The record without its key and timestamps. */
  function Counters(r: FlowRecord): FlowRecord {
    r.(flowKey := "", firstSeen := 0, lastSeen := 0)
  }

  /** Byte, flag and retransmission totals of every flow do not depend on the order of the frames. */
  lemma OrderIndependent(h: seq<EnrichedFrame>, h': seq<EnrichedFrame>, key: string)
    requires multiset(h) == multiset(h')
    ensures Counters(Lookup(After(h), key)) == Counters(Lookup(After(h'), key))
  {
    var g, g' := OfKey(h, key), OfKey(h', key);
    MatchesRecomputation(h, key);
    MatchesRecomputation(h', key);
    OfKeyReorder(h, h', key);
    if g != [] {
      SummaryReorder(g, g');
    }
  }

  // ---- Counter range ----------------------------------------------------------------------------

  lemma {:induction false} TotalBound(h: seq<EnrichedFrame>, weight: EnrichedFrame -> nat, bound: nat)
    requires forall f :: f in h ==> weight(f) <= bound
    ensures Total(h, weight) <= bound * |h|
  {
    if h != [] {
      var n := |h| - 1;
      assert h[n] in h;
      TotalBound(h[..n], weight, bound);
      assert bound * |h| == bound * n + bound;
    }
  }

  lemma {:induction false} OfKeyLength(h: seq<EnrichedFrame>, key: string)
    ensures |OfKey(h, key)| <= |h|
  {
    if h != [] {
      OfKeyLength(h[..|h| - 1], key);
    }
  }

  /** With packets of at most 2026 bytes, no counter wraps in fewer than 2^32 frames: every field of every
      record is the exact total, and retransmissions plus distinct numbers are the sequenced frames. */
  lemma NoCounterWraps(h: seq<EnrichedFrame>, key: string)
    requires |h| < TWO_32 && key in After(h)
    requires forall f :: f in h ==> f.packetSize <= 2026
    ensures var g, r := OfKey(h, key), After(h)[key];
            && r.totalBytes == Total(g, Size) <= 2026 * |h|
            && r.inboundBytes == Total(g, SizeIn) && r.outboundBytes == Total(g, SizeOut)
            && r.synCount == Total(g, OneSyn) && r.synAckCount == Total(g, OneSynAck)
            && r.rstCount == Total(g, OneRst)
            && r.retransmitCount + |r.retransmitSet| == Total(g, OneSequenced)
  {
    var g := OfKey(h, key);
    MatchesRecomputation(h, key);
    OfKeyLength(h, key);
    forall f | f in g ensures f.packetSize <= 2026 {
      OfKeyMember(h, key, f);
    }
    TotalBound(g, Size, 2026);
    TotalBound(g, SizeIn, 2026);
    TotalBound(g, SizeOut, 2026);
    TotalBound(g, OneSyn, 1);
    TotalBound(g, OneSynAck, 1);
    TotalBound(g, OneRst, 1);
    TotalBound(g, OneSequenced, 1);
    Below64(Total(g, Size), |g|);
    Below64(Total(g, SizeIn), |g|);
    Below64(Total(g, SizeOut), |g|);
    Below32(Total(g, OneSyn));
    Below32(Total(g, OneSynAck));
    Below32(Total(g, OneRst));
    Below32(Repeats(g));
  }

  lemma Below64(x: nat, n: nat)
    requires x <= 2026 * n && n < TWO_32
    ensures x % TWO_64 == x
  {
  }

  lemma Below32(x: nat)
    requires x < TWO_32
    ensures x % TWO_32 == x
  {
  }

  // ---- One-sided flows --------------------------------------------------------------------------

  /** Frames as the dissector produces them for a fixed set of local addresses: what goes to one of them is
      inbound, what else comes from one is outbound. */
  predicate Directed(d: Dissected, localIps: set<U32>) {
    !d.Arp? ==>
      && (d.ip.direction == Inbound <==> d.ip.dstIp in localIps)
      && (d.ip.direction == Outbound <==> d.ip.dstIp !in localIps && d.ip.srcIp in localIps)
  }

  function Enriched(ds: seq<Dissected>): seq<EnrichedFrame> {
    seq(|ds|, i requires 0 <= i < |ds| => StatsStage(ds[i]))
  }

  lemma {:induction false} OneDirection(g: seq<EnrichedFrame>, direction: Direction)
    requires forall i :: 0 <= i < |g| ==> g[i].direction == direction
    ensures Total(g, SizeIn) == if direction == Inbound then Total(g, Size) else 0
    ensures Total(g, SizeOut) == if direction == Outbound then Total(g, Size) else 0
  {
    if g != [] {
      OneDirection(g[..|g| - 1], direction);
    }
  }

  /** Which way the bytes of a key went: with a fixed local address set the addresses in the key decide. */
  ghost predicate Sided(r: FlowRecord, key: string, localIps: set<U32>) {
    && (forall src: U32, srcPort: U16, dst: U32, dstPort: U16 ::
          key == MakeFlowKey(src, srcPort, dst, dstPort) ==>
            && r.inboundBytes == (if dst in localIps then r.totalBytes else 0)
            && r.outboundBytes == (if dst !in localIps && src in localIps then r.totalBytes else 0))
    && (forall sender: U32 :: key == MakeArpFlowKey(sender) ==> r.inboundBytes == 0 && r.outboundBytes == 0)
  }

  /** Every key is that of an ARP sender or of a directed 4-tuple. */
  ghost predicate KeyOfFrame(key: string) {
    || (exists sender: U32 :: key == MakeArpFlowKey(sender))
    || (exists src: U32, srcPort: U16, dst: U32, dstPort: U16 :: key == MakeFlowKey(src, srcPort, dst, dstPort))
  }

  /** The direction that a key implies. */
  ghost predicate Points(key: string, direction: Direction, localIps: set<U32>) {
    && (forall src: U32, srcPort: U16, dst: U32, dstPort: U16 ::
          key == MakeFlowKey(src, srcPort, dst, dstPort) ==>
            && (direction == Inbound <==> dst in localIps)
            && (direction == Outbound <==> dst !in localIps && src in localIps))
    && (forall sender: U32 :: key == MakeArpFlowKey(sender) ==> direction == Unknown)
  }

  /** The key determines both addresses, and these determine the direction. */
  lemma KeyPoints(d: Dissected, localIps: set<U32>)
    requires Directed(d, localIps)
    ensures Points(StatsStage(d).flowKey, StatsStage(d).direction, localIps) && KeyOfFrame(StatsStage(d).flowKey)
  {
    var key := StatsStage(d).flowKey;
    KeyShape(d);
    if !d.Arp? {
      forall src: U32, srcPort: U16, dst: U32, dstPort: U16 | key == MakeFlowKey(src, srcPort, dst, dstPort)
        ensures src == d.ip.srcIp && dst == d.ip.dstIp
      {
        TupleKeyInjective(src, (srcPort, dstPort), dst, d.ip.srcIp, Ports(d), d.ip.dstIp);
      }
    }
  }

  lemma SameDirection(d: Dissected, e: Dissected, localIps: set<U32>)
    requires Directed(d, localIps) && Directed(e, localIps)
    ensures StatsStage(d).flowKey == StatsStage(e).flowKey ==> StatsStage(d).direction == StatsStage(e).direction
  {
    FlowKeyInjective(d, e);
  }

  /** In every run with a fixed local address set, all bytes of a flow went the way its addresses say. */
  lemma OneSided(ds: seq<Dissected>, localIps: set<U32>, key: string)
    requires forall i :: 0 <= i < |ds| ==> Directed(ds[i], localIps)
    requires key in After(Enriched(ds))
    ensures var r := After(Enriched(ds))[key];
            && Sided(r, key, localIps) && KeyOfFrame(key)
            && (|| (r.inboundBytes == r.totalBytes && r.outboundBytes == 0)
                || (r.inboundBytes == 0 && r.outboundBytes == r.totalBytes)
                || (r.inboundBytes == 0 && r.outboundBytes == 0))
  {
    var direction := DirectionOfKey(ds, localIps, key);
    OneSidedRecord(Enriched(ds), key, direction);
    SidedRecord(After(Enriched(ds))[key], key, direction, localIps);
  }

  /** All frames of a key go the same way. */
  lemma DirectionOfKey(ds: seq<Dissected>, localIps: set<U32>, key: string) returns (direction: Direction)
    requires forall i :: 0 <= i < |ds| ==> Directed(ds[i], localIps)
    requires key in After(Enriched(ds))
    ensures Points(key, direction, localIps) && KeyOfFrame(key)
    ensures forall f :: f in Enriched(ds) && f.flowKey == key ==> f.direction == direction
  {
    var i := FrameOfKey(ds, key);
    direction := StatsStage(ds[i]).direction;
    KeyPoints(ds[i], localIps);
    forall f | f in Enriched(ds) && f.flowKey == key ensures f.direction == direction {
      DirectionOfFrame(ds, localIps, i, f);
    }
  }

  lemma DirectionOfFrame(ds: seq<Dissected>, localIps: set<U32>, i: nat, f: EnrichedFrame)
    requires forall j :: 0 <= j < |ds| ==> Directed(ds[j], localIps)
    requires i < |ds| && f in Enriched(ds) && f.flowKey == StatsStage(ds[i]).flowKey
    ensures f.direction == StatsStage(ds[i]).direction
  {
    var j :| 0 <= j < |ds| && Enriched(ds)[j] == f;
    SameDirection(ds[j], ds[i], localIps);
  }

  lemma FrameOfKey(ds: seq<Dissected>, key: string) returns (i: nat)
    requires key in After(Enriched(ds))
    ensures i < |ds| && StatsStage(ds[i]).flowKey == key
  {
    var h := Enriched(ds);
    MatchesRecomputation(h, key);
    var f := OfKey(h, key)[0];
    assert f in h;
    i :| 0 <= i < |h| && h[i] == f;
  }

  lemma OneSidedRecord(h: seq<EnrichedFrame>, key: string, direction: Direction)
    requires key in After(h) && forall f :: f in h && f.flowKey == key ==> f.direction == direction
    ensures var r := After(h)[key];
            && r.inboundBytes == (if direction == Inbound then r.totalBytes else 0)
            && r.outboundBytes == (if direction == Outbound then r.totalBytes else 0)
  {
    MatchesRecomputation(h, key);
    OneDirection(OfKey(h, key), direction);
  }

  lemma SidedRecord(r: FlowRecord, key: string, direction: Direction, localIps: set<U32>)
    requires Points(key, direction, localIps)
    requires r.inboundBytes == (if direction == Inbound then r.totalBytes else 0)
    requires r.outboundBytes == (if direction == Outbound then r.totalBytes else 0)
    ensures Sided(r, key, localIps)
  {
  }
}
