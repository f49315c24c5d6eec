/** Whole histories of encoded frames: what the flow table counts, in terms of what was sent. */
module Histories {
  import opened Bytes
  import opened Parsers
  import opened Dissector
  import opened Text
  import opened Stats
  import opened FlowTracker
  import opened RoundTrip

  datatype Sent = SentIp(ip: IpFrame) | SentArp(arp: ArpFrame)

  /** A frame as the pipeline finds it at the start of its buffer, with padding and stale bytes behind it. */
  datatype Capture = Capture(sent: Sent, buf: FrameBuf, size: nat, ts: U64)

  predicate Genuine(c: Capture) {
    && c.size <= BUF_SIZE
    && match c.sent
       case SentIp(f) => ValidFrame(f) && |Wire(f)| <= c.size && At(c.buf, 0, Wire(f))
       case SentArp(f) => 42 <= c.size && At(c.buf, 0, WireArp(f))
  }

  ghost predicate AllGenuine(cs: seq<Capture>) {
    forall i :: 0 <= i < |cs| ==> Genuine(cs[i])
  }

  /** What the stages make of it; a genuine frame is never dropped. */
  ghost function Processed(c: Capture, localIps: set<U32>): EnrichedFrame
    requires Genuine(c)
  {
    GenuineAccepted(c, localIps);
    Enrich(c.buf, c.size, c.ts, localIps).value
  }

  lemma GenuineAccepted(c: Capture, localIps: set<U32>)
    requires Genuine(c)
    ensures Enrich(c.buf, c.size, c.ts, localIps).Some?
  {
    match c.sent
    case SentIp(f) => IpRoundTrip(f, c.buf, c.size, c.ts, localIps);
    case SentArp(f) => ArpRoundTrip(f, c.buf, c.size, c.ts, localIps);
  }

  ghost function History(cs: seq<Capture>, localIps: set<U32>): (h: seq<EnrichedFrame>)
    requires AllGenuine(cs)
    ensures |h| == |cs|
  {
    if cs == [] then [] else
    History(cs[..|cs| - 1], localIps) + [Processed(cs[|cs| - 1], localIps)]
  }

  // ---- What was sent ----------------------------------------------------------------------------

  datatype Tuple = Tuple(src: U32, srcPort: U16, dst: U32, dstPort: U16)

  function Key(t: Tuple): string {
    MakeFlowKey(t.src, t.srcPort, t.dst, t.dstPort)
  }

  /** Sent from and to these addresses and ports, whatever the protocol; only TCP and UDP have ports. */
  predicate Belongs(s: Sent, t: Tuple) {
    && s.SentIp? && s.ip.ip.src == t.src && s.ip.ip.dst == t.dst
    && match s.ip.segment
       case Tcp(srcPort, dstPort, _, _, _, _, _, _, _, _) => srcPort == t.srcPort && dstPort == t.dstPort
       case Udp(srcPort, dstPort, _, _, _) => srcPort == t.srcPort && dstPort == t.dstPort
       case _ => t.srcPort == 0 && t.dstPort == 0
  }

  /** A quantity summed over the frames of a tuple. */
  ghost function Sum(cs: seq<Capture>, t: Tuple, localIps: set<U32>, weight: (IpFrame, set<U32>) -> nat): nat {
    if cs == [] then 0 else
    var last := cs[|cs| - 1].sent;
    Sum(cs[..|cs| - 1], t, localIps, weight) + (if Belongs(last, t) then weight(last.ip, localIps) else 0)
  }

  /** IP header, transport header and data. */
  function IpBytes(f: IpFrame, localIps: set<U32>): nat {
    if ValidFrame(f) then 20 + |f.ip.options| + |EncodeSegment(f.segment)| else 0
  }

  function BytesIn(f: IpFrame, localIps: set<U32>): nat {
    if f.ip.dst in localIps then IpBytes(f, localIps) else 0
  }

  function BytesOut(f: IpFrame, localIps: set<U32>): nat {
    if f.ip.dst !in localIps && f.ip.src in localIps then IpBytes(f, localIps) else 0
  }

  function Syns(f: IpFrame, localIps: set<U32>): nat {
    if f.segment.Tcp? && f.segment.flags.syn && !f.segment.flags.ack then 1 else 0
  }

  function SynAcks(f: IpFrame, localIps: set<U32>): nat {
    if f.segment.Tcp? && f.segment.flags.syn && f.segment.flags.ack then 1 else 0
  }

  function Resets(f: IpFrame, localIps: set<U32>): nat {
    if f.segment.Tcp? && f.segment.flags.rst then 1 else 0
  }

  /** TCP segments with a sequence number other than zero. */
  function Numbered(f: IpFrame, localIps: set<U32>): nat {
    if f.segment.Tcp? && f.segment.seqNum != 0 then 1 else 0
  }

  /** The sequence numbers other than zero sent between the ends of a tuple. */
  ghost function Numbers(cs: seq<Capture>, t: Tuple): set<U32> {
    if cs == [] then {} else
    var last := cs[|cs| - 1].sent;
    Numbers(cs[..|cs| - 1], t) +
    (if Belongs(last, t) && last.ip.segment.Tcp? && last.ip.segment.seqNum != 0 then {last.ip.segment.seqNum} else {})
  }

  // ---- The connection ---------------------------------------------------------------------------

  /** Two ways to weigh a frame agree: as sent and as enriched. */
  ghost predicate Weighs(localIps: set<U32>, weight: (IpFrame, set<U32>) -> nat, w: EnrichedFrame -> nat) {
    forall f: IpFrame, ok: bool, ts: U64 :: ValidFrame(f) ==> w(Expected(f, ok, ts, localIps)) == weight(f, localIps)
  }

  /** A processed frame has the key of a tuple exactly when it was sent between its ends. */
  lemma KeyBelongs(c: Capture, localIps: set<U32>, t: Tuple)
    requires Genuine(c)
    ensures Processed(c, localIps).flowKey == Key(t) <==> Belongs(c.sent, t)
  {
    match c.sent
    case SentIp(f) =>
      IpRoundTrip(f, c.buf, c.size, c.ts, localIps);
      TupleKeyInjective(f.ip.src, SegmentPorts(f.segment), f.ip.dst, t.src, (t.srcPort, t.dstPort), t.dst);
    case SentArp(f) =>
      ArpRoundTrip(f, c.buf, c.size, c.ts, localIps);
      assert MakeArpFlowKey(f.senderIp)[0] == 'A' && IsDigit(Key(t)[0]);
  }

  lemma ProcessedWeight(c: Capture, localIps: set<U32>, weight: (IpFrame, set<U32>) -> nat, w: EnrichedFrame -> nat)
    requires Genuine(c) && c.sent.SentIp? && Weighs(localIps, weight, w)
    ensures w(Processed(c, localIps)) == weight(c.sent.ip, localIps)
  {
    IpRoundTrip(c.sent.ip, c.buf, c.size, c.ts, localIps);
  }

  lemma {:induction false} SumIsTotal(cs: seq<Capture>, t: Tuple, localIps: set<U32>,
                                      weight: (IpFrame, set<U32>) -> nat, w: EnrichedFrame -> nat)
    requires AllGenuine(cs) && Weighs(localIps, weight, w)
    ensures Total(OfKey(History(cs, localIps), Key(t)), w) == Sum(cs, t, localIps, weight)
  {
    if cs != [] {
      var n := |cs| - 1;
      SumIsTotal(cs[..n], t, localIps, weight, w);
      var before, f := History(cs[..n], localIps), Processed(cs[n], localIps);
      OfKeyAppend(before, f, Key(t));
      KeyBelongs(cs[n], localIps, t);
      if Belongs(cs[n].sent, t) {
        ProcessedWeight(cs[n], localIps, weight, w);
        TotalAppend(OfKey(before, Key(t)), f, w);
      }
    }
  }

  /** The six control bits, read back from the byte that is kept. */
  lemma FlagTests(f: EnrichedFrame, flags: TcpFlags)
    requires f.flags == KeptFlags(flags)
    ensures Syn(f) == flags.syn && Ack(f) == flags.ack && Rst(f) == flags.rst
  {
    var high: nat := 2 * Bit(flags.urg) + Bit(flags.ack);
    var mid: nat := 2 * high + Bit(flags.psh);
    var low: nat := 2 * mid + Bit(flags.rst);
    assert f.flags / 0x10 == high;
    assert f.flags / 0x04 == low;
    assert f.flags / 0x02 == 2 * low + Bit(flags.syn);
  }

  lemma FlagWeights(localIps: set<U32>)
    ensures Weighs(localIps, Syns, OneSyn) && Weighs(localIps, SynAcks, OneSynAck) && Weighs(localIps, Resets, OneRst)
  {
    forall f: IpFrame, ok: bool, ts: U64 | ValidFrame(f)
      ensures var e := Expected(f, ok, ts, localIps);
              && OneSyn(e) == Syns(f, localIps) && OneSynAck(e) == SynAcks(f, localIps)
              && OneRst(e) == Resets(f, localIps)
    {
      if f.segment.Tcp? {
        FlagTests(Expected(f, ok, ts, localIps), f.segment.flags);
      }
    }
  }

  lemma ByteWeights(localIps: set<U32>)
    ensures Weighs(localIps, IpBytes, Size) && Weighs(localIps, BytesIn, SizeIn) && Weighs(localIps, BytesOut, SizeOut)
  {
  }

  lemma NumberWeights(localIps: set<U32>)
    ensures Weighs(localIps, Numbered, OneSequenced)
  {
  }

  lemma {:induction false} NumbersAgree(cs: seq<Capture>, t: Tuple, localIps: set<U32>)
    requires AllGenuine(cs)
    ensures SeqNums(OfKey(History(cs, localIps), Key(t))) == Numbers(cs, t)
  {
    if cs != [] {
      var n := |cs| - 1;
      NumbersAgree(cs[..n], t, localIps);
      var before, f := History(cs[..n], localIps), Processed(cs[n], localIps);
      OfKeyAppend(before, f, Key(t));
      KeyBelongs(cs[n], localIps, t);
      if Belongs(cs[n].sent, t) {
        IpRoundTrip(cs[n].sent.ip, cs[n].buf, cs[n].size, cs[n].ts, localIps);
        SeqNumsAppend(OfKey(before, Key(t)), f);
      }
    }
  }

  ghost predicate AnySent(cs: seq<Capture>, t: Tuple) {
    exists i :: 0 <= i < |cs| && Belongs(cs[i].sent, t)
  }

  lemma AnySentLast(cs: seq<Capture>, t: Tuple)
    requires cs != []
    ensures AnySent(cs, t) <==> AnySent(cs[..|cs| - 1], t) || Belongs(cs[|cs| - 1].sent, t)
  {
    var n := |cs| - 1;
    assert forall i :: 0 <= i < n ==> cs[..n][i] == cs[i];
  }

  lemma {:induction false} FramesExist(cs: seq<Capture>, t: Tuple, localIps: set<U32>)
    requires AllGenuine(cs)
    ensures OfKey(History(cs, localIps), Key(t)) != [] <==> AnySent(cs, t)
  {
    if cs != [] {
      var n := |cs| - 1;
      FramesExist(cs[..n], t, localIps);
      AnySentLast(cs, t);
      KeyBelongs(cs[n], localIps, t);
      OfKeyAppend(History(cs[..n], localIps), Processed(cs[n], localIps), Key(t));
    }
  }

  /** A tuple has a record exactly when something was sent between its ends. */
  lemma RecordExists(cs: seq<Capture>, localIps: set<U32>, t: Tuple)
    requires AllGenuine(cs)
    ensures Key(t) in After(History(cs, localIps)) <==> exists i :: 0 <= i < |cs| && Belongs(cs[i].sent, t)
  {
    FramesExist(cs, t, localIps);
    MatchesRecomputation(History(cs, localIps), Key(t));
  }

  /** After any history of encoded frames, a retransmitted sequence number is one sent before between the same
      ends, and the record counts these. */
  lemma CountsRetransmissions(cs: seq<Capture>, localIps: set<U32>, t: Tuple) returns (repeats: nat)
    requires AllGenuine(cs) && Key(t) in After(History(cs, localIps))
    ensures var r := After(History(cs, localIps))[Key(t)];
            && r.retransmitSet == Numbers(cs, t)
            && r.retransmitCount == repeats % TWO_32
    ensures repeats + |Numbers(cs, t)| == Sum(cs, t, localIps, Numbered)
  {
    RetransmitTotals(History(cs, localIps), Key(t));
    NumberWeights(localIps);
    SumIsTotal(cs, t, localIps, Numbered, OneSequenced);
    NumbersAgree(cs, t, localIps);
    repeats := Repeats(OfKey(History(cs, localIps), Key(t)));
  }

  /** After any history of encoded frames, the record of a 4-tuple holds the bytes sent between its ends, split
      by which end is local, and counts the segments sent with SYN, with SYN and ACK, and with RST. */
  lemma CountsWhatWasSent(cs: seq<Capture>, localIps: set<U32>, t: Tuple)
    requires AllGenuine(cs) && Key(t) in After(History(cs, localIps))
    ensures var r := After(History(cs, localIps))[Key(t)];
            && r.totalBytes == Sum(cs, t, localIps, IpBytes) % TWO_64
            && r.inboundBytes == Sum(cs, t, localIps, BytesIn) % TWO_64
            && r.outboundBytes == Sum(cs, t, localIps, BytesOut) % TWO_64
            && r.synCount == Sum(cs, t, localIps, Syns) % TWO_32
            && r.synAckCount == Sum(cs, t, localIps, SynAcks) % TWO_32
            && r.rstCount == Sum(cs, t, localIps, Resets) % TWO_32
  {
    MatchesRecomputation(History(cs, localIps), Key(t));
    FlagWeights(localIps);
    ByteWeights(localIps);
    SumIsTotal(cs, t, localIps, IpBytes, Size);
    SumIsTotal(cs, t, localIps, BytesIn, SizeIn);
    SumIsTotal(cs, t, localIps, BytesOut, SizeOut);
    SumIsTotal(cs, t, localIps, Syns, OneSyn);
    SumIsTotal(cs, t, localIps, SynAcks, OneSynAck);
    SumIsTotal(cs, t, localIps, Resets, OneRst);
  }
}
