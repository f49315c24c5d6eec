/** `stats_stage`: the flat record handed to the flow tracker and the publisher, with its flow key. */
module Stats {
  import opened Bytes
  import opened Parsers
  import opened Dissector
  import opened Text

  datatype EnrichedFrame = EnrichedFrame(
    timestamp: U64, srcIp: U32, dstIp: U32, protocol: Byte, packetSize: U16, direction: Direction,
    srcPort: U16, dstPort: U16, flags: Byte, seqNum: U32,
    arpSenderIp: U32, arpSenderMac: Mac, arpTargetIp: U32, arpOpcode: U16,
    icmpType: Byte, icmpCode: Byte, ttl: Byte, srcMac: Mac, dstMac: Mac, checksumValid: bool,
    flowKey: string)

  /** The member initialisers of the record. */
  const BLANK := EnrichedFrame(0, 0, 0, 0, 0, Unknown, 0, 0, 0, 0, 0, NO_MAC, 0, 0, 0, 0, 0, NO_MAC, NO_MAC, true, "")

  function MakeFlowKey(srcIp: U32, srcPort: U16, dstIp: U32, dstPort: U16): string {
    IpText(srcIp) + [':'] + (Dec(srcPort) + ['-'] + (['>'] + (IpText(dstIp) + [':'] + Dec(dstPort))))
  }

  function MakeArpFlowKey(senderIp: U32): string {
    "ARP:" + IpText(senderIp)
  }

  function FromIp(eth: EthernetFrame, ip: IpHeader, ts: U64): EnrichedFrame {
    BLANK.(timestamp := ts, srcIp := ip.srcIp, dstIp := ip.dstIp, protocol := ip.protocol,
           packetSize := ip.totalLength, direction := ip.direction, ttl := ip.ttl,
           srcMac := eth.srcMac, dstMac := eth.dstMac, checksumValid := ip.checksumOk)
  }

  /** Every dissected frame is enriched; the stage never drops one. */
  function StatsStage(d: Dissected): EnrichedFrame {
    match d
    case IpTcp(eth, ip, tcp, ts) =>
      FromIp(eth, ip, ts).(srcPort := tcp.srcPort, dstPort := tcp.dstPort, flags := tcp.flags,
                           seqNum := tcp.seqNum,
                           flowKey := MakeFlowKey(ip.srcIp, tcp.srcPort, ip.dstIp, tcp.dstPort))
    case IpUdp(eth, ip, udp, ts) =>
      FromIp(eth, ip, ts).(srcPort := udp.srcPort, dstPort := udp.dstPort,
                           flowKey := MakeFlowKey(ip.srcIp, udp.srcPort, ip.dstIp, udp.dstPort))
    case IpIcmp(eth, ip, icmp, ts) =>
      FromIp(eth, ip, ts).(packetSize := icmp.packetSize, icmpType := icmp.kind, icmpCode := icmp.code,
                           flowKey := MakeFlowKey(ip.srcIp, 0, ip.dstIp, 0))
    case Arp(eth, arp, ts) =>
      BLANK.(timestamp := ts, srcIp := arp.senderIp, dstIp := arp.targetIp,
             srcMac := eth.srcMac, dstMac := eth.dstMac,
             arpSenderIp := arp.senderIp, arpSenderMac := arp.senderMac, arpTargetIp := arp.targetIp,
             arpOpcode := arp.oper, flowKey := MakeArpFlowKey(arp.senderIp))
    case IpOther(eth, ip, ts) =>
      FromIp(eth, ip, ts).(flowKey := MakeFlowKey(ip.srcIp, 0, ip.dstIp, 0))
  }

  /** The whole per-frame computation of the pipeline thread up to the flow tracker. */
  function Enrich(buf: FrameBuf, size: nat, ts: U64, localIps: set<U32>): Option<EnrichedFrame>
    requires size <= BUF_SIZE
  {
    var d := Process(buf, size, ts, localIps);
    if d.None? then None else Some(StatsStage(d.value))
  }

  // ---- Flow keys --------------------------------------------------------------------------------

  function Ports(d: Dissected): (U16, U16) {
    match d
    case IpTcp(_, _, tcp, _) => (tcp.srcPort, tcp.dstPort)
    case IpUdp(_, _, udp, _) => (udp.srcPort, udp.dstPort)
    case _ => (0, 0)
  }

  /** Same ARP sender, or same directed 4-tuple. The protocol plays no part. */
  predicate SameFlow(d: Dissected, e: Dissected) {
    if d.Arp? || e.Arp? then d.Arp? && e.Arp? && d.arp.senderIp == e.arp.senderIp
    else d.ip.srcIp == e.ip.srcIp && d.ip.dstIp == e.ip.dstIp && Ports(d) == Ports(e)
  }

  function UnFlowKey(s: string): (nat, nat, nat, nat) {
    var (a, r) := Cut(s, ':');
    var (b, q) := Cut(r, '-');
    var (c, d) := Cut(if q == [] then [] else q[1..], ':');
    (UnIpText(a), UnDec(b), UnIpText(c), UnDec(d))
  }

  lemma UnFlowKeyMakeFlowKey(srcIp: U32, srcPort: U16, dstIp: U32, dstPort: U16)
    ensures UnFlowKey(MakeFlowKey(srcIp, srcPort, dstIp, dstPort)) == (srcIp, srcPort, dstIp, dstPort)
  {
    var t := IpText(dstIp) + [':'] + Dec(dstPort);
    var q := ['>'] + t;
    CutAt(IpText(srcIp), ':', Dec(srcPort) + ['-'] + q);
    CutAt(Dec(srcPort), '-', q);
    assert q[1..] == t;
    CutAt(IpText(dstIp), ':', Dec(dstPort));
    UnIpTextIpText(srcIp);
    UnIpTextIpText(dstIp);
    UnDecDec(srcPort);
    UnDecDec(dstPort);
  }

  /** Two frames share a flow key exactly when they share the ARP sender or the directed 4-tuple. */
  lemma FlowKeyInjective(d: Dissected, e: Dissected)
    ensures StatsStage(d).flowKey == StatsStage(e).flowKey <==> SameFlow(d, e)
  {
    KeyShape(d);
    KeyShape(e);
    if d.Arp? && e.Arp? {
      ArpKeyInjective(d.arp.senderIp, e.arp.senderIp);
    } else if !d.Arp? && !e.Arp? {
      TupleKeyInjective(d.ip.srcIp, Ports(d), d.ip.dstIp, e.ip.srcIp, Ports(e), e.ip.dstIp);
    }
  }

  lemma TupleKeyInjective(src: U32, ports: (U16, U16), dst: U32, src': U32, ports': (U16, U16), dst': U32)
    ensures MakeFlowKey(src, ports.0, dst, ports.1) == MakeFlowKey(src', ports'.0, dst', ports'.1) ==>
              src == src' && ports == ports' && dst == dst'
  {
    UnFlowKeyMakeFlowKey(src, ports.0, dst, ports.1);
    UnFlowKeyMakeFlowKey(src', ports'.0, dst', ports'.1);
  }

  lemma ArpKeyInjective(a: U32, b: U32)
    ensures MakeArpFlowKey(a) == MakeArpFlowKey(b) ==> a == b
  {
    UnIpTextIpText(a);
    UnIpTextIpText(b);
    assert MakeArpFlowKey(a)[4..] == IpText(a) && MakeArpFlowKey(b)[4..] == IpText(b);
  }

  /** The exact text of both kinds of key. */
  lemma KeyText(d: Dissected)
    ensures !d.Arp? ==>
              StatsStage(d).flowKey
              == IpText(d.ip.srcIp) + ":" + Dec(Ports(d).0) + "->" + IpText(d.ip.dstIp) + ":" + Dec(Ports(d).1)
    ensures d.Arp? ==> StatsStage(d).flowKey == ['A', 'R', 'P', ':'] + IpText(d.arp.senderIp)
  {
    KeyShape(d);
    if !d.Arp? {
      KeyParts(IpText(d.ip.srcIp), Dec(Ports(d).0), IpText(d.ip.dstIp), Dec(Ports(d).1));
    }
  }

  lemma KeyParts(a: string, b: string, c: string, d: string)
    ensures a + [':'] + (b + ['-'] + (['>'] + (c + [':'] + d))) == a + ":" + b + "->" + c + ":" + d
  {
  }

  /** Keys are never empty, and ARP keys never look like the others. */
  lemma KeyShape(d: Dissected)
    ensures var key := StatsStage(d).flowKey;
            && key != ""
            && (d.Arp? ==> key == MakeArpFlowKey(d.arp.senderIp) && key[0] == 'A')
            && (!d.Arp? ==> key == MakeFlowKey(d.ip.srcIp, Ports(d).0, d.ip.dstIp, Ports(d).1) && IsDigit(key[0]))
  {
  }

  // ---- Stale bytes and padding ------------------------------------------------------------------

  /** Everything that decides about the enriched frame is part of the frame itself. The enriched frame keeps
      neither the TCP window nor the UDP length; of the latter only matters that it is at least 8. */
  predicate Settled(f: seq<Byte>) {
    Uncovered(f) ==>
      var o := 14 + 4 * (f[14] % 16) as int;
      match f[23]
      case 6 => o + 14 <= |f| || (o + 13 <= |f| && f[o + 12] / 16 < 5)
      case 17 => o + 6 <= |f| || (o + 5 <= |f| && f[o + 4] > 0)
      case 1 => o + 2 <= |f|
      case _ => true
  }

  lemma TcpSettled(a: FrameBuf, b: FrameBuf, n: nat, v: View)
    requires n <= BUF_SIZE && a[..n] == b[..n] && v.off + 16 <= BUF_SIZE && v.off + 14 <= n
    ensures var x, y := ParseTcp(a, v), ParseTcp(b, v);
            && (x.Some? <==> y.Some?)
            && (x.Some? ==>
                 && x.value.srcPort == y.value.srcPort && x.value.dstPort == y.value.dstPort
                 && x.value.seqNum == y.value.seqNum && x.value.flags == y.value.flags)
  {
    SameReads(a, b, n, v.off);
    SameReads(a, b, n, v.off + 2);
    SameReads(a, b, n, v.off + 4);
    SameReads(a, b, n, v.off + 12);
    SameReads(a, b, n, v.off + 13);
  }

  lemma UdpSettled(a: FrameBuf, b: FrameBuf, n: nat, v: View)
    requires n <= BUF_SIZE && a[..n] == b[..n] && v.off + 16 <= BUF_SIZE && v.len >= TWO_32
    requires v.off + 5 <= n && a[v.off + 4] > 0
    ensures var x, y := ParseUdp(a, v), ParseUdp(b, v);
            x.Some? && y.Some? && x.value.srcPort == y.value.srcPort && x.value.dstPort == y.value.dstPort
  {
    SameReads(a, b, n, v.off);
    SameReads(a, b, n, v.off + 2);
    SameReads(a, b, n, v.off + 4);
  }

  /** A settled frame that is not self-contained: the transport parsers differ only in what is not kept. */
  lemma PayloadSettled(a: FrameBuf, b: FrameBuf, n: nat, eth: EthernetFrame, eth': EthernetFrame, ip: IpHeader, ts: U64)
    requires n <= BUF_SIZE && a[..n] == b[..n] && ip.payload.off <= 74 && ip.payload.len >= TWO_32
    requires eth.srcMac == eth'.srcMac && eth.dstMac == eth'.dstMac
    requires (ip.protocol == 6 && ip.payload.off + 14 <= n)
             || (ip.protocol == 17 && ip.payload.off + 5 <= n && a[ip.payload.off + 4] > 0)
    ensures var x, y := DissectTransport(a, eth, ip, ts), DissectTransport(b, eth', ip, ts);
            (x.Some? <==> y.Some?) && (x.Some? ==> StatsStage(x.value) == StatsStage(y.value))
  {
    if ip.protocol == 6 {
      TcpSettled(a, b, n, ip.payload);
    } else {
      UdpSettled(a, b, n, ip.payload);
    }
  }

  lemma SettledIp(a: FrameBuf, b: FrameBuf, n: nat, n': nat, ts: U64, localIps: set<U32>)
    requires n <= n' <= BUF_SIZE && a[..n] == b[..n] && Settled(a[..n]) && !SelfContained(a[..n])
    ensures Enrich(b, n', ts, localIps) == Enrich(a, n, ts, localIps)
  {
    var ip := StaleIp(a, b, n, n', ts, localIps);
    EthernetAgrees(a, b, n, n');
    PayloadSettled(a, b, n, ParseEthernet(a, n), ParseEthernet(b, n'), ip, ts);
  }

  lemma RebaseEnriched(d: Dissected, size: nat)
    requires 14 <= size <= BUF_SIZE
    ensures StatsStage(Rebase(d, size)) == StatsStage(d)
  {
    match d
    case IpTcp(_, _, _, _) =>
    case IpUdp(_, _, _, _) =>
    case IpIcmp(_, _, _, _) =>
    case Arp(_, _, _) =>
    case IpOther(_, _, _) =>
  }

  lemma ContainedEnriched(a: FrameBuf, b: FrameBuf, n: nat, n': nat, ts: U64, localIps: set<U32>)
    requires n <= n' <= BUF_SIZE && a[..n] == b[..n] && SelfContained(a[..n])
    ensures Enrich(a, n, ts, localIps).Some? || n == n' ==>
              Enrich(b, n', ts, localIps) == Enrich(a, n, ts, localIps)
  {
    Agreement(a, b, n, n', ts, localIps);
    var d := Process(a, n, ts, localIps);
    if d.Some? {
      RebaseEnriched(d.value, n');
    }
  }

  /** Trailing Ethernet padding on an accepted, settled frame changes nothing in the result; every frame whose
      total length covers its IP header is settled. */
  lemma PaddingInvariant(a: FrameBuf, b: FrameBuf, n: nat, n': nat, ts: U64, localIps: set<U32>)
    requires n <= n' <= BUF_SIZE && a[..n] == b[..n] && Settled(a[..n])
    ensures Enrich(a, n, ts, localIps).Some? || n == n' ==>
              Enrich(b, n', ts, localIps) == Enrich(a, n, ts, localIps)
  {
    if SelfContained(a[..n]) {
      ContainedEnriched(a, b, n, n', ts, localIps);
    } else {
      SettledIp(a, b, n, n', ts, localIps);
    }
  }

  /** What is tracked and published does not depend on what earlier frames left in the buffer. */
  ghost predicate EnrichIgnoresStaleBytes(f: seq<Byte>)
    requires |f| <= BUF_SIZE
  {
    forall a: FrameBuf, b: FrameBuf, ts: U64, localIps: set<U32> ::
      a[..|f|] == f == b[..|f|] ==> Enrich(a, |f|, ts, localIps) == Enrich(b, |f|, ts, localIps)
  }

  /** Stale bytes stay out of the enriched frame exactly for the settled frames. */
  lemma EnrichedStaleBytesExactly(f: seq<Byte>)
    requires |f| <= BUF_SIZE
    ensures EnrichIgnoresStaleBytes(f) <==> Settled(f)
  {
    if Settled(f) {
      forall a: FrameBuf, b: FrameBuf, ts: U64, localIps: set<U32> | a[..|f|] == f == b[..|f|]
        ensures Enrich(a, |f|, ts, localIps) == Enrich(b, |f|, ts, localIps)
      {
        PaddingInvariant(a, b, |f|, |f|, ts, localIps);
      }
    } else {
      var a, b := EnrichedStaleWitness(f);
      assert Enrich(a, |f|, 0, {}) != Enrich(b, |f|, 0, {});
    }
  }

  lemma EnrichedStaleWitness(f: seq<Byte>) returns (a: FrameBuf, b: FrameBuf)
    requires |f| <= BUF_SIZE && !Settled(f)
    ensures a[..|f|] == f == b[..|f|]
    ensures Enrich(a, |f|, 0, {}) != Enrich(b, |f|, 0, {})
  {
    var n := |f|;
    a := f + seq(BUF_SIZE - n, _ => 0x50);
    b := f + seq(BUF_SIZE - n, _ => 0);
    assert a[..n] == f && b[..n] == f;
    var ip := StaleIp(a, b, n, n, 0, {});
    EthernetAgrees(a, b, n, n);
    UnsettledPayload(f, a, b, ParseEthernet(a, n), ip);
  }

  /** The stale bytes, once 0x50 and once zero, that decide about the result. */
  lemma UnsettledPayload(f: seq<Byte>, a: FrameBuf, b: FrameBuf, eth: EthernetFrame, ip: IpHeader)
    requires |f| <= BUF_SIZE && !Settled(f) && ip.protocol == f[23] && ip.payload.len >= TWO_32
    requires ip.payload.off == 14 + 4 * ((f[14] % 16) as int)
    requires forall i :: 0 <= i < BUF_SIZE ==> a[i] == if i < |f| then f[i] else 0x50
    requires forall i :: 0 <= i < BUF_SIZE ==> b[i] == if i < |f| then f[i] else 0
    ensures var x, y := DissectTransport(a, eth, ip, 0), DissectTransport(b, eth, ip, 0);
            x.Some? && (y.Some? ==> StatsStage(x.value) != StatsStage(y.value))
  {
    var v := ip.payload;
    if ip.protocol == 6 {
      UnsettledTcp(a, b, v);
    } else if ip.protocol == 17 {
      UnsettledUdp(a, b, v);
    }
  }

  lemma UnsettledTcp(a: FrameBuf, b: FrameBuf, v: View)
    requires v.off <= 74 && v.len >= TWO_32 && a[v.off + 12] >= 0x50 && a[v.off + 13] == 0x50 && b[v.off + 13] == 0
    ensures var x, y := ParseTcp(a, v), ParseTcp(b, v);
            x.Some? && (y.Some? ==> x.value.flags != y.value.flags)
  {
  }

  lemma UnsettledUdp(a: FrameBuf, b: FrameBuf, v: View)
    requires v.off <= 74 && v.len >= TWO_32
    requires a[v.off + 5] == 0x50 && b[v.off + 4] == b[v.off + 5] == 0
    ensures ParseUdp(a, v).Some? && ParseUdp(b, v).None?
  {
  }
}
