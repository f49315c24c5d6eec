/** `filter_stage` and `dissector_stage`, and what the chain of parsers may look at.

    The pipeline thread parses frames in one static 2040-byte buffer, of which only the first `size` bytes
    belong to the current frame; the rest is left over from earlier frames. */
module Dissector {
  import opened Bytes
  import opened Parsers
  import PB = PacketBuffer

  const BUF_SIZE := 2040

  type FrameBuf = b: seq<Byte> | |b| == BUF_SIZE witness seq(BUF_SIZE, _ => 0)

  datatype FilteredFrame = FilteredFrame(eth: EthernetFrame, ts: U64)

  datatype Dissected =
    | IpTcp(eth: EthernetFrame, ip: IpHeader, tcp: TcpHeader, ts: U64)
    | IpUdp(eth: EthernetFrame, ip: IpHeader, udp: UdpHeader, ts: U64)
    | IpIcmp(eth: EthernetFrame, ip: IpHeader, icmp: IcmpHeader, ts: U64)
    | Arp(eth: EthernetFrame, arp: ArpPacket, ts: U64)
    | IpOther(eth: EthernetFrame, ip: IpHeader, ts: U64)

  function ResolveDirection(srcIp: U32, dstIp: U32, localIps: set<U32>): Direction {
    if dstIp in localIps then Inbound else if srcIp in localIps then Outbound else Unknown
  }

  /** The guards of `filter_stage` after a successful read. */
  function Filter(buf: FrameBuf, size: nat, ts: U64): Option<FilteredFrame>
    requires size <= BUF_SIZE
  {
    var eth := ParseEthernet(buf, size);
    if !eth.valid || eth.payload.len == 0 then None
    else if eth.ethertype != ETHERTYPE_IPV4 && eth.ethertype != ETHERTYPE_ARP then None
    else Some(FilteredFrame(eth, ts))
  }

  /** The switch over the protocol number. */
  function DissectTransport(buf: FrameBuf, eth: EthernetFrame, ip: IpHeader, ts: U64): Option<Dissected>
    requires ip.payload.off + 16 <= BUF_SIZE
  {
    if ip.protocol == 6 then
      var tcp := ParseTcp(buf, ip.payload);
      if tcp.None? then None else Some(IpTcp(eth, ip, tcp.value, ts))
    else if ip.protocol == 17 then
      var udp := ParseUdp(buf, ip.payload);
      if udp.None? then None else Some(IpUdp(eth, ip, udp.value, ts))
    else if ip.protocol == 1 then
      var icmp := ParseIcmp(buf, ip.payload, ip.totalLength);
      if icmp.None? then None else Some(IpIcmp(eth, ip, icmp.value, ts))
    else
      Some(IpOther(eth, ip, ts))
  }

  function Dissect(buf: FrameBuf, filtered: FilteredFrame, localIps: set<U32>): Option<Dissected>
    requires filtered.eth.payload.off == 14 && 14 + filtered.eth.payload.len <= BUF_SIZE
  {
    var eth, ts := filtered.eth, filtered.ts;
    var p := eth.payload;
    if eth.ethertype == ETHERTYPE_ARP then
      var arp := ParseArp(buf, p);
      if arp.None? then None else Some(Arp(eth, arp.value, ts))
    else if p.len < 20 then None
    else
      var dir := ResolveDirection(U32At(buf, p.off + 12), U32At(buf, p.off + 16), localIps);
      var parsed := ParseIp(buf, p, dir);
      if parsed.None? then None else DissectTransport(buf, eth, parsed.value, ts)
  }

  /** Filter and dissect the frame in the first `size` bytes of the buffer. */
  function Process(buf: FrameBuf, size: nat, ts: U64, localIps: set<U32>): Option<Dissected>
    requires size <= BUF_SIZE
  {
    var filtered := Filter(buf, size, ts);
    if filtered.None? then None else Dissect(buf, filtered.value, localIps)
  }

  lemma ProcessIp(buf: FrameBuf, size: nat, ts: U64, localIps: set<U32>, ip: IpHeader)
    requires 34 <= size <= BUF_SIZE && U16At(buf, 12) == ETHERTYPE_IPV4
    requires ParseIp(buf, View(14, size - 14), ResolveDirection(U32At(buf, 26), U32At(buf, 30), localIps)) == Some(ip)
    ensures ip.payload.off <= 74
    ensures Process(buf, size, ts, localIps) == DissectTransport(buf, ParseEthernet(buf, size), ip, ts)
  {
    PayloadOffset(buf, size, ResolveDirection(U32At(buf, 26), U32At(buf, 30), localIps));
    FilterIp(buf, size, ts);
  }

  lemma PayloadOffset(buf: FrameBuf, size: nat, dir: Direction)
    requires 34 <= size <= BUF_SIZE && ParseIp(buf, View(14, size - 14), dir).Some?
    ensures ParseIp(buf, View(14, size - 14), dir).value.payload.off <= 74
  {
  }

  lemma FilterIp(buf: FrameBuf, size: nat, ts: U64)
    requires 34 <= size <= BUF_SIZE && U16At(buf, 12) == ETHERTYPE_IPV4
    ensures Filter(buf, size, ts) == Some(FilteredFrame(ParseEthernet(buf, size), ts))
  {
  }

  /** `filter_stage`: one read from the packet buffer, then the guards. */
  method FilterStage(pb: PB.PacketBuffer, frameBuf: array<Byte>, stopAtTest: bool, stopAtCheck: bool)
    returns (r: PB.ReadOutcome, filtered: Option<FilteredFrame>)
    requires pb.Valid() && PB.Framed(pb.Queue()) && frameBuf != pb.ring.buffer && frameBuf.Length == BUF_SIZE
    requires stopAtTest ==> stopAtCheck
    modifies pb.ring`tail, pb.ring`count, frameBuf
    ensures pb.Valid() && PB.Framed(pb.Queue())
    ensures r == PB.Got || (filtered == None && old(pb.Queue()) == [] && pb.Queue() == [] && frameBuf[..] == old(frameBuf[..]))
    ensures r == PB.Got ==> old(pb.Queue()) != [] && |old(pb.Queue())[0]| >= 8 && pb.Queue() == old(pb.Queue())[1..]
    ensures r == PB.Got ==>
              var p := PB.Decode(old(pb.Queue())[0]);
              && |p.frame| <= BUF_SIZE
              && frameBuf[..] == p.frame + old(frameBuf[..])[|p.frame|..]
              && filtered == Filter(frameBuf[..], |p.frame|, p.ts)
  {
    ghost var queue := pb.Queue();
    var size, ts;
    r, size, ts := pb.Read(frameBuf, stopAtTest, stopAtCheck);
    if r != PB.Got {
      return r, None;
    }
    assert queue[0] == PB.Encode(PB.Stamped(ts, frameBuf[..size]));
    PB.DecodeEncode(PB.Stamped(ts, frameBuf[..size]));
    assert frameBuf[..] == frameBuf[..size] + frameBuf[size..];
    assert old(frameBuf[size..]) == old(frameBuf[..])[size..];
    if size < ETHERNET_MIN_SIZE || size > frameBuf.Length {
      return r, None;
    }
    var eth := ParseEthernetFrame(frameBuf, size);
    if !eth.valid || eth.payload.len == 0 {
      return r, None;
    }
    if eth.ethertype != ETHERTYPE_IPV4 && eth.ethertype != ETHERTYPE_ARP {
      return r, None;
    }
    return r, Some(FilteredFrame(eth, ts));
  }

  predicate HasIp(d: Dissected) {
    !d.Arp?
  }

  // ---- Nested containment -----------------------------------------------------------------------

  /** RFC 791 asks for a total length that covers the header; the parser does not check it. */
  predicate CoversHeader(ip: IpHeader) {
    ip.totalLength >= 4 * (ip.ihl as int)
  }

  /** One view inside another. */
  predicate Inside(inner: View, outer: View) {
    outer.off <= inner.off && inner.off + inner.len <= outer.off + outer.len
  }

  /** The IP payload view lies in the Ethernet payload, with lengths adding up, exactly when the total
      length in the frame covers the header. */
  lemma IpContainment(buf: FrameBuf, size: nat, ts: U64, localIps: set<U32>)
    requires size <= BUF_SIZE
    requires Process(buf, size, ts, localIps).Some? && HasIp(Process(buf, size, ts, localIps).value)
    ensures var d := Process(buf, size, ts, localIps).value;
            && Inside(View(14, 4 * (d.ip.ihl as int)), d.eth.payload)
            && d.ip.payload.off == 14 + 4 * (d.ip.ihl as int)
            && (Inside(d.ip.payload, d.eth.payload) <==> !Uncovered(buf[..size]))
            && (4 * (d.ip.ihl as int) + d.ip.payload.len == d.ip.totalLength <==> !Uncovered(buf[..size]))
  {
    CoverageAgrees(buf, size, ResolveDirection(U32At(buf, 26), U32At(buf, 30), localIps));
  }

  /** The frame's own bytes tell whether the parsed total length covers the header. */
  lemma CoverageAgrees(buf: FrameBuf, size: nat, dir: Direction)
    requires 34 <= size <= BUF_SIZE && U16At(buf, 12) == ETHERTYPE_IPV4
    requires ParseIp(buf, View(14, size - 14), dir).Some?
    ensures CoversHeader(ParseIp(buf, View(14, size - 14), dir).value) <==> !Uncovered(buf[..size])
  {
    SameReads(buf, buf[..size], size, 12);
    SameReads(buf, buf[..size], size, 14);
    SameReads(buf, buf[..size], size, 16);
  }

  /** The transport header and payload of an accepted frame, as one view. */
  function Transport(d: Dissected): (View, View)
    requires HasIp(d) && (d.IpUdp? ==> d.udp.length >= 8)
  {
    match d
    case IpTcp(_, ip, tcp, _) => (View(ip.payload.off, 4 * (tcp.dataOffset as int)), tcp.payload)
    case IpUdp(_, ip, udp, _) => (View(ip.payload.off, 8), udp.payload)
    case IpIcmp(_, ip, icmp, _) => (View(ip.payload.off, 8), icmp.payload)
    case IpOther(_, ip, _) => (View(ip.payload.off, 0), ip.payload)
  }

  /** Under the RFC 791 condition everything the transport parsers read and return lies inside the IP
      payload and so inside the frame; header and payload add up (to the UDP length field for UDP), and the
      addresses peeked at for the direction are the parsed ones. */
  lemma TransportContainment(buf: FrameBuf, size: nat, ts: U64, localIps: set<U32>)
    requires size <= BUF_SIZE
    requires Process(buf, size, ts, localIps).Some? && HasIp(Process(buf, size, ts, localIps).value)
    requires !Uncovered(buf[..size])
    ensures var d := Process(buf, size, ts, localIps).value;
            && (d.IpUdp? ==> d.udp.length >= 8)
            && var (header, payload) := Transport(d);
            && d.ip.direction == ResolveDirection(d.ip.srcIp, d.ip.dstIp, localIps)
            && d.eth.payload == View(14, size - 14)
            && Inside(header, d.ip.payload) && Inside(payload, d.ip.payload)
            && payload.off == header.off + header.len
            && header.len + payload.len == (if d.IpUdp? then d.udp.length else d.ip.payload.len)
            && (d.IpTcp? ==> header.len >= 20)
  {
    CoverageAgrees(buf, size, ResolveDirection(U32At(buf, 26), U32At(buf, 30), localIps));
  }

  // ---- Stale bytes ------------------------------------------------------------------------------

  /** The number of payload bytes the transport parser looks at. */
  function Peeked(protocol: Byte): nat {
    match protocol
    case 6 => 16
    case 17 => 6
    case 1 => 2
    case _ => 0
  }

  /** The frame carries an IP header the parser accepts whose total length does not cover it. */
  predicate Uncovered(f: seq<Byte>) {
    && |f| >= 34 && U16At(f, 12) == 0x0800
    && f[14] / 16 == 4 && f[14] % 16 >= 5 && 14 + 4 * (f[14] % 16) as int <= |f|
    && U16At(f, 16) < 4 * (f[14] % 16) as int
  }

  /** Everything the chain looks at is part of the frame itself. */
  predicate SelfContained(f: seq<Byte>) {
    Uncovered(f) ==>
      var o := 14 + 4 * (f[14] % 16) as int;
      || o + Peeked(f[23]) <= |f|
      || (f[23] == 6 && o + 13 <= |f| && f[o + 12] / 16 < 5)
  }

  lemma SameReads(a: seq<Byte>, b: seq<Byte>, n: nat, i: nat)
    requires n <= |a| && n <= |b| && a[..n] == b[..n]
    ensures i < n ==> a[i] == b[i]
    ensures i + 2 <= n ==> U16At(a, i) == U16At(b, i)
    ensures i + 4 <= n ==> U32At(a, i) == U32At(b, i)
  {
    if i < n {
      assert a[..n][i] == b[..n][i];
    }
    if i + 1 < n {
      assert a[..n][i + 1] == b[..n][i + 1];
    }
    if i + 3 < n {
      assert a[..n][i + 2] == b[..n][i + 2] && a[..n][i + 3] == b[..n][i + 3];
    }
  }

  lemma SameSlice(a: seq<Byte>, b: seq<Byte>, n: nat, i: nat, j: nat)
    requires n <= |a| && n <= |b| && a[..n] == b[..n] && i <= j <= n
    ensures a[i..j] == b[i..j]
  {
    assert a[i..j] == a[..n][i..j] && b[i..j] == b[..n][i..j];
  }

  /** The same dissected frame with another Ethernet payload size. */
  function Rebase(d: Dissected, size: nat): Dissected
    requires 14 <= size <= BUF_SIZE
  {
    d.(eth := d.eth.(payload := View(14, size - 14)))
  }

  lemma IpFieldsAgree(a: FrameBuf, b: FrameBuf, n: nat, n': nat, dir: Direction, ok: bool)
    requires 34 <= n <= n' <= BUF_SIZE && a[..n] == b[..n]
    ensures var x, y := IpFields(a, View(14, n - 14), dir, ok), IpFields(b, View(14, n' - 14), dir, ok);
            (x.Some? ==> y == x) && (n == n' ==> y == x)
  {
    SameReads(a, b, n, 14);
    SameReads(a, b, n, 16);
    SameReads(a, b, n, 22);
    SameReads(a, b, n, 23);
    SameReads(a, b, n, 26);
    SameReads(a, b, n, 30);
  }

  lemma HeaderVerifiesAgrees(a: FrameBuf, b: FrameBuf, n: nat, n': nat)
    requires 34 <= n <= n' <= BUF_SIZE && a[..n] == b[..n]
    requires n == n' || 14 + 4 * ((a[14] % 16) as int) <= n
    ensures HeaderVerifies(a, View(14, n - 14)) == HeaderVerifies(b, View(14, n' - 14))
  {
    SameReads(a, b, n, 14);
    if 14 + 4 * ((a[14] % 16) as int) <= n {
      SameSlice(a, b, n, 14, 14 + 4 * ((a[14] % 16) as int));
    }
  }

  lemma IpAgrees(a: FrameBuf, b: FrameBuf, n: nat, n': nat, dir: Direction)
    requires 34 <= n <= n' <= BUF_SIZE && a[..n] == b[..n]
    ensures var x, y := ParseIp(a, View(14, n - 14), dir), ParseIp(b, View(14, n' - 14), dir);
            (x.Some? ==> y == x) && (n == n' ==> y == x)
  {
    IpFieldsAgree(a, b, n, n', dir, HeaderVerifies(a, View(14, n - 14)));
    if n == n' || ParseIp(a, View(14, n - 14), dir).Some? {
      HeaderVerifiesAgrees(a, b, n, n');
    }
  }

  lemma TcpAgrees(a: FrameBuf, b: FrameBuf, n: nat, v: View)
    requires n <= BUF_SIZE && a[..n] == b[..n] && v.off + 16 <= BUF_SIZE
    requires v.len < 20 || v.off + 16 <= n || (v.off + 13 <= n && a[v.off + 12] / 16 < 5)
    ensures ParseTcp(a, v) == ParseTcp(b, v)
  {
    SameReads(a, b, n, v.off);
    SameReads(a, b, n, v.off + 2);
    SameReads(a, b, n, v.off + 4);
    SameReads(a, b, n, v.off + 12);
    SameReads(a, b, n, v.off + 13);
    SameReads(a, b, n, v.off + 14);
  }

  lemma UdpAgrees(a: FrameBuf, b: FrameBuf, n: nat, v: View)
    requires n <= BUF_SIZE && a[..n] == b[..n] && v.off + 16 <= BUF_SIZE
    requires v.len < 8 || v.off + 6 <= n
    ensures ParseUdp(a, v) == ParseUdp(b, v)
  {
  }

  lemma IcmpAgrees(a: FrameBuf, b: FrameBuf, n: nat, v: View, total: U16)
    requires n <= BUF_SIZE && a[..n] == b[..n] && v.off + 16 <= BUF_SIZE
    requires v.len < 8 || v.off + 2 <= n
    ensures ParseIcmp(a, v, total) == ParseIcmp(b, v, total)
  {
  }

  lemma ArpAgrees(a: FrameBuf, b: FrameBuf, n: nat, n': nat)
    requires 14 <= n <= n' <= BUF_SIZE && a[..n] == b[..n]
    ensures var x, y := ParseArp(a, View(14, n - 14)), ParseArp(b, View(14, n' - 14));
            (x.Some? ==> y == x) && (n == n' ==> y == x)
  {
    if n >= 42 {
      SameReads(a, b, n, 14);
      SameReads(a, b, n, 16);
      SameReads(a, b, n, 18);
      SameReads(a, b, n, 19);
      SameReads(a, b, n, 20);
      SameReads(a, b, n, 22);
      SameReads(a, b, n, 28);
      SameReads(a, b, n, 32);
      SameReads(a, b, n, 38);
      SameSlice(a, b, n, 22, 28);
      SameSlice(a, b, n, 32, 38);
    }
  }

  lemma EthernetAgrees(a: FrameBuf, b: FrameBuf, n: nat, n': nat)
    requires 15 <= n <= n' <= BUF_SIZE && a[..n] == b[..n]
    ensures ParseEthernet(b, n') == ParseEthernet(a, n).(payload := View(14, n' - 14))
  {
  }

  /** What the transport parser looks at in a self-contained frame, as far as it gets, is in the frame. */
  lemma InReach(a: FrameBuf, n: nat, dir: Direction)
    requires 34 <= n <= BUF_SIZE && U16At(a, 12) == ETHERTYPE_IPV4
    requires SelfContained(a[..n]) && ParseIp(a, View(14, n - 14), dir).Some?
    ensures var ip := ParseIp(a, View(14, n - 14), dir).value;
            var v := ip.payload;
            && v.off <= 74
            && (ip.protocol == 6 ==> v.len < 20 || v.off + 16 <= n || (v.off + 13 <= n && a[v.off + 12] / 16 < 5))
            && (ip.protocol == 17 ==> v.len < 8 || v.off + 6 <= n)
            && (ip.protocol == 1 ==> v.len < 8 || v.off + 2 <= n)
  {
    CoverageAgrees(a, n, dir);
  }

  /** The transport parser finds what it needs inside a self-contained frame. */
  lemma PayloadAgrees(a: FrameBuf, b: FrameBuf, n: nat, dir: Direction)
    requires 34 <= n <= BUF_SIZE && a[..n] == b[..n] && U16At(a, 12) == ETHERTYPE_IPV4
    requires SelfContained(a[..n]) && ParseIp(a, View(14, n - 14), dir).Some?
    ensures var ip := ParseIp(a, View(14, n - 14), dir).value;
            && (ip.protocol == 6 ==> ParseTcp(a, ip.payload) == ParseTcp(b, ip.payload))
            && (ip.protocol == 17 ==> ParseUdp(a, ip.payload) == ParseUdp(b, ip.payload))
            && (ip.protocol == 1 ==>
                 ParseIcmp(a, ip.payload, ip.totalLength) == ParseIcmp(b, ip.payload, ip.totalLength))
  {
    var ip := ParseIp(a, View(14, n - 14), dir).value;
    InReach(a, n, dir);
    if ip.protocol == 6 {
      TcpAgrees(a, b, n, ip.payload);
    } else if ip.protocol == 17 {
      UdpAgrees(a, b, n, ip.payload);
    } else if ip.protocol == 1 {
      IcmpAgrees(a, b, n, ip.payload, ip.totalLength);
    }
  }

  /** One frame in two buffers, the second time with bytes appended: whatever is accepted stays accepted
      with the same content. */
  lemma Agreement(a: FrameBuf, b: FrameBuf, n: nat, n': nat, ts: U64, localIps: set<U32>)
    requires n <= n' <= BUF_SIZE && a[..n] == b[..n] && SelfContained(a[..n])
    ensures Process(a, n, ts, localIps).Some? ==>
              && n >= 14
              && Process(b, n', ts, localIps) == Some(Rebase(Process(a, n, ts, localIps).value, n'))
    ensures n == n' ==> Process(b, n, ts, localIps) == Process(a, n, ts, localIps)
  {
    if n >= 15 {
      EthernetAgrees(a, b, n, n');
      if ParseEthernet(a, n).ethertype == ETHERTYPE_ARP {
        ArpAgrees(a, b, n, n');
      } else if ParseEthernet(a, n).ethertype == ETHERTYPE_IPV4 && n >= 34 {
        SameReads(a, b, n, 26);
        SameReads(a, b, n, 30);
        var dir := ResolveDirection(U32At(a, 26), U32At(a, 30), localIps);
        IpAgrees(a, b, n, n', dir);
        if ParseIp(a, View(14, n - 14), dir).Some? {
          PayloadAgrees(a, b, n, dir);
        }
      }
    }
  }

  /** The outcome for a frame does not depend on what earlier frames left in the buffer. */
  ghost predicate IgnoresStaleBytes(f: seq<Byte>)
    requires |f| <= BUF_SIZE
  {
    forall a: FrameBuf, b: FrameBuf, ts: U64, localIps: set<U32> ::
      a[..|f|] == f == b[..|f|] ==> Process(a, |f|, ts, localIps) == Process(b, |f|, ts, localIps)
  }

  /** Stale bytes stay out exactly for the self-contained frames. */
  lemma StaleBytesExactly(f: seq<Byte>)
    requires |f| <= BUF_SIZE
    ensures IgnoresStaleBytes(f) <==> SelfContained(f)
  {
    if SelfContained(f) {
      forall a: FrameBuf, b: FrameBuf, ts: U64, localIps: set<U32> | a[..|f|] == f == b[..|f|]
        ensures Process(a, |f|, ts, localIps) == Process(b, |f|, ts, localIps)
      {
        Agreement(a, b, |f|, |f|, ts, localIps);
      }
    } else {
      var a, b := StaleWitness(f);
      assert Process(a, |f|, 0, {}) != Process(b, |f|, 0, {});
    }
  }

  lemma StaleWitness(f: seq<Byte>) returns (a: FrameBuf, b: FrameBuf)
    requires |f| <= BUF_SIZE && !SelfContained(f)
    ensures a[..|f|] == f == b[..|f|]
    ensures Process(a, |f|, 0, {}) != Process(b, |f|, 0, {})
  {
    var n, o := |f|, 14 + 4 * ((f[14] % 16) as int);
    var k := o + Peeked(f[23]) - 1;
    a := f + seq(BUF_SIZE - n, _ => 0x50);
    b := a[k := 0x51];
    assert a[..n] == f && b[..n] == f;
    var ip := StaleIp(a, b, n, n, 0, {});
    StaleTransport(a, b, ParseEthernet(a, n), ParseEthernet(b, n), ip);
  }

  lemma StaleTransport(a: FrameBuf, b: FrameBuf, eth: EthernetFrame, eth': EthernetFrame, ip: IpHeader)
    requires ip.payload.off <= 74 && ip.payload.len >= TWO_32 && Peeked(ip.protocol) > 0
    requires ip.protocol == 6 ==> a[ip.payload.off + 12] >= 0x50
    requires a[ip.payload.off + Peeked(ip.protocol) - 1] == 0x50
    requires b == a[ip.payload.off + Peeked(ip.protocol) - 1 := 0x51]
    ensures DissectTransport(a, eth, ip, 0) != DissectTransport(b, eth', ip, 0)
  {
    StalePayload(a, ip.payload, ip.protocol);
  }

  /** A header that its total length does not cover is accepted, with a payload length that wrapped around. */
  lemma UncoveredIp(a: FrameBuf, n: nat, dir: Direction) returns (ip: IpHeader)
    requires n <= BUF_SIZE && Uncovered(a[..n])
    ensures n >= 34 && U16At(a, 12) == ETHERTYPE_IPV4 && ParseIp(a, View(14, n - 14), dir) == Some(ip)
    ensures ip.protocol == a[23] && ip.payload.off == 14 + 4 * ((a[14] % 16) as int) && ip.payload.len >= TWO_32
  {
    SameReads(a, a[..n], n, 12);
    SameReads(a, a[..n], n, 14);
    SameReads(a, a[..n], n, 16);
    ip := ParseIp(a, View(14, n - 14), dir).value;
  }

  /** The same header in both buffers. */
  lemma StaleIp(a: FrameBuf, b: FrameBuf, n: nat, n': nat, ts: U64, localIps: set<U32>) returns (ip: IpHeader)
    requires n <= n' <= BUF_SIZE && a[..n] == b[..n] && Uncovered(a[..n])
    ensures n >= 34 && ip.protocol == a[23] && ip.payload.len >= TWO_32
    ensures ip.payload.off == 14 + 4 * ((a[14] % 16) as int)
    ensures Process(a, n, ts, localIps) == DissectTransport(a, ParseEthernet(a, n), ip, ts)
    ensures Process(b, n', ts, localIps) == DissectTransport(b, ParseEthernet(b, n'), ip, ts)
  {
    SameReads(a, b, n, 12);
    SameReads(a, b, n, 26);
    SameReads(a, b, n, 30);
    var dir := ResolveDirection(U32At(a, 26), U32At(a, 30), localIps);
    ip := UncoveredIp(a, n, dir);
    IpAgrees(a, b, n, n', dir);
    ProcessIp(a, n, ts, localIps, ip);
    ProcessIp(b, n', ts, localIps, ip);
  }

  lemma StalePayload(a: FrameBuf, v: View, protocol: Byte)
    requires v.off <= 74 && v.len >= TWO_32 && Peeked(protocol) > 0
    requires protocol == 6 ==> a[v.off + 12] >= 0x50
    requires a[v.off + Peeked(protocol) - 1] == 0x50
    ensures var b := a[v.off + Peeked(protocol) - 1 := 0x51];
            && (protocol == 6 ==> ParseTcp(a, v).Some? && ParseTcp(a, v) != ParseTcp(b, v))
            && (protocol == 17 ==> ParseUdp(a, v).Some? && ParseUdp(a, v) != ParseUdp(b, v))
            && (protocol == 1 ==> forall t: U16 :: ParseIcmp(a, v, t) != ParseIcmp(b, v, t))
  {
  }

  /** A total length shorter than the header lets stale bytes through: a frame of just the two headers. */
  lemma ShortTotalLengthLeaks()
    ensures exists f: seq<Byte> :: |f| == 34 && Uncovered(f) && !IgnoresStaleBytes(f)
  {
    var f: seq<Byte> := seq(34, i => if i == 12 then 8 else if i == 14 then 0x45 else if i == 23 then 17 else 0);
    assert U16At(f, 12) == ETHERTYPE_IPV4 && U16At(f, 16) == 0;
    assert Uncovered(f) && !SelfContained(f);
    StaleBytesExactly(f);
  }

  // ---- Size bound -------------------------------------------------------------------------------

  /** The capture limit bounds every packet size: 2040 - 14. */
  lemma PacketSizeBound(buf: FrameBuf, size: nat, ts: U64, localIps: set<U32>)
    requires size <= BUF_SIZE
    requires Process(buf, size, ts, localIps).Some? && HasIp(Process(buf, size, ts, localIps).value)
    ensures Process(buf, size, ts, localIps).value.ip.totalLength <= BUF_SIZE - 14
    ensures Process(buf, size, ts, localIps).value.IpIcmp? ==>
              Process(buf, size, ts, localIps).value.icmp.packetSize
              == Process(buf, size, ts, localIps).value.ip.totalLength
  {
  }
}
