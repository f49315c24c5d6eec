/** Reference encoders for well-formed frames, and the proof that the engine recovers from them every field
    it keeps, whatever options, trailing padding and stale buffer bytes surround them. */
module RoundTrip {
  import opened Bytes
  import opened Parsers
  import opened Dissector
  import opened Stats
  import Checksum

  function B16(v: U16): seq<Byte> { [v / 0x100, v % 0x100] }
  function B32(v: U32): seq<Byte> { B16(v / 0x1_0000) + B16(v % 0x1_0000) }

  // ---- Bytes at a position ----------------------------------------------------------------------

  predicate At(buf: seq<Byte>, off: nat, s: seq<Byte>) {
    off + |s| <= |buf| && forall i :: 0 <= i < |s| ==> buf[off + i] == s[i]
  }

  lemma AtSlice(buf: seq<Byte>, off: nat, s: seq<Byte>)
    requires At(buf, off, s)
    ensures buf[off..off + |s|] == s
  {
  }

  lemma AtIndex(buf: seq<Byte>, off: nat, s: seq<Byte>, i: nat)
    requires At(buf, off, s) && i < |s|
    ensures buf[off + i] == s[i]
  {
  }

  lemma AtSplit(buf: seq<Byte>, off: nat, a: seq<Byte>, b: seq<Byte>)
    requires At(buf, off, a + b)
    ensures At(buf, off, a) && At(buf, off + |a|, b)
  {
    forall i | 0 <= i < |a| ensures buf[off + i] == a[i] {
      assert (a + b)[i] == a[i];
    }
    forall i | 0 <= i < |b| ensures buf[off + |a| + i] == b[i] {
      assert (a + b)[|a| + i] == b[i];
    }
  }

  /** Five adjacent pieces. */
  lemma AtSplit5(buf: seq<Byte>, off: nat, a: seq<Byte>, b: seq<Byte>, c: seq<Byte>, d: seq<Byte>, e: seq<Byte>)
    requires At(buf, off, a + (b + (c + (d + e))))
    ensures At(buf, off, a) && At(buf, off + |a|, b) && At(buf, off + |a| + |b|, c)
    ensures At(buf, off + |a| + |b| + |c|, d) && At(buf, off + |a| + |b| + |c| + |d|, e)
  {
    AtSplit(buf, off, a, b + (c + (d + e)));
    AtSplit(buf, off + |a|, b, c + (d + e));
    AtSplit(buf, off + |a| + |b|, c, d + e);
    AtSplit(buf, off + |a| + |b| + |c|, d, e);
  }

  lemma At16(buf: seq<Byte>, off: nat, v: U16)
    requires At(buf, off, B16(v))
    ensures U16At(buf, off) == v
  {
    AtIndex(buf, off, B16(v), 0);
    AtIndex(buf, off, B16(v), 1);
  }

  lemma At32(buf: seq<Byte>, off: nat, v: U32)
    requires At(buf, off, B32(v))
    ensures U32At(buf, off) == v
  {
    AtSplit(buf, off, B16(v / 0x1_0000), B16(v % 0x1_0000));
    At16(buf, off, v / 0x1_0000);
    At16(buf, off + 2, v % 0x1_0000);
  }

  // ---- Ethernet and IPv4 ------------------------------------------------------------------------

  function EncodeEthernet(dst: Mac, src: Mac, ethertype: U16, payload: seq<Byte>): seq<Byte> {
    dst + (src + (B16(ethertype) + payload))
  }

  datatype Ip = Ip(tos: Byte, ident: U16, fragment: U16, ttl: Byte, protocol: Byte, checksum: U16,
                   src: U32, dst: U32, options: seq<Byte>)

  predicate ValidOptions(options: seq<Byte>) {
    |options| % 4 == 0 && |options| <= 40
  }

  function Ihl(ip: Ip): (n: Nibble)
    requires ValidOptions(ip.options)
    ensures n >= 5 && 4 * (n as int) == 20 + |ip.options|
  {
    5 + |ip.options| / 4
  }

  /** The header from the time-to-live byte on. */
  function IpTail(ip: Ip): (t: seq<Byte>)
    ensures |t| == 12 + |ip.options|
  {
    [ip.ttl, ip.protocol] + (B16(ip.checksum) + (B32(ip.src) + (B32(ip.dst) + ip.options)))
  }

  /** The header in wire order. */
  function IpHeaderBytes(ip: Ip, total: U16): (h: seq<Byte>)
    requires ValidOptions(ip.options)
    ensures |h| == 20 + |ip.options|
  {
    [0x40 + Ihl(ip), ip.tos] + (B16(total) + (B16(ip.ident) + (B16(ip.fragment) + IpTail(ip))))
  }

  function EncodeIp(ip: Ip, payload: seq<Byte>): seq<Byte>
    requires ValidOptions(ip.options) && 20 + |ip.options| + |payload| < TWO_16
  {
    IpHeaderBytes(ip, 20 + |ip.options| + |payload|) + payload
  }

  predicate ChecksumCorrect(ip: Ip, total: U16)
    requires ValidOptions(ip.options)
  {
    Checksum.VerifyIpChecksum(IpHeaderBytes(ip, total))
  }

  /** A sender that fills in the checksum of the header with a zeroed field. */
  function Seal(ip: Ip, total: U16): Ip
    requires ValidOptions(ip.options)
  {
    ip.(checksum := Checksum.Deferred(IpHeaderBytes(ip.(checksum := 0), total)))
  }

  /** For every header length the parser admits, a sealed header verifies. */
  lemma SealedVerifies(ip: Ip, total: U16)
    requires ValidOptions(ip.options)
    ensures ChecksumCorrect(Seal(ip, total), total)
  {
    var zero := ip.(checksum := 0);
    var c := Checksum.Deferred(IpHeaderBytes(zero, total));
    SetChecksum(zero, total, 0);
    SetChecksum(zero, total, c);
    Checksum.InsertionVerifies(IpHeaderBytes(zero, total), 10);
  }

  lemma SetChecksum(ip: Ip, total: U16, c: U16)
    requires ValidOptions(ip.options)
    ensures Checksum.SetWord(IpHeaderBytes(ip, total), 10, c) == IpHeaderBytes(ip.(checksum := c), total)
  {
  }

  lemma IpLayout(buf: seq<Byte>, off: nat, ip: Ip, total: U16)
    requires ValidOptions(ip.options) && At(buf, off, IpHeaderBytes(ip, total))
    ensures buf[off] == 0x40 + Ihl(ip) && U16At(buf, off + 2) == total
    ensures buf[off + 8] == ip.ttl && buf[off + 9] == ip.protocol
    ensures U32At(buf, off + 12) == ip.src && U32At(buf, off + 16) == ip.dst
  {
    IpHeadLayout(buf, off, ip, total, IpTail(ip));
    IpTailLayout(buf, off, ip);
  }

  lemma IpHeadLayout(buf: seq<Byte>, off: nat, ip: Ip, total: U16, tail: seq<Byte>)
    requires ValidOptions(ip.options)
    requires At(buf, off, [0x40 + Ihl(ip), ip.tos] + (B16(total) + (B16(ip.ident) + (B16(ip.fragment) + tail))))
    ensures buf[off] == 0x40 + Ihl(ip) && U16At(buf, off + 2) == total && At(buf, off + 8, tail)
  {
    AtSplit5(buf, off, [0x40 + Ihl(ip), ip.tos], B16(total), B16(ip.ident), B16(ip.fragment), tail);
    AtIndex(buf, off, [0x40 + Ihl(ip), ip.tos], 0);
    At16(buf, off + 2, total);
  }

  lemma IpTailLayout(buf: seq<Byte>, off: nat, ip: Ip)
    requires At(buf, off + 8, IpTail(ip))
    ensures buf[off + 8] == ip.ttl && buf[off + 9] == ip.protocol
    ensures U32At(buf, off + 12) == ip.src && U32At(buf, off + 16) == ip.dst
  {
    AtSplit5(buf, off + 8, [ip.ttl, ip.protocol], B16(ip.checksum), B32(ip.src), B32(ip.dst), ip.options);
    AtIndex(buf, off + 8, [ip.ttl, ip.protocol], 0);
    AtIndex(buf, off + 8, [ip.ttl, ip.protocol], 1);
    At32(buf, off + 12, ip.src);
    At32(buf, off + 16, ip.dst);
  }

  lemma EthernetParsed(buf: FrameBuf, n: nat, dst: Mac, src: Mac, ethertype: U16, payload: seq<Byte>)
    requires At(buf, 0, EncodeEthernet(dst, src, ethertype, payload)) && 15 <= n <= BUF_SIZE
    ensures ParseEthernet(buf, n) == EthernetFrame(dst, src, ethertype, View(14, n - 14), true)
    ensures At(buf, 14, payload)
  {
    AtSplit(buf, 0, dst, src + (B16(ethertype) + payload));
    AtSplit(buf, 6, src, B16(ethertype) + payload);
    AtSplit(buf, 12, B16(ethertype), payload);
    At16(buf, 12, ethertype);
    AtSlice(buf, 0, dst);
    AtSlice(buf, 6, src);
  }

  /** What the IP parser must find, with a payload of the given size and the given checksum verdict. */
  function ParsedIp(ip: Ip, size: nat, direction: Direction, checksumOk: bool): IpHeader
    requires ValidOptions(ip.options) && 20 + |ip.options| + size < TWO_16
  {
    IpHeader(Ihl(ip), ip.ttl, ip.protocol, ip.src, ip.dst, 20 + |ip.options| + size, checksumOk, direction,
             View(34 + |ip.options|, size))
  }

  lemma IpParsed(buf: FrameBuf, n: nat, ip: Ip, payload: seq<Byte>, direction: Direction) returns (ok: bool)
    requires ValidOptions(ip.options) && 34 + |ip.options| + |payload| <= n <= BUF_SIZE
    requires At(buf, 14, EncodeIp(ip, payload))
    ensures ParseIp(buf, View(14, n - 14), direction) == Some(ParsedIp(ip, |payload|, direction, ok))
    ensures ok == ChecksumCorrect(ip, 20 + |ip.options| + |payload|)
    ensures U32At(buf, 26) == ip.src && U32At(buf, 30) == ip.dst
    ensures At(buf, 34 + |ip.options|, payload)
  {
    var total := 20 + |ip.options| + |payload|;
    AtSplit(buf, 14, IpHeaderBytes(ip, total), payload);
    ok := HeaderParsed(buf, n, ip, |payload|, direction);
  }

  lemma HeaderParsed(buf: FrameBuf, n: nat, ip: Ip, size: nat, direction: Direction) returns (ok: bool)
    requires ValidOptions(ip.options) && 34 + |ip.options| + size <= n <= BUF_SIZE
    requires At(buf, 14, IpHeaderBytes(ip, 20 + |ip.options| + size))
    ensures ParseIp(buf, View(14, n - 14), direction) == Some(ParsedIp(ip, size, direction, ok))
    ensures ok == ChecksumCorrect(ip, 20 + |ip.options| + size)
    ensures U32At(buf, 26) == ip.src && U32At(buf, 30) == ip.dst
  {
    IpLayout(buf, 14, ip, 20 + |ip.options| + size);
    HeaderChecked(buf, n, ip, 20 + |ip.options| + size);
    ok := HeaderVerifies(buf, View(14, n - 14));
    FieldsParsed(buf, n, ip, size, direction, ok);
  }

  lemma HeaderChecked(buf: FrameBuf, n: nat, ip: Ip, total: U16)
    requires ValidOptions(ip.options) && 34 + |ip.options| <= n <= BUF_SIZE
    requires At(buf, 14, IpHeaderBytes(ip, total)) && buf[14] == 0x40 + Ihl(ip)
    ensures HeaderVerifies(buf, View(14, n - 14)) == ChecksumCorrect(ip, total)
  {
    assert buf[14] % 16 == Ihl(ip);
    AtSlice(buf, 14, IpHeaderBytes(ip, total));
  }

  lemma FieldsParsed(buf: FrameBuf, n: nat, ip: Ip, size: nat, direction: Direction, checksumOk: bool)
    requires ValidOptions(ip.options) && 34 + |ip.options| + size <= n <= BUF_SIZE
    requires buf[14] == 0x40 + Ihl(ip) && U16At(buf, 16) == 20 + |ip.options| + size
    requires buf[22] == ip.ttl && buf[23] == ip.protocol && U32At(buf, 26) == ip.src && U32At(buf, 30) == ip.dst
    ensures IpFields(buf, View(14, n - 14), direction, checksumOk) == Some(ParsedIp(ip, size, direction, checksumOk))
  {
    IpCheckedAs(ip, n - 14, size, direction, checksumOk);
  }

  lemma IpCheckedAs(ip: Ip, len: U16, size: nat, direction: Direction, checksumOk: bool)
    requires ValidOptions(ip.options) && 20 + |ip.options| + size <= len
    ensures IpChecked(View(14, len), 0x40 + Ihl(ip), 20 + |ip.options| + size, ip.ttl, ip.protocol, ip.src, ip.dst,
                      direction, checksumOk)
            == Some(ParsedIp(ip, size, direction, checksumOk))
  {
  }

  // ---- Transport --------------------------------------------------------------------------------

  /** The control bits of section 3.1 of RFC 9293, in their order. */
  datatype TcpFlags = TcpFlags(cwr: bool, ece: bool, urg: bool, ack: bool, psh: bool, rst: bool, syn: bool, fin: bool)

  function Bit(b: bool): (n: nat)
    ensures n <= 1
  {
    if b then 1 else 0
  }

  /** The six control bits the engine keeps. */
  function KeptFlags(f: TcpFlags): (b: Byte)
    ensures b < 0x40
  {
    32 * Bit(f.urg) + 16 * Bit(f.ack) + 8 * Bit(f.psh) + 4 * Bit(f.rst) + 2 * Bit(f.syn) + Bit(f.fin)
  }

  function FlagByte(f: TcpFlags): Byte {
    128 * Bit(f.cwr) + 64 * Bit(f.ece) + KeptFlags(f)
  }

  lemma FlagsMasked(f: TcpFlags)
    ensures FlagByte(f) % 0x40 == KeptFlags(f)
  {
    assert FlagByte(f) == 0x40 * (2 * Bit(f.cwr) + Bit(f.ece)) + KeptFlags(f);
  }

  datatype Segment =
    | Tcp(srcPort: U16, dstPort: U16, seqNum: U32, ackNum: U32, reserved: Nibble, flags: TcpFlags, window: U16,
          trailer: U32, options: seq<Byte>, data: seq<Byte>)
    | Udp(srcPort: U16, dstPort: U16, checksum: U16, data: seq<Byte>, slack: seq<Byte>)
    | Icmp(kind: Byte, code: Byte, rest: seq<Byte>)
    | Raw(protocol: Byte, data: seq<Byte>)

  predicate ValidSegment(t: Segment) {
    match t
    case Tcp(_, _, _, _, _, _, _, _, options, _) => ValidOptions(options)
    case Udp(_, _, _, data, _) => 8 + |data| < TWO_16
    case Icmp(_, _, rest) => |rest| >= 6
    case Raw(protocol, _) => protocol != 6 && protocol != 17 && protocol != 1
  }

  function Protocol(t: Segment): Byte {
    match t
    case Tcp(_, _, _, _, _, _, _, _, _, _) => 6
    case Udp(_, _, _, _, _) => 17
    case Icmp(_, _, _) => 1
    case Raw(protocol, _) => protocol
  }

  function DataOffset(options: seq<Byte>): (n: Nibble)
    requires ValidOptions(options)
    ensures n >= 5 && 4 * (n as int) == 20 + |options|
  {
    5 + |options| / 4
  }

  /** A segment from the data offset on. */
  function TcpTail(t: Segment): (w: seq<Byte>)
    requires t.Tcp? && ValidSegment(t)
    ensures |w| == 8 + |t.options| + |t.data|
  {
    [16 * (DataOffset(t.options) as int) + t.reserved, FlagByte(t.flags)] +
    (B16(t.window) + (B32(t.trailer) + (t.options + t.data)))
  }

  function EncodeSegment(t: Segment): (w: seq<Byte>)
    requires ValidSegment(t)
    ensures |w| == (match t
                    case Tcp(_, _, _, _, _, _, _, _, options, data) => 20 + |options| + |data|
                    case Udp(_, _, _, data, slack) => 8 + |data| + |slack|
                    case Icmp(_, _, rest) => 2 + |rest|
                    case Raw(_, data) => |data|)
  {
    match t
    case Tcp(srcPort, dstPort, seqNum, ackNum, _, _, _, _, _, _) =>
      B16(srcPort) + (B16(dstPort) + (B32(seqNum) + (B32(ackNum) + TcpTail(t))))
    case Udp(srcPort, dstPort, checksum, data, slack) =>
      B16(srcPort) + (B16(dstPort) + (B16(8 + |data|) + (B16(checksum) + (data + slack))))
    case Icmp(kind, code, rest) => [kind, code] + rest
    case Raw(_, data) => data
  }

  lemma TcpLayout(buf: FrameBuf, off: nat, t: Segment)
    requires t.Tcp? && ValidSegment(t) && At(buf, off, EncodeSegment(t))
    ensures U16At(buf, off) == t.srcPort && U16At(buf, off + 2) == t.dstPort && U32At(buf, off + 4) == t.seqNum
    ensures buf[off + 12] == 16 * (DataOffset(t.options) as int) + t.reserved && buf[off + 13] == FlagByte(t.flags)
    ensures U16At(buf, off + 14) == t.window
  {
    TcpHeadLayout(buf, off, t, TcpTail(t));
    TcpTailLayout(buf, off + 12, t);
  }

  lemma TcpHeadLayout(buf: FrameBuf, off: nat, t: Segment, tail: seq<Byte>)
    requires t.Tcp?
    requires At(buf, off, B16(t.srcPort) + (B16(t.dstPort) + (B32(t.seqNum) + (B32(t.ackNum) + tail))))
    ensures U16At(buf, off) == t.srcPort && U16At(buf, off + 2) == t.dstPort && U32At(buf, off + 4) == t.seqNum
    ensures At(buf, off + 12, tail)
  {
    AtSplit5(buf, off, B16(t.srcPort), B16(t.dstPort), B32(t.seqNum), B32(t.ackNum), tail);
    At16(buf, off, t.srcPort);
    At16(buf, off + 2, t.dstPort);
    At32(buf, off + 4, t.seqNum);
  }

  lemma TcpTailLayout(buf: FrameBuf, off: nat, t: Segment)
    requires t.Tcp? && ValidSegment(t) && At(buf, off, TcpTail(t))
    ensures buf[off] == 16 * (DataOffset(t.options) as int) + t.reserved && buf[off + 1] == FlagByte(t.flags)
    ensures U16At(buf, off + 2) == t.window
  {
    var cell: seq<Byte> := [16 * (DataOffset(t.options) as int) + t.reserved, FlagByte(t.flags)];
    AtSplit5(buf, off, cell, B16(t.window), B32(t.trailer), t.options, t.data);
    AtIndex(buf, off, cell, 0);
    AtIndex(buf, off, cell, 1);
    At16(buf, off + 2, t.window);
  }

  lemma TcpAccepted(buf: FrameBuf, off: nat, header: nat, size: nat, t: Segment, dataOffset: Nibble)
    requires t.Tcp? && off + 16 <= BUF_SIZE && 20 <= header == 4 * (dataOffset as int) && header + size < TWO_16
    requires buf[off + 12] / 16 == dataOffset && buf[off + 13] % 0x40 == KeptFlags(t.flags)
    requires U16At(buf, off) == t.srcPort && U16At(buf, off + 2) == t.dstPort && U32At(buf, off + 4) == t.seqNum
    requires U16At(buf, off + 14) == t.window
    ensures ParseTcp(buf, View(off, header + size))
            == Some(TcpHeader(t.srcPort, t.dstPort, t.seqNum, dataOffset, KeptFlags(t.flags), t.window,
                              View(off + header, size)))
  {
  }

  lemma HighNibble(hi: Nibble, lo: Nibble)
    ensures (16 * (hi as int) + lo) / 16 == hi
  {
  }

  lemma TcpParsed(buf: FrameBuf, off: nat, t: Segment)
    requires t.Tcp? && ValidSegment(t) && At(buf, off, EncodeSegment(t))
    ensures ParseTcp(buf, View(off, |EncodeSegment(t)|))
            == Some(TcpHeader(t.srcPort, t.dstPort, t.seqNum, DataOffset(t.options), KeptFlags(t.flags), t.window,
                              View(off + 20 + |t.options|, |t.data|)))
  {
    TcpLayout(buf, off, t);
    HighNibble(DataOffset(t.options), t.reserved);
    FlagsMasked(t.flags);
    TcpAccepted(buf, off, 20 + |t.options|, |t.data|, t, DataOffset(t.options));
  }

  lemma UdpParsed(buf: FrameBuf, off: nat, t: Segment)
    requires t.Udp? && ValidSegment(t) && At(buf, off, EncodeSegment(t))
    ensures ParseUdp(buf, View(off, |EncodeSegment(t)|))
            == Some(UdpHeader(t.srcPort, t.dstPort, 8 + |t.data|, t.srcPort == 53 || t.dstPort == 53,
                              View(off + 8, |t.data|)))
  {
    var h3 := B16(t.checksum) + (t.data + t.slack);
    var h2 := B16(8 + |t.data|) + h3;
    AtSplit(buf, off, B16(t.srcPort), B16(t.dstPort) + h2);
    At16(buf, off, t.srcPort);
    AtSplit(buf, off + 2, B16(t.dstPort), h2);
    At16(buf, off + 2, t.dstPort);
    AtSplit(buf, off + 4, B16(8 + |t.data|), h3);
    At16(buf, off + 4, 8 + |t.data|);
  }

  lemma IcmpParsed(buf: FrameBuf, off: nat, t: Segment, total: U16)
    requires t.Icmp? && ValidSegment(t) && At(buf, off, EncodeSegment(t))
    ensures ParseIcmp(buf, View(off, |EncodeSegment(t)|), total)
            == Some(IcmpHeader(t.kind, t.code, total, total > 1500, View(off + 8, |t.rest| - 6)))
  {
    AtSplit(buf, off, [t.kind, t.code], t.rest);
    AtIndex(buf, off, [t.kind, t.code], 0);
    AtIndex(buf, off, [t.kind, t.code], 1);
  }

  // ---- Whole IP frames --------------------------------------------------------------------------

  datatype IpFrame = IpFrame(dstMac: Mac, srcMac: Mac, ip: Ip, segment: Segment)

  predicate ValidFrame(f: IpFrame) {
    && ValidOptions(f.ip.options) && ValidSegment(f.segment) && f.ip.protocol == Protocol(f.segment)
    && 34 + |f.ip.options| + |EncodeSegment(f.segment)| <= BUF_SIZE
  }

  function Packet(dstMac: Mac, srcMac: Mac, ip: Ip, payload: seq<Byte>): (w: seq<Byte>)
    requires ValidOptions(ip.options) && 34 + |ip.options| + |payload| <= BUF_SIZE
    ensures |w| == 34 + |ip.options| + |payload|
  {
    EncodeEthernet(dstMac, srcMac, 0x0800, EncodeIp(ip, payload))
  }

  function Wire(f: IpFrame): (w: seq<Byte>)
    requires ValidFrame(f)
    ensures |w| == 34 + |f.ip.options| + |EncodeSegment(f.segment)|
  {
    Packet(f.dstMac, f.srcMac, f.ip, EncodeSegment(f.segment))
  }

  function SegmentPorts(t: Segment): (U16, U16) {
    match t
    case Tcp(s, d, _, _, _, _, _, _, _, _) => (s, d)
    case Udp(s, d, _, _, _) => (s, d)
    case _ => (0, 0)
  }

  /** Every field the engine keeps, straight from the encoder's input. */
  function Expected(f: IpFrame, checksumOk: bool, ts: U64, localIps: set<U32>): EnrichedFrame
    requires ValidFrame(f)
  {
    var t := f.segment;
    var ports := SegmentPorts(t);
    EnrichedFrame(
      ts, f.ip.src, f.ip.dst, f.ip.protocol, |Wire(f)| - 14,
      if f.ip.dst in localIps then Inbound else if f.ip.src in localIps then Outbound else Unknown,
      ports.0, ports.1, if t.Tcp? then KeptFlags(t.flags) else 0, if t.Tcp? then t.seqNum else 0,
      0, [0, 0, 0, 0, 0, 0], 0, 0,
      if t.Icmp? then t.kind else 0, if t.Icmp? then t.code else 0, f.ip.ttl, f.srcMac, f.dstMac,
      checksumOk, MakeFlowKey(f.ip.src, ports.0, f.ip.dst, ports.1))
  }

  /** The frame's segment is in the buffer, under parsed Ethernet and IP headers. */
  predicate Carried(f: IpFrame, buf: FrameBuf, eth: EthernetFrame, ip: IpHeader, localIps: set<U32>) {
    && ValidFrame(f) && At(buf, 34 + |f.ip.options|, EncodeSegment(f.segment))
    && eth.srcMac == f.srcMac && eth.dstMac == f.dstMac
    && ip == ParsedIp(f.ip, |EncodeSegment(f.segment)|, ResolveDirection(f.ip.src, f.ip.dst, localIps), ip.checksumOk)
  }

  /** What dissector and enrichment must make of it. */
  predicate Recovers(f: IpFrame, buf: FrameBuf, eth: EthernetFrame, ip: IpHeader, ts: U64, localIps: set<U32>)
    requires ValidFrame(f) && ip.payload.off + 16 <= BUF_SIZE
  {
    var d := DissectTransport(buf, eth, ip, ts);
    d.Some? && StatsStage(d.value) == Expected(f, ip.checksumOk, ts, localIps)
  }

  lemma TcpDissected(f: IpFrame, buf: FrameBuf, eth: EthernetFrame, ip: IpHeader, ts: U64, localIps: set<U32>)
    requires Carried(f, buf, eth, ip, localIps) && f.segment.Tcp?
    ensures Recovers(f, buf, eth, ip, ts, localIps)
  {
    TcpParsed(buf, 34 + |f.ip.options|, f.segment);
  }

  lemma UdpDissected(f: IpFrame, buf: FrameBuf, eth: EthernetFrame, ip: IpHeader, ts: U64, localIps: set<U32>)
    requires Carried(f, buf, eth, ip, localIps) && f.segment.Udp?
    ensures Recovers(f, buf, eth, ip, ts, localIps)
  {
    UdpParsed(buf, 34 + |f.ip.options|, f.segment);
  }

  lemma IcmpDissected(f: IpFrame, buf: FrameBuf, eth: EthernetFrame, ip: IpHeader, ts: U64, localIps: set<U32>)
    requires Carried(f, buf, eth, ip, localIps) && f.segment.Icmp?
    ensures Recovers(f, buf, eth, ip, ts, localIps)
  {
    IcmpParsed(buf, 34 + |f.ip.options|, f.segment, ip.totalLength);
  }

  lemma SegmentDissected(f: IpFrame, buf: FrameBuf, eth: EthernetFrame, ip: IpHeader, ts: U64, localIps: set<U32>)
    requires Carried(f, buf, eth, ip, localIps)
    ensures Recovers(f, buf, eth, ip, ts, localIps)
  {
    match f.segment
    case Tcp(_, _, _, _, _, _, _, _, _, _) => TcpDissected(f, buf, eth, ip, ts, localIps);
    case Udp(_, _, _, _, _) => UdpDissected(f, buf, eth, ip, ts, localIps);
    case Icmp(_, _, _) => IcmpDissected(f, buf, eth, ip, ts, localIps);
    case Raw(_, _) =>
  }

  /** Ethernet and IP around any payload. */
  lemma Unwrapped(dstMac: Mac, srcMac: Mac, h: Ip, payload: seq<Byte>, buf: FrameBuf, n: nat, ts: U64, localIps: set<U32>)
    returns (eth: EthernetFrame, ip: IpHeader)
    requires ValidOptions(h.options) && 34 + |h.options| + |payload| <= n <= BUF_SIZE
    requires At(buf, 0, Packet(dstMac, srcMac, h, payload))
    ensures eth.srcMac == srcMac && eth.dstMac == dstMac
    ensures ip == ParsedIp(h, |payload|, ResolveDirection(h.src, h.dst, localIps), ip.checksumOk)
    ensures ip.checksumOk == ChecksumCorrect(h, 20 + |h.options| + |payload|)
    ensures Process(buf, n, ts, localIps) == DissectTransport(buf, eth, ip, ts)
    ensures At(buf, 34 + |h.options|, payload) && !Uncovered(buf[..n])
  {
    var dir := ResolveDirection(h.src, h.dst, localIps);
    EthernetParsed(buf, n, dstMac, srcMac, 0x0800, EncodeIp(h, payload));
    eth := ParseEthernet(buf, n);
    var ok := IpParsed(buf, n, h, payload, dir);
    ip := ParsedIp(h, |payload|, dir, ok);
    ProcessIp(buf, n, ts, localIps, ip);
    CoverageAgrees(buf, n, dir);
  }

  lemma WireCarried(f: IpFrame, buf: FrameBuf, n: nat, ts: U64, localIps: set<U32>)
    returns (eth: EthernetFrame, ip: IpHeader)
    requires ValidFrame(f) && |Wire(f)| <= n <= BUF_SIZE && At(buf, 0, Wire(f))
    ensures Carried(f, buf, eth, ip, localIps) && ip.checksumOk == ChecksumCorrect(f.ip, |Wire(f)| - 14)
    ensures Process(buf, n, ts, localIps) == DissectTransport(buf, eth, ip, ts)
    ensures !Uncovered(buf[..n])
  {
    eth, ip := Unwrapped(f.dstMac, f.srcMac, f.ip, EncodeSegment(f.segment), buf, n, ts, localIps);
  }

  /** Encode, then filter, dissect and enrich: all retained fields come back and the checksum verdict is right,
      for any IP and TCP options, any bytes appended to the frame and any stale bytes behind it. */
  lemma IpRoundTrip(f: IpFrame, buf: FrameBuf, n: nat, ts: U64, localIps: set<U32>)
    requires ValidFrame(f) && |Wire(f)| <= n <= BUF_SIZE && At(buf, 0, Wire(f))
    ensures Enrich(buf, n, ts, localIps) == Some(Expected(f, ChecksumCorrect(f.ip, |Wire(f)| - 14), ts, localIps))
  {
    var eth, ip := WireCarried(f, buf, n, ts, localIps);
    SegmentDissected(f, buf, eth, ip, ts, localIps);
  }

  // ---- ARP --------------------------------------------------------------------------------------

  datatype ArpFrame = ArpFrame(dstMac: Mac, srcMac: Mac, oper: U16, senderMac: Mac, senderIp: U32,
                               targetMac: Mac, targetIp: U32)

  function WireArp(f: ArpFrame): (w: seq<Byte>)
    ensures |w| == 42
  {
    EncodeEthernet(f.dstMac, f.srcMac, 0x0806,
      B16(1) + (B16(0x0800) + ([6, 4] + (B16(f.oper) + (f.senderMac + (B32(f.senderIp) +
        (f.targetMac + B32(f.targetIp))))))))
  }

  lemma ArpParsed(f: ArpFrame, buf: FrameBuf, n: nat)
    requires 42 <= n <= BUF_SIZE && At(buf, 0, WireArp(f))
    ensures ParseEthernet(buf, n) == EthernetFrame(f.dstMac, f.srcMac, 0x0806, View(14, n - 14), true)
    ensures ParseArp(buf, View(14, n - 14))
            == Some(ArpPacket(f.oper, f.senderMac, f.senderIp, f.targetMac, f.targetIp, f.oper == 2))
  {
    var h7 := f.targetMac + B32(f.targetIp);
    var h6 := B32(f.senderIp) + h7;
    var h5 := f.senderMac + h6;
    var h4 := B16(f.oper) + h5;
    var sizes: seq<Byte> := [6, 4];
    var h3 := sizes + h4;
    var h2 := B16(0x0800) + h3;
    EthernetParsed(buf, n, f.dstMac, f.srcMac, 0x0806, B16(1) + h2);
    AtSplit(buf, 14, B16(1), h2);
    At16(buf, 14, 1);
    AtSplit(buf, 16, B16(0x0800), h3);
    At16(buf, 16, 0x0800);
    AtSplit(buf, 18, sizes, h4);
    AtIndex(buf, 18, sizes, 0);
    AtIndex(buf, 18, sizes, 1);
    AtSplit(buf, 20, B16(f.oper), h5);
    At16(buf, 20, f.oper);
    AtSplit(buf, 22, f.senderMac, h6);
    AtSplit(buf, 28, B32(f.senderIp), h7);
    At32(buf, 28, f.senderIp);
    AtSplit(buf, 32, f.targetMac, B32(f.targetIp));
    At32(buf, 38, f.targetIp);
    AtSlice(buf, 22, f.senderMac);
    AtSlice(buf, 32, f.targetMac);
  }

  lemma ArpRoundTrip(f: ArpFrame, buf: FrameBuf, n: nat, ts: U64, localIps: set<U32>)
    requires 42 <= n <= BUF_SIZE && At(buf, 0, WireArp(f))
    ensures Enrich(buf, n, ts, localIps) ==
            Some(EnrichedFrame(ts, f.senderIp, f.targetIp, 0, 0, Unknown, 0, 0, 0, 0,
                               f.senderIp, f.senderMac, f.targetIp, f.oper, 0, 0, 0, f.srcMac, f.dstMac, true,
                               MakeArpFlowKey(f.senderIp)))
  {
    ArpParsed(f, buf, n);
  }

  // ---- The other direction: nothing else is accepted --------------------------------------------

  lemma AtJoin(buf: seq<Byte>, off: nat, a: seq<Byte>, b: seq<Byte>)
    requires At(buf, off, a) && At(buf, off + |a|, b)
    ensures At(buf, off, a + b)
  {
  }

  lemma Read16(buf: seq<Byte>, off: nat)
    requires off + 2 <= |buf|
    ensures At(buf, off, B16(U16At(buf, off)))
  {
  }

  lemma Read32(buf: seq<Byte>, off: nat)
    requires off + 4 <= |buf|
    ensures At(buf, off, B32(U32At(buf, off)))
  {
    Read16(buf, off);
    Read16(buf, off + 2);
    assert U32At(buf, off) / 0x1_0000 == U16At(buf, off) && U32At(buf, off) % 0x1_0000 == U16At(buf, off + 2);
    AtJoin(buf, off, B16(U16At(buf, off)), B16(U16At(buf, off + 2)));
  }

  lemma Field16(buf: seq<Byte>, off: nat) returns (v: U16)
    requires off + 2 <= |buf|
    ensures At(buf, off, B16(v))
  {
    v := U16At(buf, off);
    Read16(buf, off);
  }

  lemma Field32(buf: seq<Byte>, off: nat) returns (v: U32)
    requires off + 4 <= |buf|
    ensures At(buf, off, B32(v))
  {
    v := U32At(buf, off);
    Read32(buf, off);
  }

  lemma ReadPair(buf: seq<Byte>, off: nat)
    requires off + 2 <= |buf|
    ensures At(buf, off, [buf[off], buf[off + 1]])
  {
  }

  /** Five adjacent pieces. */
  lemma AtJoin5(buf: seq<Byte>, off: nat, a: seq<Byte>, b: seq<Byte>, c: seq<Byte>, d: seq<Byte>, e: seq<Byte>)
    requires At(buf, off, a) && At(buf, off + |a|, b) && At(buf, off + |a| + |b|, c)
    requires At(buf, off + |a| + |b| + |c|, d) && At(buf, off + |a| + |b| + |c| + |d|, e)
    ensures At(buf, off, a + (b + (c + (d + e))))
  {
  }

  lemma IhlOf(ip: Ip, ihl: Nibble)
    requires ihl >= 5 && |ip.options| == 4 * (ihl as int) - 20
    ensures ValidOptions(ip.options) && Ihl(ip) == ihl
  {
  }

  /** Every header the IP parser accepts is the image of its own fields. */
  lemma IpRebuilt(buf: FrameBuf, off: nat, ihl: Nibble) returns (ip: Ip)
    requires ihl >= 5 && off + 4 * (ihl as int) <= BUF_SIZE && buf[off] == 0x40 + ihl
    ensures ValidOptions(ip.options) && 20 + |ip.options| == 4 * (ihl as int)
    ensures ip.protocol == buf[off + 9]
    ensures At(buf, off, IpHeaderBytes(ip, U16At(buf, off + 2)))
  {
    var ident := Field16(buf, off + 4);
    var fragment := Field16(buf, off + 6);
    var checksum := Field16(buf, off + 10);
    var src := Field32(buf, off + 12);
    var dst := Field32(buf, off + 16);
    ip := Ip(buf[off + 1], ident, fragment, buf[off + 8], buf[off + 9], checksum, src, dst,
             buf[off + 20..off + 4 * (ihl as int)]);
    IhlOf(ip, ihl);
    ReadPair(buf, off + 8);
    AtJoin5(buf, off + 8, [ip.ttl, ip.protocol], B16(checksum), B32(src), B32(dst), ip.options);
    ReadPair(buf, off);
    Read16(buf, off + 2);
    IpHeadRebuilt(buf, off, ip, U16At(buf, off + 2));
  }

  lemma IpHeadRebuilt(buf: FrameBuf, off: nat, ip: Ip, total: U16)
    requires ValidOptions(ip.options)
    requires At(buf, off, [0x40 + Ihl(ip), ip.tos]) && At(buf, off + 2, B16(total))
    requires At(buf, off + 4, B16(ip.ident)) && At(buf, off + 6, B16(ip.fragment)) && At(buf, off + 8, IpTail(ip))
    ensures At(buf, off, IpHeaderBytes(ip, total))
  {
  }

  lemma TcpOffset(b: Byte, options: seq<Byte>)
    requires b / 16 >= 5 && |options| == 4 * ((b / 16) as int) - 20
    ensures ValidOptions(options) && 16 * (DataOffset(options) as int) + b % 16 == b
  {
  }

  /** Every byte is some set of control bits. */
  lemma FlagsOf(b: Byte) returns (f: TcpFlags)
    ensures FlagByte(f) == b
  {
    var cwr, b6 := TopBit(b, 64);
    var ece, b5 := TopBit(b6, 32);
    var urg, b4 := TopBit(b5, 16);
    var ack, b3 := TopBit(b4, 8);
    var psh, b2 := TopBit(b3, 4);
    var rst, b1 := TopBit(b2, 2);
    var syn, b0 := TopBit(b1, 1);
    f := TcpFlags(cwr, ece, urg, ack, psh, rst, syn, b0 == 1);
  }

  lemma TopBit(b: nat, half: nat) returns (top: bool, rest: nat)
    requires b < 4 * half
    ensures b == 2 * half * Bit(top) + rest && rest < 2 * half
  {
    top := b >= 2 * half;
    rest := if top then b - 2 * half else b;
  }

  lemma TcpAssembled(buf: FrameBuf, o: nat, t: Segment)
    requires t.Tcp? && ValidSegment(t)
    requires At(buf, o, B16(t.srcPort)) && At(buf, o + 2, B16(t.dstPort))
    requires At(buf, o + 4, B32(t.seqNum)) && At(buf, o + 8, B32(t.ackNum))
    requires At(buf, o + 12, [16 * (DataOffset(t.options) as int) + t.reserved, FlagByte(t.flags)])
    requires At(buf, o + 14, B16(t.window)) && At(buf, o + 16, B32(t.trailer))
    requires At(buf, o + 20, t.options) && At(buf, o + 20 + |t.options|, t.data)
    ensures At(buf, o, EncodeSegment(t))
  {
    var cell: seq<Byte> := [16 * (DataOffset(t.options) as int) + t.reserved, FlagByte(t.flags)];
    AtJoin5(buf, o + 12, cell, B16(t.window), B32(t.trailer), t.options, t.data);
    AtJoin5(buf, o, B16(t.srcPort), B16(t.dstPort), B32(t.seqNum), B32(t.ackNum), TcpTail(t));
  }

  lemma TcpRebuilt(buf: FrameBuf, o: nat, mid: nat, end: nat) returns (t: Segment)
    requires o + 20 <= mid <= end <= BUF_SIZE && mid == o + 4 * ((buf[o + 12] / 16) as int)
    ensures t.Tcp? && ValidSegment(t) && |EncodeSegment(t)| == end - o && At(buf, o, EncodeSegment(t))
  {
    var options := buf[o + 20..mid];
    TcpOffset(buf[o + 12], options);
    ReadPair(buf, o + 12);
    var srcPort := Field16(buf, o);
    var dstPort := Field16(buf, o + 2);
    var seqNum := Field32(buf, o + 4);
    var ackNum := Field32(buf, o + 8);
    var flags := FlagsOf(buf[o + 13]);
    var window := Field16(buf, o + 14);
    var trailer := Field32(buf, o + 16);
    t := Tcp(srcPort, dstPort, seqNum, ackNum, buf[o + 12] % 16, flags, window, trailer, options, buf[mid..end]);
    TcpAssembled(buf, o, t);
  }

  lemma UdpRebuilt(buf: FrameBuf, v: View) returns (t: Segment)
    requires v.off + v.len <= BUF_SIZE && ParseUdp(buf, v).Some?
    ensures t.Udp? && ValidSegment(t) && |EncodeSegment(t)| == v.len && At(buf, v.off, EncodeSegment(t))
  {
    var o, length := v.off, U16At(buf, v.off + 4);
    t := Udp(U16At(buf, o), U16At(buf, o + 2), U16At(buf, o + 6), buf[o + 8..o + length], buf[o + length..o + v.len]);
    AtJoin(buf, o + 8, t.data, t.slack);
    Read16(buf, o);
    Read16(buf, o + 2);
    Read16(buf, o + 4);
    Read16(buf, o + 6);
    AtJoin5(buf, o, B16(t.srcPort), B16(t.dstPort), B16(length), B16(t.checksum), t.data + t.slack);
  }

  lemma SegmentRebuilt(buf: FrameBuf, eth: EthernetFrame, ip: IpHeader, ts: U64) returns (t: Segment)
    requires ip.payload.off + 16 <= BUF_SIZE && ip.payload.off + ip.payload.len <= BUF_SIZE
    requires DissectTransport(buf, eth, ip, ts).Some?
    ensures ValidSegment(t) && Protocol(t) == ip.protocol
    ensures |EncodeSegment(t)| == ip.payload.len && At(buf, ip.payload.off, EncodeSegment(t))
  {
    var v := ip.payload;
    if ip.protocol == 6 {
      t := TcpRebuilt(buf, v.off, v.off + 4 * ((buf[v.off + 12] / 16) as int), v.off + v.len);
    } else if ip.protocol == 17 {
      t := UdpRebuilt(buf, v);
    } else if ip.protocol == 1 {
      t := Icmp(buf[v.off], buf[v.off + 1], buf[v.off + 2..v.off + v.len]);
      ReadPair(buf, v.off);
      AtJoin(buf, v.off, [t.kind, t.code], t.rest);
    } else {
      t := Raw(ip.protocol, buf[v.off..v.off + v.len]);
    }
  }

  lemma EthernetRebuilt(buf: FrameBuf, payload: seq<Byte>)
    requires At(buf, 14, payload)
    ensures At(buf, 0, EncodeEthernet(buf[0..6], buf[6..12], U16At(buf, 12), payload))
  {
  }

  /** What acceptance with a covered header comes down to. */
  predicate AcceptedAs(buf: FrameBuf, n: nat, ts: U64, ip: IpHeader)
    requires n <= BUF_SIZE
  {
    && U16At(buf, 12) == 0x0800 && buf[14] == 0x40 + ip.ihl && ip.ihl >= 5
    && ip.totalLength == U16At(buf, 16) && ip.protocol == buf[23]
    && ip.payload.off == 14 + 4 * (ip.ihl as int) && 14 + ip.totalLength <= n
    && 4 * (ip.ihl as int) + ip.payload.len == ip.totalLength
    && DissectTransport(buf, ParseEthernet(buf, n), ip, ts).Some?
  }

  /** An accepted IP frame whose total length covers its header is the image of a valid frame. */
  lemma IpFrameRebuilt(buf: FrameBuf, n: nat, ts: U64, parsed: IpHeader) returns (f: IpFrame)
    requires n <= BUF_SIZE && AcceptedAs(buf, n, ts, parsed)
    ensures ValidFrame(f) && |Wire(f)| <= n && At(buf, 0, Wire(f))
  {
    var ip := IpRebuilt(buf, 14, parsed.ihl);
    var t := SegmentRebuilt(buf, ParseEthernet(buf, n), parsed, ts);
    f := IpFrame(buf[0..6], buf[6..12], ip, t);
    Assembled(buf, ip, t);
  }

  lemma Assembled(buf: FrameBuf, ip: Ip, t: Segment)
    requires U16At(buf, 12) == 0x0800
    requires ValidFrame(IpFrame(buf[0..6], buf[6..12], ip, t))
    requires At(buf, 14, IpHeaderBytes(ip, 20 + |ip.options| + |EncodeSegment(t)|))
    requires At(buf, 34 + |ip.options|, EncodeSegment(t))
    ensures At(buf, 0, Wire(IpFrame(buf[0..6], buf[6..12], ip, t)))
  {
    AtJoin(buf, 14, IpHeaderBytes(ip, 20 + |ip.options| + |EncodeSegment(t)|), EncodeSegment(t));
    EthernetRebuilt(buf, EncodeIp(ip, EncodeSegment(t)));
  }

  lemma AcceptedIp(buf: FrameBuf, n: nat, ts: U64, localIps: set<U32>) returns (ip: IpHeader)
    requires n <= BUF_SIZE && Process(buf, n, ts, localIps).Some?
    requires HasIp(Process(buf, n, ts, localIps).value) && !Uncovered(buf[..n])
    ensures AcceptedAs(buf, n, ts, ip)
  {
    IpContainment(buf, n, ts, localIps);
    ip := Process(buf, n, ts, localIps).value.ip;
  }

  lemma ArpFrameRebuilt(buf: FrameBuf, n: nat, ts: U64, localIps: set<U32>) returns (f: ArpFrame)
    requires n <= BUF_SIZE && Process(buf, n, ts, localIps).Some? && Process(buf, n, ts, localIps).value.Arp?
    ensures 42 <= n && At(buf, 0, WireArp(f))
  {
    f := ArpFrame(buf[0..6], buf[6..12], U16At(buf, 20), buf[22..28], U32At(buf, 28), buf[32..38], U32At(buf, 38));
    var h7 := f.targetMac + B32(f.targetIp);
    var h6 := B32(f.senderIp) + h7;
    var h5 := f.senderMac + h6;
    var h4 := B16(f.oper) + h5;
    Read32(buf, 38);
    AtJoin(buf, 32, f.targetMac, B32(f.targetIp));
    Read32(buf, 28);
    AtJoin(buf, 28, B32(f.senderIp), h7);
    AtJoin(buf, 22, f.senderMac, h6);
    Read16(buf, 20);
    AtJoin(buf, 20, B16(f.oper), h5);
    ReadPair(buf, 18);
    AtJoin(buf, 18, [buf[18], buf[19]], h4);
    Read16(buf, 16);
    AtJoin(buf, 16, B16(0x0800), [buf[18], buf[19]] + h4);
    Read16(buf, 14);
    AtJoin(buf, 14, B16(1), B16(0x0800) + ([buf[18], buf[19]] + h4));
    EthernetRebuilt(buf, B16(1) + (B16(0x0800) + ([buf[18], buf[19]] + h4)));
  }

  /** The frame in the buffer is a valid IP or ARP frame, possibly with bytes appended. */
  ghost predicate IsImage(buf: FrameBuf, n: nat) {
    || (exists f: IpFrame :: ValidFrame(f) && |Wire(f)| <= n && At(buf, 0, Wire(f)))
    || (exists f: ArpFrame :: 42 <= n && At(buf, 0, WireArp(f)))
  }

  /** Accepted, and not with a total length that falls short of the header. */
  predicate Accepts(buf: FrameBuf, n: nat, ts: U64, localIps: set<U32>)
    requires n <= BUF_SIZE
  {
    Process(buf, n, ts, localIps).Some? && !Uncovered(buf[..n])
  }

  lemma AcceptedIsImage(buf: FrameBuf, n: nat, ts: U64, localIps: set<U32>)
    requires n <= BUF_SIZE && Accepts(buf, n, ts, localIps)
    ensures IsImage(buf, n)
  {
    if Process(buf, n, ts, localIps).value.Arp? {
      var f := ArpFrameRebuilt(buf, n, ts, localIps);
    } else {
      var parsed := AcceptedIp(buf, n, ts, localIps);
      var f := IpFrameRebuilt(buf, n, ts, parsed);
    }
  }

  lemma ImageIsAccepted(buf: FrameBuf, n: nat, ts: U64, localIps: set<U32>)
    requires n <= BUF_SIZE && IsImage(buf, n)
    ensures Accepts(buf, n, ts, localIps)
  {
    if f: IpFrame :| ValidFrame(f) && |Wire(f)| <= n && At(buf, 0, Wire(f)) {
      ImageCovers(f, buf, n, ts, localIps);
    } else {
      var f: ArpFrame :| 42 <= n && At(buf, 0, WireArp(f));
      ArpParsed(f, buf, n);
      SameReads(buf, buf[..n], n, 12);
    }
  }

  /** The chain accepts exactly the images of the reference encoders, apart from the IP headers whose total
      length falls short of the header. */
  lemma AcceptsExactly(buf: FrameBuf, n: nat, ts: U64, localIps: set<U32>)
    requires n <= BUF_SIZE
    ensures Accepts(buf, n, ts, localIps) <==> IsImage(buf, n)
  {
    if Accepts(buf, n, ts, localIps) {
      AcceptedIsImage(buf, n, ts, localIps);
    }
    if IsImage(buf, n) {
      ImageIsAccepted(buf, n, ts, localIps);
    }
  }

  lemma ImageCovers(f: IpFrame, buf: FrameBuf, n: nat, ts: U64, localIps: set<U32>)
    requires ValidFrame(f) && |Wire(f)| <= n <= BUF_SIZE && At(buf, 0, Wire(f))
    ensures Process(buf, n, ts, localIps).Some? && !Uncovered(buf[..n])
  {
    var eth, ip := WireCarried(f, buf, n, ts, localIps);
    SegmentDissected(f, buf, eth, ip, ts, localIps);
  }
}
