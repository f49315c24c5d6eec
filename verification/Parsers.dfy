/** The protocol parsers. A C++ pointer-and-length pair is a `View` into the frame buffer; lengths are
    64-bit unsigned, so a subtraction that goes below zero wraps around as it does in the code. */
module Parsers {
  import opened Bytes
  import Checksum

  type Mac = m: seq<Byte> | |m| == 6 witness [0, 0, 0, 0, 0, 0]

  type Nibble = x: int | 0 <= x < 16

  datatype View = View(off: nat, len: U64)

  const ETHERNET_HEADER_SIZE := 14
  const ETHERNET_MIN_SIZE := 15
  const ETHERTYPE_IPV4 := 0x0800
  const ETHERTYPE_ARP := 0x0806

  /** Subtraction of 64-bit unsigned numbers. */
  function Minus(a: U64, b: U64): U64 {
    if a >= b then a - b else a - b + TWO_64
  }

  // ---- Ethernet ---------------------------------------------------------------------------------

  datatype EthernetFrame = EthernetFrame(dstMac: Mac, srcMac: Mac, ethertype: U16, payload: View, valid: bool)

  const NO_MAC: Mac := [0, 0, 0, 0, 0, 0]

  function ParseEthernet(buf: seq<Byte>, size: nat): EthernetFrame
    requires size <= |buf| < TWO_64
  {
    if size < ETHERNET_MIN_SIZE then EthernetFrame(NO_MAC, NO_MAC, 0, View(0, 0), false)
    else EthernetFrame(buf[0..6], buf[6..12], U16At(buf, 12), View(14, size - 14), true)
  }

  method CopyMac(buf: array<Byte>, at: nat) returns (mac: Mac)
    requires at + 6 <= buf.Length
    ensures mac == buf[at..at + 6]
  {
    var m := new Byte[6](_ => 0);
    for i := 0 to 6
      invariant m[..i] == buf[at..at + i]
    {
      m[i] := buf[at + i];
    }
    return m[..];
  }

  method ParseEthernetFrame(buf: array<Byte>, size: nat) returns (frame: EthernetFrame)
    requires size <= buf.Length < TWO_64
    ensures frame == ParseEthernet(buf[..], size)
  {
    if size < ETHERNET_MIN_SIZE {
      return EthernetFrame(NO_MAC, NO_MAC, 0, View(0, 0), false);
    }
    var dst := CopyMac(buf, 0);
    var src := CopyMac(buf, 6);
    return EthernetFrame(dst, src, Word(buf[12], buf[13]), View(14, size - 14), true);
  }

  // ---- IPv4, section 3.1 of RFC 791 -------------------------------------------------------------

  datatype Direction = Inbound | Outbound | Unknown

  datatype IpHeader = IpHeader(ihl: Nibble, ttl: Byte, protocol: Byte, srcIp: U32, dstIp: U32,
                               totalLength: U16, checksumOk: bool, direction: Direction, payload: View)

  function ParseIp(buf: seq<Byte>, v: View, direction: Direction): Option<IpHeader>
    requires v.off + v.len <= |buf|
  {
    IpFields(buf, v, direction, HeaderVerifies(buf, v))
  }

  predicate HeaderVerifies(buf: seq<Byte>, v: View)
    requires v.off + v.len <= |buf|
  {
    v.len >= 20 && 4 * ((buf[v.off] % 16) as int) <= v.len
    && Checksum.VerifyIpChecksum(buf[v.off..v.off + 4 * ((buf[v.off] % 16) as int)])
  }

  function IpFields(buf: seq<Byte>, v: View, direction: Direction, checksumOk: bool): Option<IpHeader>
    requires v.off + v.len <= |buf|
  {
    if v.len < 20 then None
    else IpChecked(v, buf[v.off], U16At(buf, v.off + 2), buf[v.off + 8], buf[v.off + 9],
                   U32At(buf, v.off + 12), U32At(buf, v.off + 16), direction, checksumOk)
  }

  /** The version and length checks on the fields of a header of at least 20 bytes. */
  function IpChecked(v: View, first: Byte, totalLength: U16, ttl: Byte, protocol: Byte, srcIp: U32, dstIp: U32,
                     direction: Direction, checksumOk: bool): Option<IpHeader>
  {
    var ihl := first % 16;
    var headerBytes := 4 * (ihl as int);
    if first / 16 != 4 || ihl < 5 || headerBytes > v.len || totalLength > v.len then None
    else Some(IpHeader(ihl, ttl, protocol, srcIp, dstIp, totalLength, checksumOk, direction,
                       View(v.off + headerBytes, Minus(totalLength, headerBytes))))
  }

  // ---- TCP, section 3.1 of RFC 9293 -------------------------------------------------------------

  datatype TcpHeader = TcpHeader(srcPort: U16, dstPort: U16, seqNum: U32, dataOffset: Nibble, flags: Byte,
                                 windowSize: U16, payload: View)

  function ParseTcp(buf: seq<Byte>, v: View): Option<TcpHeader>
    requires v.len >= 20 ==> v.off + 16 <= |buf|
  {
    if v.len < 20 then None else
    var dataOffset := buf[v.off + 12] / 16;
    var headerBytes := 4 * (dataOffset as int);
    if dataOffset < 5 || headerBytes > v.len then None else
    Some(TcpHeader(U16At(buf, v.off), U16At(buf, v.off + 2), U32At(buf, v.off + 4), dataOffset,
                   buf[v.off + 13] % 0x40, U16At(buf, v.off + 14),
                   View(v.off + headerBytes, v.len - headerBytes)))
  }

  // ---- UDP, RFC 768 -----------------------------------------------------------------------------

  datatype UdpHeader = UdpHeader(srcPort: U16, dstPort: U16, length: U16, isDns: bool, payload: View)

  function ParseUdp(buf: seq<Byte>, v: View): Option<UdpHeader>
    requires v.len >= 8 ==> v.off + 6 <= |buf|
  {
    if v.len < 8 then None else
    var srcPort, dstPort, length := U16At(buf, v.off), U16At(buf, v.off + 2), U16At(buf, v.off + 4);
    if length < 8 || length > v.len then None else
    Some(UdpHeader(srcPort, dstPort, length, srcPort == 53 || dstPort == 53, View(v.off + 8, length - 8)))
  }

  // ---- ICMP, RFC 792 ----------------------------------------------------------------------------

  datatype IcmpHeader = IcmpHeader(kind: Byte, code: Byte, packetSize: U16, isOversized: bool, payload: View)

  function ParseIcmp(buf: seq<Byte>, v: View, ipTotalLength: U16): Option<IcmpHeader>
    requires v.len >= 8 ==> v.off + 2 <= |buf|
  {
    if v.len < 8 then None else
    Some(IcmpHeader(buf[v.off], buf[v.off + 1], ipTotalLength, ipTotalLength > 1500,
                    View(v.off + 8, v.len - 8)))
  }

  // ---- ARP, RFC 826 -----------------------------------------------------------------------------

  datatype ArpPacket = ArpPacket(oper: U16, senderMac: Mac, senderIp: U32, targetMac: Mac, targetIp: U32,
                                 isReply: bool)

  function ParseArp(buf: seq<Byte>, v: View): Option<ArpPacket>
    requires v.off + v.len <= |buf|
  {
    var o := v.off;
    if v.len < 28 || U16At(buf, o) != 1 || U16At(buf, o + 2) != ETHERTYPE_IPV4
       || buf[o + 4] != 6 || buf[o + 5] != 4 then None else
    var oper := U16At(buf, o + 6);
    Some(ArpPacket(oper, buf[o + 8..o + 14], U32At(buf, o + 14), buf[o + 18..o + 24], U32At(buf, o + 24),
                   oper == 2))
  }

  method ParseArpPacket(buf: array<Byte>, v: View) returns (r: Option<ArpPacket>)
    requires v.off + v.len <= buf.Length
    ensures r == ParseArp(buf[..], v)
  {
    var o := v.off;
    if v.len < 28 || U16At(buf[..], o) != 1 || U16At(buf[..], o + 2) != ETHERTYPE_IPV4
       || buf[o + 4] != 6 || buf[o + 5] != 4 {
      return None;
    }
    var oper := U16At(buf[..], o + 6);
    var senderMac := CopyMac(buf, o + 8);
    var targetMac := CopyMac(buf, o + 18);
    return Some(ArpPacket(oper, senderMac, U32At(buf[..], o + 14), targetMac, U32At(buf[..], o + 24), oper == 2));
  }
}
