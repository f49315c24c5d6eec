/** `buildJson`: an object printed without any escaping, against a strict reader of RFC 8259 text. */
module Json {
  import opened Bytes
  import opened Parsers
  import opened Dissector
  import opened Text
  import opened Stats
  import opened FlowTracker

  datatype Value = Str(s: string) | Num(n: nat) | Bool(b: bool) | Null
  datatype Member = Member(name: string, value: Value)

  // ---- The printer ------------------------------------------------------------------------------

  function PrintValue(v: Value): string {
    match v
    case Str(s) => ['"'] + s + ['"']
    case Num(n) => Dec(n)
    case Bool(b) => if b then "true" else "false"
    case Null => "null"
  }

  function PrintMember(m: Member): string {
    ['"'] + m.name + ['"'] + ([':'] + PrintValue(m.value))
  }

  function PrintMembers(ms: seq<Member>): string {
    if ms == [] then []
    else if |ms| == 1 then PrintMember(ms[0])
    else PrintMember(ms[0]) + [','] + PrintMembers(ms[1..])
  }

  function ProtocolText(protocol: Byte): string {
    match protocol
    case 6 => "TCP"
    case 17 => "UDP"
    case 1 => "ICMP"
    case 0 => "ARP"
    case _ => "OTHER"
  }

  function DirectionValue(d: Direction): Value {
    match d
    case Inbound => Str("inbound")
    case Outbound => Str("outbound")
    case Unknown => Null
  }

  function HeadFields(f: EnrichedFrame): seq<Member> {
    [Member("flow_key", Str(f.flowKey)), Member("timestamp", Num(f.timestamp)),
     Member("src_ip", Str(IpText(f.srcIp))), Member("dst_ip", Str(IpText(f.dstIp))),
     Member("protocol", Str(ProtocolText(f.protocol))), Member("packet_size", Num(f.packetSize)),
     Member("direction", DirectionValue(f.direction)), Member("ttl", Num(f.ttl)),
     Member("src_mac", Str(MacText(f.srcMac))), Member("dst_mac", Str(MacText(f.dstMac)))]
  }

  function TransportFields(f: EnrichedFrame, isRetransmit: bool): seq<Member> {
    [Member("checksum_valid", Bool(f.checksumValid)),
     Member("src_port", Num(f.srcPort)), Member("dst_port", Num(f.dstPort)),
     Member("flags", Num(f.flags)), Member("seq_num", Num(f.seqNum)),
     Member("is_retransmit", Bool(isRetransmit)),
     Member("icmp_type", Num(f.icmpType)), Member("icmp_code", Num(f.icmpCode)),
     Member("arp_opcode", Num(f.arpOpcode)), Member("arp_sender_ip", Str(IpText(f.arpSenderIp)))]
  }

  function FlowFields(f: EnrichedFrame, flow: FlowRecord): seq<Member> {
    [Member("arp_sender_mac", Str(MacText(f.arpSenderMac))), Member("arp_target_ip", Str(IpText(f.arpTargetIp))),
     Member("first_seen", Num(flow.firstSeen)), Member("last_seen", Num(flow.lastSeen)),
     Member("total_bytes", Num(flow.totalBytes)), Member("inbound_bytes", Num(flow.inboundBytes)),
     Member("outbound_bytes", Num(flow.outboundBytes)), Member("syn_count", Num(flow.synCount)),
     Member("syn_ack_count", Num(flow.synAckCount)), Member("rst_count", Num(flow.rstCount))]
  }

  function Fields(f: EnrichedFrame, flow: FlowRecord, isRetransmit: bool): seq<Member> {
    HeadFields(f) + TransportFields(f, isRetransmit) + FlowFields(f, flow)
  }

  function BuildJson(f: EnrichedFrame, flow: FlowRecord, isRetransmit: bool): string {
    ['{'] + (PrintMembers(Fields(f, flow, isRetransmit)) + ['}'])
  }

  // ---- A strict reader: flat objects, no white space, no escapes (a part of RFC 8259) -----------

  /** Section 7: the characters a string may contain unescaped. */
  predicate Unescaped(c: char) {
    c >= ' ' && c != '"' && c != '\\'
  }

  function ReadChars(s: string): (r: Option<(string, string)>)
    ensures r.Some? ==> |r.value.1| < |s|
  {
    if s == [] then None
    else if s[0] == '"' then Some(([], s[1..]))
    else if !Unescaped(s[0]) then None
    else
      var rest := ReadChars(s[1..]);
      if rest.None? then None else Some(([s[0]] + rest.value.0, rest.value.1))
  }

  function ReadDigits(s: string): (r: (string, string))
    ensures |r.0| + |r.1| == |s|
  {
    if s == [] || !IsDigit(s[0]) then ([], s)
    else var (d, rest) := ReadDigits(s[1..]); ([s[0]] + d, rest)
  }

  /** Section 6: an integer without superfluous leading zeros. */
  function ReadNumber(s: string): (r: Option<(Value, string)>)
    ensures r.Some? ==> |r.value.1| < |s|
  {
    var (d, rest) := ReadDigits(s);
    if d == [] || (|d| > 1 && d[0] == '0') then None else Some((Num(UnDec(d)), rest))
  }

  function ReadLiteral(s: string, literal: string, v: Value): (r: Option<(Value, string)>)
    requires literal != []
    ensures r.Some? ==> |r.value.1| < |s|
  {
    if |literal| <= |s| && s[..|literal|] == literal then Some((v, s[|literal|..])) else None
  }

  /** Section 3. */
  function ReadValue(s: string): (r: Option<(Value, string)>)
    ensures r.Some? ==> |r.value.1| < |s|
  {
    if s == [] then None
    else if s[0] == '"' then
      var r := ReadChars(s[1..]);
      if r.None? then None else Some((Str(r.value.0), r.value.1))
    else if s[0] == 't' then ReadLiteral(s, "true", Bool(true))
    else if s[0] == 'f' then ReadLiteral(s, "false", Bool(false))
    else if s[0] == 'n' then ReadLiteral(s, "null", Null)
    else ReadNumber(s)
  }

  function ReadMember(s: string): (r: Option<(Member, string)>)
    ensures r.Some? ==> |r.value.1| < |s|
  {
    if s == [] || s[0] != '"' then None else
    var name := ReadChars(s[1..]);
    if name.None? || name.value.1 == [] || name.value.1[0] != ':' then None else
    var v := ReadValue(name.value.1[1..]);
    if v.None? then None else Some((Member(name.value.0, v.value.0), v.value.1))
  }

  /** Section 4: members separated by commas up to the closing brace, which must end the text. */
  function ReadMembers(s: string): Option<seq<Member>>
    decreases |s|
  {
    var m := ReadMember(s);
    if m.None? || m.value.1 == [] then None
    else if m.value.1 == ['}'] then Some([m.value.0])
    else if m.value.1[0] != ',' then None
    else
      var rest := ReadMembers(m.value.1[1..]);
      if rest.None? then None else Some([m.value.0] + rest.value)
  }

  function ReadObject(s: string): Option<seq<Member>> {
    if s == [] || s[0] != '{' then None else ReadMembers(s[1..])
  }

  // ---- Reading back what was printed ------------------------------------------------------------

  predicate Clean(s: string) {
    forall i :: 0 <= i < |s| ==> Unescaped(s[i])
  }

  predicate CleanMember(m: Member) {
    Clean(m.name) && (m.value.Str? ==> Clean(m.value.s))
  }

  lemma {:induction false} ReadCleanChars(s: string, rest: string)
    requires Clean(s)
    ensures ReadChars(s + ['"'] + rest) == Some((s, rest))
  {
    var t := s + ['"'] + rest;
    if s != [] {
      assert t[1..] == s[1..] + ['"'] + rest;
      ReadCleanChars(s[1..], rest);
      assert s == [s[0]] + s[1..];
    }
  }

  lemma {:induction false} ReadAllDigits(d: string, rest: string)
    requires forall i :: 0 <= i < |d| ==> IsDigit(d[i])
    requires rest != [] && !IsDigit(rest[0])
    ensures ReadDigits(d + rest) == (d, rest)
  {
    if d == [] {
      assert d + rest == rest;
    } else {
      assert (d + rest)[1..] == d[1..] + rest;
      ReadAllDigits(d[1..], rest);
      assert d == [d[0]] + d[1..];
    }
  }

  lemma ReadPrintedString(s: string, rest: string)
    requires Clean(s)
    ensures ReadValue(['"'] + s + ['"'] + rest) == Some((Str(s), rest))
  {
    var t := ['"'] + s + ['"'] + rest;
    assert t[1..] == s + ['"'] + rest;
    ReadCleanChars(s, rest);
  }

  lemma ReadPrintedNumber(n: nat, rest: string)
    requires rest != [] && !IsDigit(rest[0])
    ensures ReadValue(Dec(n) + rest) == Some((Num(n), rest))
  {
    ReadAllDigits(Dec(n), rest);
    DecLeading(n);
    UnDecDec(n);
    assert IsDigit((Dec(n) + rest)[0]);
  }

  lemma ReadPrintedLiteral(literal: string, v: Value, rest: string)
    requires literal != []
    ensures ReadLiteral(literal + rest, literal, v) == Some((v, rest))
  {
  }

  lemma ReadPrintedValue(v: Value, rest: string)
    requires v.Str? ==> Clean(v.s)
    requires rest != [] && !IsDigit(rest[0])
    ensures ReadValue(PrintValue(v) + rest) == Some((v, rest))
  {
    match v
    case Str(s) => ReadPrintedString(s, rest);
    case Num(n) => ReadPrintedNumber(n, rest);
    case Bool(b) => ReadPrintedLiteral(if b then "true" else "false", v, rest);
    case Null => ReadPrintedLiteral("null", v, rest);
  }

  lemma ReadPrintedMember(m: Member, rest: string)
    requires CleanMember(m)
    requires rest != [] && !IsDigit(rest[0])
    ensures ReadMember(PrintMember(m) + rest) == Some((m, rest))
  {
    var t := PrintMember(m) + rest;
    var tail := [':'] + (PrintValue(m.value) + rest);
    assert t[1..] == m.name + ['"'] + tail;
    ReadCleanChars(m.name, tail);
    assert tail[1..] == PrintValue(m.value) + rest;
    ReadPrintedValue(m.value, rest);
  }

  lemma ReadMembersStep(s: string, m: Member, u: string, ms: seq<Member>)
    requires ReadMember(s) == Some((m, [','] + u)) && ReadMembers(u) == Some(ms)
    ensures ReadMembers(s) == Some([m] + ms)
  {
  }

  lemma {:induction false} ReadPrintedMembers(ms: seq<Member>)
    requires ms != [] && forall i :: 0 <= i < |ms| ==> CleanMember(ms[i])
    ensures ReadMembers(PrintMembers(ms) + ['}']) == Some(ms)
  {
    if |ms| == 1 {
      ReadPrintedMember(ms[0], ['}']);
      assert ms == [ms[0]];
    } else {
      var u := PrintMembers(ms[1..]) + ['}'];
      Regroup(PrintMember(ms[0]), [','], PrintMembers(ms[1..]), ['}']);
      ReadPrintedMember(ms[0], [','] + u);
      ReadPrintedMembers(ms[1..]);
      ReadMembersStep(PrintMember(ms[0]) + ([','] + u), ms[0], u, ms[1..]);
      assert ms == [ms[0]] + ms[1..];
    }
  }

  lemma Regroup(a: string, b: string, c: string, d: string)
    ensures a + b + c + d == a + (b + (c + d))
  {
  }

  /** Flow keys use digits, dots, colons, the arrow and the letters of "ARP" only. */
  lemma KeyClean(d: Dissected)
    ensures Clean(StatsStage(d).flowKey)
  {
    KeyShape(d);
    if !d.Arp? {
      FlowKeyClean(d.ip.srcIp, Ports(d).0, d.ip.dstIp, Ports(d).1);
    }
  }

  lemma FlowKeyClean(srcIp: U32, srcPort: U16, dstIp: U32, dstPort: U16)
    ensures Clean(MakeFlowKey(srcIp, srcPort, dstIp, dstPort))
  {
    assert Clean(IpText(dstIp) + [':'] + Dec(dstPort));
    assert Clean(Dec(srcPort) + ['-'] + (['>'] + (IpText(dstIp) + [':'] + Dec(dstPort))));
  }

  lemma HeadNames()
    ensures Clean("flow_key") && Clean("timestamp") && Clean("src_ip") && Clean("dst_ip") && Clean("protocol")
    ensures Clean("packet_size") && Clean("direction") && Clean("ttl") && Clean("src_mac") && Clean("dst_mac")
  {
  }

  lemma HeadClean(f: EnrichedFrame)
    requires Clean(f.flowKey)
    ensures forall i :: 0 <= i < |HeadFields(f)| ==> CleanMember(HeadFields(f)[i])
  {
    HeadNames();
    assert Clean(ProtocolText(f.protocol));
    assert DirectionValue(f.direction).Str? ==> Clean(DirectionValue(f.direction).s);
  }

  lemma TransportNames()
    ensures Clean("checksum_valid") && Clean("src_port") && Clean("dst_port") && Clean("flags") && Clean("seq_num")
    ensures Clean("is_retransmit") && Clean("icmp_type") && Clean("icmp_code") && Clean("arp_opcode")
    ensures Clean("arp_sender_ip")
  {
  }

  lemma TransportClean(f: EnrichedFrame, isRetransmit: bool)
    ensures forall i :: 0 <= i < |TransportFields(f, isRetransmit)| ==> CleanMember(TransportFields(f, isRetransmit)[i])
  {
    TransportNames();
  }

  lemma FlowNames()
    ensures Clean("arp_sender_mac") && Clean("arp_target_ip") && Clean("first_seen") && Clean("last_seen")
    ensures Clean("total_bytes") && Clean("inbound_bytes") && Clean("outbound_bytes")
    ensures Clean("syn_count") && Clean("syn_ack_count") && Clean("rst_count")
  {
  }

  lemma FlowClean(f: EnrichedFrame, flow: FlowRecord)
    ensures forall i :: 0 <= i < |FlowFields(f, flow)| ==> CleanMember(FlowFields(f, flow)[i])
  {
    FlowNames();
  }

  lemma FieldsClean(f: EnrichedFrame, flow: FlowRecord, isRetransmit: bool, i: nat)
    requires Clean(f.flowKey) && i < |Fields(f, flow, isRetransmit)|
    ensures CleanMember(Fields(f, flow, isRetransmit)[i])
  {
    var a, b, c := HeadFields(f), TransportFields(f, isRetransmit), FlowFields(f, flow);
    HeadClean(f);
    TransportClean(f, isRetransmit);
    FlowClean(f, flow);
    CleanConcat(a, b);
    CleanConcat(a + b, c);
  }

  lemma CleanConcat(a: seq<Member>, b: seq<Member>)
    requires forall i :: 0 <= i < |a| ==> CleanMember(a[i])
    requires forall i :: 0 <= i < |b| ==> CleanMember(b[i])
    ensures forall i :: 0 <= i < |a + b| ==> CleanMember((a + b)[i])
  {
  }

  lemma ReadBraces(ms: seq<Member>)
    requires ms != [] && forall i :: 0 <= i < |ms| ==> CleanMember(ms[i])
    ensures ReadObject(['{'] + (PrintMembers(ms) + ['}'])) == Some(ms)
  {
    ReadPrintedMembers(ms);
    var body := PrintMembers(ms) + ['}'];
    assert (['{'] + body)[1..] == body;
  }

  /** The unescaped output is well-formed and reads back member by member. */
  lemma ValidJson(d: Dissected, flow: FlowRecord, isRetransmit: bool)
    ensures ReadObject(BuildJson(StatsStage(d), flow, isRetransmit)) == Some(Fields(StatsStage(d), flow, isRetransmit))
  {
    KeyClean(d);
    ValidJsonFor(StatsStage(d), flow, isRetransmit);
  }

  lemma ValidJsonFor(f: EnrichedFrame, flow: FlowRecord, isRetransmit: bool)
    requires Clean(f.flowKey)
    ensures ReadObject(BuildJson(f, flow, isRetransmit)) == Some(Fields(f, flow, isRetransmit))
  {
    var ms := Fields(f, flow, isRetransmit);
    forall i | 0 <= i < |ms| ensures CleanMember(ms[i]) {
      FieldsClean(f, flow, isRetransmit, i);
    }
    ReadBraces(ms);
  }

  // ---- Recovering the values --------------------------------------------------------------------

  datatype HeadPart = HeadPart(
    flowKey: string, timestamp: nat, srcIp: nat, dstIp: nat, protocol: nat, packetSize: nat,
    direction: Direction, ttl: nat, srcMac: seq<nat>, dstMac: seq<nat>)

  datatype TransportPart = TransportPart(
    checksumValid: bool, srcPort: nat, dstPort: nat, flags: nat, seqNum: nat, isRetransmit: bool,
    icmpType: nat, icmpCode: nat, arpOpcode: nat, arpSenderIp: nat)

  datatype FlowPart = FlowPart(
    arpSenderMac: seq<nat>, arpTargetIp: nat, firstSeen: nat, lastSeen: nat,
    totalBytes: nat, inboundBytes: nat, outboundBytes: nat, synCount: nat, synAckCount: nat, rstCount: nat)

  /** The thirty values that go into a message. */
  datatype Message = Message(head: HeadPart, transport: TransportPart, flow: FlowPart)

  function SentHead(f: EnrichedFrame, protocol: nat): HeadPart {
    HeadPart(f.flowKey, f.timestamp, f.srcIp, f.dstIp, protocol, f.packetSize, f.direction, f.ttl, f.srcMac, f.dstMac)
  }

  function SentTransport(f: EnrichedFrame, isRetransmit: bool): TransportPart {
    TransportPart(f.checksumValid, f.srcPort, f.dstPort, f.flags, f.seqNum, isRetransmit,
                  f.icmpType, f.icmpCode, f.arpOpcode, f.arpSenderIp)
  }

  function SentFlow(f: EnrichedFrame, flow: FlowRecord): FlowPart {
    FlowPart(f.arpSenderMac, f.arpTargetIp, flow.firstSeen, flow.lastSeen, flow.totalBytes,
             flow.inboundBytes, flow.outboundBytes, flow.synCount, flow.synAckCount, flow.rstCount)
  }

  function Sent(f: EnrichedFrame, flow: FlowRecord, isRetransmit: bool): Message {
    Message(SentHead(f, f.protocol), SentTransport(f, isRetransmit), SentFlow(f, flow))
  }

  /** The value of the member of this name. */
  function Find(ms: seq<Member>, name: string): Value {
    if ms == [] then Null else if ms[0].name == name then ms[0].value else Find(ms[1..], name)
  }

  function AsNum(v: Value): nat { if v.Num? then v.n else 0 }
  function AsText(v: Value): string { if v.Str? then v.s else "" }

  function UnProtocol(s: string): nat {
    if s == "TCP" then 6 else if s == "UDP" then 17 else if s == "ICMP" then 1 else if s == "ARP" then 0 else 0x100
  }

  function UnDirection(v: Value): Direction {
    if v == Str("inbound") then Inbound else if v == Str("outbound") then Outbound else Unknown
  }

  /** A consumer of the message: it looks every value up by its name. */
  function Received(ms: seq<Member>): Message {
    Message(ReceivedHead(ms), ReceivedTransport(ms), ReceivedFlow(ms))
  }

  function ReceivedHead(ms: seq<Member>): HeadPart {
    HeadPart(AsText(Find(ms, "flow_key")), AsNum(Find(ms, "timestamp")),
             UnIpText(AsText(Find(ms, "src_ip"))), UnIpText(AsText(Find(ms, "dst_ip"))),
             UnProtocol(AsText(Find(ms, "protocol"))), AsNum(Find(ms, "packet_size")),
             UnDirection(Find(ms, "direction")), AsNum(Find(ms, "ttl")),
             UnMacText(AsText(Find(ms, "src_mac"))), UnMacText(AsText(Find(ms, "dst_mac"))))
  }

  function ReceivedTransport(ms: seq<Member>): TransportPart {
    TransportPart(Find(ms, "checksum_valid") == Bool(true), AsNum(Find(ms, "src_port")), AsNum(Find(ms, "dst_port")),
                  AsNum(Find(ms, "flags")), AsNum(Find(ms, "seq_num")), Find(ms, "is_retransmit") == Bool(true),
                  AsNum(Find(ms, "icmp_type")), AsNum(Find(ms, "icmp_code")),
                  AsNum(Find(ms, "arp_opcode")), UnIpText(AsText(Find(ms, "arp_sender_ip"))))
  }

  function ReceivedFlow(ms: seq<Member>): FlowPart {
    FlowPart(UnMacText(AsText(Find(ms, "arp_sender_mac"))), UnIpText(AsText(Find(ms, "arp_target_ip"))),
             AsNum(Find(ms, "first_seen")), AsNum(Find(ms, "last_seen")), AsNum(Find(ms, "total_bytes")),
             AsNum(Find(ms, "inbound_bytes")), AsNum(Find(ms, "outbound_bytes")), AsNum(Find(ms, "syn_count")),
             AsNum(Find(ms, "syn_ack_count")), AsNum(Find(ms, "rst_count")))
  }

  /** Every value has the JSON type a consumer expects under its name. */
  predicate Typed(ms: seq<Member>) {
    TypedHead(ms) && TypedTransport(ms) && TypedFlow(ms)
  }

  predicate TypedHead(ms: seq<Member>) {
    && Find(ms, "flow_key").Str? && Find(ms, "timestamp").Num? && Find(ms, "src_ip").Str? && Find(ms, "dst_ip").Str?
    && Find(ms, "protocol").Str? && Find(ms, "packet_size").Num?
    && (Find(ms, "direction") == Null || Find(ms, "direction") == Str("inbound") || Find(ms, "direction") == Str("outbound"))
    && Find(ms, "ttl").Num? && Find(ms, "src_mac").Str? && Find(ms, "dst_mac").Str?
  }

  predicate TypedTransport(ms: seq<Member>) {
    && Find(ms, "checksum_valid").Bool? && Find(ms, "src_port").Num? && Find(ms, "dst_port").Num?
    && Find(ms, "flags").Num? && Find(ms, "seq_num").Num? && Find(ms, "is_retransmit").Bool?
    && Find(ms, "icmp_type").Num? && Find(ms, "icmp_code").Num? && Find(ms, "arp_opcode").Num?
    && Find(ms, "arp_sender_ip").Str?
  }

  predicate TypedFlow(ms: seq<Member>) {
    && Find(ms, "arp_sender_mac").Str? && Find(ms, "arp_target_ip").Str? && Find(ms, "first_seen").Num?
    && Find(ms, "last_seen").Num? && Find(ms, "total_bytes").Num? && Find(ms, "inbound_bytes").Num?
    && Find(ms, "outbound_bytes").Num? && Find(ms, "syn_count").Num? && Find(ms, "syn_ack_count").Num?
    && Find(ms, "rst_count").Num?
  }

  // ---- No name occurs twice ---------------------------------------------------------------------

  /** Tells the thirty names apart by their length and one or two letters. */
  function Place(s: string): nat {
    match |s|
    case 3 => 7
    case 5 => 13
    case 6 => if s[0] == 's' then 2 else 3
    case 7 => if s[1] == 'e' then 14 else if s[0] == 's' then 8 else 9
    case 8 => if s[0] == 'f' then 0 else if s[0] == 'p' then 4 else if s[0] == 's' then 11 else 12
    case 9 =>
      if s[0] == 't' then 1 else if s[0] == 'd' then 6 else if s[0] == 'l' then 23
      else if s[0] == 's' then 27 else if s[0] == 'r' then 29 else if s[5] == 't' then 16 else 17
    case 10 => if s[0] == 'a' then 18 else 22
    case 11 => if s[0] == 'p' then 5 else 24
    case 13 =>
      if s[0] == 's' then 28 else if s[0] == 'a' then (if s[4] == 's' then 19 else 21)
      else if s[1] == 's' then 15 else 25
    case _ => if |s| == 0 || s[0] == 'c' then 10 else if s[0] == 'a' then 20 else 26
  }

  lemma HeadPlaces()
    ensures Place("flow_key") == 0 && Place("timestamp") == 1 && Place("src_ip") == 2 && Place("dst_ip") == 3
    ensures Place("protocol") == 4 && Place("packet_size") == 5 && Place("direction") == 6 && Place("ttl") == 7
    ensures Place("src_mac") == 8 && Place("dst_mac") == 9
  {
  }

  lemma TransportPlaces()
    ensures Place("checksum_valid") == 10 && Place("src_port") == 11 && Place("dst_port") == 12
    ensures Place("flags") == 13 && Place("seq_num") == 14 && Place("is_retransmit") == 15
    ensures Place("icmp_type") == 16 && Place("icmp_code") == 17 && Place("arp_opcode") == 18
    ensures Place("arp_sender_ip") == 19
  {
  }

  lemma FlowPlaces()
    ensures Place("arp_sender_mac") == 20 && Place("arp_target_ip") == 21 && Place("first_seen") == 22
    ensures Place("last_seen") == 23 && Place("total_bytes") == 24 && Place("inbound_bytes") == 25
    ensures Place("outbound_bytes") == 26 && Place("syn_count") == 27 && Place("syn_ack_count") == 28
    ensures Place("rst_count") == 29
  {
  }

  ghost predicate PlacedFrom(ms: seq<Member>, first: nat) {
    forall i :: 0 <= i < |ms| ==> Place(ms[i].name) == first + i
  }

  lemma PlacedConcat(a: seq<Member>, b: seq<Member>, first: nat)
    requires PlacedFrom(a, first) && PlacedFrom(b, first + |a|)
    ensures PlacedFrom(a + b, first)
  {
  }

  lemma HeadPlaced(f: EnrichedFrame)
    ensures PlacedFrom(HeadFields(f), 0)
  {
    HeadPlaces();
  }

  lemma TransportPlaced(f: EnrichedFrame, isRetransmit: bool)
    ensures PlacedFrom(TransportFields(f, isRetransmit), 10)
  {
    TransportPlaces();
  }

  lemma FlowPlaced(f: EnrichedFrame, flow: FlowRecord)
    ensures PlacedFrom(FlowFields(f, flow), 20)
  {
    FlowPlaces();
  }

  lemma FieldsPlaced(f: EnrichedFrame, flow: FlowRecord, isRetransmit: bool)
    ensures PlacedFrom(Fields(f, flow, isRetransmit), 0)
  {
    HeadPlaced(f);
    TransportPlaced(f, isRetransmit);
    FlowPlaced(f, flow);
    PlacedConcat(HeadFields(f), TransportFields(f, isRetransmit), 0);
    PlacedConcat(HeadFields(f) + TransportFields(f, isRetransmit), FlowFields(f, flow), 0);
  }

  /** The thirty names are distinct. */
  lemma NamesDistinct(f: EnrichedFrame, flow: FlowRecord, isRetransmit: bool)
    ensures var ms := Fields(f, flow, isRetransmit);
            |ms| == 30 && forall i, j :: 0 <= i < j < 30 ==> ms[i].name != ms[j].name
  {
    var ms := Fields(f, flow, isRetransmit);
    FieldsPlaced(f, flow, isRetransmit);
    forall i, j | 0 <= i < j < 30 ensures ms[i].name != ms[j].name {
      assert Place(ms[i].name) == i && Place(ms[j].name) == j;
    }
  }

  lemma {:induction false} FindAt(ms: seq<Member>, i: nat)
    requires i < |ms| && forall j :: 0 <= j < i ==> ms[j].name != ms[i].name
    ensures Find(ms, ms[i].name) == ms[i].value
  {
    if i > 0 {
      FindAt(ms[1..], i - 1);
    }
  }

  /** Looking the members of a part up by name gives their values. */
  ghost predicate Finds(ms: seq<Member>, part: seq<Member>) {
    forall i :: 0 <= i < |part| ==> Find(ms, part[i].name) == part[i].value
  }

  lemma FindsPart(ms: seq<Member>, first: nat, part: seq<Member>)
    requires forall i, j :: 0 <= i < j < |ms| ==> ms[i].name != ms[j].name
    requires first + |part| <= |ms| && ms[first..first + |part|] == part
    ensures Finds(ms, part)
  {
    forall i | 0 <= i < |part| ensures Find(ms, part[i].name) == part[i].value {
      assert part[i] == ms[first + i];
      FindAt(ms, first + i);
    }
  }

  /** The protocols `publish` sends; the others it skips. */
  predicate Publishable(protocol: Byte) {
    protocol == 1 || protocol == 6 || protocol == 17 || protocol == 0
  }

  lemma ProtocolRoundTrip(protocol: Byte)
    ensures UnProtocol(ProtocolText(protocol)) == (if Publishable(protocol) then protocol as int else 0x100)
  {
  }

  lemma DirectionRoundTrip(d: Direction)
    ensures UnDirection(DirectionValue(d)) == d
  {
  }

  lemma HeadRoundTrip(f: EnrichedFrame, ms: seq<Member>)
    requires Finds(ms, HeadFields(f))
    ensures TypedHead(ms)
    ensures ReceivedHead(ms) == SentHead(f, if Publishable(f.protocol) then f.protocol else 0x100)
  {
    var p := HeadFields(f);
    assert p[0].name == "flow_key" && p[1].name == "timestamp" && p[2].name == "src_ip" && p[3].name == "dst_ip"
        && p[4].name == "protocol" && p[5].name == "packet_size" && p[6].name == "direction" && p[7].name == "ttl"
        && p[8].name == "src_mac" && p[9].name == "dst_mac";
    UnIpTextIpText(f.srcIp);
    UnIpTextIpText(f.dstIp);
    ProtocolRoundTrip(f.protocol);
    DirectionRoundTrip(f.direction);
    UnMacTextMacText(f.srcMac);
    UnMacTextMacText(f.dstMac);
  }

  lemma TransportRoundTrip(f: EnrichedFrame, isRetransmit: bool, ms: seq<Member>)
    requires Finds(ms, TransportFields(f, isRetransmit))
    ensures TypedTransport(ms) && ReceivedTransport(ms) == SentTransport(f, isRetransmit)
  {
    var p := TransportFields(f, isRetransmit);
    assert p[0].name == "checksum_valid" && p[1].name == "src_port" && p[2].name == "dst_port" && p[3].name == "flags"
        && p[4].name == "seq_num" && p[5].name == "is_retransmit" && p[6].name == "icmp_type"
        && p[7].name == "icmp_code" && p[8].name == "arp_opcode" && p[9].name == "arp_sender_ip";
    UnIpTextIpText(f.arpSenderIp);
  }

  lemma FlowRoundTrip(f: EnrichedFrame, flow: FlowRecord, ms: seq<Member>)
    requires Finds(ms, FlowFields(f, flow))
    ensures TypedFlow(ms) && ReceivedFlow(ms) == SentFlow(f, flow)
  {
    var p := FlowFields(f, flow);
    assert p[0].name == "arp_sender_mac" && p[1].name == "arp_target_ip" && p[2].name == "first_seen"
        && p[3].name == "last_seen" && p[4].name == "total_bytes" && p[5].name == "inbound_bytes"
        && p[6].name == "outbound_bytes" && p[7].name == "syn_count" && p[8].name == "syn_ack_count"
        && p[9].name == "rst_count";
    UnMacTextMacText(f.arpSenderMac);
    UnIpTextIpText(f.arpTargetIp);
  }

  lemma Thirds<T>(a: seq<T>, b: seq<T>, c: seq<T>)
    requires |a| == |b| == |c| == 10
    ensures |a + b + c| == 30 && (a + b + c)[..10] == a && (a + b + c)[10..20] == b && (a + b + c)[20..30] == c
  {
  }

  lemma PartsFound(f: EnrichedFrame, flow: FlowRecord, isRetransmit: bool)
    ensures var ms := Fields(f, flow, isRetransmit);
            Finds(ms, HeadFields(f)) && Finds(ms, TransportFields(f, isRetransmit)) && Finds(ms, FlowFields(f, flow))
  {
    var ms := Fields(f, flow, isRetransmit);
    NamesDistinct(f, flow, isRetransmit);
    Thirds(HeadFields(f), TransportFields(f, isRetransmit), FlowFields(f, flow));
    FindsPart(ms, 0, HeadFields(f));
    FindsPart(ms, 10, TransportFields(f, isRetransmit));
    FindsPart(ms, 20, FlowFields(f, flow));
  }

  lemma FieldsRoundTrip(f: EnrichedFrame, flow: FlowRecord, isRetransmit: bool)
    ensures |Fields(f, flow, isRetransmit)| == 30 && Typed(Fields(f, flow, isRetransmit))
    ensures Received(Fields(f, flow, isRetransmit))
            == Message(SentHead(f, if Publishable(f.protocol) then f.protocol else 0x100),
                       SentTransport(f, isRetransmit), SentFlow(f, flow))
  {
    var ms := Fields(f, flow, isRetransmit);
    PartsFound(f, flow, isRetransmit);
    HeadRoundTrip(f, ms);
    TransportRoundTrip(f, isRetransmit, ms);
    FlowRoundTrip(f, flow, ms);
  }

  /** No message with other values has the same text. */
  ghost predicate Unambiguous(f: EnrichedFrame, flow: FlowRecord, isRetransmit: bool) {
    forall d: Dissected, flow': FlowRecord, isRetransmit': bool ::
      BuildJson(StatsStage(d), flow', isRetransmit') == BuildJson(f, flow, isRetransmit) ==>
        Sent(StatsStage(d), flow', isRetransmit') == Sent(f, flow, isRetransmit)
  }

  /** The reader recovers all thirty values from the text of every frame `publish` lets through, and for the
      other frames no reader could: the text determines the values exactly for the former. */
  lemma Lossless(d: Dissected, flow: FlowRecord, isRetransmit: bool)
    ensures var f := StatsStage(d);
            var members := ReadObject(BuildJson(f, flow, isRetransmit));
            && members.Some? && |members.value| == 30 && Typed(members.value)
            && (Received(members.value) == Sent(f, flow, isRetransmit) <==> Publishable(f.protocol))
            && (Unambiguous(f, flow, isRetransmit) <==> Publishable(f.protocol))
  {
    var f := StatsStage(d);
    Recovered(d, flow, isRetransmit);
    if Publishable(f.protocol) {
      forall e: Dissected, flow': FlowRecord, isRetransmit': bool
        | BuildJson(StatsStage(e), flow', isRetransmit') == BuildJson(f, flow, isRetransmit)
        ensures Sent(StatsStage(e), flow', isRetransmit') == Sent(f, flow, isRetransmit)
      {
        Recovered(e, flow', isRetransmit');
      }
    } else {
      var e := OtherProtocol(d, flow, isRetransmit);
      assert Sent(StatsStage(e), flow, isRetransmit) != Sent(f, flow, isRetransmit);
    }
  }

  lemma Recovered(d: Dissected, flow: FlowRecord, isRetransmit: bool)
    ensures var f := StatsStage(d);
            var members := ReadObject(BuildJson(f, flow, isRetransmit));
            && members.Some? && |members.value| == 30 && Typed(members.value)
            && Received(members.value)
               == Message(SentHead(f, if Publishable(f.protocol) then f.protocol else 0x100),
                          SentTransport(f, isRetransmit), SentFlow(f, flow))
  {
    ValidJson(d, flow, isRetransmit);
    FieldsRoundTrip(StatsStage(d), flow, isRetransmit);
  }

  /** The same frame with another protocol number that prints as "OTHER". */
  lemma OtherProtocol(d: Dissected, flow: FlowRecord, isRetransmit: bool) returns (e: Dissected)
    requires !Publishable(StatsStage(d).protocol)
    ensures StatsStage(e).protocol != StatsStage(d).protocol
    ensures BuildJson(StatsStage(e), flow, isRetransmit) == BuildJson(StatsStage(d), flow, isRetransmit)
  {
    var protocol: Byte := if d.ip.protocol == 2 then 3 else 2;
    e := d.(ip := d.ip.(protocol := protocol));
    assert StatsStage(e) == StatsStage(d).(protocol := protocol);
    SameText(StatsStage(d), protocol, flow, isRetransmit);
  }

  lemma SameText(f: EnrichedFrame, protocol: Byte, flow: FlowRecord, isRetransmit: bool)
    requires ProtocolText(protocol) == ProtocolText(f.protocol)
    ensures BuildJson(f.(protocol := protocol), flow, isRetransmit) == BuildJson(f, flow, isRetransmit)
  {
    SameMembers(f, protocol, flow, isRetransmit);
  }

  lemma SameMembers(f: EnrichedFrame, protocol: Byte, flow: FlowRecord, isRetransmit: bool)
    requires ProtocolText(protocol) == ProtocolText(f.protocol)
    ensures Fields(f.(protocol := protocol), flow, isRetransmit) == Fields(f, flow, isRetransmit)
  {
    assert HeadFields(f.(protocol := protocol)) == HeadFields(f);
    assert TransportFields(f.(protocol := protocol), isRetransmit) == TransportFields(f, isRetransmit);
    assert FlowFields(f.(protocol := protocol), flow) == FlowFields(f, flow);
  }
}
