/** Decimal, dotted-decimal and MAC printing, each with the decoder that undoes it. */
module Text {
  import opened Bytes
  import opened Parsers

  predicate IsDigit(c: char) {
    '0' <= c <= '9'
  }

  function Digit(d: nat): char
    requires d < 10
  {
    (48 + d) as char
  }

  function Dec(n: nat): (s: string)
    ensures s != [] && forall i :: 0 <= i < |s| ==> IsDigit(s[i])
  {
    if n < 10 then [Digit(n)] else Dec(n / 10) + [Digit(n % 10)]
  }

  function UnDec(s: string): nat {
    if s == [] then 0
    else 10 * UnDec(s[..|s| - 1]) + (if IsDigit(s[|s| - 1]) then s[|s| - 1] as int - 48 else 0)
  }

  lemma {:induction false} UnDecDec(n: nat)
    ensures UnDec(Dec(n)) == n
  {
    if n >= 10 {
      UnDecDec(n / 10);
      assert Dec(n)[..|Dec(n)| - 1] == Dec(n / 10);
    } else {
      assert Dec(n)[..0] == [];
    }
  }

  /** No superfluous leading zero, as RFC 8259 demands of numbers. */
  lemma {:induction false} DecLeading(n: nat)
    ensures Dec(n)[0] == '0' <==> n == 0
    ensures n == 0 ==> |Dec(n)| == 1
  {
    if n >= 10 {
      DecLeading(n / 10);
    }
  }

  /** Everything before and everything after the first d. */
  function Cut(s: string, d: char): (string, string) {
    if s == [] then ([], [])
    else if s[0] == d then ([], s[1..])
    else ([s[0]] + Cut(s[1..], d).0, Cut(s[1..], d).1)
  }

  lemma {:induction false} CutAt(a: string, d: char, b: string)
    requires d !in a
    ensures Cut(a + [d] + b, d) == (a, b)
  {
    var s := a + [d] + b;
    if a != [] {
      assert s[1..] == a[1..] + [d] + b;
      CutAt(a[1..], d, b);
      assert a == [a[0]] + a[1..];
    }
  }

  // ---- Addresses --------------------------------------------------------------------------------

  /** `inet_ntop` on a host-order address. */
  function IpText(ip: U32): (s: string)
    ensures |s| >= 7 && IsDigit(s[0])
    ensures forall i :: 0 <= i < |s| ==> IsDigit(s[i]) || s[i] == '.'
  {
    Dec(ip / 0x100_0000) + ['.'] +
    (Dec(ip / 0x1_0000 % 0x100) + ['.'] + (Dec(ip / 0x100 % 0x100) + ['.'] + Dec(ip % 0x100)))
  }

  function UnIpText(s: string): nat {
    var (a, r) := Cut(s, '.');
    var (b, q) := Cut(r, '.');
    var (c, d) := Cut(q, '.');
    0x100_0000 * UnDec(a) + 0x1_0000 * UnDec(b) + 0x100 * UnDec(c) + UnDec(d)
  }

  lemma UnIpTextIpText(ip: U32)
    ensures UnIpText(IpText(ip)) == ip
  {
    var a, b, c, d := ip / 0x100_0000, ip / 0x1_0000 % 0x100, ip / 0x100 % 0x100, ip % 0x100;
    var q := Dec(c) + ['.'] + Dec(d);
    var r := Dec(b) + ['.'] + q;
    CutAt(Dec(a), '.', r);
    CutAt(Dec(b), '.', q);
    CutAt(Dec(c), '.', Dec(d));
    UnDecDec(a);
    UnDecDec(b);
    UnDecDec(c);
    UnDecDec(d);
    Octets(ip);
  }

  /** Four decimal numbers below 256 with dots between them, the most significant byte first. */
  lemma DottedDecimal(ip: U32) returns (a: Byte, b: Byte, c: Byte, d: Byte)
    ensures IpText(ip) == Dec(a) + "." + Dec(b) + "." + Dec(c) + "." + Dec(d)
    ensures ip == 0x100_0000 * (a as int) + 0x1_0000 * (b as int) + 0x100 * (c as int) + d
  {
    a, b, c, d := ip / 0x100_0000, ip / 0x1_0000 % 0x100, ip / 0x100 % 0x100, ip % 0x100;
    Octets(ip);
  }

  lemma Octets(ip: U32)
    ensures 0x100_0000 * (ip / 0x100_0000) + 0x1_0000 * (ip / 0x1_0000 % 0x100)
            + 0x100 * (ip / 0x100 % 0x100) + ip % 0x100 == ip
  {
    var x := ip / 0x100;
    var y := x / 0x100;
    assert y == ip / 0x1_0000;
    assert y / 0x100 == ip / 0x100_0000;
  }

  function HexDigit(d: nat): char
    requires d < 16
  {
    if d < 10 then (48 + d) as char else (87 + d) as char
  }

  function UnHex(c: char): nat {
    if IsDigit(c) then c as int - 48 else if 'a' <= c <= 'f' then c as int - 87 else 0
  }

  predicate IsHexText(s: string) {
    forall i :: 0 <= i < |s| ==> IsDigit(s[i]) || 'a' <= s[i] <= 'f' || s[i] == ':'
  }

  function Hex2(b: Byte): (s: string)
    ensures |s| == 2 && IsHexText(s)
  {
    [HexDigit(b / 16), HexDigit(b % 16)]
  }

  function MacText(m: seq<Byte>): (s: string)
    ensures IsHexText(s)
  {
    if m == [] then []
    else if |m| == 1 then Hex2(m[0])
    else Hex2(m[0]) + [':'] + MacText(m[1..])
  }

  /** Two digits a byte, with colons between the bytes. */
  function UnMacText(s: string): seq<nat> {
    if |s| < 2 then []
    else [16 * UnHex(s[0]) + UnHex(s[1])] + (if |s| == 2 || s[2] != ':' then [] else UnMacText(s[3..]))
  }

  lemma UnHexHex2(b: Byte)
    ensures 16 * UnHex(Hex2(b)[0]) + UnHex(Hex2(b)[1]) == b
  {
  }

  lemma {:induction false} UnMacTextMacText(m: seq<Byte>)
    ensures UnMacText(MacText(m)) == m
  {
    if m != [] {
      UnHexHex2(m[0]);
    }
    if |m| > 1 {
      UnMacTextMacText(m[1..]);
      UnMacTextCons(m[0], MacText(m[1..]));
      assert m == [m[0]] + m[1..];
    }
  }

  lemma {:induction false} UnMacTextCons(b: Byte, rest: string)
    requires rest != []
    ensures UnMacText(Hex2(b) + [':'] + rest) == [b] + UnMacText(rest)
  {
    var s := Hex2(b) + [':'] + rest;
    UnHexHex2(b);
    assert s[3..] == rest && s[0] == Hex2(b)[0] && s[1] == Hex2(b)[1];
  }

  lemma {:induction false} MacTextAppend(m: seq<Byte>, b: Byte)
    ensures MacText(m + [b]) == MacText(m) + (if m == [] then [] else [':']) + Hex2(b)
  {
    if m != [] {
      MacTextAppend(m[1..], b);
      assert (m + [b])[1..] == m[1..] + [b];
    }
  }

  /** `macToStr` and `macToString`: six bytes through one output stream. */
  method MacToString(mac: Mac) returns (s: string)
    ensures s == MacText(mac) && UnMacText(s) == mac
  {
    s := [];
    for i := 0 to 6
      invariant s == MacText(mac[..i])
    {
      MacTextAppend(mac[..i], mac[i]);
      assert mac[..i + 1] == mac[..i] + [mac[i]];
      if i > 0 {
        s := s + [':'];
      }
      s := s + Hex2(mac[i]);
    }
    assert mac[..6] == mac;
    UnMacTextMacText(mac);
  }
}
