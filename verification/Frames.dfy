/** The parsers' results told from the bytes of a frame alone, with the numbers of the formats
    written out. */
module Frames {
  import opened Bytes
  import opened Checksum
  import opened Parsers

  // --------------------------------------------------------------------------
  // Byte order
  // --------------------------------------------------------------------------

  /** A 16-bit field on the wire and as a little-endian host loads it. */
  lemma HalfWords(m: seq<u8>, at: nat)
    requires at + 2 <= |m|
    ensures Le16(m, at) == Word(Little, m[at], m[at + 1]) && Be16(m, at) == Word(Big, m[at], m[at + 1])
    ensures Swap(Le16(m, at)) == Be16(m, at) && Swap(Be16(m, at)) == Le16(m, at)
  {
  }

  lemma ByteOrderAtNumbers()
    ensures Le16([1, 2], 0) == 0x201 && Be16([1, 2], 0) == 0x102
    ensures Le32([1, 2, 3, 4], 0) == 0x4030201 && Be32([1, 2, 3, 4], 0) == 0x1020304
    ensures Le64([1, 2, 3, 4, 5, 6, 7, 8], 0) == 0x807060504030201
  {
  }

  /** A field holds a value exactly when its bytes are those stored for it. */
  lemma Stored16(m: seq<u8>, at: nat, x: u16)
    requires at + 2 <= |m|
    ensures Le16(m, at) == x <==> m[at..at + 2] == PutLe16(x)
  {
    assert m[at..at + 2] == [m[at], m[at + 1]];
  }

  lemma Stored32(m: seq<u8>, at: nat, x: u32)
    requires at + 4 <= |m|
    ensures Le32(m, at) == x <==> m[at..at + 4] == PutLe32(x)
  {
    Stored16(m, at, x % TWO16);
    Stored16(m, at + 2, x / TWO16);
    var b := PutLe32(x);
    assert b[..2] == PutLe16(x % TWO16) && b[2..] == PutLe16(x / TWO16) && b == b[..2] + b[2..];
    var f := m[at..at + 4];
    assert f[..2] == m[at..at + 2] && f[2..] == m[at + 2..at + 4] && f == f[..2] + f[2..];
    hide Le16, PutLe16, PutLe32;
  }

  // --------------------------------------------------------------------------
  // Every failure
  // --------------------------------------------------------------------------

  predicate TypedIp(m: seq<u8>)
    requires |m| >= 14
  {
    m[12] == 8 && m[13] == 0
  }

  /** A transport header that is too short for its protocol, or cut off. */
  predicate TransportShort(skb: Skb)
    requires skb.Valid() && skb.len >= 34
  {
    var m := skb.mem;
    var at := 14 + 4 * (m[14] % 16) as int;
    || (m[23] == 6 && (skb.len < at + 20 || m[at + 12] < 0x50))
    || (m[23] == 17 && skb.len < at + 8)
  }

  /** The fast parser's codes: -EINVAL for a frame under 34 bytes, and for an IP header length
      under 20 or a short transport header; -EPROTONOSUPPORT for another Ethernet type or
      transport protocol. */
  lemma FastCodes(skb: Skb)
    requires skb.Valid()
    ensures FastParse(skb).code ==
            if skb.len < 34 then -22
            else if !TypedIp(skb.mem) then -93
            else if skb.mem[14] % 16 < 5 then -22
            else if skb.mem[23] != 6 && skb.mem[23] != 17 then -93
            else if TransportShort(skb) then -22 else 0
  {
  }

  /** The full parser's codes: the Ethernet type is looked at before the frame is known to hold
      an IP header, then version, header length and header checksum, then the transport. */
  lemma FullCodes(skb: Skb)
    requires skb.Valid() && SummedBytesInMemory(skb)
    ensures var m := skb.mem;
            FullParse(skb).code ==
            if skb.len < 14 then -22
            else if !TypedIp(m) then -93
            else if skb.len < 34 then -22
            else if m[14] / 16 != 4 then -93
            else if m[14] % 16 < 5 || !HeaderAccepted(m) then -22
            else if m[23] != 6 && m[23] != 17 then -93
            else if TransportShort(skb) || (m[23] == 17 && !UdpAccepted(m)) then -22 else 0
  {
    hide HeaderAccepted, UdpAccepted;
  }

  // --------------------------------------------------------------------------
  // Frames put together
  // --------------------------------------------------------------------------

  /** An Ethernet header of type IPv4 and an IP header as long as it says. */
  predicate Headed(eth: seq<u8>, ip: seq<u8>) {
    && |eth| == 14 && eth[12] == 8 && eth[13] == 0
    && |ip| >= 20 && |ip| == 4 * (ip[0] % 16) as int
  }

  /** The header test on the header's own bytes: version 4, and a check c other than 65535 that
      completes the sum of all header words to a multiple of 65535. */
  predicate HeaderPasses(ip: seq<u8>)
    requires |ip| >= 20
  {
    var c := ip[10] as int + 0x100 * (ip[11] as int);
    ip[0] / 16 == 4 && c != 0xFFFF && (WordSum(Little, ip) + c) % 0xFFFF == 0
  }

  lemma HeadedBytes(eth: seq<u8>, ip: seq<u8>, rest: seq<u8>)
    requires Headed(eth, ip)
    ensures var m := eth + ip + rest;
            && TypedIp(m) && m[14] == ip[0] && m[23] == ip[9]
            && TransportAt(m) == 14 + |ip| && m[14..14 + |ip|] == ip && m[14 + |ip|..] == rest
            && HeaderCheck(m) == ip[10] as int + 0x100 * (ip[11] as int)
  {
    var m := eth + ip + rest;
    assert m[24] == ip[10] && m[25] == ip[11];
  }

  lemma HeaderTest(eth: seq<u8>, ip: seq<u8>, rest: seq<u8>)
    requires Headed(eth, ip) && ip[0] / 16 == 4
    ensures TransportAt(eth + ip + rest) == 14 + |ip|
    ensures HeaderAccepted(eth + ip + rest) <==> HeaderPasses(ip)
  {
    HeadedBytes(eth, ip, rest);
    AcceptsAny(Little, ip, HeaderCheck(eth + ip + rest));
    assert WordSum(Little, ip) > 0;
    hide WordSum, Accepts;
  }

  /** The test of a UDP check field on the datagram's own bytes: a zero field passes; any other
      is tested against as many bytes as the length field says. */
  predicate DatagramPasses(datagram: seq<u8>)
    requires |datagram| >= 8 && 0x100 * (datagram[4] as int) + datagram[5] as int <= |datagram|
  {
    var c := datagram[6] as int + 0x100 * (datagram[7] as int);
    var t := WordSum(Little, datagram[..0x100 * (datagram[4] as int) + datagram[5] as int]);
    c == 0 || if t == 0 then c == 0xFFFF else c != 0xFFFF && (t + c) % 0xFFFF == 0
  }

  lemma UdpTest(eth: seq<u8>, ip: seq<u8>, datagram: seq<u8>)
    requires Headed(eth, ip) && |datagram| >= 8
    requires 0x100 * (datagram[4] as int) + datagram[5] as int <= |datagram|
    ensures var m := eth + ip + datagram;
            && TransportAt(m) == 14 + |ip| && UdpRegionEnd(m) <= |m|
            && (UdpAccepted(m) <==> DatagramPasses(datagram))
  {
    var m := eth + ip + datagram;
    var at := 14 + |ip|;
    var n := 0x100 * (datagram[4] as int) + datagram[5] as int;
    HeadedBytes(eth, ip, datagram);
    assert m[at + 4] == datagram[4] && m[at + 5] == datagram[5];
    assert m[at + 6] == datagram[6] && m[at + 7] == datagram[7];
    assert m[at..at + n] == datagram[..n];
    UdpAcceptedExactly(m);
    hide WordSum, UdpAccepted;
  }

  /** A UDP frame with padding or not: the full parser accepts it exactly when its header and its
      check field pass. */
  lemma UdpFrame(eth: seq<u8>, ip: seq<u8>, datagram: seq<u8>)
    requires Headed(eth, ip) && ip[9] == 17 && |datagram| >= 8
    requires 0x100 * (datagram[4] as int) + datagram[5] as int <= |datagram|
    requires 14 + |ip| + |datagram| < TWO32
    ensures var skb := AsSkb(eth + ip + datagram);
            && SummedBytesInMemory(skb)
            && (FullParse(skb).code == 0 <==> HeaderPasses(ip) && DatagramPasses(datagram))
            && FastParse(skb).code == 0
            && (FullParse(skb).code == 0 ==> FullParse(skb).tcp == None && FullParse(skb).udp == Some(14 + |ip|))
  {
    var skb := AsSkb(eth + ip + datagram);
    HeadedBytes(eth, ip, datagram);
    if ip[0] / 16 == 4 {
      HeaderTest(eth, ip, datagram);
    }
    UdpTest(eth, ip, datagram);
    hide HeaderAccepted, UdpAccepted, HeaderPasses, DatagramPasses, PayloadLen;
    HeaderNeedsVersion(ip);
  }

  lemma HeaderNeedsVersion(ip: seq<u8>)
    requires |ip| >= 20
    ensures HeaderPasses(ip) ==> ip[0] / 16 == 4
  {
    hide WordSum;
  }

  /** A TCP frame: accepted exactly when the IP header passes. */
  lemma TcpFrame(eth: seq<u8>, ip: seq<u8>, tcp: seq<u8>, data: seq<u8>)
    requires Headed(eth, ip) && ip[9] == 6 && |tcp| >= 20 && |tcp| == 4 * (tcp[12] / 16) as int
    requires 14 + |ip| + |tcp| + |data| < TWO32
    ensures var skb := AsSkb(eth + ip + (tcp + data));
            && SummedBytesInMemory(skb)
            && (FullParse(skb).code == 0 <==> HeaderPasses(ip))
            && FastParse(skb).code == 0
            && (FullParse(skb).code == 0 ==> FullParse(skb).tcp == Some(14 + |ip|) && FullParse(skb).udp == None)
  {
    var rest := tcp + data;
    var skb := AsSkb(eth + ip + rest);
    HeadedBytes(eth, ip, rest);
    assert skb.mem[14 + |ip| + 12] == rest[12] == tcp[12];
    if ip[0] / 16 == 4 {
      HeaderTest(eth, ip, rest);
    }
    hide HeaderAccepted, UdpAccepted, HeaderPasses;
    assert ip[0] / 16 != 4 ==> !HeaderPasses(ip) by { HeaderNeedsVersion(ip); }
  }

  /** A datagram whose field fits its first eight bytes but not the twelve its length names. */
  lemma PayloadIsSummed()
    ensures var datagram: seq<u8> := [1, 0, 1, 0, 0, 12, 0xFE, 0xF9, 1, 0, 0, 0];
            !DatagramPasses(datagram) && (WordSum(Little, datagram[..8]) + 0xF9FE) % 0xFFFF == 0
  {
    var d: seq<u8> := [1, 0, 1, 0, 0, 12, 0xFE, 0xF9, 1, 0, 0, 0];
    assert d[..12] == d && d[..8] == [1, 0, 1, 0, 0, 12, 0xFE, 0xF9];
    assert WordSum(Little, [0, 12, 0xFE, 0xF9]) == 0xC00 + 0xF9FE;
    assert [1, 0, 1, 0, 0, 12, 0xFE, 0xF9][2..][2..] == [0, 12, 0xFE, 0xF9];
    assert d[2..][2..] == [0, 12, 0xFE, 0xF9, 1, 0, 0, 0];
    assert WordSum(Little, [1, 0, 0, 0]) == 1;
    assert [0, 12, 0xFE, 0xF9, 1, 0, 0, 0][2..][2..] == [1, 0, 0, 0];
  }
}
