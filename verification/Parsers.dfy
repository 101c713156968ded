/** The two packet parsers: ull_parse_packet (src/micro_stack.c), which checks version and
    checksums, and nanonet_parse_packet_optimized (src/optimizations.c), which does not.
    Formats: section 3.1 of RFC 791, section 3.1 of RFC 9293, "Format" in RFC 768. */
module Parsers {
  import opened Bytes
  import opened Checksum

  const ETH_LEN: int := 14
  const IP_LEN: int := 20
  const TCP_LEN: int := 20
  const UDP_LEN: int := 8
  const ETH_P_IP: u16 := 0x0800
  const TCP: u8 := 6
  const UDP: u8 := 17

  /** A received buffer: the bytes in memory from skb->data on, of which the first `len`
      are the frame. */
  datatype Skb = Skb(mem: seq<u8>, len: u32) {
    predicate Valid() {
      len <= |mem|
    }
  }

  /** A frame with nothing in memory behind it. */
  function AsSkb(frame: seq<u8>): Skb
    requires |frame| < TWO32
  {
    Skb(frame, |frame|)
  }

  /** The return code and the out-parameters.  A pointer is an offset from skb->data; None
      is NULL, or not written when the fast parser fails early. */
  datatype Parsed = Parsed(code: int, ip: Option<nat>, tcp: Option<nat>, udp: Option<nat>,
                           payload: Option<nat>, payloadLen: int)

  function Rejected(code: int): Parsed {
    Parsed(code, None, None, None, None, 0)
  }

  // Header fields, at their places in the frame
  function Version(m: seq<u8>): nat
    requires |m| >= ETH_LEN + IP_LEN
  {
    m[14] / 0x10
  }

  function IpHeaderLen(m: seq<u8>): nat
    requires |m| >= ETH_LEN + IP_LEN
  {
    (m[14] % 0x10) as int * 4
  }

  function Protocol(m: seq<u8>): u8
    requires |m| >= ETH_LEN + IP_LEN
  {
    m[23]
  }

  function HeaderCheck(m: seq<u8>): u16
    requires |m| >= ETH_LEN + IP_LEN
  {
    Le16(m, 24)
  }

  function TransportAt(m: seq<u8>): nat
    requires |m| >= ETH_LEN + IP_LEN
  {
    ETH_LEN + IpHeaderLen(m)
  }

  function TcpHeaderLen(m: seq<u8>): nat
    requires |m| >= ETH_LEN + IP_LEN && TransportAt(m) + TCP_LEN <= |m|
  {
    (m[TransportAt(m) + 12] / 0x10) as int * 4
  }

  /** skb->len minus the header lengths is taken in 64-bit unsigned arithmetic and stored in
      a C int. */
  function PayloadLen(len: u32, ipLen: nat, transportLen: nat): int {
    ToInt32((len - ETH_LEN - ipLen - transportLen) % TWO64)
  }

  /** The tail both parsers share. */
  function Deliver(skb: Skb, transportLen: nat, tcp: Option<nat>, udp: Option<nat>): Parsed
    requires skb.Valid() && skb.len >= ETH_LEN + IP_LEN
  {
    var at := TransportAt(skb.mem) + transportLen;
    var n := PayloadLen(skb.len, IpHeaderLen(skb.mem), transportLen);
    if n < 0 then Parsed(0, Some(ETH_LEN), tcp, udp, None, 0)
    else Parsed(0, Some(ETH_LEN), tcp, udp, Some(at), n)
  }

  // --------------------------------------------------------------------------
  // The fast parser
  // --------------------------------------------------------------------------

  /** nanonet_parse_packet_optimized */
  function FastParse(skb: Skb): Parsed
    requires skb.Valid()
  {
    var m := skb.mem;
    if skb.len < ETH_LEN + IP_LEN then Rejected(EINVAL)
    else if Le16(m, 12) != 0x0008 then Rejected(EPROTONOSUPPORT)
    else
      var failed := Rejected(EINVAL).(ip := Some(ETH_LEN));
      if IpHeaderLen(m) < IP_LEN then failed
      else if Protocol(m) == TCP then
        if skb.len < TransportAt(m) + TCP_LEN then failed
        else if TcpHeaderLen(m) < TCP_LEN then failed
        else Deliver(skb, TcpHeaderLen(m), None, None)
      else if Protocol(m) == UDP then
        if skb.len < TransportAt(m) + UDP_LEN then failed
        else Deliver(skb, UDP_LEN, None, None)
      else failed.(code := EPROTONOSUPPORT)
  }

  // --------------------------------------------------------------------------
  // The full parser
  // --------------------------------------------------------------------------

  predicate HeaderAccepted(m: seq<u8>)
    requires |m| >= ETH_LEN + IP_LEN && TransportAt(m) <= |m|
  {
    Accepts(Little, m[ETH_LEN..TransportAt(m)], HeaderCheck(m))
  }

  function UdpRegionEnd(m: seq<u8>): nat
    requires |m| >= ETH_LEN + IP_LEN && TransportAt(m) + UDP_LEN <= |m|
  {
    TransportAt(m) + Be16(m, TransportAt(m) + 4)
  }

  function UdpCheck(m: seq<u8>): u16
    requires |m| >= ETH_LEN + IP_LEN && TransportAt(m) + UDP_LEN <= |m|
  {
    Le16(m, TransportAt(m) + 6)
  }

  /** A zero UDP check field is not tested; the pseudo-header is not summed. */
  predicate UdpAccepted(m: seq<u8>)
    requires |m| >= ETH_LEN + IP_LEN && TransportAt(m) + UDP_LEN <= |m|
    requires UdpCheck(m) != 0 ==> UdpRegionEnd(m) <= |m|
  {
    UdpCheck(m) != 0 ==> Accepts(Little, m[TransportAt(m)..UdpRegionEnd(m)], UdpCheck(m))
  }

  /** The IPv4 header is about to be summed. */
  predicate ReachesHeaderSum(skb: Skb)
    requires skb.Valid()
  {
    && skb.len >= ETH_LEN + IP_LEN
    && Be16(skb.mem, 12) == ETH_P_IP
    && Version(skb.mem) == 4
    && IpHeaderLen(skb.mem) >= IP_LEN
  }

  /** The code sums ip_hdr_len bytes and the datagram's own length of bytes without comparing
      either with skb->len; that those bytes are in memory is left to the caller. */
  predicate SummedBytesInMemory(skb: Skb)
    requires skb.Valid()
  {
    var m := skb.mem;
    ReachesHeaderSum(skb) ==>
      && TransportAt(m) <= |m|
      && (HeaderAccepted(m) && Protocol(m) == UDP && skb.len >= TransportAt(m) + UDP_LEN && UdpCheck(m) != 0 ==>
            UdpRegionEnd(m) <= |m|)
  }

  /** What ull_parse_packet returns and writes. */
  function FullParse(skb: Skb): Parsed
    requires skb.Valid() && SummedBytesInMemory(skb)
  {
    var m := skb.mem;
    if skb.len < ETH_LEN then Rejected(EINVAL)
    else if Be16(m, 12) != ETH_P_IP then Rejected(EPROTONOSUPPORT)
    else if skb.len < ETH_LEN + IP_LEN then Rejected(EINVAL)
    else
      var failed := Rejected(EINVAL).(ip := Some(ETH_LEN));
      var at := TransportAt(m);
      if Version(m) != 4 then failed.(code := EPROTONOSUPPORT)
      else if IpHeaderLen(m) < IP_LEN || !HeaderAccepted(m) then failed
      else if Protocol(m) == TCP then
        if skb.len < at + TCP_LEN then failed
        else if TcpHeaderLen(m) < TCP_LEN then failed.(tcp := Some(at))
        else Deliver(skb, TcpHeaderLen(m), Some(at), None)
      else if Protocol(m) == UDP then
        if skb.len < at + UDP_LEN then failed
        else if !UdpAccepted(m) then failed.(udp := Some(at))
        else Deliver(skb, UDP_LEN, None, Some(at))
      else failed.(code := EPROTONOSUPPORT)
  }

  /** ull_parse_packet, writing its out-parameters step by step. */
  method ParsePacket(skb: Skb)
      returns (code: int, ip: Option<nat>, tcp: Option<nat>, udp: Option<nat>, payload: Option<nat>, payloadLen: int)
    requires skb.Valid() && SummedBytesInMemory(skb)
    ensures Parsed(code, ip, tcp, udp, payload, payloadLen) == FullParse(skb)
  {
    hide CodeChecksum, PayloadLen, Le16, Be16;
    var m := skb.mem;
    ip, tcp, udp, payload, payloadLen := None, None, None, None, 0;
    if skb.len < ETH_LEN {
      code := EINVAL;
      return;
    }
    if Be16(m, 12) != ETH_P_IP {
      code := EPROTONOSUPPORT;
      return;
    }
    if skb.len < ETH_LEN + IP_LEN {
      code := EINVAL;
      return;
    }
    ip := Some(ETH_LEN);
    if Version(m) != 4 {
      code := EPROTONOSUPPORT;
      return;
    }
    var ipLen := IpHeaderLen(m);
    if ipLen < IP_LEN {
      code := EINVAL;
      return;
    }
    var sum := ComputeChecksum(Little, m[ETH_LEN..ETH_LEN + ipLen], ipLen);
    assert m[ETH_LEN..ETH_LEN + ipLen][..ipLen] == m[ETH_LEN..TransportAt(m)];
    if sum != HeaderCheck(m) {
      code := EINVAL;
      return;
    }
    var at := ETH_LEN + ipLen;
    var transportLen;
    if Protocol(m) == TCP {
      if skb.len < at + TCP_LEN {
        code := EINVAL;
        return;
      }
      tcp := Some(at);
      transportLen := TcpHeaderLen(m);
      if transportLen < TCP_LEN {
        code := EINVAL;
        return;
      }
    } else if Protocol(m) == UDP {
      if skb.len < at + UDP_LEN {
        code := EINVAL;
        return;
      }
      udp := Some(at);
      transportLen := UDP_LEN;
      if UdpCheck(m) != 0 {
        var n := Be16(m, at + 4);
        sum := ComputeChecksum(Little, m[at..at + n], n);
        assert m[at..at + n][..n] == m[at..UdpRegionEnd(m)];
        if sum != UdpCheck(m) {
          code := EINVAL;
          return;
        }
      }
    } else {
      code := EPROTONOSUPPORT;
      return;
    }
    payload := Some(at + transportLen);
    payloadLen := PayloadLen(skb.len, ipLen, transportLen);
    if payloadLen < 0 {
      payload, payloadLen := None, 0;
    }
    code := 0;
  }

  /** A result code is never positive; on success the headers pointed to are in the frame. */
  lemma FullParseShape(skb: Skb)
    requires skb.Valid() && SummedBytesInMemory(skb)
    ensures var p := FullParse(skb);
            && p.code <= 0
            && (p.code == 0 ==>
                  && skb.len >= ETH_LEN + IP_LEN
                  && (p.tcp.Some? ==> p.tcp.value + TCP_LEN <= skb.len)
                  && (p.udp.Some? ==> p.udp.value + UDP_LEN <= skb.len))
  {
  }

  // --------------------------------------------------------------------------
  // Fast refines full
  // --------------------------------------------------------------------------

  /** What the fast parser leaves unchecked. */
  predicate ChecksPass(skb: Skb)
    requires skb.Valid() && SummedBytesInMemory(skb)
  {
    ReachesHeaderSum(skb) ==>
      && HeaderAccepted(skb.mem)
      && (Protocol(skb.mem) == UDP && skb.len >= TransportAt(skb.mem) + UDP_LEN ==> UdpAccepted(skb.mem))
  }

  /** The full parser succeeds exactly when the fast one does, the version is 4 and the
      checksum tests pass; the two then agree on IP header and payload. */
  lemma FastRefinesFull(skb: Skb)
    requires skb.Valid() && SummedBytesInMemory(skb)
    ensures FullParse(skb).code == 0 <==>
            FastParse(skb).code == 0 && Version(skb.mem) == 4 && ChecksPass(skb)
    ensures FullParse(skb).code == 0 ==>
              && FullParse(skb).ip == FastParse(skb).ip
              && FullParse(skb).payload == FastParse(skb).payload
              && FullParse(skb).payloadLen == FastParse(skb).payloadLen
              && (FullParse(skb).tcp.Some? <==> Protocol(skb.mem) == TCP)
              && (FullParse(skb).udp.Some? <==> Protocol(skb.mem) == UDP)
  {
    if skb.len >= ETH_LEN + IP_LEN {
      EtherTypes(skb.mem);
    }
  }

  lemma EtherTypes(m: seq<u8>)
    requires |m| >= ETH_LEN
    ensures Le16(m, 12) == 0x0008 <==> Be16(m, 12) == ETH_P_IP
  {
  }

  /** Otherwise equal failures can differ only in order: on a frame that has an Ethernet
      header but no room for an IP header, and is not IPv4, the parsers report different
      codes; on every other frame of version 4 whose checksums pass they report the same. */
  lemma CodesAgree(skb: Skb)
    requires skb.Valid() && SummedBytesInMemory(skb)
    requires skb.len >= ETH_LEN + IP_LEN && Be16(skb.mem, 12) == ETH_P_IP ==> Version(skb.mem) == 4
    requires ChecksPass(skb)
    ensures FullParse(skb).code == FastParse(skb).code <==>
            !(ETH_LEN <= skb.len < ETH_LEN + IP_LEN && Be16(skb.mem, 12) != ETH_P_IP)
  {
    if skb.len >= ETH_LEN + IP_LEN {
      EtherTypes(skb.mem);
    }
  }

  /** Bytes taken by the headers of a frame the fast parser accepts. */
  function HeadersLen(skb: Skb): nat
    requires skb.Valid() && FastParse(skb).code == 0
  {
    TransportAt(skb.mem) + if Protocol(skb.mem) == TCP then TcpHeaderLen(skb.mem) else UDP_LEN
  }

  /** Despite the unsigned subtraction, a payload that is not NULL runs from the end of the
      headers exactly to skb->len.  It is NULL exactly when the headers overrun the frame,
      which only a TCP data offset can do, or 2^31 bytes or more follow them. */
  lemma PayloadEndsAtFrameEnd(skb: Skb)
    requires skb.Valid() && FastParse(skb).code == 0
    ensures var p, h := FastParse(skb), HeadersLen(skb);
            && (p.payload.None? <==> skb.len < h || skb.len - h >= TWO31)
            && (p.payload.None? ==> p.payloadLen == 0)
            && (p.payload.Some? ==> p.payload.value == h && h + p.payloadLen == skb.len)
            && (skb.len < h ==> Protocol(skb.mem) == TCP)
  {
    PayloadLenIsDifference(skb.len, HeadersLen(skb));
  }

  lemma PayloadLenIsDifference(len: u32, headers: nat)
    requires headers <= ETH_LEN + 60 + 60
    ensures var n := ToInt32((len - headers) % TWO64);
            if len < headers || len - headers >= TWO31 then n < 0 else n == len - headers
  {
    if len < headers {
      assert (len - headers) % TWO64 == len - headers + TWO64;
      assert (len - headers + TWO64) % TWO32 == len - headers + TWO32;
    }
  }

  // --------------------------------------------------------------------------
  // The accepted frames as a grammar
  // --------------------------------------------------------------------------

  /** A frame is an Ethernet header of type IPv4, an IP header as long as it says, a TCP
      header as long as it says or a UDP header, and data. */
  predicate Composed(eth: seq<u8>, ip: seq<u8>, transport: seq<u8>, data: seq<u8>) {
    && |eth| == ETH_LEN && eth[12] == 8 && eth[13] == 0
    && |ip| >= IP_LEN && |ip| == (ip[0] % 0x10) as int * 4
    && (ip[9] == TCP || ip[9] == UDP)
    && (ip[9] == TCP ==> |transport| >= TCP_LEN && |transport| == (transport[12] / 0x10) as int * 4)
    && (ip[9] == UDP ==> |transport| == UDP_LEN)
    && |eth| + |ip| + |transport| + |data| < TWO32
  }

  /** Every composed frame is accepted and its data is what the payload pointer and length
      delimit, unless there are 2^31 bytes of it or more. */
  lemma ComposedFrameParses(eth: seq<u8>, ip: seq<u8>, transport: seq<u8>, data: seq<u8>)
    requires Composed(eth, ip, transport, data)
    ensures var frame := eth + ip + transport + data;
            var h := |eth| + |ip| + |transport|;
            && FastParse(Skb(frame, |frame|)).code == 0
            && HeadersLen(Skb(frame, |frame|)) == h
            && FastParse(Skb(frame, |frame|)) ==
               if |data| < TWO31 then Parsed(0, Some(ETH_LEN), None, None, Some(h), |data|)
               else Parsed(0, Some(ETH_LEN), None, None, None, 0)
  {
    var frame := eth + ip + transport + data;
    var skb := Skb(frame, |frame|);
    assert frame[12] == eth[12] && frame[13] == eth[13];
    assert frame[14] == ip[0] && frame[23] == ip[9];
    assert TransportAt(frame) == |eth| + |ip|;
    assert ip[9] == TCP ==> frame[|eth| + |ip| + 12] == transport[12];
    PayloadEndsAtFrameEnd(skb);
  }

  /** And only composed frames are accepted with a payload. */
  lemma AcceptedFrameIsComposed(skb: Skb)
    requires skb.Valid() && FastParse(skb).code == 0 && FastParse(skb).payload.Some?
    ensures HeadersLen(skb) <= skb.len
    ensures var t, h := TransportAt(skb.mem), HeadersLen(skb);
            Composed(skb.mem[..ETH_LEN], skb.mem[ETH_LEN..t], skb.mem[t..h], skb.mem[h..skb.len])
  {
    PayloadEndsAtFrameEnd(skb);
    EtherTypes(skb.mem);
  }

  // --------------------------------------------------------------------------
  // Which IPv4 headers the full parser lets through
  // --------------------------------------------------------------------------

  function Header(skb: Skb): seq<u8>
    requires skb.Valid() && SummedBytesInMemory(skb) && ReachesHeaderSum(skb)
  {
    skb.mem[ETH_LEN..TransportAt(skb.mem)]
  }

  lemma HeaderSumPositive(skb: Skb)
    requires skb.Valid() && SummedBytesInMemory(skb) && ReachesHeaderSum(skb)
    ensures |Header(skb)| % 2 == 0 && IP_LEN <= |Header(skb)| <= 60
    ensures WordSum(Little, Blank(Header(skb), 10)) > 0
    ensures Word(Little, Header(skb)[10], Header(skb)[11]) == HeaderCheck(skb.mem)
  {
    assert Blank(Header(skb), 10)[0] == skb.mem[14];
  }

  /** The header test lets a stored check c through exactly when c is not 65535 and the other
      words' sum plus twice c is a multiple of 65535. */
  lemma HeaderAcceptedExactly(skb: Skb)
    requires skb.Valid() && SummedBytesInMemory(skb) && ReachesHeaderSum(skb)
    ensures var s, c := WordSum(Little, Blank(Header(skb), 10)), HeaderCheck(skb.mem);
            HeaderAccepted(skb.mem) <==> c != 0xFFFF && (s + 2 * (c as int)) % 0xFFFF == 0
  {
    HeaderSumPositive(skb);
    AcceptsExactly(Little, Header(skb), 10);
  }

  /** The same for a UDP datagram: the zero field is let through untested, and a length field
      below 8 leaves some or all of the check field out of the sum t. */
  lemma UdpAcceptedExactly(m: seq<u8>)
    requires |m| >= ETH_LEN + IP_LEN && TransportAt(m) + UDP_LEN <= |m| && UdpRegionEnd(m) <= |m|
    ensures var region, c := m[TransportAt(m)..UdpRegionEnd(m)], UdpCheck(m);
            var t := WordSum(Little, region);
            UdpAccepted(m) <==>
            c == 0 || (if t == 0 then c == 0xFFFF else c != 0xFFFF && (t + c) % 0xFFFF == 0)
    ensures var region, c := m[TransportAt(m)..UdpRegionEnd(m)], UdpCheck(m);
            |region| >= UDP_LEN ==>
              WordSum(Little, region) == WordSum(Little, Blank(region, 6)) + c
  {
    var region := m[TransportAt(m)..UdpRegionEnd(m)];
    AcceptsAny(Little, region, UdpCheck(m));
    if |region| >= UDP_LEN {
      SumWithField(Little, region, 6);
      assert Word(Little, region[6], region[7]) == UdpCheck(m);
    }
    hide WordSum, Accepts;
  }

  /** So a header that is good under section 3.1 of RFC 791 gets through exactly when its
      check field is zero. */
  lemma GoodHeaderAcceptedIffZero(skb: Skb)
    requires skb.Valid() && SummedBytesInMemory(skb) && ReachesHeaderSum(skb)
    requires RfcValid(Little, Header(skb))
    ensures HeaderAccepted(skb.mem) <==> HeaderCheck(skb.mem) == 0
    ensures HeaderCheck(skb.mem) != 0 ==> FullParse(skb).code == EINVAL
  {
    HeaderSumPositive(skb);
    ValidAcceptedIffZero(Little, Header(skb), HeaderCheck(skb.mem));
  }
}
