/** What comes back when a built response frame is parsed. */
module RoundTrip {
  import opened Bytes
  import opened Checksum
  import opened Parsers
  import opened Configuration
  import opened Builder

  /** The builder goes on past its first tests, and the frame's length fits skb->len and the
      parser's C int. */
  predicate Buildable(cfg: Config, orig: Option<Skb>, response: seq<u8>) {
    && Readable(cfg, orig)
    && (cfg.protocol == TCP || cfg.protocol == UDP)
    && |response| < TWO31
  }

  /** Where the transport header of the original packet starts. */
  function PeerAt(orig: Skb): nat
    requires |orig.mem| >= 34
  {
    14 + 4 * (orig.mem[14] % 16) as int
  }

  /** The address and port the reply must go to, as stored: those of the configuration, or the
      source of the original packet. */
  function PeerIp(cfg: Config, orig: Option<Skb>): u32
    requires Readable(cfg, orig)
  {
    if orig.None? then cfg.targetIp else Le32(orig.value.mem, 26)
  }

  function PeerPort(cfg: Config, orig: Option<Skb>): u16
    requires Readable(cfg, orig)
  {
    if orig.None? then cfg.targetPort else Le16(orig.value.mem, PeerAt(orig.value))
  }

  lemma PeerIsDest(cfg: Config, orig: Option<Skb>)
    requires Readable(cfg, orig)
    ensures DestIp(cfg, orig) == PeerIp(cfg, orig) && DestPort(cfg, orig) == PeerPort(cfg, orig)
    ensures cfg.protocol == TCP ==>
              AckNumber(orig) == if orig.None? then 0 else (Be32(orig.value.mem, PeerAt(orig.value) + 4) + 1) % TWO32
  {
  }

  /** The fast parser accepts every built frame and returns exactly the response. */
  lemma BuildThenParse(cfg: Config, orig: Option<Skb>, response: seq<u8>)
    requires Buildable(cfg, orig, response)
    ensures var frame := ResponseFrame(cfg, orig, response);
            var h := ETH_LEN + IP_LEN + TransportLen(cfg);
            && FastParse(AsSkb(frame)) == Parsed(0, Some(ETH_LEN), None, None, Some(h), |response|)
            && frame[h..] == response
  {
    var eth := EthHeader(orig);
    var ip := IpHeader(cfg, DestIp(cfg, orig), IpTotal(cfg, |response|));
    var transport := TransportHeader(cfg, orig, |response|);
    assert Composed(eth, ip, transport, response) by {
      IpHeaderShape(cfg, DestIp(cfg, orig), IpTotal(cfg, |response|));
      TransportShape(cfg, orig, |response|);
      hide IpHeader, TransportHeader;
    }
    hide EthHeader, IpHeader, TransportHeader, FastParse;
    ComposedFrameParses(eth, ip, transport, response);
  }

  lemma IpHeaderShape(cfg: Config, daddr: u32, total: nat)
    ensures var ip := IpHeader(cfg, daddr, total);
            ip[0] == 0x45 && ip[9] == cfg.protocol
  {
    hide CodeChecksum;
  }

  lemma TransportShape(cfg: Config, orig: Option<Skb>, responseLen: nat)
    requires Readable(cfg, orig)
    ensures cfg.protocol == TCP ==> TransportHeader(cfg, orig, responseLen)[12] == 0x50
  {
  }

  // --------------------------------------------------------------------------
  // The fields read back
  // --------------------------------------------------------------------------

  /** A little-endian or big-endian field read out of a larger sequence. */
  lemma FieldsInSlice(whole: seq<u8>, lo: nat, hi: nat, part: seq<u8>, k: nat)
    requires lo <= hi <= |whole| && whole[lo..hi] == part
    ensures k + 2 <= |part| ==> Le16(whole, lo + k) == Le16(part, k) && Be16(whole, lo + k) == Be16(part, k)
    ensures k + 4 <= |part| ==> Le32(whole, lo + k) == Le32(part, k) && Be32(whole, lo + k) == Be32(part, k)
  {
    assert k < |part| ==> whole[lo + k] == part[k];
    assert k + 1 < |part| ==> whole[lo + k + 1] == part[k + 1];
    assert k + 2 < |part| ==> whole[lo + k + 2] == part[k + 2];
    assert k + 3 < |part| ==> whole[lo + k + 3] == part[k + 3];
  }

  lemma FrameSlices(cfg: Config, orig: Option<Skb>, response: seq<u8>)
    requires Readable(cfg, orig)
    ensures var frame := ResponseFrame(cfg, orig, response);
            && frame[..14] == EthHeader(orig)
            && frame[14..34] == IpHeader(cfg, DestIp(cfg, orig), IpTotal(cfg, |response|))
            && frame[34..34 + TransportLen(cfg)] == TransportHeader(cfg, orig, |response|)
  {
    hide EthHeader, IpHeader, TransportHeader, DestIp;
  }

  lemma IpFields(cfg: Config, daddr: u32, total: nat)
    ensures var ip := IpHeader(cfg, daddr, total);
            && ip[0] == 0x45 && ip[9] == cfg.protocol
            && Be16(ip, 2) == total % TWO16
            && ip[1] == 0 && Be16(ip, 4) == 0 && Be16(ip, 6) == 0x4000 && ip[8] == 64
            && Le16(ip, 10) == IpCheck(cfg, daddr, total)
            && Le32(ip, 12) == cfg.responseIp && Le32(ip, 16) == daddr
  {
    hide CodeChecksum, PutLe16, PutBe16, PutLe32;
    var ip := IpHeader(cfg, daddr, total);
    FieldsInSlice(ip, 2, 4, PutBe16(total % TWO16), 0);
    FieldsInSlice(ip, 10, 12, PutLe16(IpCheck(cfg, daddr, total)), 0);
    FieldsInSlice(ip, 12, 16, PutLe32(cfg.responseIp), 0);
    FieldsInSlice(ip, 16, 20, PutLe32(daddr), 0);
  }

  /** Addresses, protocol, check and length read back are those written, the length modulo
      65536; no options, no fragmentation, a hop limit of 64. */
  lemma IpFieldsReadBack(cfg: Config, orig: Option<Skb>, response: seq<u8>)
    requires Buildable(cfg, orig, response)
    ensures var frame := ResponseFrame(cfg, orig, response);
            && frame[14] == 0x45 && frame[15] == 0 && Be16(frame, 16) == (|frame| - 14) % 0x1_0000
            && Be16(frame, 18) == 0 && Be16(frame, 20) == 0x4000 && frame[22] == 64 && frame[23] == cfg.protocol
            && Le32(frame, 26) == cfg.responseIp && Le32(frame, 30) == PeerIp(cfg, orig)
            && HeaderCheck(frame) == IpCheck(cfg, PeerIp(cfg, orig), IpTotal(cfg, |response|))
  {
    hide IpHeader, EthHeader, TransportHeader, DestIp, DestPort, AckNumber, PeerIp, PeerPort, PeerAt, IpCheck;
    hide Le16, Be16, Le32, Be32, TransportAt;
    PeerIsDest(cfg, orig);
    var frame := ResponseFrame(cfg, orig, response);
    var ip := IpHeader(cfg, DestIp(cfg, orig), IpTotal(cfg, |response|));
    FrameSlices(cfg, orig, response);
    IpFields(cfg, DestIp(cfg, orig), IpTotal(cfg, |response|));
    assert frame[14] == ip[0] && frame[15] == ip[1] && frame[22] == ip[8] && frame[23] == ip[9];
    FieldsInSlice(frame, 14, 34, ip, 2);
    FieldsInSlice(frame, 14, 34, ip, 4);
    FieldsInSlice(frame, 14, 34, ip, 6);
    FieldsInSlice(frame, 14, 34, ip, 10);
    FieldsInSlice(frame, 14, 34, ip, 12);
    FieldsInSlice(frame, 14, 34, ip, 16);
  }

  /** The link and transport fields: addresses and ports turned round when there is an
      original packet, the sequence number of the configuration, and the acknowledgement. */
  lemma TransportFieldsReadBack(cfg: Config, orig: Option<Skb>, response: seq<u8>)
    requires Buildable(cfg, orig, response)
    ensures var frame := ResponseFrame(cfg, orig, response);
            && frame[..6] == (if orig.Some? then orig.value.mem[6..12] else [0, 0, 0, 0, 0, 0])
            && frame[6..12] == (if orig.Some? then orig.value.mem[..6] else [0, 0, 0, 0, 0, 0])
            && Le16(frame, 34) == cfg.responsePort && Le16(frame, 36) == PeerPort(cfg, orig)
            && (cfg.protocol == TCP ==>
                  && Be32(frame, 38) == cfg.seqNum
                  && Be32(frame, 42) ==
                     (if orig.None? then 0 else (Be32(orig.value.mem, PeerAt(orig.value) + 4) + 1) % 0x1_0000_0000)
                  && frame[46] == 0x50 && frame[47] == (if orig.Some? then 0x18 else 0x08)
                  && frame[48..54] == [0xFF, 0xFF, 0, 0, 0, 0])
            && (cfg.protocol == UDP ==> Be16(frame, 38) == (8 + |response|) % 0x1_0000 && Le16(frame, 40) == 0)
  {
    hide IpHeader, DestIp, DestPort, AckNumber, PutLe16, PutBe16, PutBe32, Le16, Be16, Le32, Be32;
    hide PeerIp, PeerPort, PeerAt, TransportAt;
    PeerIsDest(cfg, orig);
    var frame := ResponseFrame(cfg, orig, response);
    var t := TransportHeader(cfg, orig, |response|);
    FrameSlices(cfg, orig, response);
    PortsLead(cfg, orig, |response|);
    hide TransportHeader;
    FieldsInSlice(t, 0, 2, PutLe16(cfg.responsePort), 0);
    FieldsInSlice(t, 2, 4, PutLe16(DestPort(cfg, orig)), 0);
    FieldsInSlice(frame, 34, 34 + TransportLen(cfg), t, 0);
    FieldsInSlice(frame, 34, 34 + TransportLen(cfg), t, 2);
    if cfg.protocol == TCP {
      TcpFieldsReadBack(cfg, orig, response);
    } else {
      UdpFieldsReadBack(cfg, orig, response);
    }
    assert frame[..6] == frame[..14][..6] && frame[6..12] == frame[..14][6..12];
  }

  lemma PortsLead(cfg: Config, orig: Option<Skb>, responseLen: nat)
    requires Readable(cfg, orig)
    ensures var t := TransportHeader(cfg, orig, responseLen);
            t[0..2] == PutLe16(cfg.responsePort) && t[2..4] == PutLe16(DestPort(cfg, orig))
  {
    hide PutLe16, PutBe16, PutBe32, DestPort, AckNumber;
    if cfg.protocol == TCP {
      var t := TcpHeader(cfg, orig);
      assert t[0..2] == PutLe16(cfg.responsePort) && t[2..4] == PutLe16(DestPort(cfg, orig));
    } else {
      var t := UdpHeader(cfg, orig, responseLen);
      assert t[0..2] == PutLe16(cfg.responsePort) && t[2..4] == PutLe16(DestPort(cfg, orig));
    }
  }

  lemma TcpFieldsReadBack(cfg: Config, orig: Option<Skb>, response: seq<u8>)
    requires Buildable(cfg, orig, response) && cfg.protocol == TCP
    ensures var frame := ResponseFrame(cfg, orig, response);
            && Be32(frame, 38) == cfg.seqNum && Be32(frame, 42) == AckNumber(orig)
            && frame[46] == 0x50 && frame[47] == (if orig.Some? then 0x18 else 0x08)
            && frame[48..54] == [0xFF, 0xFF, 0, 0, 0, 0]
  {
    hide ResponseFrame, EthHeader, IpHeader, DestIp, DestPort, AckNumber, Be32, TcpHeader;
    var frame := ResponseFrame(cfg, orig, response);
    var t := TcpHeader(cfg, orig);
    FrameSlices(cfg, orig, response);
    TcpHeaderFields(cfg, orig);
    FieldsInSlice(frame, 34, 54, t, 4);
    FieldsInSlice(frame, 34, 54, t, 8);
    assert frame[46] == t[12] && frame[47] == t[13];
    assert frame[48..54] == frame[34..54][14..20] == t[14..20];
  }

  lemma TcpHeaderFields(cfg: Config, orig: Option<Skb>)
    requires InMemory(orig, 8)
    ensures var t := TcpHeader(cfg, orig);
            && Be32(t, 4) == cfg.seqNum && Be32(t, 8) == AckNumber(orig)
            && t[12] == 0x50 && t[13] == (if orig.Some? then 0x18 else 0x08)
            && t[14..20] == [0xFF, 0xFF, 0, 0, 0, 0]
  {
    hide DestPort, AckNumber, PutLe16, PutBe32, Be32;
    var t := TcpHeader(cfg, orig);
    FieldsInSlice(t, 4, 8, PutBe32(cfg.seqNum), 0);
    FieldsInSlice(t, 8, 12, PutBe32(AckNumber(orig)), 0);
  }

  lemma UdpFieldsReadBack(cfg: Config, orig: Option<Skb>, response: seq<u8>)
    requires Buildable(cfg, orig, response) && cfg.protocol == UDP
    ensures var frame := ResponseFrame(cfg, orig, response);
            Be16(frame, 38) == (UDP_LEN + |response|) % TWO16 && Le16(frame, 40) == 0
  {
    hide EthHeader, IpHeader, DestIp, DestPort, PutLe16, PutBe16;
    var frame := ResponseFrame(cfg, orig, response);
    var t := UdpHeader(cfg, orig, |response|);
    FrameSlices(cfg, orig, response);
    FieldsInSlice(t, 4, 6, PutBe16((UDP_LEN + |response|) % TWO16), 0);
    FieldsInSlice(frame, 34, 42, t, 4);
    FieldsInSlice(frame, 34, 42, t, 6);
  }

  // --------------------------------------------------------------------------
  // The emitted header checksum
  // --------------------------------------------------------------------------

  /** The header's words, check field left out. */
  function HeaderWords(cfg: Config, daddr: u32, total: nat): nat {
    (0x45 + Swap(total % TWO16) + 0x40 + 64 + 0x100 * (cfg.protocol as int)
     + cfg.responseIp % TWO16 + cfg.responseIp / TWO16 + daddr % TWO16 + daddr / TWO16) as int
  }

  lemma PutsAsWords(x: u32)
    ensures Word(Little, PutLe32(x)[0], PutLe32(x)[1]) == x % TWO16
    ensures Word(Little, PutLe32(x)[2], PutLe32(x)[3]) == x / TWO16
    ensures var y := x % TWO16; Word(Little, PutBe16(y)[0], PutBe16(y)[1]) == Swap(y)
  {
  }

  lemma PairOff(h: seq<u8>)
    requires |h| >= 4
    ensures WordSum(Little, h) ==
            (Word(Little, h[0], h[1]) as int) + (Word(Little, h[2], h[3]) as int) + WordSum(Little, h[4..])
  {
    assert h[2..][2..] == h[4..];
  }

  /** The ten words of a header without options. */
  lemma SumOfTen(h: seq<u8>)
    requires |h| == 20
    ensures WordSum(Little, h) ==
            (Word(Little, h[0], h[1]) + Word(Little, h[2], h[3]) + Word(Little, h[4], h[5])
             + Word(Little, h[6], h[7]) + Word(Little, h[8], h[9]) + Word(Little, h[10], h[11])
             + Word(Little, h[12], h[13]) + Word(Little, h[14], h[15]) + Word(Little, h[16], h[17])
             + Word(Little, h[18], h[19])) as int
  {
    hide Word;
    PairOff(h);
    PairOff(h[4..]);
    PairOff(h[8..]);
    PairOff(h[12..]);
    PairOff(h[16..]);
    assert h[4..][4..] == h[8..] && h[8..][4..] == h[12..] && h[12..][4..] == h[16..] && h[16..][4..] == [];
  }

  lemma BlankHeaderBytes(cfg: Config, daddr: u32, total: nat)
    ensures var h := IpHeaderWith(cfg, daddr, total, 0);
            && h[0] == 0x45 && h[1] == 0 && h[4] == h[5] == 0 && h[6] == 0x40 && h[7] == 0
            && h[8] == 64 && h[9] == cfg.protocol && h[10] == h[11] == 0
            && h[2..4] == PutBe16(total % TWO16)
            && h[12..16] == PutLe32(cfg.responseIp) && h[16..20] == PutLe32(daddr)
  {
    hide PutLe32, PutBe16;
  }

  lemma BlankHeaderSum(cfg: Config, daddr: u32, total: nat)
    ensures WordSum(Little, IpHeaderWith(cfg, daddr, total, 0)) == HeaderWords(cfg, daddr, total)
  {
    hide IpHeaderWith, PutLe32, PutBe16, WordSum, Swap;
    var h := IpHeaderWith(cfg, daddr, total, 0);
    BlankHeaderBytes(cfg, daddr, total);
    SumOfTen(h);
    PutsAsWords(cfg.responseIp);
    PutsAsWords(daddr);
    PutsAsWords(total % TWO16);
    assert h[2] == h[2..4][0] && h[3] == h[2..4][1];
    assert h[12] == h[12..16][0] && h[13] == h[12..16][1] && h[14] == h[12..16][2] && h[15] == h[12..16][3];
    assert h[16] == h[16..20][0] && h[17] == h[16..20][1] && h[18] == h[16..20][2] && h[19] == h[16..20][3];
  }

  /** Every emitted header is good under section 3.1 of RFC 791. */
  lemma BuiltHeaderIsGood(cfg: Config, orig: Option<Skb>, response: seq<u8>)
    requires Buildable(cfg, orig, response)
    ensures RfcValid(Little, ResponseFrame(cfg, orig, response)[ETH_LEN..ETH_LEN + IP_LEN])
  {
    hide EthHeader, DestIp;
    var daddr, total := DestIp(cfg, orig), IpTotal(cfg, |response|);
    FrameSlices(cfg, orig, response);
    StampedHeaderIsGood(cfg, daddr, total);
  }

  lemma StampedHeaderIsGood(cfg: Config, daddr: u32, total: nat)
    ensures RfcValid(Little, IpHeader(cfg, daddr, total))
  {
    hide CodeChecksum, WordSum, RfcValid;
    var ip := IpHeader(cfg, daddr, total);
    assert Blank(ip, 10) == IpHeaderWith(cfg, daddr, total, 0);
    IpFields(cfg, daddr, total);
    BlankHeaderSum(cfg, daddr, total);
    StoringMakesValid(Little, ip, 10);
  }

  /** The module's own full parser takes back a frame it built exactly when the check field
      it emitted is zero, that is, when the header's other words sum to a multiple of 65535. */
  lemma OwnParserAcceptsIffZeroCheck(cfg: Config, orig: Option<Skb>, response: seq<u8>)
    requires Buildable(cfg, orig, response)
    ensures var skb := AsSkb(ResponseFrame(cfg, orig, response));
            && SummedBytesInMemory(skb) && ReachesHeaderSum(skb) && RfcValid(Little, Header(skb))
            && FullParse(skb).code == (if HeaderCheck(skb.mem) == 0 then 0 else EINVAL)
            && (HeaderCheck(skb.mem) == 0 <==>
                HeaderWords(cfg, PeerIp(cfg, orig), IpTotal(cfg, |response|)) % 0xFFFF == 0)
  {
    hide EthHeader, PeerIp, PeerPort, PeerAt, IpHeader, IpCheck, TransportHeader, RfcValid, Accepts, CodeChecksum;
    var daddr, total := PeerIp(cfg, orig), IpTotal(cfg, |response|);
    var frame := ResponseFrame(cfg, orig, response);
    IpFieldsReadBack(cfg, orig, response);
    TransportFieldsReadBack(cfg, orig, response);
    BuildThenParse(cfg, orig, response);
    ZeroCheckExactly(cfg, daddr, total);
    assert Be16(frame, 12) == ETH_P_IP by {
      FrameSlices(cfg, orig, response);
      EtherTypeOf(orig);
      assert frame[12] == frame[..14][12] && frame[13] == frame[..14][13];
    }
    BuiltHeaderIsGood(cfg, orig, response);
    GoodHeaderAcceptedIffZero(AsSkb(frame));
    FastRefinesFull(AsSkb(frame));
  }

  lemma EtherTypeOf(orig: Option<Skb>)
    requires InMemory(orig, 2)
    ensures EthHeader(orig)[12] == 8 && EthHeader(orig)[13] == 0
  {
  }

  lemma ZeroCheckExactly(cfg: Config, daddr: u32, total: nat)
    ensures IpCheck(cfg, daddr, total) == 0 <==> HeaderWords(cfg, daddr, total) % 0xFFFF == 0
  {
    hide IpHeaderWith, WordSum;
    CodeWithoutWrap(Little, IpHeaderWith(cfg, daddr, total, 0));
    BlankHeaderSum(cfg, daddr, total);
    CanonMod(HeaderWords(cfg, daddr, total));
    hide CodeChecksum, Swap;
  }

  /** Among target addresses there are some whose frames are taken back. */
  lemma SomeFrameIsAccepted(cfg: Config, response: seq<u8>) returns (target: u32)
    requires Buildable(cfg, None, response)
    ensures target != 0 && HeaderWords(cfg, target, IpTotal(cfg, |response|)) % 0xFFFF == 0
    ensures var skb := AsSkb(ResponseFrame(cfg.(targetIp := target), None, response));
            SummedBytesInMemory(skb) && FullParse(skb).code == 0
  {
    hide Swap, ResponseFrame, FullParse, SummedBytesInMemory, Header, RfcValid;
    var s := HeaderWords(cfg, 0, IpTotal(cfg, |response|));
    target := 0xFFFF - s % 0xFFFF;
    assert HeaderWords(cfg, target, IpTotal(cfg, |response|)) == s + target;
    assert (s + target) % 0xFFFF == 0;
    OwnParserAcceptsIffZeroCheck(cfg.(targetIp := target), None, response);
  }

  /** And some whose frames, good under section 3.1 of RFC 791, are rejected. */
  lemma SomeGoodFrameIsRejected(cfg: Config, response: seq<u8>) returns (target: u32)
    requires Buildable(cfg, None, response)
    ensures target != 0
    ensures var skb := AsSkb(ResponseFrame(cfg.(targetIp := target), None, response));
            && SummedBytesInMemory(skb) && ReachesHeaderSum(skb)
            && RfcValid(Little, Header(skb)) && HeaderCheck(skb.mem) != 0 && FullParse(skb).code == EINVAL
  {
    hide Swap, ResponseFrame, FullParse, SummedBytesInMemory, Header, RfcValid;
    var s := HeaderWords(cfg, 0, IpTotal(cfg, |response|));
    target := 0x10000 - s % 0xFFFF;
    assert HeaderWords(cfg, target, IpTotal(cfg, |response|)) % 0xFFFF == 1 by {
      if target < TWO16 {
        assert HeaderWords(cfg, target, IpTotal(cfg, |response|)) == s + target;
      } else {
        assert HeaderWords(cfg, target, IpTotal(cfg, |response|)) == s + 1;
      }
    }
    OwnParserAcceptsIffZeroCheck(cfg.(targetIp := target), None, response);
  }
}
