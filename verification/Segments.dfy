/** TCP packets written out from the fields of their headers (section 3.1 of RFC 9293), and what
    the hook makes of them. */
module Segments {
  import opened Bytes
  import opened Checksum
  import opened Parsers
  import opened Frames
  import opened Configuration
  import opened RoundTrip
  import opened NanoNet
  import opened Steps
  import C = Connections
  import K = ConnectionTable

  // --------------------------------------------------------------------------
  // The encoder
  // --------------------------------------------------------------------------

  datatype Flags = Flags(fin: bool, syn: bool, rst: bool, psh: bool, ack: bool, urg: bool, ece: bool, cwr: bool)

  function Bit(on: bool, value: u8): u8 {
    if on then value else 0
  }

  function FlagByte(f: Flags): u8 {
    Bit(f.fin, 1) + Bit(f.syn, 2) + Bit(f.rst, 4) + Bit(f.psh, 8) +
    Bit(f.ack, 16) + Bit(f.urg, 32) + Bit(f.ece, 64) + Bit(f.cwr, 128)
  }

  /** A TCP header, its numbers as numbers. */
  datatype TcpHead = TcpHead(source: u16, dest: u16, number: u32, ackNumber: u32, flags: Flags,
                             window: u16, check: u16, urgent: u16, options: seq<u8>)
  {
    predicate Valid() {
      |options| % 4 == 0 && |options| <= 40
    }
  }

  function EncodeTcp(h: TcpHead): (b: seq<u8>)
    requires h.Valid()
    ensures |b| == 20 + |h.options|
  {
    PutBe16(h.source) + PutBe16(h.dest) + PutBe32(h.number) + PutBe32(h.ackNumber) +
    [16 * (5 + |h.options| / 4), FlagByte(h.flags)] +
    PutBe16(h.window) + PutBe16(h.check) + PutBe16(h.urgent) + h.options
  }

  lemma EncodedBytes(h: TcpHead)
    requires h.Valid()
    ensures var b := EncodeTcp(h);
            && b[0..2] == PutBe16(h.source) && b[2..4] == PutBe16(h.dest)
            && b[4..8] == PutBe32(h.number) && b[8..12] == PutBe32(h.ackNumber)
            && b[12] == 16 * (5 + |h.options| / 4) && b[13] == FlagByte(h.flags)
  {
    hide PutBe16, PutBe32, FlagByte;
  }

  lemma SynBit(f: Flags)
    ensures FlagByte(f) % 4 >= 2 <==> f.syn
  {
  }

  lemma AckBit(f: Flags)
    ensures FlagByte(f) % 32 >= 16 <==> f.ack
  {
  }

  lemma EncodedFields(h: TcpHead)
    requires h.Valid()
    ensures var b := EncodeTcp(h);
            && Le16(b, 0) == Swap(h.source) && Le16(b, 2) == Swap(h.dest)
            && Be32(b, 4) == h.number && Be32(b, 8) == h.ackNumber
            && (b[13] % 4 >= 2 <==> h.flags.syn) && (b[13] % 32 >= 16 <==> h.flags.ack)
  {
    hide EncodeTcp, PutBe32, FlagByte, Be32;
    var b := EncodeTcp(h);
    EncodedBytes(h);
    SynBit(h.flags);
    AckBit(h.flags);
    FieldsInSlice(b, 0, 2, PutBe16(h.source), 0);
    FieldsInSlice(b, 2, 4, PutBe16(h.dest), 0);
    FieldsInSlice(b, 4, 8, PutBe32(h.number), 0);
    FieldsInSlice(b, 8, 12, PutBe32(h.ackNumber), 0);
  }

  /** Addresses and ports as a little-endian host loads them. */
  function KeyOf(ip: seq<u8>, h: TcpHead): C.Key
    requires |ip| >= 20
  {
    C.Key(Le32(ip, 12), Le32(ip, 16), Swap(h.source), Swap(h.dest))
  }

  // --------------------------------------------------------------------------
  // Packets for the configured endpoint
  // --------------------------------------------------------------------------

  function TcpPacket(eth: seq<u8>, ip: seq<u8>, h: TcpHead, data: seq<u8>): seq<u8>
    requires h.Valid()
  {
    eth + ip + (EncodeTcp(h) + data)
  }

  /** The IP header carries TCP, passes the parser and the guards, and goes to the endpoint. */
  predicate Heads(cfg: Config, ip: seq<u8>) {
    && |ip| >= 20 && ip[9] == 6 && HeaderPasses(ip)
    && ip[12..16] != [0, 0, 0, 0] && (ip[3] > 0 || ip[2] >= 20)
    && (ip[16..20] == PutLe32(cfg.targetIp) || (cfg.multicast && ip[16..20] == PutLe32(cfg.multicastGroup)))
  }

  /** The hook listens for TCP at an endpoint, and gets a packet made of these parts for it. */
  predicate Receives(cfg: Config, input: HookInput, eth: seq<u8>, ip: seq<u8>, h: TcpHead, data: seq<u8>) {
    && cfg.enabled && cfg.protocol == 6 && cfg.targetPort == Swap(h.dest)
    && Headed(eth, ip) && Heads(cfg, ip) && h.Valid() && |TcpPacket(eth, ip, h, data)| < TWO32
    && input.skb == AsSkb(TcpPacket(eth, ip, h, data)) && |input.orderBytes| == 16
    && input.hasDev && input.budget
  }

  lemma PacketParses(cfg: Config, input: HookInput, eth: seq<u8>, ip: seq<u8>, h: TcpHead, data: seq<u8>)
    requires Receives(cfg, input, eth, ip, h, data)
    ensures input.Valid()
    ensures var p := FullParse(input.skb);
            && p.code == 0 && p.tcp == Some(14 + |ip|) && p.udp == None
            && Payload(input.skb) == if |data| < 0x8000_0000 then Some(data) else None
  {
    hide HeaderPasses, FullParse, FastParse, SummedBytesInMemory, EncodeTcp, PutLe32, PutBe16, PutBe32, FlagByte;
    var tcp := EncodeTcp(h);
    EncodedBytes(h);
    TcpFrame(eth, ip, tcp, data);
    PayloadIsData(eth, ip, tcp, data);
  }

  /** What follows the headers of an accepted TCP or UDP packet is what the application logic gets,
      unless there are 2^31 bytes of it or more. */
  lemma PayloadIsData(eth: seq<u8>, ip: seq<u8>, transport: seq<u8>, data: seq<u8>)
    requires Composed(eth, ip, transport, data)
    ensures var skb := AsSkb(eth + ip + (transport + data));
            SummedBytesInMemory(skb) && FullParse(skb).code == 0 ==>
              Payload(skb) == if |data| < 0x8000_0000 then Some(data) else None
  {
    hide FullParse, FastParse, SummedBytesInMemory, HeadersLen, ChecksPass, Version, Protocol;
    var frame := eth + ip + (transport + data);
    var h := |eth| + |ip| + |transport|;
    assert frame == eth + ip + transport + data;
    ComposedFrameParses(eth, ip, transport, data);
    if SummedBytesInMemory(AsSkb(frame)) && FullParse(AsSkb(frame)).code == 0 {
      FastRefinesFull(AsSkb(frame));
      assert frame[h..h + |data|] == data;
    }
  }

  /** The packet is clean and for the endpoint, and the segment read from it has the fields its
      header was written from. */
  lemma PacketArrives(cfg: Config, input: HookInput, eth: seq<u8>, ip: seq<u8>, h: TcpHead, data: seq<u8>)
    requires Receives(cfg, input, eth, ip, h, data)
    ensures input.Valid() && ArrivesForUs(cfg, input)
    ensures SegmentOf(input) == C.Segment(KeyOf(ip, h), h.flags.syn, h.flags.ack, h.number, h.ackNumber)
  {
    hide HeaderPasses, FullParse, SummedBytesInMemory, EncodeTcp, PutLe32, PutLe16, Le16, Le32, Be32, Payload;
    PacketParses(cfg, input, eth, ip, h, data);
    var m, tcp := input.skb.mem, EncodeTcp(h);
    HeadedBytes(eth, ip, tcp + data);
    IpBytes(eth, ip, tcp + data);
    TcpBytes(eth, ip, tcp, data);
    EncodedFields(h);
    Stored16(m, 14 + |ip| + 2, cfg.targetPort);
  }

  lemma IpBytes(eth: seq<u8>, ip: seq<u8>, rest: seq<u8>)
    requires Headed(eth, ip)
    ensures var m := eth + ip + rest;
            && m[16] == ip[2] && m[17] == ip[3] && m[26..30] == ip[12..16] && m[30..34] == ip[16..20]
            && Le32(m, 26) == Le32(ip, 12) && Le32(m, 30) == Le32(ip, 16)
  {
    hide Le32;
    var m := eth + ip + rest;
    FieldsInSlice(m, 14, 14 + |ip|, ip, 12);
    FieldsInSlice(m, 14, 14 + |ip|, ip, 16);
  }

  lemma TcpBytes(eth: seq<u8>, ip: seq<u8>, tcp: seq<u8>, data: seq<u8>)
    requires |eth| == 14 && |tcp| >= 20
    ensures var m, at := eth + ip + (tcp + data), 14 + |ip|;
            && Le16(m, at) == Le16(tcp, 0) && Le16(m, at + 2) == Le16(tcp, 2)
            && Be32(m, at + 4) == Be32(tcp, 4) && Be32(m, at + 8) == Be32(tcp, 8) && m[at + 13] == tcp[13]
  {
    hide Le16, Be32;
    var m, at := eth + ip + (tcp + data), 14 + |ip|;
    assert m[at..at + |tcp|] == tcp;
    FieldsInSlice(m, at, at + |tcp|, tcp, 0);
    FieldsInSlice(m, at, at + |tcp|, tcp, 2);
    FieldsInSlice(m, at, at + |tcp|, tcp, 4);
    FieldsInSlice(m, at, at + |tcp|, tcp, 8);
  }

  // --------------------------------------------------------------------------
  // Tracking, from header fields to records
  // --------------------------------------------------------------------------

  /** The record of a connection after a segment with this header. */
  function RecordAfter(table: map<C.Key, C.Conn>, key: C.Key, h: TcpHead, now: u64): C.Conn {
    if key !in table then C.Conn(key, 1, h.number, 0, now)
    else
      var was := table[key];
      if !h.flags.syn then C.Conn(was.key, was.state, was.seqNum, was.ackNum, now)
      else if h.flags.ack then C.Conn(was.key, 2, h.number, h.ackNumber, now)
      else C.Conn(was.key, 1, was.seqNum, was.ackNum, now)
  }

  /** A TCP packet for the endpoint, from the fields its header was written from: the table is
      asked about exactly its addresses, ports, flags and numbers; the packet is taken exactly if
      its connection is known or it is a SYN without ACK and there is memory; and then, and only
      then, the record of its connection changes, to the one the header dictates. */
  lemma PacketIsTracked(s: State, input: HookInput, eth: seq<u8>, ip: seq<u8>, h: TcpHead, data: seq<u8>)
    requires s.pool.Valid() && Receives(s.config, input, eth, ip, h, data)
    ensures input.Valid()
    ensures var o, key, table := Hook(s, input), KeyOf(ip, h), s.conns.table;
            && o.call == Some(C.Track(C.Segment(key, h.flags.syn, h.flags.ack, h.number, h.ackNumber),
                                      input.jiffies, input.connMemory))
            && (o.verdict.Stolen? <==> key in table || (h.flags.syn && !h.flags.ack && input.connMemory))
            && o.state.conns ==
               if !o.verdict.Stolen? then s.conns
               else C.State(table[key := RecordAfter(table, key, h, input.jiffies)],
                            s.conns.active + (if key in table then 0 else 1), s.conns.dropped)
  {
    hide HeaderPasses, FullParse, SummedBytesInMemory, Receives, KeyOf, Hook, ArrivesForUs;
    PacketArrives(s.config, input, eth, ip, h, data);
    CallOf(s, input);
    HookCalls(s, input);
    TakenIsTracked(s, input);
    hide SegmentOf;
  }

  /** Its bucket is found from the two addresses as stored and the two ports as numbers. */
  lemma BucketOf(jhash: K.Hash, ip: seq<u8>, h: TcpHead)
    requires |ip| >= 20
    ensures K.Slot(jhash, KeyOf(ip, h)) ==
            jhash(Le32(ip, 12), Le32(ip, 16), 0x1_0000 * h.source + h.dest, 0) % 1024
  {
    hide Le32;
    assert Swap(Swap(h.source)) == h.source && Swap(Swap(h.dest)) == h.dest;
  }
}
