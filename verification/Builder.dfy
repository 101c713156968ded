/** The response builder of src/response_sender.c: the frame it writes, and the buffer code
    that writes it. */
module Builder {
  import opened Bytes
  import opened Checksum
  import opened Parsers
  import opened Configuration

  // --------------------------------------------------------------------------
  // The frame
  // --------------------------------------------------------------------------

  const NO_MAC: seq<u8> := [0, 0, 0, 0, 0, 0]

  /** The original packet, if any, is in memory up to n bytes into its transport header. */
  predicate InMemory(orig: Option<Skb>, n: nat) {
    orig.Some? ==>
      |orig.value.mem| >= ETH_LEN + IP_LEN && TransportAt(orig.value.mem) + n <= |orig.value.mem|
  }

  /** The bytes of the original packet the builder reads are in memory: the source port, and
      for TCP the sequence number. */
  predicate Readable(cfg: Config, orig: Option<Skb>) {
    InMemory(orig, if cfg.protocol == TCP then 8 else 2)
  }

  function EthHeader(orig: Option<Skb>): (b: seq<u8>)
    requires InMemory(orig, 2)
    ensures |b| == ETH_LEN
  {
    match orig
    case None => NO_MAC + NO_MAC + [8, 0]
    case Some(o) => o.mem[6..12] + o.mem[..6] + [8, 0]
  }

  function DestIp(cfg: Config, orig: Option<Skb>): u32
    requires InMemory(orig, 2)
  {
    if orig.Some? then Le32(orig.value.mem, 26) else cfg.targetIp
  }

  function DestPort(cfg: Config, orig: Option<Skb>): u16
    requires InMemory(orig, 2)
  {
    if orig.Some? then Le16(orig.value.mem, TransportAt(orig.value.mem)) else cfg.targetPort
  }

  function AckNumber(orig: Option<Skb>): u32
    requires InMemory(orig, 8)
  {
    if orig.Some? then (Be32(orig.value.mem, TransportAt(orig.value.mem) + 4) + 1) % TWO32 else 0
  }

  /** htons takes the low 16 bits of the length. */
  function IpHeaderWith(cfg: Config, daddr: u32, total: nat, check: u16): (b: seq<u8>)
    ensures |b| == IP_LEN
  {
    [0x45, 0] + PutBe16(total % TWO16) + [0, 0, 0x40, 0, 64, cfg.protocol] + PutLe16(check)
    + PutLe32(cfg.responseIp) + PutLe32(daddr)
  }

  function IpCheck(cfg: Config, daddr: u32, total: nat): u16 {
    CodeChecksum(Little, IpHeaderWith(cfg, daddr, total, 0))
  }

  function IpHeader(cfg: Config, daddr: u32, total: nat): (b: seq<u8>)
    ensures |b| == IP_LEN
  {
    IpHeaderWith(cfg, daddr, total, IpCheck(cfg, daddr, total))
  }

  function TcpHeader(cfg: Config, orig: Option<Skb>): (b: seq<u8>)
    requires InMemory(orig, 8)
    ensures |b| == TCP_LEN
  {
    PutLe16(cfg.responsePort) + PutLe16(DestPort(cfg, orig)) + PutBe32(cfg.seqNum) + PutBe32(AckNumber(orig))
    + [0x50, if orig.Some? then 0x18 else 0x08, 0xFF, 0xFF, 0, 0, 0, 0]
  }

  function UdpHeader(cfg: Config, orig: Option<Skb>, responseLen: nat): (b: seq<u8>)
    requires InMemory(orig, 2)
    ensures |b| == UDP_LEN
  {
    PutLe16(cfg.responsePort) + PutLe16(DestPort(cfg, orig)) + PutBe16((UDP_LEN + responseLen) % TWO16) + [0, 0]
  }

  function TransportLen(cfg: Config): nat {
    if cfg.protocol == TCP then TCP_LEN else UDP_LEN
  }

  function TransportHeader(cfg: Config, orig: Option<Skb>, responseLen: nat): (b: seq<u8>)
    requires Readable(cfg, orig)
    ensures |b| == TransportLen(cfg)
  {
    if cfg.protocol == TCP then TcpHeader(cfg, orig) else UdpHeader(cfg, orig, responseLen)
  }

  function IpTotal(cfg: Config, responseLen: nat): nat {
    IP_LEN + TransportLen(cfg) + responseLen
  }

  function ResponseFrame(cfg: Config, orig: Option<Skb>, response: seq<u8>): (frame: seq<u8>)
    requires Readable(cfg, orig)
    ensures |frame| == ETH_LEN + IpTotal(cfg, |response|)
  {
    EthHeader(orig) + IpHeader(cfg, DestIp(cfg, orig), IpTotal(cfg, |response|))
    + TransportHeader(cfg, orig, |response|) + response
  }

  lemma StampCheck(blank: seq<u8>, stamped: seq<u8>, check: u16, cfg: Config, daddr: u32, total: nat)
    requires blank == IpHeaderWith(cfg, daddr, total, 0) && |stamped| == IP_LEN
    requires forall i :: 0 <= i < IP_LEN ==> stamped[i] == if 10 <= i < 12 then PutLe16(check)[i - 10] else blank[i]
    ensures stamped == IpHeaderWith(cfg, daddr, total, check)
  {
  }

  /** The buffer s with some bytes overwritten. */
  function Splice(s: seq<u8>, at: nat, bytes: seq<u8>): (r: seq<u8>)
    requires at + |bytes| <= |s|
    ensures |r| == |s|
    ensures r[..at] == s[..at] && r[at..at + |bytes|] == bytes
  {
    s[..at] + bytes + s[at + |bytes|..]
  }

  /** Storing a field right after the bytes written since `start`. */
  lemma Next(s: seq<u8>, start: nat, done: seq<u8>, bytes: seq<u8>)
    requires start + |done| + |bytes| <= |s| && s[start..start + |done|] == done
    ensures var r := Splice(s, start + |done|, bytes);
            r[start..start + |done| + |bytes|] == done + bytes && r[..start] == s[..start]
  {
  }

  /** The room [at, tail) of a buffer has been filled with `written`, the rest left alone. */
  lemma Extended(before: seq<u8>, after: seq<u8>, data: nat, at: nat, tail: nat, written: seq<u8>)
    requires data <= at <= tail <= |after| && at <= |before|
    requires after[..at] == before[..at] && after[at..tail] == written
    ensures after[data..tail] == before[data..at] + written
  {
    assert after[data..at] == after[..at][data..] && before[data..at] == before[..at][data..];
    Joined(after, data, at, tail);
  }

  lemma TcpParts(source: seq<u8>, dest: seq<u8>, number: seq<u8>, ack: seq<u8>, flags: u8)
    ensures [] + source + dest + number + ack + [0x50, flags] + [0xFF, 0xFF, 0, 0, 0, 0]
            == source + dest + number + ack + [0x50, flags, 0xFF, 0xFF, 0, 0, 0, 0]
  {
  }

  lemma Joined(buf: seq<u8>, data: nat, at: nat, tail: nat)
    requires data <= at <= tail <= |buf|
    ensures buf[data..tail] == buf[data..at] + buf[at..tail]
  {
  }

  // --------------------------------------------------------------------------
  // The buffer
  // --------------------------------------------------------------------------

  /** A socket buffer under construction: skb_reserve moves both marks, skb_put moves tail. */
  class SkBuff {
    const buf: array<u8>
    var data: nat
    var tail: nat

    ghost predicate Valid()
      reads this
    {
      data <= tail <= buf.Length
    }

    ghost function Bytes(): seq<u8>
      requires Valid()
      reads this, buf
    {
      buf[data..tail]
    }

    constructor (capacity: nat)
      ensures Valid() && fresh(buf) && buf.Length == capacity && data == tail == 0
    {
      buf := new u8[capacity];
      data, tail := 0, 0;
    }

    method Reserve(n: nat)
      requires Valid() && data == tail && tail + n <= buf.Length
      modifies this
      ensures Valid() && data == tail == old(tail) + n
    {
      data, tail := data + n, tail + n;
    }

    /** skb_put: the room is uninitialised. */
    method Put(n: nat) returns (at: nat)
      requires Valid() && tail + n <= buf.Length
      modifies this
      ensures Valid() && at == old(tail) && tail == at + n && data == old(data)
    {
      at := tail;
      tail := tail + n;
    }

    /** Store a field's bytes. */
    method Store(at: nat, bytes: seq<u8>)
      requires at + |bytes| <= buf.Length
      modifies buf
      ensures buf[..] == Splice(old(buf[..]), at, bytes)
    {
      for i := 0 to |bytes|
        invariant forall j :: 0 <= j < buf.Length ==>
                    buf[j] == if at <= j < at + i then bytes[j - at] else old(buf[j])
      {
        buf[at + i] := bytes[i];
      }
    }

    /** Store a field right after the bytes `done` written from `start` on. */
    method Field(start: nat, ghost done: seq<u8>, at: nat, bytes: seq<u8>) returns (ghost written: seq<u8>)
      requires at == start + |done| && at + |bytes| <= buf.Length && buf[..][start..at] == done
      modifies buf
      ensures written == done + bytes && buf[..][start..at + |bytes|] == written
      ensures buf[..][..start] == old(buf[..])[..start]
    {
      Next(buf[..], start, done, bytes);
      Store(at, bytes);
      written := done + bytes;
    }

    method PutEth(orig: Option<Skb>)
      requires Valid() && InMemory(orig, 2) && tail + ETH_LEN <= buf.Length
      modifies this, buf
      ensures Valid() && data == old(data) && tail == old(tail) + ETH_LEN
      ensures Bytes() == old(Bytes()) + EthHeader(orig)
    {
      ghost var before := buf[..];
      var at := Put(ETH_LEN);
      ghost var done: seq<u8> := [];
      if orig.Some? {
        done := Field(at, done, at, orig.value.mem[6..12]);
        done := Field(at, done, at + 6, orig.value.mem[..6]);
      } else {
        done := Field(at, done, at, NO_MAC);
        done := Field(at, done, at + 6, NO_MAC);
      }
      done := Field(at, done, at + 12, [8, 0]);
      assert done == EthHeader(orig);
      Extended(before, buf[..], data, at, tail, done);
    }

    /** The IP header with its check field still zero. */
    method PutBlankIp(cfg: Config, daddr: u32, total: nat)
      requires Valid() && tail + IP_LEN <= buf.Length
      modifies this, buf
      ensures Valid() && data == old(data) && tail == old(tail) + IP_LEN
      ensures Bytes() == old(Bytes()) + IpHeaderWith(cfg, daddr, total, 0)
    {
      hide PutBe16, PutLe32;
      ghost var before := buf[..];
      var at := Put(IP_LEN);
      ghost var done: seq<u8> := [];
      done := Field(at, done, at, [0x45, 0]);
      done := Field(at, done, at + 2, PutBe16(total % TWO16));
      done := Field(at, done, at + 4, [0, 0, 0x40, 0, 64, cfg.protocol]);
      done := Field(at, done, at + 10, [0, 0]);
      done := Field(at, done, at + 12, PutLe32(cfg.responseIp));
      done := Field(at, done, at + 16, PutLe32(daddr));
      assert done == IpHeaderWith(cfg, daddr, total, 0);
      Extended(before, buf[..], data, at, tail, done);
    }

    method PutIp(cfg: Config, daddr: u32, total: nat)
      requires Valid() && tail + IP_LEN <= buf.Length
      modifies this, buf
      ensures Valid() && data == old(data) && tail == old(tail) + IP_LEN
      ensures Bytes() == old(Bytes()) + IpHeader(cfg, daddr, total)
    {
      hide IpHeaderWith, CodeChecksum;
      ghost var before := Bytes();
      var at := tail;
      PutBlankIp(cfg, daddr, total);
      ghost var blank := IpHeaderWith(cfg, daddr, total, 0);
      assert buf[data..at] == Bytes()[..|before|] == before;
      assert buf[at..tail] == Bytes()[|before|..] == blank;
      assert blank[..IP_LEN] == blank;
      var check := ComputeChecksum(Little, buf[at..tail], IP_LEN);
      Store(at + 10, PutLe16(check));
      StampCheck(blank, buf[at..tail], check, cfg, daddr, total);
      assert buf[data..at] == before;
      Joined(buf[..], data, at, tail);
    }

    method PutTcp(cfg: Config, orig: Option<Skb>)
      requires Valid() && InMemory(orig, 8) && tail + TCP_LEN <= buf.Length
      modifies this, buf
      ensures Valid() && data == old(data) && tail == old(tail) + TCP_LEN
      ensures Bytes() == old(Bytes()) + TcpHeader(cfg, orig)
    {
      hide PutLe16, PutBe32, DestPort, AckNumber;
      ghost var before := buf[..];
      var at := Put(TCP_LEN);
      ghost var done: seq<u8> := [];
      done := Field(at, done, at, PutLe16(cfg.responsePort));
      done := Field(at, done, at + 2, PutLe16(DestPort(cfg, orig)));
      done := Field(at, done, at + 4, PutBe32(cfg.seqNum));
      done := Field(at, done, at + 8, PutBe32(AckNumber(orig)));
      done := Field(at, done, at + 12, [0x50, if orig.Some? then 0x18 else 0x08]);
      done := Field(at, done, at + 14, [0xFF, 0xFF, 0, 0, 0, 0]);
      TcpParts(PutLe16(cfg.responsePort), PutLe16(DestPort(cfg, orig)), PutBe32(cfg.seqNum), PutBe32(AckNumber(orig)),
               if orig.Some? then 0x18 else 0x08);
      Extended(before, buf[..], data, at, tail, done);
    }

    method PutUdp(cfg: Config, orig: Option<Skb>, responseLen: nat)
      requires Valid() && InMemory(orig, 2) && tail + UDP_LEN <= buf.Length
      modifies this, buf
      ensures Valid() && data == old(data) && tail == old(tail) + UDP_LEN
      ensures Bytes() == old(Bytes()) + UdpHeader(cfg, orig, responseLen)
    {
      hide PutLe16, PutBe16, DestPort;
      ghost var before := buf[..];
      var at := Put(UDP_LEN);
      ghost var done: seq<u8> := [];
      done := Field(at, done, at, PutLe16(cfg.responsePort));
      done := Field(at, done, at + 2, PutLe16(DestPort(cfg, orig)));
      done := Field(at, done, at + 4, PutBe16((UDP_LEN + responseLen) % TWO16));
      done := Field(at, done, at + 6, [0, 0]);
      assert done == UdpHeader(cfg, orig, responseLen);
      Extended(before, buf[..], data, at, tail, done);
    }

    method PutPayload(response: seq<u8>)
      requires Valid() && tail + |response| <= buf.Length
      modifies this, buf
      ensures Valid() && data == old(data) && tail == old(tail) + |response|
      ensures Bytes() == old(Bytes()) + response
    {
      ghost var before := buf[..];
      var at := Put(|response|);
      ghost var done: seq<u8> := [];
      done := Field(at, done, at, response);
      assert done == response;
      Extended(before, buf[..], data, at, tail, done);
    }

    /** The filling part of nanonet_create_response_packet, on an empty buffer with room for
        NET_IP_ALIGN and the frame. */
    method Fill(cfg: Config, orig: Option<Skb>, response: seq<u8>)
      requires Valid() && data == tail == 0 && Readable(cfg, orig)
      requires cfg.protocol == TCP || cfg.protocol == UDP
      requires 2 + ETH_LEN + IpTotal(cfg, |response|) <= buf.Length
      modifies this, buf
      ensures Valid() && Bytes() == ResponseFrame(cfg, orig, response)
    {
      hide EthHeader, IpHeader, TcpHeader, UdpHeader, DestIp, DestPort, AckNumber, TransportAt, Le32;
      Reserve(2);
      PutEth(orig);
      PutIp(cfg, DestIp(cfg, orig), IpTotal(cfg, |response|));
      if cfg.protocol == TCP {
        PutTcp(cfg, orig);
      } else if cfg.protocol == UDP {
        PutUdp(cfg, orig, |response|);
      }
      PutPayload(response);
    }
  }
}
