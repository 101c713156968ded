/** What a single hook call does, and what it takes for a packet to be taken and answered. */
module Steps {
  import opened Bytes
  import opened Checksum
  import opened Parsers
  import opened Frames
  import opened Configuration
  import opened Builder
  import opened RoundTrip
  import opened Orders
  import T = Timing
  import opened NanoNet
  import C = Connections
  import P = ResponsePool

  // --------------------------------------------------------------------------
  // The parts of a step
  // --------------------------------------------------------------------------

  lemma PoolStaysValid(s: State, input: HookInput)
    requires s.pool.Valid() && input.Valid()
    ensures Hook(s, input).state.pool.Valid()
  {
    hide FullParse, SummedBytesInMemory, Decide, Encode, RouteOf, Payload, ResponseFrame, P.AfterTake, P.Taken;
  }

  /** No path through order creation and sending ends in a positive result. */
  lemma AppResultNeverPositive(payload: Option<seq<u8>>, cfg: Config, pool: P.Pool<nat>, input: HookInput)
    requires pool.Valid() && input.Valid()
    ensures AppLogic(payload, cfg, pool, input).code <= 0
  {
    hide ResponseFrame, Encode, P.AfterTake, P.Taken, SummedBytesInMemory;
  }

  lemma DeliveredParses(s: State, input: HookInput)
    requires input.Valid() && RouteOf(s, input).Delivered?
    ensures FullParse(input.skb).code == 0
  {
    hide FullParse, SummedBytesInMemory;
    FullParseShape(input.skb);
  }

  lemma StolenDelivered(s: State, input: HookInput)
    requires s.pool.Valid() && input.Valid()
    ensures Hook(s, input).verdict.Stolen? <==> RouteOf(s, input).Delivered?
  {
    hide FullParse, SummedBytesInMemory, RouteOf, Payload, AppLogic, T.Record;
  }

  /** The nanoseconds from start to end, with 2^64 added when the clock was set back. */
  function Elapsed(input: HookInput): u64 {
    if input.start <= input.end then input.end - input.start
    else input.end - input.start + 0x1_0000_0000_0000_0000
  }

  lemma TimeIsElapsed(input: HookInput)
    ensures ProcessTime(input) == Elapsed(input)
  {
  }

  /** What one hook call does to the statistics. */
  lemma HookCounts(s: State, input: HookInput)
    requires s.pool.Valid() && input.Valid()
    ensures var o := Hook(s, input);
            var r := o.state.stats;
            && r.responses == s.stats.responses
            && (o.app.Some? <==> o.verdict.Stolen?)
            && (o.sent.Some? ==> o.verdict.Stolen? && o.app.value == 0)
            && if o.verdict.Stolen? then
                 && r.bypassed == s.stats.bypassed
                 && r.errors == s.stats.errors + (if o.app.value < 0 then 1 else 0)
                 && r.times == T.Record(s.stats.times, Elapsed(input))
               else
                 && r.bypassed + r.errors == s.stats.bypassed + s.stats.errors + 1
                 && r.times == s.stats.times
  {
    TimeIsElapsed(input);
    hide FullParse, SummedBytesInMemory, RouteOf, Payload, AppLogic, T.Record, ProcessTime, Elapsed;
    if RouteOf(s, input).Delivered? {
      DeliveredParses(s, input);
      AppResultNeverPositive(Payload(input.skb), s.config, s.pool, input);
      AppAnswers(Payload(input.skb), s, input);
    }
  }

  lemma HookCalls(s: State, input: HookInput)
    requires s.pool.Valid() && input.Valid()
    ensures Hook(s, input).state.conns == Called(s.conns, Hook(s, input).call)
  {
    hide FullParse, SummedBytesInMemory, RouteOf, Payload, AppLogic, T.Record;
  }

  lemma HookTakes(s: State, input: HookInput)
    requires s.pool.Valid() && input.Valid()
    ensures var o := Hook(s, input);
            && o.state.pool == (if o.asked then P.AfterTake(s.pool) else s.pool)
            && (o.sent.Some? ==> o.asked && (P.Taken(s.pool).Some? || input.skbMemory))
  {
    hide FullParse, SummedBytesInMemory, RouteOf, Payload, Decide, Encode, ResponseFrame, T.Record;
    hide P.AfterTake, P.Taken;
  }

  function Advanced(cfg: Config, n: nat): Config {
    cfg.(seqNum := (cfg.seqNum + n) % TWO32)
  }

  /** A frame built from a configuration around an order, with no original packet. */
  ghost predicate IsOrderFrame(frame: seq<u8>, cfg: Config) {
    exists response: seq<u8> :: |response| == ORDER_LEN && frame == ResponseFrame(cfg, None, response)
  }

  lemma AppSends(payload: Option<seq<u8>>, cfg: Config, pool: P.Pool<nat>, input: HookInput)
    requires pool.Valid() && input.Valid()
    ensures var a := AppLogic(payload, cfg, pool, input);
            if a.frame.Some? then
              a.config == Advanced(cfg, ORDER_LEN) && IsOrderFrame(a.frame.value, cfg)
            else a.config == cfg
  {
    hide ResponseFrame, Encode, P.AfterTake, P.Taken, SummedBytesInMemory, Decide;
    if AppLogic(payload, cfg, pool, input).frame.Some? {
      var d := Decide(payload.value, input.orderMemory, input.orderTime, input.orderBytes);
      assert |Encode(d.order.value)| == ORDER_LEN;
    }
  }

  /** A packet either sends an order built from the configuration and advances its sequence
      number by the order's length, or leaves the configuration alone. */
  lemma HookSends(s: State, input: HookInput)
    requires s.pool.Valid() && input.Valid()
    ensures var o := Hook(s, input);
            if o.sent.Some? then
              o.state.config == Advanced(s.config, ORDER_LEN) && IsOrderFrame(o.sent.value, s.config)
            else o.state.config == s.config
  {
    hide FullParse, SummedBytesInMemory, RouteOf, Payload, ResponseFrame, P.AfterTake, P.Taken, T.Record, IsOrderFrame;
    if RouteOf(s, input).Delivered? {
      DeliveredParses(s, input);
      AppSends(Payload(input.skb), s.config, s.pool, input);
    }
  }

  lemma RefusedCallIsNoChange(s: State, input: HookInput)
    requires input.Valid() && RouteOf(s, input).Refused?
    ensures Called(s.conns, RouteOf(s, input).call) == s.conns
  {
    hide FullParse, SummedBytesInMemory, SegmentAt;
  }

  /** An accepted packet leaves everything as it was but for one count, bypassed or errors; even
      a refused table call has changed nothing. */
  lemma AcceptChangesOneCount(s: State, input: HookInput)
    requires s.pool.Valid() && input.Valid()
    ensures var b, e := s.stats.bypassed, s.stats.errors;
            var o := Hook(s, input);
            o.verdict.Accept? ==>
              || o.state == s.(stats := s.stats.(bypassed := b + 1))
              || o.state == s.(stats := s.stats.(errors := e + 1))
  {
    hide FullParse, SummedBytesInMemory, RouteOf, Called, AppLogic;
    StolenDelivered(s, input);
    if RouteOf(s, input).Refused? {
      RefusedCallIsNoChange(s, input);
    }
  }

  // --------------------------------------------------------------------------
  // Bypassed, refused or taken
  // --------------------------------------------------------------------------

  predicate Listening(cfg: Config, input: HookInput) {
    cfg.enabled && input.hasDev
  }

  /** The guards, on the packet's bytes: the rate limit lets it through, the source address is
      not zero, and tot_len read in host order is at least 20. */
  predicate Guarded(input: HookInput)
    requires |input.skb.mem| >= 34
  {
    var m := input.skb.mem;
    input.budget && m[26..30] != [0, 0, 0, 0] && (m[17] > 0 || m[16] >= 20)
  }

  /** The destination address is the stored target, or with multicast on the stored group. */
  predicate SentTo(cfg: Config, m: seq<u8>)
    requires |m| >= 34
  {
    m[30..34] == PutLe32(cfg.targetIp) || (cfg.multicast && m[30..34] == PutLe32(cfg.multicastGroup))
  }

  lemma GuardsOnBytes(cfg: Config, input: HookInput)
    requires input.Valid() && |input.skb.mem| >= 34
    ensures PacketPasses(input) <==> Guarded(input)
    ensures Addressed(cfg, input.skb.mem) <==> SentTo(cfg, input.skb.mem)
  {
    var m := input.skb.mem;
    Stored32(m, 26, 0);
    Stored32(m, 30, cfg.targetIp);
    Stored32(m, 30, cfg.multicastGroup);
    assert PutLe32(0) == [0, 0, 0, 0];
    hide Le32, PutLe32, SummedBytesInMemory;
  }

  /** The packet gets through the parser and the guards. */
  predicate Clean(input: HookInput)
    requires input.Valid()
  {
    FullParseShape(input.skb);
    FullParse(input.skb).code == 0 && Guarded(input)
  }

  predicate IsTcp(input: HookInput)
    requires input.Valid() && Clean(input)
  {
    FullParseShape(input.skb);
    input.skb.mem[23] == 6
  }

  /** Where the transport header of a clean packet starts. */
  function PortsAt(input: HookInput): (at: nat)
    requires input.Valid() && Clean(input)
    ensures at + UDP_LEN <= input.skb.len && (IsTcp(input) ==> at + TCP_LEN <= input.skb.len)
    ensures FullParse(input.skb).tcp == (if IsTcp(input) then Some(at) else None)
    ensures FullParse(input.skb).udp == (if IsTcp(input) then None else Some(at))
  {
    FullParseShape(input.skb);
    14 + 4 * (input.skb.mem[14] % 16) as int
  }

  /** Sent to a configured address and, if it is of the configured protocol, to the port. */
  predicate ForUs(cfg: Config, input: HookInput)
    requires input.Valid() && Clean(input)
  {
    FullParseShape(input.skb);
    var m, at := input.skb.mem, PortsAt(input);
    && SentTo(cfg, m)
    && (cfg.protocol == m[23] ==> m[at + 2..at + 4] == PutLe16(cfg.targetPort))
  }

  /** What the bytes of a TCP packet say: addresses and ports as loaded, SYN and ACK the bits of
      value 2 and 16 in the flag byte, the two numbers in network order. */
  function SegmentOf(input: HookInput): C.Segment
    requires input.Valid() && Clean(input) && IsTcp(input)
  {
    var m, at := input.skb.mem, PortsAt(input);
    C.Segment(C.Key(Le32(m, 26), Le32(m, 30), Le16(m, at), Le16(m, at + 2)),
              m[at + 13] % 4 >= 2, m[at + 13] % 32 >= 16, Be32(m, at + 4), Be32(m, at + 8))
  }

  lemma SegmentOnBytes(input: HookInput)
    requires input.Valid() && Clean(input) && IsTcp(input)
    ensures SegmentOf(input) == SegmentAt(input.skb.mem, PortsAt(input))
  {
    hide FullParse, SummedBytesInMemory, Clean, IsTcp, PortsAt, Le16, Le32, Be32;
    SameBits(input.skb.mem[PortsAt(input) + 13]);
  }

  lemma SameBits(b: u8)
    ensures b / 2 % 2 == 1 <==> b % 4 >= 2
    ensures b / 0x10 % 2 == 1 <==> b % 32 >= 16
  {
  }

  /** A TCP packet under a TCP configuration that belongs to no tracked connection and does not
      open one. */
  predicate Untracked(s: State, input: HookInput)
    requires input.Valid() && Clean(input)
  {
    && s.config.protocol == TCP && IsTcp(input)
    && SegmentOf(input).key !in s.conns.table
    && !(SegmentOf(input).Opens() && input.connMemory)
  }

  /** The hook bypasses a packet exactly when it is not listening or the packet is clean but not
      for us, refuses it exactly when the packet is not clean or is ours but untracked, and
      takes every other. */
  lemma ThreeWays(s: State, input: HookInput)
    requires s.pool.Valid() && input.Valid()
    ensures var o := Hook(s, input);
            && (o.state.stats.bypassed == s.stats.bypassed + 1 <==>
                !Listening(s.config, input) || (Clean(input) && !ForUs(s.config, input)))
            && (o.verdict.Accept? && o.state.stats.errors == s.stats.errors + 1 <==>
                Listening(s.config, input) &&
                (!Clean(input) || (ForUs(s.config, input) && Untracked(s, input))))
            && (o.verdict.Stolen? <==>
                Listening(s.config, input) && Clean(input) && ForUs(s.config, input) && !Untracked(s, input))
  {
    RouteExactly(s, input);
    hide FullParse, SummedBytesInMemory, RouteOf, Called, AppLogic, Clean, ForUs, Untracked, T.Record;
  }

  lemma ProtocolByte(input: HookInput)
    requires input.Valid() && Clean(input)
    ensures |input.skb.mem| >= 34 && input.skb.mem[23] == if IsTcp(input) then TCP else UDP
  {
    FullParseShape(input.skb);
  }

  lemma RouteExactly(s: State, input: HookInput)
    requires input.Valid()
    ensures RouteOf(s, input).Bypassed? <==>
            !Listening(s.config, input) || (Clean(input) && !ForUs(s.config, input))
    ensures RouteOf(s, input).Delivered? <==>
            Listening(s.config, input) && Clean(input) && ForUs(s.config, input) && !Untracked(s, input)
  {
    hide FullParse, SummedBytesInMemory, SegmentAt, SegmentOf, PortsAt, Le16, Le32, Be32;
    hide PacketPasses, Addressed, Guarded, SentTo, PutLe16;
    if Listening(s.config, input) {
      if Clean(input) {
        ScreenExactly(s.config, input);
      } else {
        UncleanRejected(s.config, input);
      }
      hide Screen, ForUs, Clean;
    }
  }

  lemma UncleanRejected(cfg: Config, input: HookInput)
    requires input.Valid() && !Clean(input) && Listening(cfg, input)
    ensures Screen(cfg, input) == Reject
  {
    hide FullParse, SummedBytesInMemory, SegmentAt, Le16, Le32, PacketPasses, Addressed, Guarded;
    FullParseShape(input.skb);
    if FullParse(input.skb).code == 0 {
      GuardsOnBytes(cfg, input);
    }
  }

  /** A clean packet passes exactly if it is for us, with its segment under a TCP
      configuration. */
  lemma ScreenExactly(cfg: Config, input: HookInput)
    requires input.Valid() && Clean(input) && Listening(cfg, input)
    ensures Screen(cfg, input) ==
            if !ForUs(cfg, input) then Skip
            else Pass(if cfg.protocol == TCP && IsTcp(input) then Some(SegmentOf(input)) else None)
  {
    hide FullParse, SummedBytesInMemory, SegmentAt, SegmentOf, PortsAt, Le16, Le32, Be32;
    hide PacketPasses, Addressed, Guarded, SentTo, PutLe16;
    FullParseShape(input.skb);
    GuardsOnBytes(cfg, input);
    Stored16(input.skb.mem, PortsAt(input) + 2, cfg.targetPort);
    ProtocolByte(input);
    if IsTcp(input) {
      SegmentOnBytes(input);
    }
  }

  /** A packet over the rate limit, from address 0, or with a tot_len under 20 in host order is
      refused before anything else is looked at but its headers. */
  lemma GuardsRefuse(s: State, input: HookInput)
    requires s.pool.Valid() && input.Valid() && Listening(s.config, input)
    requires || !input.budget
             || (input.skb.len >= 34 && input.skb.mem[26..30] == [0, 0, 0, 0])
             || (input.skb.len >= 34 && input.skb.mem[17] == 0 && input.skb.mem[16] < 20)
    ensures Hook(s, input) ==
            Outcome(s.(stats := s.stats.(errors := s.stats.errors + 1)), Accept, None, None, false, None)
  {
    hide FullParse, SummedBytesInMemory, Screen, AppLogic, Payload;
    UncleanRejected(s.config, input);
  }

  /** A UDP packet to the multicast group and the configured port is taken while multicast is on;
      while it is off, and the group is not the target address, any packet to the group is
      bypassed. */
  lemma GroupPackets(s: State, input: HookInput)
    requires s.pool.Valid() && input.Valid() && Listening(s.config, input) && Clean(input)
    requires input.skb.len >= 34 && input.skb.mem[30..34] == PutLe32(s.config.multicastGroup)
    ensures s.config.multicast && s.config.protocol == 17 && !IsTcp(input) &&
            Le16(input.skb.mem, PortsAt(input) + 2) == s.config.targetPort ==>
              Hook(s, input).verdict.Stolen?
    ensures !s.config.multicast && s.config.multicastGroup != s.config.targetIp ==>
              Hook(s, input) ==
              Outcome(s.(stats := s.stats.(bypassed := s.stats.bypassed + 1)), Accept, None, None, false, None)
  {
    hide FullParse, SummedBytesInMemory, Clean, Le16, PutLe16, PutLe32, PortsAt, SegmentOf, Called, AppLogic, Payload;
    ScreenExactly(s.config, input);
    Stored16(input.skb.mem, PortsAt(input) + 2, s.config.targetPort);
    assert PutLe32(s.config.targetIp) == PutLe32(s.config.multicastGroup) ==>
           s.config.targetIp == s.config.multicastGroup by {
      assert Le32(PutLe32(s.config.targetIp), 0) == s.config.targetIp;
    }
    hide Screen;
  }

  /** A TCP packet for the configured TCP endpoint that is clean. */
  predicate ArrivesForUs(cfg: Config, input: HookInput)
    requires input.Valid()
  {
    Listening(cfg, input) && cfg.protocol == TCP && Clean(input) && IsTcp(input) && ForUs(cfg, input)
  }

  /** A packet taken under a TCP configuration leaves its connection in the table. */
  lemma TakenIsTracked(s: State, input: HookInput)
    requires s.pool.Valid() && input.Valid() && ArrivesForUs(s.config, input)
    ensures var o := Hook(s, input);
            && (o.verdict.Stolen? <==>
                SegmentOf(input).key in s.conns.table || (SegmentOf(input).Opens() && input.connMemory))
            && (o.verdict.Stolen? <==> SegmentOf(input).key in o.state.conns.table)
  {
    ThreeWays(s, input);
    HookCalls(s, input);
    CallOf(s, input);
    hide FullParse, SummedBytesInMemory, SegmentAt, Hook, Clean, ForUs, PortsAt;
  }

  lemma CallOf(s: State, input: HookInput)
    requires s.pool.Valid() && input.Valid() && ArrivesForUs(s.config, input)
    ensures Hook(s, input).call == Some(C.Track(SegmentOf(input), input.jiffies, input.connMemory))
  {
    hide FullParse, SummedBytesInMemory, Clean, ForUs, IsTcp, SegmentOf, Screen, AppLogic, Payload;
    hide C.Returned, C.Step, T.Record;
    ScreenExactly(s.config, input);
  }

  // --------------------------------------------------------------------------
  // Answered or not
  // --------------------------------------------------------------------------

  /** A response can be built from the configuration. */
  predicate Answerable(cfg: Config) {
    cfg.responseIp != 0 && cfg.responsePort != 0 && (cfg.protocol == 6 || cfg.protocol == 17)
  }

  /** Every kernel service on the way out succeeds. */
  predicate Served(s: State, input: HookInput)
    requires s.pool.Valid()
  {
    input.orderMemory && (P.Taken(s.pool).Some? || input.skbMemory) && input.eth0 && input.xmit == 0
  }

  /** A taken packet is answered exactly when its payload is attractive market data, the
      application logic is the market-data one, the configuration can build a response and every
      service succeeds.  It fails exactly when it has a payload, is not answered, and is not
      market data at or above the limit under the market-data logic. */
  lemma AnsweredIff(s: State, input: HookInput)
    requires s.pool.Valid() && input.Valid()
    ensures Hook(s, input).verdict.Stolen? ==> FullParse(input.skb).code == 0
    ensures Hook(s, input).verdict.Stolen? ==>
              var o, data := Hook(s, input), Payload(input.skb);
              && (o.sent.Some? <==>
                  && data.Some? && Attractive(data.value)
                  && s.config.logicType == 0 && Answerable(s.config) && Served(s, input))
              && (o.app.Some? && o.app.value < 0 <==>
                  && data.Some? && data.value != [] && o.sent.None?
                  && !(s.config.logicType == 0 && |data.value| >= 24 && !Attractive(data.value)))
  {
    hide FullParse, SummedBytesInMemory, RouteOf, Payload, AppLogic, T.Record;
    StolenDelivered(s, input);
    if Hook(s, input).verdict.Stolen? {
      DeliveredParses(s, input);
      AppAnswers(Payload(input.skb), s, input);
    }
  }

  lemma AppAnswers(data: Option<seq<u8>>, s: State, input: HookInput)
    requires s.pool.Valid() && input.Valid()
    ensures var a := AppLogic(data, s.config, s.pool, input);
            && (a.frame.Some? <==>
                && data.Some? && Attractive(data.value)
                && s.config.logicType == 0 && Answerable(s.config) && Served(s, input))
            && (a.code < 0 <==>
                && data.Some? && data.value != [] && a.frame.None?
                && !(s.config.logicType == 0 && |data.value| >= 24 && !Attractive(data.value)))
  {
    hide ResponseFrame, Encode, BuyOrder, P.AfterTake, P.Taken, SummedBytesInMemory, Le32;
  }

  /** Attractive market data under the market-data logic. */
  predicate Wanted(cfg: Config, data: Option<seq<u8>>) {
    data.Some? && Attractive(data.value) && cfg.logicType == 0
  }

  /** What a taken packet's handling returns.  -EINVAL: a payload that the configured logic does
      not know or that is too short.  -ENOMEM: an order is called for, but there is no memory for
      it, no response to be built, no buffer or no device.  -EIO: everything but the transmission
      succeeds.  0 in every other case.  The pool is asked for a buffer exactly when an order is
      made and a response can be built. */
  lemma ResultCodes(s: State, input: HookInput)
    requires s.pool.Valid() && input.Valid()
    ensures Hook(s, input).verdict.Stolen? ==> FullParse(input.skb).code == 0
    ensures Hook(s, input).verdict.Stolen? ==>
              var o, data := Hook(s, input), Payload(input.skb);
              var ready := input.orderMemory && Answerable(s.config);
              var built := ready && (P.Taken(s.pool).Some? || input.skbMemory) && input.eth0;
              && o.app.Some? && o.app.value in {0, -5, -12, -22}
              && (o.app.value == -22 <==>
                  data.Some? && data.value != [] && (s.config.logicType != 0 || |data.value| < 24))
              && (o.app.value == -12 <==> Wanted(s.config, data) && !built)
              && (o.app.value == -5 <==> Wanted(s.config, data) && built && input.xmit != 0)
              && (o.asked <==> Wanted(s.config, data) && ready)
  {
    hide FullParse, SummedBytesInMemory, RouteOf, Payload, AppLogic, T.Record, Attractive, P.Taken;
    StolenDelivered(s, input);
    if Hook(s, input).verdict.Stolen? {
      DeliveredParses(s, input);
      AppCodes(Payload(input.skb), s, input);
    }
  }

  lemma AppCodes(data: Option<seq<u8>>, s: State, input: HookInput)
    requires s.pool.Valid() && input.Valid()
    ensures var a := AppLogic(data, s.config, s.pool, input);
            var ready := input.orderMemory && Answerable(s.config);
            var built := ready && (P.Taken(s.pool).Some? || input.skbMemory) && input.eth0;
            && a.code in {0, -5, -12, -22}
            && (a.code == -22 <==>
                data.Some? && data.value != [] && (s.config.logicType != 0 || |data.value| < 24))
            && (a.code == -12 <==> Wanted(s.config, data) && !built)
            && (a.code == -5 <==> Wanted(s.config, data) && built && input.xmit != 0)
            && (a.asked <==> Wanted(s.config, data) && ready)
  {
    hide ResponseFrame, Encode, BuyOrder, P.AfterTake, P.Taken, SummedBytesInMemory, Le32;
  }

  /** From tick to order: a frame the hook sends, read with the fast parser, goes from the
      response address to the target address and carries an order to buy 100 of the symbol in
      the packet at one cent above its price, stamped and named after the clock. */
  lemma SentFrameCarriesOrder(s: State, input: HookInput)
    requires s.pool.Valid() && input.Valid()
    ensures Hook(s, input).sent.Some? ==>
              FullParse(input.skb).code == 0 && Payload(input.skb).Some? && Attractive(Payload(input.skb).value)
    ensures Hook(s, input).sent.Some? ==>
              var frame, data := Hook(s, input).sent.value, Payload(input.skb).value;
              Carries(frame, s.config, data, input.orderTime)
  {
    hide FullParse, SummedBytesInMemory, RouteOf, Payload, AppLogic, Carries, T.Record;
    StolenDelivered(s, input);
    if Hook(s, input).sent.Some? {
      DeliveredParses(s, input);
      var payload := Payload(input.skb);
      AppAnswers(payload, s, input);
      SentOrder(payload, s, input);
      OrderFrameCarries(s.config, payload.value, input.orderTime, input.orderBytes);
    }
  }

  /** The frame goes from the response to the target address of a configuration, and its payload
      as the fast parser finds it is the order that the market data calls for. */
  ghost predicate Carries(frame: seq<u8>, cfg: Config, data: seq<u8>, time: u64)
    requires Attractive(data)
  {
    var h := ETH_LEN + IP_LEN + TransportLen(cfg);
    && |frame| == h + ORDER_LEN
    && FastParse(AsSkb(frame)) == Parsed(0, Some(ETH_LEN), None, None, Some(h), ORDER_LEN)
    && Le32(frame, 26) == cfg.responseIp && Le32(frame, 30) == cfg.targetIp
    && Le16(frame, 34) == cfg.responsePort && Le16(frame, 36) == cfg.targetPort
    && OrderFor(frame[h..], data, time)
  }

  lemma OrderFrameCarries(cfg: Config, data: seq<u8>, time: u64, before: seq<u8>)
    requires Attractive(data) && Answerable(cfg) && |before| == ID_LEN
    ensures Carries(ResponseFrame(cfg, None, Encode(BuyOrder(data, time, before))), cfg, data, time)
  {
    DecisionOnWire(data, true, time, before);
    var response := Encode(BuyOrder(data, time, before));
    hide BuyOrder, Encode, OrderFor, Le32, Le16;
    BuildThenParse(cfg, None, response);
    IpFieldsReadBack(cfg, None, response);
    TransportFieldsReadBack(cfg, None, response);
    hide ResponseFrame, FastParse;
  }

  lemma SentOrder(payload: Option<seq<u8>>, s: State, input: HookInput)
    requires s.pool.Valid() && input.Valid() && payload.Some? && Attractive(payload.value)
    ensures var frame := AppLogic(payload, s.config, s.pool, input).frame;
            frame.Some? ==>
              var order := BuyOrder(payload.value, input.orderTime, input.orderBytes);
              frame.value == ResponseFrame(s.config, None, Encode(order))
  {
    hide ResponseFrame, Encode, BuyOrder, P.AfterTake, P.Taken, SummedBytesInMemory, Le32;
  }

  // --------------------------------------------------------------------------
  // Header checksums and the hook
  // --------------------------------------------------------------------------

  /** A listening hook refuses every IPv4 packet whose header is good under section 3.1 of
      RFC 791 unless its check field is zero: it counts an error and accepts. */
  lemma GoodHeaderRefused(s: State, input: HookInput)
    requires s.pool.Valid() && input.Valid() && Listening(s.config, input)
    requires ReachesHeaderSum(input.skb) && RfcValid(Little, Header(input.skb)) && HeaderCheck(input.skb.mem) != 0
    ensures Hook(s, input) ==
            Outcome(s.(stats := s.stats.(errors := s.stats.errors + 1)), Accept, None, None, false, None)
  {
    GoodHeaderAcceptedIffZero(input.skb);
    hide FullParse, RfcValid, SummedBytesInMemory, Header, AppLogic;
  }

  /** Every packet the hook takes has a header check c other than 65535 with which the other
      header words sum to minus 2c modulo 65535. */
  lemma StolenHeaders(s: State, input: HookInput)
    requires s.pool.Valid() && input.Valid()
    ensures Hook(s, input).verdict.Stolen? ==> ReachesHeaderSum(input.skb)
    ensures Hook(s, input).verdict.Stolen? ==>
              var c := HeaderCheck(input.skb.mem);
              c != 0xFFFF && (WordSum(Little, Blank(Header(input.skb), 10)) + 2 * (c as int)) % 0xFFFF == 0
  {
    hide Hook, RouteOf, FullParse, SummedBytesInMemory, WordSum, HeaderAccepted;
    StolenDelivered(s, input);
    if Hook(s, input).verdict.Stolen? {
      DeliveredParses(s, input);
      AcceptedHeader(input.skb);
      HeaderAcceptedExactly(input.skb);
    }
  }

  lemma AcceptedHeader(skb: Skb)
    requires skb.Valid() && SummedBytesInMemory(skb) && FullParse(skb).code == 0
    ensures ReachesHeaderSum(skb) && HeaderAccepted(skb.mem)
  {
  }

  /** A UDP packet that passes the guards and is sent to the configured address, and under a UDP
      configuration to the port. */
  predicate UdpArrives(cfg: Config, input: HookInput)
    requires input.Valid()
  {
    var m := input.skb.mem;
    && Listening(cfg, input) && input.skb.len >= 42 && Guarded(input) && m[23] == 17 && SentTo(cfg, m)
    && var at := 14 + 4 * (m[14] % 16) as int;
    && at + 4 <= |m| && (cfg.protocol == 17 ==> m[at + 2..at + 4] == PutLe16(cfg.targetPort))
  }

  /** It is taken exactly when the full parser accepts it. */
  lemma UdpTakenIffParsed(s: State, input: HookInput)
    requires s.pool.Valid() && input.Valid() && UdpArrives(s.config, input)
    ensures Hook(s, input).verdict.Stolen? <==> FullParse(input.skb).code == 0
  {
    hide Hook, FullParse, FastParse, SummedBytesInMemory, Le16, Le32, PacketPasses;
    ThreeWays(s, input);
    FastRefinesFull(input.skb);
    FullParseShape(input.skb);
  }

  /** The packet another module gets when the frame built from cfg reaches it. */
  function Loopback(cfg: Config, response: seq<u8>, other: HookInput): HookInput
    requires Buildable(cfg, None, response)
  {
    other.(skb := AsSkb(ResponseFrame(cfg, None, response)))
  }

  /** The sender builds UDP frames for the receiver's address (and port, if the receiver is
      configured for UDP), the rate limit lets the packet through and its total length passes
      the guard. */
  predicate Paired(cfg: Config, response: seq<u8>, receiver: Config, other: HookInput) {
    && Buildable(cfg, None, response) && cfg.protocol == UDP && cfg.responseIp != 0
    && other.Valid() && other.budget && Listening(receiver, other)
    && receiver.targetIp == cfg.targetIp && (receiver.protocol == UDP ==> receiver.targetPort == cfg.targetPort)
    && var total := IpTotal(cfg, |response|) % TWO16; !(total % 0x100 == 0 && total < 5120)
  }

  lemma OwnFrameArrives(cfg: Config, response: seq<u8>, receiver: Config, other: HookInput)
    requires Paired(cfg, response, receiver, other)
    ensures Loopback(cfg, response, other).Valid() && UdpArrives(receiver, Loopback(cfg, response, other))
  {
    hide ResponseFrame, HeaderWords, Le16, Le32, Be16, Be32, FullParse, FastParse, SummedBytesInMemory, Header;
    hide RfcValid, Guarded, SentTo, PutLe16, IpCheck, HeaderCheck;
    var frame := ResponseFrame(cfg, None, response);
    OwnParserAcceptsIffZeroCheck(cfg, None, response);
    OwnFrameGuarded(cfg, response, receiver, other);
    IpFieldsReadBack(cfg, None, response);
    TransportFieldsReadBack(cfg, None, response);
    Stored16(frame, 36, cfg.targetPort);
  }

  lemma OwnFrameGuarded(cfg: Config, response: seq<u8>, receiver: Config, other: HookInput)
    requires Paired(cfg, response, receiver, other) && Loopback(cfg, response, other).Valid()
    ensures var input := Loopback(cfg, response, other); Guarded(input) && SentTo(receiver, input.skb.mem)
  {
    hide ResponseFrame, HeaderWords, Le16, Le32, Be16, FullParse, FastParse, SummedBytesInMemory, Guarded, SentTo;
    hide IpCheck, HeaderCheck;
    var frame := ResponseFrame(cfg, None, response);
    IpFieldsReadBack(cfg, None, response);
    LengthGuard(frame);
    GuardsOnBytes(receiver, Loopback(cfg, response, other));
  }

  /** The header words of the frame built from cfg sum to a multiple of 65535. */
  predicate TakenBack(cfg: Config, response: seq<u8>) {
    HeaderWords(cfg, cfg.targetIp, IpTotal(cfg, |response|)) % 0xFFFF == 0
  }

  /** From module to module: a UDP frame that one builds is taken by another that listens at its
      target exactly when its header words sum to a multiple of 65535; otherwise it is refused,
      though its header is good. */
  lemma OwnFrameTakenIff(cfg: Config, response: seq<u8>, s: State, other: HookInput)
    requires s.pool.Valid() && Paired(cfg, response, s.config, other)
    ensures Loopback(cfg, response, other).Valid()
    ensures Hook(s, Loopback(cfg, response, other)).verdict.Stolen? <==> TakenBack(cfg, response)
  {
    hide ResponseFrame, HeaderWords, Hook, UdpArrives, FullParse, SummedBytesInMemory, HeaderCheck, Header, RfcValid;
    OwnFrameArrives(cfg, response, s.config, other);
    UdpTakenIffParsed(s, Loopback(cfg, response, other));
    OwnParserAcceptsIffZeroCheck(cfg, None, response);
  }

  /** A frame on the wire: attractive market data in a frame that is taken back is answered,
      whenever the market-data logic is configured, a response can be built and every service
      succeeds. */
  lemma OwnFrameAnswered(cfg: Config, data: seq<u8>, s: State, other: HookInput)
    requires s.pool.Valid() && Paired(cfg, data, s.config, other) && TakenBack(cfg, data) && Attractive(data)
    requires s.config.logicType == 0 && Answerable(s.config) && Served(s, other)
    ensures Loopback(cfg, data, other).Valid() && Hook(s, Loopback(cfg, data, other)).sent.Some?
  {
    hide ResponseFrame, Hook, FullParse, FastParse, SummedBytesInMemory, TakenBack, Attractive, P.Taken;
    var input := Loopback(cfg, data, other);
    OwnFrameTakenIff(cfg, data, s, other);
    AnsweredIff(s, input);
    LoopbackPayload(cfg, data, other);
    hide Payload, Paired;
  }

  lemma LoopbackPayload(cfg: Config, data: seq<u8>, other: HookInput)
    requires Buildable(cfg, None, data)
    ensures var skb := Loopback(cfg, data, other).skb;
            skb.Valid() && SummedBytesInMemory(skb) && (FullParse(skb).code == 0 ==> Payload(skb) == Some(data))
  {
    hide ResponseFrame, FullParse, FastParse, SummedBytesInMemory, HeaderWords, Header, RfcValid;
    OwnParserAcceptsIffZeroCheck(cfg, None, data);
    BuildThenParse(cfg, None, data);
    FastRefinesFull(AsSkb(ResponseFrame(cfg, None, data)));
    var frame := ResponseFrame(cfg, None, data);
    assert frame[|frame| - |data|..|frame|] == frame[|frame| - |data|..];
  }

  /** A listening hook with a packet it refuses although its header is good: every sender has a
      target for which that happens. */
  lemma SomeGoodPacketRefused(cfg: Config, response: seq<u8>, s: State, other: HookInput) returns (input: HookInput)
    requires s.pool.Valid() && Buildable(cfg, None, response) && other.Valid() && Listening(s.config, other)
    ensures input.Valid() && ReachesHeaderSum(input.skb) && RfcValid(Little, Header(input.skb))
    ensures Hook(s, input) ==
            Outcome(s.(stats := s.stats.(errors := s.stats.errors + 1)), Accept, None, None, false, None)
  {
    hide ResponseFrame, Hook, FullParse, SummedBytesInMemory, Header, RfcValid;
    var target := SomeGoodFrameIsRejected(cfg, response);
    input := Loopback(cfg.(targetIp := target), response, other);
    GoodHeaderRefused(s, input);
  }

  /** The length guard compares tot_len in the wrong byte order: a packet passes it unless its
      tot_len is a multiple of 256 below 5120.  That is the intended tot_len >= 20 exactly for a
      tot_len of 0 and for those of at least 20 that are not such multiples. */
  lemma LengthGuard(m: seq<u8>)
    requires |m| >= ETH_LEN + IP_LEN
    ensures var total := Be16(m, 16);
            && (Le16(m, 16) >= IP_LEN <==> !(total % 0x100 == 0 && total < 5120))
            && ((Le16(m, 16) >= IP_LEN <==> total >= IP_LEN) <==>
                total == 0 || (total >= IP_LEN && !(total % 0x100 == 0 && total < 5120)))
  {
    assert Be16(m, 16) % 0x100 == m[17] && Be16(m, 16) / 0x100 == m[16];
  }

  /** A packet of total length 256 is refused by the guard, one of total length 1 is not. */
  lemma LengthGuardFails(m: seq<u8>)
    requires |m| >= ETH_LEN + IP_LEN
    ensures var long := m[16 := 1][17 := 0]; Be16(long, 16) == 256 && Le16(long, 16) < IP_LEN
    ensures var short := m[16 := 0][17 := 1]; Be16(short, 16) == 1 && Le16(short, 16) >= IP_LEN
  {
  }
}
