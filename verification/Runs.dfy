/** What holds in every run of the module: any sequence of packets and ioctl commands. */
module Runs {
  import opened Bytes
  import opened Arithmetic
  import opened Checksum
  import opened Parsers
  import opened Frames
  import opened Configuration
  import opened Builder
  import opened RoundTrip
  import opened Orders
  import T = Timing
  import opened NanoNet
  import opened Steps
  import opened Segments
  import C = Connections
  import K = ConnectionTable
  import H = ConnectionHistory
  import P = ResponsePool

  datatype Event = Packet(input: HookInput) | Ioctl(cmd: Command) {
    predicate Valid() {
      Packet? ==> input.Valid()
    }
  }

  function Step(s: State, e: Event): (r: State)
    requires s.pool.Valid() && e.Valid()
    ensures r.pool.Valid()
  {
    match e
    case Packet(input) => PoolStaysValid(s, input); Hook(s, input).state
    case Ioctl(cmd) => Control(s, cmd)
  }

  /** A run starts from the initial configuration and statistics, with a filled pool. */
  datatype Trace = Trace(buffers: seq<nat>, events: seq<Event>) {
    predicate Valid() {
      |buffers| >= 1 && forall e :: e in events ==> e.Valid()
    }

    function Init(): (t: Trace)
      requires Valid() && events != []
      ensures t.Valid()
    {
      assert forall e :: e in events[..|events| - 1] ==> e in events;
      Trace(buffers, events[..|events| - 1])
    }

    function Last(): (e: Event)
      requires Valid() && events != []
      ensures e.Valid()
    {
      assert events[|events| - 1] in events;
      events[|events| - 1]
    }
  }

  function Start(buffers: seq<nat>): State {
    State(INITIAL, ZEROED, C.EMPTY, P.Pool(P.Filled(buffers), 0, 0))
  }

  function Run(t: Trace): (s: State)
    requires t.Valid()
    ensures s.pool.Valid()
    decreases |t.events|
  {
    if t.events == [] then Start(t.buffers) else Step(Run(t.Init()), t.Last())
  }

  /** What the last packet of a run showed. */
  function Shown(t: Trace): Outcome
    requires t.Valid() && t.events != [] && t.Last().Packet?
  {
    Hook(Run(t.Init()), t.Last().input)
  }

  // --------------------------------------------------------------------------
  // Packets: conservation, verdicts, responses, timing
  // --------------------------------------------------------------------------

  /** Since the last RESET_STATS: hook calls, how many ended NF_STOLEN, how many delivered
      packets the application logic failed on, the processing times of the delivered, and the
      frames sent. */
  datatype Tally = Tally(calls: nat, stolen: nat, failures: nat, times: seq<u64>, sent: seq<seq<u8>>)

  function Count(tally: Tally, o: Outcome, time: u64): Tally {
    Tally(tally.calls + 1,
          tally.stolen + (if o.verdict.Stolen? then 1 else 0),
          tally.failures + (if o.app.Some? && o.app.value < 0 then 1 else 0),
          if o.verdict.Stolen? then tally.times + [time] else tally.times,
          tally.sent + P.Listed(o.sent))
  }

  function SinceReset(t: Trace): Tally
    requires t.Valid()
    decreases |t.events|
  {
    if t.events == [] || t.Last() == Ioctl(ResetStats) then Tally(0, 0, 0, [], [])
    else if t.Last().Packet? then Count(SinceReset(t.Init()), Shown(t), Elapsed(t.Last().input))
    else SinceReset(t.Init())
  }

  /** In every run, since the last reset: hook calls = bypassed + processed + errors -
      application failures; processed packets are exactly those taken (NF_STOLEN), every other
      call accepting; no response is ever counted; and the timing statistics are those of the
      processed packets. */
  lemma {:induction false} PacketsConserved(t: Trace)
    requires t.Valid()
    ensures var s, n := Run(t).stats, SinceReset(t);
            && n.calls == s.bypassed + s.times.count + s.errors - n.failures
            && s.times.count == n.stolen == |n.times|
            && |n.sent| + n.failures <= n.stolen
            && s.responses == 0
            && s.times == T.After(n.times)
    decreases |t.events|
  {
    if t.events != [] {
      PacketsConserved(t.Init());
      hide Hook, Control, T.After;
      if t.Last().Packet? {
        var input := t.Last().input;
        HookCounts(Run(t.Init()), input);
        T.Extend(SinceReset(t.Init()).times, Elapsed(input));
        hide T.Record;
      } else {
        CommandCounts(Run(t.Init()), t.Last().cmd);
        FreshIsAfterNothing();
      }
    } else {
      FreshIsAfterNothing();
    }
  }

  /** So the count of responses is right exactly when no frame has been sent since the reset. */
  lemma ResponsesCountedIff(t: Trace)
    requires t.Valid()
    ensures Run(t).stats.responses == |SinceReset(t).sent| <==> SinceReset(t).sent == []
  {
    PacketsConserved(t);
  }

  lemma FreshIsAfterNothing()
    ensures T.After([]) == T.FRESH
  {
  }

  lemma CommandCounts(s: State, cmd: Command)
    ensures Control(s, cmd).stats == if cmd.ResetStats? then ZEROED else s.stats
  {
  }

  /** In every reachable state: with no packet processed since the reset the timing statistics
      are the initial ones; otherwise minimum and maximum are exact, the last is the last, the
      average is at most the maximum and n times it at most the total.  As long as no update
      of the average has wrapped, it is at least the minimum and lags by at most n(n-1)/2; from
      then on it lags by at least 2^64. */
  lemma TimingInEveryRun(t: Trace)
    requires t.Valid()
    ensures var s, ts := Run(t).stats.times, SinceReset(t).times;
            && (s.count == 0 ==> s == T.Times(0, 0, 0xFFFF_FFFF_FFFF_FFFF, 0, 0))
            && (s.count > 0 ==> T.Extremes(ts, s.min, s.max) && s.last == ts[|ts| - 1] && s.avg <= s.max)
            && Product(s.count, s.avg) <= T.Total(ts)
            && (T.NoWrap(ts) ==>
                  && (s.count > 0 ==> s.min <= s.avg)
                  && T.Total(ts) - Product(s.count, s.avg) <= T.Triangle(s.count))
            && (!T.NoWrap(ts) ==> T.Total(ts) - Product(s.count, s.avg) >= TWO64)
  {
    PacketsConserved(t);
    var ts := SinceReset(t).times;
    T.TimingInvariant(ts);
    T.LagBounds(ts);
    hide Run, SinceReset, T.After, T.Extremes, T.NoWrap, T.Total, Product, T.Triangle;
  }

  /** So after a packet is taken, the last time is that from its start to its end on the clock,
      2^64 more if the clock was set back, and minimum and maximum enclose it. */
  lemma LastPacketTimed(t: Trace)
    requires t.Valid() && t.events != [] && t.Last().Packet?
    ensures Shown(t).verdict.Stolen? ==>
              var s, start, end := Run(t).stats.times, t.Last().input.start, t.Last().input.end;
              && s.last == (if start <= end then end - start else end - start + 0x1_0000_0000_0000_0000)
              && s.min <= s.last <= s.max
  {
    hide Hook, Run, T.NoWrap, T.Total, Product, T.Triangle;
    PacketsConserved(t);
    TimingInEveryRun(t);
  }

  // --------------------------------------------------------------------------
  // The connection table
  // --------------------------------------------------------------------------

  /** The table calls a run makes, in order. */
  function TableCalls(t: Trace): seq<C.Call>
    requires t.Valid()
    decreases |t.events|
  {
    if t.events == [] then []
    else
      TableCalls(t.Init()) +
      match t.Last()
      case Packet(_) => P.Listed(Shown(t).call)
      case Ioctl(cmd) => if cmd.ResetStats? then [C.Reset] else if cmd.ClearConnections? then [C.Clear] else []
  }

  /** The table and its counters after a run are those of the table calls the run made, so all
      that the connection history tells holds of the module. */
  lemma {:induction false} TableFollowsCalls(t: Trace)
    requires t.Valid()
    ensures Run(t).conns == H.Run(TableCalls(t))
    decreases |t.events|
  {
    if t.events != [] {
      TableFollowsCalls(t.Init());
      var calls := TableCalls(t.Init());
      hide Hook, C.Step, H.Run, T.After;
      if t.Last().Packet? {
        HookCalls(Run(t.Init()), t.Last().input);
        if Shown(t).call.Some? {
          HistoryGrows(calls, Shown(t).call.value);
        } else {
          assert calls + [] == calls;
        }
      } else {
        HistoryGrows(calls, C.Reset);
        HistoryGrows(calls, C.Clear);
        assert calls + [] == calls;
      }
    } else {
      assert H.Run([]) == C.EMPTY;
    }
  }

  lemma HistoryGrows(calls: seq<C.Call>, call: C.Call)
    ensures H.Run(calls + [call]) == C.Step(H.Run(calls), call)
  {
    assert (calls + [call])[..|calls|] == calls;
  }

  /** In every run a 4-tuple is tracked exactly when a SYN without ACK for it got through since
      the last clear, and the counters balance the connections opened since the last reset. */
  lemma ConnectionsInEveryRun(t: Trace, k: C.Key)
    requires t.Valid()
    ensures k in Run(t).conns.table <==> exists i :: H.Opening(TableCalls(t), i, k)
    ensures Run(t).conns.active + Run(t).conns.dropped == H.Opened(TableCalls(t))
    ensures Run(t).conns.active == |Run(t).conns.table| - H.SizeAtReset(TableCalls(t))
  {
    TableFollowsCalls(t);
    H.InTableIffOpened(TableCalls(t), k);
    H.CountersConserved(TableCalls(t));
  }

  /** And every record in the table is the one those calls dictate. */
  lemma RecordsInEveryRun(t: Trace, k: C.Key) returns (first: nat, latest: nat, syn: nat, source: nat)
    requires t.Valid() && k in Run(t).conns.table
    ensures H.Dictates(TableCalls(t), k, Run(t).conns.table[k], first, latest, syn, source)
  {
    hide Run, TableCalls, H.Dictates;
    TableFollowsCalls(t);
    first, latest, syn, source := H.RecordIsDictated(TableCalls(t), k);
  }

  // --------------------------------------------------------------------------
  // The response pool
  // --------------------------------------------------------------------------

  /** How often a run asked the pool for a buffer. */
  function Asked(t: Trace): nat
    requires t.Valid()
    decreases |t.events|
  {
    if t.events == [] then 0
    else Asked(t.Init()) + if t.Last().Packet? && Shown(t).asked then 1 else 0
  }

  function Takes(n: nat): (ops: seq<P.Op>)
    ensures |ops| == n && P.Cleanup !in ops
  {
    seq(n, _ => P.Take)
  }

  /** The pool after a run is the pool after as many takes as the run asked for. */
  lemma {:induction false} PoolFollowsRequests(t: Trace)
    requires t.Valid()
    ensures Run(t).pool == P.Run(t.buffers, Takes(Asked(t))).pool
    decreases |t.events|
  {
    if t.events != [] {
      PoolFollowsRequests(t.Init());
      var n := Asked(t.Init());
      assert Takes(n + 1)[..n] == Takes(n);
      hide Hook, P.AfterTake, P.Taken;
      if t.Last().Packet? {
        HookTakes(Run(t.Init()), t.Last().input);
      }
    }
  }

  /** Once a run has asked for size-1 buffers, a further response goes out only if alloc_skb
      succeeds. */
  lemma PoolRunsDry(t: Trace, input: HookInput)
    requires t.Valid() && input.Valid()
    ensures Asked(t) >= |t.buffers| - 1 && Hook(Run(t), input).sent.Some? ==> input.skbMemory
  {
    hide Run, Asked, Hook;
    PoolFollowsRequests(t);
    P.NextTake(t.buffers, Takes(Asked(t)));
    HookTakes(Run(t), input);
  }

  // --------------------------------------------------------------------------
  // Sequence numbers
  // --------------------------------------------------------------------------

  /** The configuration as the last SET_CONFIG left it. */
  function Base(t: Trace): Config
    requires t.Valid()
    decreases |t.events|
  {
    if t.events == [] then INITIAL
    else if t.Last().Ioctl? && t.Last().cmd.SetConfig? then t.Last().cmd.landed
    else Base(t.Init())
  }

  /** The frames sent since. */
  function SentSince(t: Trace): seq<seq<u8>>
    requires t.Valid()
    decreases |t.events|
  {
    if t.events == [] || (t.Last().Ioctl? && t.Last().cmd.SetConfig?) then []
    else if t.Last().Packet? then SentSince(t.Init()) + P.Listed(Shown(t).sent)
    else SentSince(t.Init())
  }

  lemma AdvanceTwice(cfg: Config, m: nat, n: nat)
    ensures Advanced(Advanced(cfg, m), n) == Advanced(cfg, m + n)
  {
    var x := cfg.seqNum + m;
    assert (x % TWO32 + n) % TWO32 == (x + n) % TWO32;
  }

  /** Frames sent from a configuration on, and the configuration they leave: each frame was
      built from the configuration advanced by the bytes of the frames before it. */
  ghost predicate Sequenced(base: Config, frames: seq<seq<u8>>, cfg: Config) {
    && cfg == Advanced(base, ORDER_LEN * |frames|)
    && forall i :: 0 <= i < |frames| ==> IsOrderFrame(frames[i], Advanced(base, ORDER_LEN * i))
  }

  lemma SequencedMore(base: Config, frames: seq<seq<u8>>, cfg: Config, frame: seq<u8>)
    requires Sequenced(base, frames, cfg) && IsOrderFrame(frame, cfg)
    ensures Sequenced(base, frames + [frame], Advanced(cfg, ORDER_LEN))
  {
    hide Advanced, IsOrderFrame;
    AdvanceTwice(base, ORDER_LEN * |frames|, ORDER_LEN);
  }

  /** In every run, since the last SET_CONFIG: the configuration is what landed then, its
      sequence number advanced by the bytes of the responses sent, and the i-th frame sent was
      built from it advanced by the bytes of the i frames before.  A failed send changes
      nothing, so the next frame carries the same number. */
  lemma {:induction false} SequenceNumbers(t: Trace)
    requires t.Valid()
    ensures Sequenced(Base(t), SentSince(t), Run(t).config)
    decreases |t.events|
  {
    if t.events != [] {
      var shorter := t.Init();
      SequenceNumbers(shorter);
      hide Hook, Control, IsOrderFrame;
      if t.Last().Ioctl? {
        ControlConfig(Run(shorter), t.Last().cmd);
      } else {
        hide Sequenced, Advanced;
        HookSends(Run(shorter), t.Last().input);
        if Shown(t).sent.Some? {
          SequencedMore(Base(shorter), SentSince(shorter), Run(shorter).config, Shown(t).sent.value);
        } else {
          assert SentSince(shorter) + [] == SentSince(shorter);
        }
      }
    }
  }

  lemma ControlConfig(s: State, cmd: Command)
    ensures Control(s, cmd).config == if cmd.SetConfig? then cmd.landed else s.config
  {
  }

  lemma OrderFrameNumber(frame: seq<u8>, cfg: Config)
    requires IsOrderFrame(frame, cfg) && cfg.protocol == TCP
    ensures |frame| == ETH_LEN + IP_LEN + TCP_LEN + ORDER_LEN && Be32(frame, 38) == cfg.seqNum
  {
    var response: seq<u8> :| |response| == ORDER_LEN && frame == ResponseFrame(cfg, None, response);
    hide ResponseFrame;
    TcpFieldsReadBack(cfg, None, response);
  }

  lemma SequencedOnWire(base: Config, frames: seq<seq<u8>>, cfg: Config, i: nat)
    requires Sequenced(base, frames, cfg) && i < |frames| && base.protocol == TCP
    ensures |frames[i]| == ETH_LEN + IP_LEN + TCP_LEN + ORDER_LEN
    ensures Be32(frames[i], 38) == (base.seqNum + ORDER_LEN * i) % TWO32
  {
    hide IsOrderFrame, Be32;
    OrderFrameNumber(frames[i], Advanced(base, ORDER_LEN * i));
  }

  /** Read off the wire: the i-th TCP response since SET_CONFIG carries the configured sequence
      number plus 41*i, modulo 2^32, and 41 bytes of data. */
  lemma WireSequenceNumbers(t: Trace, i: nat)
    requires t.Valid() && i < |SentSince(t)| && Base(t).protocol == TCP
    ensures var frame := SentSince(t)[i];
            && |frame| == ETH_LEN + IP_LEN + TCP_LEN + ORDER_LEN
            && Be32(frame, 38) == (Base(t).seqNum + ORDER_LEN * i) % TWO32
  {
    hide *;
    SequenceNumbers(t);
    SequencedOnWire(Base(t), SentSince(t), Run(t).config, i);
  }

  /** Consecutive numbers of this form tile the sequence space: as long as the total is at most
      2^32, each byte offset falls into exactly one response. */
  lemma ResponsesTile(start: u32, n: nat, x: nat, i: nat, p: nat)
    requires x < ORDER_LEN * n <= TWO32 && i < n && p < ORDER_LEN
    ensures ((start + ORDER_LEN * i) % TWO32 + p) % TWO32 == (start + x) % TWO32 <==>
            i == x / ORDER_LEN && p == x % ORDER_LEN
  {
    var y := ORDER_LEN * i + p;
    assert ((start + ORDER_LEN * i) % TWO32 + p) % TWO32 == (start + y) % TWO32;
    SameOffset(start, x, y);
    assert y / ORDER_LEN == i && y % ORDER_LEN == p;
  }

  /** So the TCP responses sent since SET_CONFIG cover the sequence space from the configured
      number on without gap or overlap: byte offset x is byte p of response i exactly when i is
      x / 41 and p is x % 41. */
  lemma ResponsesTileOnWire(t: Trace, x: nat, i: nat, p: nat)
    requires t.Valid() && Base(t).protocol == TCP
    requires x < ORDER_LEN * |SentSince(t)| <= TWO32 && i < |SentSince(t)| && p < ORDER_LEN
    ensures |SentSince(t)[i]| == ETH_LEN + IP_LEN + TCP_LEN + ORDER_LEN
    ensures (Be32(SentSince(t)[i], 38) + p) % TWO32 == (Base(t).seqNum + x) % TWO32 <==>
            i == x / ORDER_LEN && p == x % ORDER_LEN
  {
    hide *;
    WireSequenceNumbers(t, i);
    ResponsesTile(Base(t).seqNum, |SentSince(t)|, x, i, p);
  }

  lemma SameOffset(start: u32, x: nat, y: nat)
    requires x < TWO32 && y < TWO32
    ensures (start + x) % TWO32 == (start + y) % TWO32 <==> x == y
  {
  }

  // --------------------------------------------------------------------------
  // The live configuration
  // --------------------------------------------------------------------------

  /** The last SET_CONFIG of a run. */
  function LastSet(t: Trace): (cmd: Option<Command>)
    requires t.Valid()
    ensures cmd.Some? ==> cmd.value.SetConfig?
    decreases |t.events|
  {
    if t.events == [] then None
    else if t.Last().Ioctl? && t.Last().cmd.SetConfig? then Some(t.Last().cmd)
    else LastSet(t.Init())
  }

  lemma {:induction false} BaseIsLastSet(t: Trace)
    requires t.Valid()
    ensures Base(t) == if LastSet(t).None? then INITIAL else LastSet(t).value.landed
    decreases |t.events|
  {
    if t.events != [] {
      BaseIsLastSet(t.Init());
    }
  }

  /** After any run the live configuration is valid exactly when there was a SET_CONFIG and what
      the last one left in place is valid, whether or not its copy was complete. */
  lemma LiveConfigValidIff(t: Trace)
    requires t.Valid()
    ensures Validates(Run(t).config) <==> LastSet(t).Some? && Validates(LastSet(t).value.landed)
  {
    SequenceNumbers(t);
    BaseIsLastSet(t);
    hide Run, Base, LastSet, SentSince, IsOrderFrame;
  }

  /** In terms of the return code: a SET_CONFIG that returned 0 left a valid configuration; one
      that returned -EINVAL left an invalid one in force. */
  lemma LiveConfigByReturnCode(t: Trace)
    requires t.Valid()
    ensures LastSet(t).Some? && ControlResult(LastSet(t).value) == 0 ==> Validates(Run(t).config)
    ensures LastSet(t).Some? && ControlResult(LastSet(t).value) == EINVAL ==> !Validates(Run(t).config)
  {
    LiveConfigValidIff(t);
    hide Run, LastSet;
  }

  /** The module does nothing until it is configured: after a run without SET_CONFIG every hook
      call since the last reset was bypassed, and nothing else has changed since the module was
      loaded. */
  lemma {:induction false} IdleUntilConfigured(t: Trace)
    requires t.Valid() && LastSet(t).None?
    ensures var stats := Stats(SinceReset(t).calls, 0, 0, T.Times(0, 0, 0xFFFF_FFFF_FFFF_FFFF, 0, 0));
            Run(t) == State(INITIAL, stats, C.State(map[], 0, 0), P.Pool(P.Filled(t.buffers), 0, 0))
    ensures Wire(t) == []
    decreases |t.events|
  {
    if t.events != [] {
      IdleUntilConfigured(t.Init());
      hide AppLogic, Payload, FullParse, SummedBytesInMemory;
    }
  }

  /** What an ioctl returns: -EFAULT for a failed copy, -EINVAL for a configuration with a zero
      address or port, another protocol than TCP or UDP, or multicast without a group, -ENOTTY
      for an unknown command, and otherwise 0. */
  lemma CommandCodes(cmd: Command)
    ensures ControlResult(cmd) in {0, -14, -22, -25}
    ensures ControlResult(cmd) == -14 <==>
            (cmd.SetConfig? || cmd.GetConfig? || cmd.GetStats?) && !cmd.copied
    ensures ControlResult(cmd) == -22 <==>
            cmd.SetConfig? && cmd.copied &&
            var c := cmd.landed;
            || 0 in {c.targetIp, c.responseIp} || 0 in {c.targetPort, c.responsePort}
            || c.protocol !in {6, 17} || (c.multicast && c.multicastGroup == 0)
    ensures ControlResult(cmd) == -25 <==> cmd.Unknown?
  {
  }

  /** What SET_CONFIG is meant to do: validate first, overwrite only then. */
  function Intended(s: State, cmd: Command): Config
    requires cmd.SetConfig?
  {
    if cmd.copied && Validates(cmd.landed) then cmd.landed else s.config
  }

  /** The code does what is meant exactly when the configuration that lands is valid and whole,
      or is the one already in force. */
  lemma SetConfigAsIntendedIff(s: State, cmd: Command)
    requires cmd.SetConfig?
    ensures Control(s, cmd).config == Intended(s, cmd) <==>
            (cmd.copied && Validates(cmd.landed)) || cmd.landed == s.config
    ensures ControlResult(cmd) == 0 <==> cmd.copied && Validates(cmd.landed)
  {
  }

  /** A refused configuration, enabled but with no addresses, is in force after a run. */
  lemma RefusedConfigStays(buffers: seq<nat>)
    requires |buffers| >= 1
    ensures var refused := SetConfig(INITIAL.(enabled := true), true);
            var t := Trace(buffers, [Ioctl(refused)]);
            && t.Valid() && ControlResult(refused) == EINVAL
            && Run(t).config == refused.landed && Run(t).config != Intended(Start(buffers), refused)
  {
    var t := Trace(buffers, [Ioctl(SetConfig(INITIAL.(enabled := true), true))]);
    assert t.Init().events == [];
  }

  // --------------------------------------------------------------------------
  // Delivery
  // --------------------------------------------------------------------------

  /** In every run, a TCP packet for the configured endpoint is taken exactly when a SYN for its
      4-tuple got through since the last clear, or it is itself a SYN without ACK and memory for
      a connection is there; and then its connection is in the table afterwards. */
  lemma TcpTakenIffOpened(t: Trace, input: HookInput)
    requires t.Valid() && input.Valid()
    ensures ArrivesForUs(Run(t).config, input) ==>
              var seg, o := SegmentOf(input), Hook(Run(t), input);
              && (o.verdict.Stolen? <==>
                  (exists i :: H.Opening(TableCalls(t), i, seg.key)) || (seg.Opens() && input.connMemory))
              && (o.verdict.Stolen? <==> seg.key in o.state.conns.table)
  {
    hide Run, TableCalls, H.Opening, Hook, FullParse, SummedBytesInMemory, SegmentAt, Clean, ForUs, PortsAt;
    if ArrivesForUs(Run(t).config, input) {
      TableFollowsCalls(t);
      TakenIsTracked(Run(t), input);
      H.InTableIffOpened(TableCalls(t), SegmentOf(input).key);
    }
  }

  // --------------------------------------------------------------------------
  // A run that answers
  // --------------------------------------------------------------------------

  /** All frames a run sends, in order. */
  function Wire(t: Trace): seq<seq<u8>>
    requires t.Valid()
    decreases |t.events|
  {
    if t.events == [] then []
    else Wire(t.Init()) + if t.Last().Packet? then P.Listed(Shown(t).sent) else []
  }

  /** One SET_CONFIG, then one packet: attractive market data in a frame that another module
      built, given that every kernel service succeeds. */
  predicate Answers(cfg: Config, data: seq<u8>, receiver: Config, other: HookInput) {
    && Paired(cfg, data, receiver, other) && TakenBack(cfg, data) && Attractive(data)
    && receiver.logicType == 0 && Answerable(receiver)
    && other.orderMemory && other.skbMemory && other.eth0 && other.xmit == 0
  }

  function ConfigThenPacket(buffers: seq<nat>, cfg: Config, input: HookInput): Trace {
    Trace(buffers, [Ioctl(SetConfig(cfg, true)), Packet(input)])
  }

  lemma OneConfig(buffers: seq<nat>, cfg: Config)
    requires |buffers| >= 1
    ensures var t := Trace(buffers, [Ioctl(SetConfig(cfg, true))]);
            && t.Valid() && Run(t) == Start(buffers).(config := cfg)
            && Wire(t) == [] && SentSince(t) == [] && SinceReset(t).sent == [] && Base(t) == cfg
  {
    var t := Trace(buffers, [Ioctl(SetConfig(cfg, true))]);
    assert t.Init() == Trace(buffers, []) && t.Last() == Ioctl(SetConfig(cfg, true));
  }

  lemma OneConfigOnePacket(buffers: seq<nat>, cfg: Config, input: HookInput)
    requires |buffers| >= 1 && input.Valid()
    ensures var t := ConfigThenPacket(buffers, cfg, input);
            var sent := P.Listed(Hook(Start(buffers).(config := cfg), input).sent);
            t.Valid() && Wire(t) == SentSince(t) == SinceReset(t).sent == sent && Base(t) == cfg
  {
    hide Hook;
    var t := ConfigThenPacket(buffers, cfg, input);
    OneConfig(buffers, cfg);
    assert t.events[..1] == [Ioctl(SetConfig(cfg, true))];
    assert t.Init() == Trace(buffers, [Ioctl(SetConfig(cfg, true))]) && t.Last() == Packet(input);
  }

  /** That run puts one frame on the wire, and the module has counted no response. */
  lemma AnsweringRun(buffers: seq<nat>, cfg: Config, data: seq<u8>, receiver: Config, other: HookInput)
      returns (t: Trace)
    requires |buffers| >= 1 && Answers(cfg, data, receiver, other)
    ensures t == ConfigThenPacket(buffers, receiver, Loopback(cfg, data, other)) && t.Valid()
    ensures |Wire(t)| == |SentSince(t)| == |SinceReset(t).sent| == 1 && Base(t) == receiver
    ensures Run(t).stats.responses == 0 != |SinceReset(t).sent|
  {
    hide TakenBack, Attractive, Hook, ResponseFrame, SummedBytesInMemory, P.Taken;
    hide Run, Wire, SentSince, SinceReset, Base;
    t := ConfigThenPacket(buffers, receiver, Loopback(cfg, data, other));
    OwnFrameAnswered(cfg, data, Start(buffers).(config := receiver), other);
    OneConfigOnePacket(buffers, receiver, Loopback(cfg, data, other));
    PacketsConserved(t);
  }

  /** Market data at price 0, a sender of it, and a kernel in which everything succeeds. */
  const TICK: seq<u8> := seq(MARKET_DATA_LEN, _ => 0)

  function Sender(target: u32): Config {
    Config(true, target, 1, UDP, 1, 1, 0, 0, false, 0)
  }

  const KERNEL: HookInput :=
    HookInput(Skb([], 0), true, true, 0, true, true, 0, seq(ID_LEN, _ => 0), true, true, 0, 0, 0)

  lemma TickAnswers(target: u32, protocol: u8)
    requires TakenBack(Sender(target), TICK) && (protocol == TCP || protocol == UDP)
    ensures Answers(Sender(target), TICK, Sender(target).(protocol := protocol), KERNEL)
  {
    hide TakenBack;
  }

  /** There is such a run for each protocol the module can answer in, with a configuration that
      validates. */
  lemma SomeRunAnswers(buffers: seq<nat>, protocol: u8) returns (t: Trace)
    requires |buffers| >= 1 && (protocol == TCP || protocol == UDP)
    ensures t.Valid() && t.buffers == buffers && Base(t).protocol == protocol && Validates(Base(t))
    ensures |Wire(t)| == |SentSince(t)| == |SinceReset(t).sent| == 1 && Run(t).stats.responses == 0
  {
    hide HeaderWords, FullParse, SummedBytesInMemory, ResponseFrame, Answers, Run, Wire, SentSince, SinceReset, Base;
    var target := SomeFrameIsAccepted(Sender(0), TICK);
    SameWords(Sender(0), target, IpTotal(Sender(0), |TICK|));
    TickAnswers(target, protocol);
    t := AnsweringRun(buffers, Sender(target), TICK, Sender(target).(protocol := protocol), KERNEL);
  }

  lemma SameWords(cfg: Config, target: u32, total: nat)
    ensures HeaderWords(cfg.(targetIp := target), target, total) == HeaderWords(cfg, target, total)
  {
  }

  // --------------------------------------------------------------------------
  // A run that opens a connection
  // --------------------------------------------------------------------------

  /** One SET_CONFIG for a TCP endpoint, then a SYN for it, put together from its header fields: it
      is taken, and the table holds one record, that of its addresses and ports, with the
      sequence number of its header. */
  lemma SynRun(buffers: seq<nat>, cfg: Config, input: HookInput, eth: seq<u8>, ip: seq<u8>, h: TcpHead, data: seq<u8>)
      returns (t: Trace)
    requires |buffers| >= 1 && Receives(cfg, input, eth, ip, h, data)
    requires h.flags.syn && !h.flags.ack && input.connMemory
    ensures input.Valid() && t == ConfigThenPacket(buffers, cfg, input) && t.Valid()
    ensures t.Last().Packet? && Shown(t).verdict.Stolen?
    ensures var key := KeyOf(ip, h);
            Run(t).conns == C.State(map[key := C.Conn(key, 1, h.number, 0, input.jiffies)], 1, 0)
  {
    hide Hook, Receives, KeyOf;
    t := ConfigThenPacket(buffers, cfg, input);
    PacketIsTracked(Start(buffers).(config := cfg), input, eth, ip, h, data);
    OneConfig(buffers, cfg);
    assert t.events[..1] == [Ioctl(SetConfig(cfg, true))];
    assert t.Init() == Trace(buffers, [Ioctl(SetConfig(cfg, true))]) && t.Last() == Packet(input);
  }

  /** A good IP header from 10.0.0.2 to 10.0.38.207 whose checksum is zero. */
  const PROBE_IP: seq<u8> := [0x45, 0, 0, 40, 0, 0, 0x40, 0, 64, 6, 0, 0, 10, 0, 0, 2, 10, 0, 0x26, 0xCF]

  const PROBE_ETH: seq<u8> := [0, 0, 0, 0, 0, 0, 0, 0, 0, 0, 0, 0, 8, 0]

  lemma ProbeSum()
    ensures WordSum(Little, PROBE_IP) == 0xFFFF
  {
    hide WordSum;
    SumOfTen(PROBE_IP);
  }

  lemma ProbePasses()
    ensures HeaderPasses(PROBE_IP) && RfcValid(Little, PROBE_IP)
  {
    hide WordSum, OnesSum, PaddedWords, Sum;
    ProbeSum();
    OnesSumIsCanon(PaddedWords(Little, PROBE_IP));
    WordSumOfPadded(Little, PROBE_IP);
  }

  /** There is such a run for every SYN header. */
  lemma SomeRunOpens(buffers: seq<nat>, h: TcpHead) returns (t: Trace, key: C.Key)
    requires |buffers| >= 1 && h.Valid() && h.flags.syn && !h.flags.ack && h.dest != 0
    ensures t.Valid() && t.events != [] && t.Last().Packet? && Shown(t).verdict.Stolen? && Validates(Base(t))
    ensures key.srcPort == Swap(h.source) && key.dstPort == Swap(h.dest)
    ensures Run(t).conns.table == map[key := C.Conn(key, 1, h.number, 0, KERNEL.jiffies)]
  {
    hide HeaderPasses, RfcValid, EncodeTcp, Hook, Run, Shown, PutLe32;
    var cfg := Config(true, Le32(PROBE_IP, 16), Swap(h.dest), 6, 1, 1, 0, 0, false, 0);
    var input := KERNEL.(skb := AsSkb(TcpPacket(PROBE_ETH, PROBE_IP, h, [])));
    ProbePasses();
    Stored32(PROBE_IP, 16, cfg.targetIp);
    assert PROBE_IP[12..16] == [10, 0, 0, 2];
    t := SynRun(buffers, cfg, input, PROBE_ETH, PROBE_IP, h, []);
    key := KeyOf(PROBE_IP, h);
  }

  // --------------------------------------------------------------------------
  // The code, driven
  // --------------------------------------------------------------------------

  lemma NextEvent(buffers: seq<nat>, events: seq<Event>, i: nat)
    requires Trace(buffers, events).Valid() && i < |events|
    ensures Trace(buffers, events[..i]).Valid() && Trace(buffers, events[..i + 1]).Valid() && events[i].Valid()
    ensures var t := Trace(buffers, events[..i + 1]);
            t.Init() == Trace(buffers, events[..i]) && t.Last() == events[i]
  {
    assert forall e :: e in events[..i + 1] ==> e in events;
    assert forall e :: e in events[..i] ==> e in events;
    assert events[i] in events && events[..i + 1][..i] == events[..i];
  }

  /** A freshly loaded module driven through any events ends in the state of their run, having
      sent the frames of the run: what is proved of runs holds of the code. */
  method Drive(m: Module, events: seq<Event>, ghost buffers: seq<nat>) returns (wire: seq<seq<u8>>)
    requires m.Valid() && m.Abs() == Start(buffers) && Trace(buffers, events).Valid()
    modifies m, m.table, m.table.heads, m.table.nodes, m.pool, m.pool.slots
    ensures m.Valid() && m.Abs() == Run(Trace(buffers, events)) && wire == Wire(Trace(buffers, events))
  {
    hide Hook, Control, K.ConnTable.Valid;
    wire := [];
    for i := 0 to |events|
      invariant m.Valid() && fresh(m.table.nodes - old(m.table.nodes))
      invariant Trace(buffers, events[..i]).Valid()
      invariant m.Abs() == Run(Trace(buffers, events[..i])) && wire == Wire(Trace(buffers, events[..i]))
    {
      NextEvent(buffers, events, i);
      match events[i] {
        case Packet(input) =>
          var verdict, sent := m.HandlePacket(input);
          wire := wire + P.Listed(sent);
        case Ioctl(cmd) =>
          var ret := m.Ioctl(cmd);
      }
    }
    assert events[..|events|] == events;
  }
}
