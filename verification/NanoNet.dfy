/** The module as a whole: the netfilter hook, the application logic, sending, and the ioctl
    commands, as steps on one state; and the imperative code that takes those steps.

    The kernel's answers (clock, rate limit, allocations, device lookup, transmit result, user
    copies) are inputs of each step. */
module NanoNet {
  import opened Bytes
  import opened Arithmetic
  import opened Parsers
  import opened Configuration
  import opened Builder
  import opened Orders
  import opened Timing
  import C = Connections
  import K = ConnectionTable
  import P = ResponsePool

  /** The part of struct ull_stats that the hook keeps; packets_processed is times.count. */
  datatype Stats = Stats(bypassed: nat, responses: nat, errors: nat, times: Times)

  const ZEROED: Stats := Stats(0, 0, 0, FRESH)

  datatype State = State(config: Config, stats: Stats, conns: C.State, pool: P.Pool<nat>)

  /** One packet, and what the kernel answers while it is handled. */
  datatype HookInput = HookInput(
    skb: Skb, hasDev: bool,
    budget: bool,  // __ratelimit lets it through
    jiffies: u64, connMemory: bool,
    orderMemory: bool, orderTime: u64, orderBytes: seq<u8>,  // kmalloc, clock, old bytes of clOrdId
    skbMemory: bool, eth0: bool, xmit: int,  // alloc_skb, dev_get_by_name, dev_queue_xmit
    start: u64, end: u64)
  {
    predicate Valid() {
      skb.Valid() && SummedBytesInMemory(skb) && |orderBytes| == ID_LEN
    }
  }

  // --------------------------------------------------------------------------
  // Sending and application logic
  // --------------------------------------------------------------------------

  /** What sending comes to: the result code, the configuration and pool afterwards, whether
      the pool was asked for a buffer, and the frame if it went out. */
  datatype Sending = Sending(code: int, config: Config, pool: P.Pool<nat>, asked: bool, frame: Option<seq<u8>>)

  predicate CanBuild(cfg: Config) {
    cfg.responseIp != 0 && cfg.responsePort != 0 && (cfg.protocol == TCP || cfg.protocol == UDP)
  }

  /** nanonet_send_response with nanonet_create_response_packet */
  function Send(cfg: Config, pool: P.Pool<nat>, orig: Option<Skb>, response: seq<u8>,
                memory: bool, dev: bool, xmit: int): Sending
    requires pool.Valid() && Readable(cfg, orig)
  {
    if response == [] then Sending(EINVAL, cfg, pool, false, None)
    else if !CanBuild(cfg) then Sending(ENOMEM, cfg, pool, false, None)
    else
      var left := P.AfterTake(pool);
      if (P.Taken(pool).None? && !memory) || !dev then Sending(ENOMEM, cfg, left, true, None)
      else if xmit != 0 then Sending(EIO, cfg, left, true, None)
      else Sending(0, cfg.(seqNum := (cfg.seqNum + |response|) % TWO32), left, true,
                   Some(ResponseFrame(cfg, orig, response)))
  }

  /** nanonet_process_application_logic: None is a NULL payload. */
  function AppLogic(payload: Option<seq<u8>>, cfg: Config, pool: P.Pool<nat>, input: HookInput): Sending
    requires pool.Valid() && input.Valid()
  {
    if payload.None? || payload.value == [] then Sending(0, cfg, pool, false, None)
    else if cfg.logicType != 0 then Sending(EINVAL, cfg, pool, false, None)
    else
      var d := Decide(payload.value, input.orderMemory, input.orderTime, input.orderBytes);
      if d.order.Some? then
        Send(cfg, pool, None, Encode(d.order.value), input.skbMemory, input.eth0, input.xmit)
      else Sending(d.code, cfg, pool, false, None)
  }

  // --------------------------------------------------------------------------
  // The hook
  // --------------------------------------------------------------------------

  /** nanonet_validate_packet: tot_len is compared without conversion. */
  predicate PacketPasses(input: HookInput)
    requires input.Valid() && |input.skb.mem| >= ETH_LEN + IP_LEN
  {
    input.budget && Le32(input.skb.mem, 26) != 0 && Le16(input.skb.mem, 16) >= IP_LEN
  }

  predicate Addressed(cfg: Config, m: seq<u8>)
    requires |m| >= ETH_LEN + IP_LEN
  {
    Le32(m, 30) == cfg.targetIp || (cfg.multicast && Le32(m, 30) == cfg.multicastGroup)
  }

  function SegmentAt(m: seq<u8>, at: nat): C.Segment
    requires |m| >= ETH_LEN + IP_LEN && at + TCP_LEN <= |m|
  {
    C.Segment(C.Key(Le32(m, 26), Le32(m, 30), Le16(m, at), Le16(m, at + 2)),
              m[at + 13] / 2 % 2 == 1, m[at + 13] / 0x10 % 2 == 1,
              Be32(m, at + 4), Be32(m, at + 8))
  }

  /** What the hook makes of a packet before the connection table is asked: a clean packet for
      us passes, with its segment if the table is to be asked. */
  datatype Screening = Skip | Reject | Pass(seg: Option<C.Segment>)

  function Screen(cfg: Config, input: HookInput): Screening
    requires input.Valid()
  {
    var m := input.skb.mem;
    if !cfg.enabled || !input.hasDev then Skip
    else
      var p := FullParse(input.skb);
      if p.code < 0 then Reject
      else if !PacketPasses(input) then Reject
      else if !Addressed(cfg, m) then Skip
      else if cfg.protocol == TCP && p.tcp.Some? then
        if Le16(m, p.tcp.value + 2) != cfg.targetPort then Skip else Pass(Some(SegmentAt(m, p.tcp.value)))
      else if cfg.protocol == UDP && p.udp.Some? then
        if Le16(m, p.udp.value + 2) != cfg.targetPort then Skip else Pass(None)
      else Pass(None)
  }

  /** Where the hook sends a packet, with the table call it makes on the way. */
  datatype Route = Bypassed | Refused(call: Option<C.Call>) | Delivered(call: Option<C.Call>)

  function RouteOf(s: State, input: HookInput): Route
    requires input.Valid()
  {
    match Screen(s.config, input)
    case Skip => Bypassed
    case Reject => Refused(None)
    case Pass(None) => Delivered(None)
    case Pass(Some(seg)) =>
      var call := C.Track(seg, input.jiffies, input.connMemory);
      if C.Returned(s.conns, call) < 0 then Refused(Some(call)) else Delivered(Some(call))
  }

  lemma PayloadInFrame(skb: Skb)
    requires skb.Valid() && SummedBytesInMemory(skb) && FullParse(skb).code == 0
    ensures var p := FullParse(skb);
            p.payload.Some? ==> 0 <= p.payloadLen && p.payload.value + p.payloadLen == skb.len
  {
    FastRefinesFull(skb);
    PayloadEndsAtFrameEnd(skb);
  }

  function Payload(skb: Skb): (r: Option<seq<u8>>)
    requires skb.Valid() && SummedBytesInMemory(skb) && FullParse(skb).code == 0
  {
    PayloadInFrame(skb);
    var p := FullParse(skb);
    if p.payload.None? then None else Some(skb.mem[p.payload.value..p.payload.value + p.payloadLen])
  }

  datatype Verdict = Accept | Stolen

  /** A step's new state and what it shows: the verdict, the application result of a delivered
      packet, the table call, whether the pool was asked, and the frame sent. */
  datatype Outcome = Outcome(state: State, verdict: Verdict, app: Option<int>, call: Option<C.Call>,
                             asked: bool, sent: Option<seq<u8>>)

  function Called(conns: C.State, call: Option<C.Call>): C.State {
    if call.None? then conns else C.Step(conns, call.value)
  }

  function ProcessTime(input: HookInput): u64 {
    (input.end - input.start) % TWO64
  }

  /** nanonet_hook */
  function Hook(s: State, input: HookInput): (o: Outcome)
    requires s.pool.Valid() && input.Valid()
  {
    match RouteOf(s, input)
    case Bypassed =>
      Outcome(s.(stats := s.stats.(bypassed := s.stats.bypassed + 1)), Accept, None, None, false, None)
    case Refused(call) =>
      Outcome(s.(stats := s.stats.(errors := s.stats.errors + 1), conns := Called(s.conns, call)),
              Accept, None, call, false, None)
    case Delivered(call) =>
      var a := AppLogic(Payload(input.skb), s.config, s.pool, input);
      var stats := Stats(s.stats.bypassed,
                         s.stats.responses + (if a.code > 0 then 1 else 0),
                         s.stats.errors + (if a.code < 0 then 1 else 0),
                         Record(s.stats.times, ProcessTime(input)));
      Outcome(State(a.config, stats, Called(s.conns, call), a.pool), Stolen, Some(a.code), call, a.asked, a.frame)
  }

  // --------------------------------------------------------------------------
  // The control interface
  // --------------------------------------------------------------------------

  /** The ioctl commands.  SET_CONFIG copies straight into the live configuration: `landed` is
      what is there after copy_from_user, which is part of the request when the copy fails. */
  datatype Command =
    | SetConfig(landed: Config, copied: bool)
    | GetConfig(copied: bool)
    | GetStats(copied: bool)
    | ResetStats
    | ClearConnections
    | Unknown

  function Control(s: State, cmd: Command): State {
    match cmd
    case SetConfig(landed, _) => s.(config := landed)
    case ResetStats => s.(stats := ZEROED, conns := C.Step(s.conns, C.Reset))
    case ClearConnections => s.(conns := C.Step(s.conns, C.Clear))
    case _ => s
  }

  function ControlResult(cmd: Command): int {
    match cmd
    case SetConfig(landed, copied) => if !copied then EFAULT else if Validates(landed) then 0 else EINVAL
    case GetConfig(copied) => if copied then 0 else EFAULT
    case GetStats(copied) => if copied then 0 else EFAULT
    case Unknown => ENOTTY
    case _ => 0
  }

  // --------------------------------------------------------------------------
  // The code
  // --------------------------------------------------------------------------

  const POOL_BUFFER: nat := 1500

  class Module {
    var config: Config
    var processed: nat
    var bypassed: nat
    var responses: nat
    var errors: nat
    var last: u64
    var min: u64
    var max: u64
    var avg: u64
    const table: K.ConnTable
    const pool: P.SkbPool<nat>

    ghost predicate Valid()
      reads this, table, table.heads, table.nodes, pool, pool.slots
    {
      table.Valid() && pool.Valid() && table.heads as object != pool.slots
    }

    ghost function Statistics(): Stats
      reads this
    {
      Stats(bypassed, responses, errors, Times(processed, last, min, max, avg))
    }

    ghost function Abs(): State
      reads this, table, pool, pool.slots
    {
      State(config, Statistics(), table.Abs(), pool.Abs())
    }

    /** The initial global_config and global_stats, an empty table, and a pool of any size that
        nanonet_init_response_pool has filled. */
    constructor (jhash: K.Hash, buffers: seq<nat>)
      requires |buffers| >= 1
      ensures Valid() && fresh(table) && fresh(table.heads) && table.nodes == {} && fresh(pool) && fresh(pool.slots)
      ensures Abs() == State(INITIAL, ZEROED, C.EMPTY, P.Pool(P.Filled(buffers), 0, 0))
    {
      config := INITIAL;
      processed, bypassed, responses, errors := 0, 0, 0, 0;
      last, min, max, avg := 0, U64_MAX, 0, 0;
      table := new K.ConnTable(jhash);
      var pool' := new P.SkbPool<nat>(|buffers|);
      var ret, freed := pool'.Init(P.Filled(buffers));
      pool := pool';
    }

    /** The frame and its alignment do not fit the pooled buffer that would be used for it: 56 or
        44 bytes go to headers and alignment. */
    ghost predicate Overruns(response: seq<u8>)
      requires pool.Valid()
      reads this, pool, pool.slots
    {
      && response != [] && CanBuild(config) && P.Taken(pool.Abs()).Some?
      && |response| > if config.protocol == TCP then 1444 else 1456
    }

    /** nanonet_create_response_packet.  A pooled buffer that is too small makes skb_put panic. */
    method CreateResponse(orig: Option<Skb>, response: seq<u8>, memory: bool, dev: bool)
        returns (skb: SkBuff?, panicked: bool)
      requires Valid() && Readable(config, orig) && response != []
      modifies pool, pool.slots
      ensures pool.Valid() && panicked == old(Overruns(response))
      ensures var was := old(pool.Abs());
              && pool.Abs() == (if CanBuild(config) then P.AfterTake(was) else was)
              && (skb != null <==> !panicked && CanBuild(config) && (P.Taken(was).Some? || memory) && dev)
      ensures skb != null ==>
                fresh(skb) && fresh(skb.buf) && skb.Valid() && skb.Bytes() == ResponseFrame(config, orig, response)
    {
      hide ResponseFrame;
      panicked := false;
      if config.responseIp == 0 || config.responsePort == 0 {
        return null, false;
      }
      var transportLen: nat;
      if config.protocol == TCP {
        transportLen := TCP_LEN;
      } else if config.protocol == UDP {
        transportLen := UDP_LEN;
      } else {
        return null, false;
      }
      var totalLen := ETH_LEN + IP_LEN + transportLen + |response|;
      var pooled := pool.Get();
      if pooled.Some? {
        skb := new SkBuff(POOL_BUFFER);
      } else if memory {
        skb := new SkBuff(totalLen + 2);
      } else {
        return null, false;
      }
      if 2 + totalLen > skb.buf.Length {
        return null, true;
      }
      skb.Fill(config, orig, response);
      if !dev {
        return null, false;
      }
    }

    /** nanonet_send_response */
    method SendResponse(orig: Option<Skb>, response: seq<u8>, memory: bool, dev: bool, xmit: int)
        returns (code: int, sent: Option<seq<u8>>, panicked: bool)
      requires Valid() && Readable(config, orig)
      modifies `config, pool, pool.slots
      ensures Valid() && panicked == old(Overruns(response))
      ensures panicked ==> sent.None? && config == old(config)
      ensures !panicked ==>
                var r := Send(old(config), old(pool.Abs()), orig, response, memory, dev, xmit);
                code == r.code && config == r.config && pool.Abs() == r.pool && sent == r.frame
    {
      hide ResponseFrame, P.AfterTake, P.Taken;
      sent, panicked := None, false;
      if response == [] {
        return EINVAL, None, false;
      }
      var skb;
      skb, panicked := CreateResponse(orig, response, memory, dev);
      if skb == null {
        return ENOMEM, None, panicked;
      }
      if xmit != 0 {
        return EIO, None, false;
      }
      sent := Some(skb.buf[skb.data..skb.tail]);
      config := config.(seqNum := (config.seqNum + |response|) % TWO32);
      code := 0;
    }

    /** nanonet_process_application_logic */
    method ApplicationLogic(payload: Option<seq<u8>>, input: HookInput) returns (code: int, sent: Option<seq<u8>>)
      requires Valid() && input.Valid()
      modifies `config, pool, pool.slots
      ensures Valid()
      ensures var r := AppLogic(payload, old(config), old(pool.Abs()), input);
              code == r.code && config == r.config && pool.Abs() == r.pool && sent == r.frame
    {
      hide Send, Encode;
      sent := None;
      if payload.None? || payload.value == [] {
        return 0, None;
      }
      if config.logicType != 0 {
        return EINVAL, None;
      }
      var order;
      code, order := ProcessMarketData(payload.value, input.orderMemory, input.orderTime, input.orderBytes);
      if code > 0 && order.Some? {
        var panicked;
        code, sent, panicked := SendResponse(None, Encode(order.value), input.skbMemory, input.eth0, input.xmit);
        assert !panicked;
      }
    }

    /** The counting part at the end of nanonet_hook. */
    method CountTime(time: u64)
      modifies `processed, `last, `min, `max, `avg
      ensures Statistics().times == Record(old(Statistics().times), time)
    {
      processed := processed + 1;
      last := time;
      if time < min {
        min := time;
      }
      if time > max {
        max := time;
      }
      QuotientBound((avg * (processed - 1) + time) % TWO64, processed);
      avg := (avg * (processed - 1) + time) % TWO64 / processed;
    }

    /** The tests of nanonet_hook before the connection table, and the payload of a packet that
        passes them. */
    method ScreenPacket(input: HookInput) returns (screening: Screening, data: Option<seq<u8>>)
      requires input.Valid()
      ensures screening == Screen(config, input)
      ensures screening.Pass? ==> FullParse(input.skb).code == 0 && data == Payload(input.skb)
    {
      hide FullParse, SummedBytesInMemory, Le16, Le32, SegmentAt;
      data := None;
      var m := input.skb.mem;
      if !config.enabled || !input.hasDev {
        return Skip, None;
      }
      var code, ip, tcp, udp, payload, payloadLen := ParsePacket(input.skb);
      FullParseShape(input.skb);
      if code < 0 {
        return Reject, None;
      }
      PayloadInFrame(input.skb);
      data := if payload.None? then None else Some(m[payload.value..payload.value + payloadLen]);
      if !PacketPasses(input) {
        return Reject, None;
      }
      if Le32(m, 30) != config.targetIp && (!config.multicast || Le32(m, 30) != config.multicastGroup) {
        return Skip, None;
      }
      screening := Pass(None);
      if config.protocol == TCP && tcp.Some? {
        if Le16(m, tcp.value + 2) != config.targetPort {
          return Skip, None;
        }
        screening := Pass(Some(SegmentAt(m, tcp.value)));
      } else if config.protocol == UDP && udp.Some? {
        if Le16(m, udp.value + 2) != config.targetPort {
          return Skip, None;
        }
      }
    }

    /** nanonet_hook up to the application logic: whether the packet is delivered, and its
        payload. */
    method Admit(input: HookInput) returns (delivered: bool, data: Option<seq<u8>>)
      requires Valid() && input.Valid()
      modifies `bypassed, `errors, table, table.heads, table.nodes
      ensures Valid() && fresh(table.nodes - old(table.nodes))
      ensures var route := RouteOf(old(Abs()), input);
              && delivered == route.Delivered?
              && bypassed == old(bypassed) + (if route.Bypassed? then 1 else 0)
              && errors == old(errors) + (if route.Refused? then 1 else 0)
              && table.Abs() == (if route.Bypassed? then old(table.Abs()) else Called(old(table.Abs()), route.call))
      ensures delivered ==> FullParse(input.skb).code == 0 && data == Payload(input.skb)
    {
      hide FullParse, SummedBytesInMemory, Screen, Payload, C.Step, C.Returned, K.ConnTable.Valid;
      delivered := false;
      var screening;
      screening, data := ScreenPacket(input);
      match screening {
        case Skip => bypassed := bypassed + 1;
        case Reject => errors := errors + 1;
        case Pass(seg) =>
          var ret := 0;
          if seg.Some? {
            ret := table.TrackSegment(seg.value, input.jiffies, input.connMemory);
          }
          if ret < 0 {
            errors := errors + 1;
          } else {
            delivered := true;
          }
      }
    }

    /** nanonet_hook */
    method HandlePacket(input: HookInput) returns (verdict: Verdict, sent: Option<seq<u8>>)
      requires Valid() && input.Valid()
      modifies this, table, table.heads, table.nodes, pool, pool.slots
      ensures Valid() && fresh(table.nodes - old(table.nodes))
      ensures var o := Hook(old(Abs()), input);
              Abs() == o.state && verdict == o.verdict && sent == o.sent
    {
      hide FullParse, SummedBytesInMemory, AppLogic, Record, RouteOf, Payload, Called, K.ConnTable.Valid;
      var delivered, data := Admit(input);
      if !delivered {
        return Accept, None;
      }
      var result;
      result, sent := ApplicationLogic(data, input);
      if result < 0 {
        errors := errors + 1;
      } else if result > 0 {
        responses := responses + 1;
      }
      CountTime(ProcessTime(input));
      verdict := Stolen;
    }

    /** The hook's part of RESET_STATS. */
    method ZeroStatistics()
      modifies `processed, `bypassed, `responses, `errors, `last, `min, `max, `avg
      ensures Statistics() == ZEROED
    {
      processed, bypassed, responses, errors := 0, 0, 0, 0;
      last, min, max, avg := 0, U64_MAX, 0, 0;
    }

    /** nanonet_ioctl */
    method Ioctl(cmd: Command) returns (ret: int)
      requires Valid()
      modifies this, table, table.heads, table.nodes
      ensures Valid() && table.nodes <= old(table.nodes)
      ensures Abs() == Control(old(Abs()), cmd) && ret == ControlResult(cmd)
    {
      hide Validates, C.Step, K.ConnTable.Valid;
      ret := 0;
      match cmd {
        case SetConfig(landed, copied) =>
          config := landed;
          if !copied {
            ret := EFAULT;
          } else if !Validates(config) {
            ret := EINVAL;
          }
        case GetConfig(copied) =>
          if !copied {
            ret := EFAULT;
          }
        case GetStats(copied) =>
          if !copied {
            ret := EFAULT;
          }
        case ResetStats =>
          ZeroStatistics();
          table.ResetCounters();
        case ClearConnections =>
          table.ClearAll();
        case Unknown =>
          ret := ENOTTY;
      }
    }
  }
}
