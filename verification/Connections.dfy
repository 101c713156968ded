/** The TCP connection table of src/security.c as a map that changes with each call. */
module Connections {
  import opened Bytes

  /** The 4-tuple of a connection, addresses and ports as stored. */
  datatype Key = Key(srcIp: u32, dstIp: u32, srcPort: u16, dstPort: u16)

  /** struct ull_tcp_conn: state 1 is Syn-Sent, 2 is Established. */
  datatype Conn = Conn(key: Key, state: u8, seqNum: u32, ackNum: u32, lastSeen: u64)

  /** The parts of a TCP segment that tracking looks at, numbers in host order. */
  datatype Segment = Segment(key: Key, syn: bool, ack: bool, seqNum: u32, ackNum: u32) {
    predicate Opens() {
      syn && !ack
    }
    predicate Answers() {
      syn && ack
    }
  }

  /** The calls that reach the table and its two counters, each one step under the lock. */
  datatype Call =
    | Track(seg: Segment, now: u64, memory: bool)  // memory: kmalloc would succeed
    | Clear
    | Reset  // RESET_STATS zeroes the counters and leaves the table

  datatype State = State(table: map<Key, Conn>, active: int, dropped: int)

  const EMPTY: State := State(map[], 0, 0)

  /** A segment of a known connection. */
  function Touch(c: Conn, seg: Segment, now: u64): Conn {
    var seen := c.(lastSeen := now);
    if seg.Opens() then seen.(state := 1)
    else if seg.Answers() then seen.(state := 2, seqNum := seg.seqNum, ackNum := seg.ackNum)
    else seen
  }

  function Opened(seg: Segment, now: u64): Conn {
    Conn(seg.key, 1, seg.seqNum, 0, now)
  }

  function Step(s: State, call: Call): State {
    match call
    case Track(seg, now, memory) =>
      if seg.key in s.table then s.(table := s.table[seg.key := Touch(s.table[seg.key], seg, now)])
      else if seg.Opens() && memory then
        s.(table := s.table[seg.key := Opened(seg, now)], active := s.active + 1)
      else s
    case Clear => State(map[], s.active - |s.table|, s.dropped + |s.table|)
    case Reset => s.(active := 0, dropped := 0)
  }

  /** The value a call returns. */
  function Returned(s: State, call: Call): int {
    match call
    case Track(seg, _, memory) =>
      if seg.key in s.table then 0 else if seg.Opens() then (if memory then 0 else ENOMEM) else EINVAL
    case _ => 0
  }
}
