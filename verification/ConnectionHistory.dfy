/** What the connection table holds after any run of calls, told from the history of segments
    and return codes alone, and what its two counters count. */
module ConnectionHistory {
  import opened Bytes
  import opened Connections

  function Run(calls: seq<Call>): State {
    if calls == [] then EMPTY else Step(Run(calls[..|calls| - 1]), calls[|calls| - 1])
  }

  /** The value returned by the i-th call. */
  function Result(calls: seq<Call>, i: nat): int
    requires i < |calls|
  {
    Returned(Run(calls[..i]), calls[i])
  }

  // --------------------------------------------------------------------------
  // Reading a history
  // --------------------------------------------------------------------------

  predicate About(calls: seq<Call>, i: nat, k: Key) {
    i < |calls| && calls[i].Track? && calls[i].seg.key == k
  }

  /** No Clear from the i-th call on. */
  predicate Uncleared(calls: seq<Call>, i: nat) {
    forall j :: i <= j < |calls| ==> !calls[j].Clear?
  }

  /** A SYN without ACK for k that returned 0, since the last Clear. */
  predicate Opening(calls: seq<Call>, i: nat, k: Key) {
    About(calls, i, k) && calls[i].seg.Opens() && Result(calls, i) == 0 && Uncleared(calls, i)
  }

  predicate First(calls: seq<Call>, i: nat, k: Key) {
    Opening(calls, i, k) && forall j :: 0 <= j < i ==> !Opening(calls, j, k)
  }

  predicate Latest(calls: seq<Call>, i: nat, k: Key) {
    About(calls, i, k) && forall j :: i < j < |calls| ==> !About(calls, j, k)
  }

  predicate LatestSyn(calls: seq<Call>, i: nat, k: Key) {
    About(calls, i, k) && calls[i].seg.syn && forall j :: i < j < |calls| && About(calls, j, k) ==> !calls[j].seg.syn
  }

  /** The call the numbers come from: the latest SYN-ACK after the first opening, or that
      opening itself when there is none. */
  predicate Source(calls: seq<Call>, i: nat, first: nat, k: Key) {
    && About(calls, i, k) && first <= i
    && (i == first || calls[i].seg.Answers())
    && forall j :: i < j < |calls| && About(calls, j, k) ==> !calls[j].seg.Answers()
  }

  /** The record the history dictates. */
  predicate Dictates(calls: seq<Call>, k: Key, c: Conn, first: nat, latest: nat, syn: nat, source: nat) {
    && First(calls, first, k) && Latest(calls, latest, k) && LatestSyn(calls, syn, k)
    && Source(calls, source, first, k)
    && c == Conn(k, if calls[syn].seg.ack then 2 else 1,
                 calls[source].seg.seqNum,
                 if source == first then 0 else calls[source].seg.ackNum,
                 calls[latest].now)
  }

  // --------------------------------------------------------------------------
  // Extending a history by one call
  // --------------------------------------------------------------------------

  lemma Prefix(calls: seq<Call>, call: Call, i: nat, k: Key)
    requires i < |calls|
    ensures var longer := calls + [call];
            && Result(longer, i) == Result(calls, i)
            && (About(longer, i, k) <==> About(calls, i, k))
            && (Opening(longer, i, k) <==> Opening(calls, i, k) && !call.Clear?)
  {
    var longer := calls + [call];
    assert longer[..i] == calls[..i] && longer[i] == calls[i];
    if Uncleared(longer, i) {
      assert !longer[|calls|].Clear?;
      assert forall j :: i <= j < |calls| ==> longer[j] == calls[j];
    }
  }

  lemma LastCall(calls: seq<Call>, call: Call, k: Key)
    ensures var longer := calls + [call];
            && Run(longer) == Step(Run(calls), call)
            && Result(longer, |calls|) == Returned(Run(calls), call)
            && (About(longer, |calls|, k) <==> call.Track? && call.seg.key == k)
            && (Opening(longer, |calls|, k) <==>
                call.Track? && call.seg.key == k && call.seg.Opens() && Returned(Run(calls), call) == 0)
  {
    var longer := calls + [call];
    assert longer[..|calls|] == calls && longer[|longer| - 1] == call;
  }

  // --------------------------------------------------------------------------
  // Membership
  // --------------------------------------------------------------------------

  /** A 4-tuple is in the table exactly when some SYN without ACK for it has returned 0 since
      the last clear. */
  lemma {:induction false} InTableIffOpened(calls: seq<Call>, k: Key)
    ensures k in Run(calls).table <==> exists i :: Opening(calls, i, k)
  {
    if calls != [] {
      var shorter, call := calls[..|calls| - 1], calls[|calls| - 1];
      assert calls == shorter + [call];
      InTableIffOpened(shorter, k);
      LastCall(shorter, call, k);
      forall i | 0 <= i < |shorter| ensures Opening(calls, i, k) <==> Opening(shorter, i, k) && !call.Clear? {
        Prefix(shorter, call, i, k);
      }
      StepMembership(Run(shorter), call, k);
      hide Opening, Step, Returned;
      if k in Run(calls).table {
        if k in Run(shorter).table && !call.Clear? {
          var i :| Opening(shorter, i, k);
          OpeningIndex(shorter, i, k);
          assert Opening(calls, i, k);
        } else {
          assert Opening(calls, |shorter|, k);
        }
      }
      if i: nat :| Opening(calls, i, k) {
        OpeningIndex(calls, i, k);
        assert i == |shorter| || Opening(shorter, i, k);
      }
    } else {
      hide Opening;
      forall i | Opening(calls, i, k) ensures false {
        OpeningIndex(calls, i, k);
      }
    }
  }

  /** What tracking a segment returns after any calls: 0 for a connection that is open or that
      the segment can open, -ENOMEM for one it could open but for memory, -EINVAL for any other. */
  lemma TrackCodes(calls: seq<Call>, seg: Segment, now: u64, memory: bool)
    ensures var ret := Returned(Run(calls), Track(seg, now, memory));
            var open := exists i :: Opening(calls, i, seg.key);
            && ret in {0, -12, -22}
            && (ret == -12 <==> !open && seg.syn && !seg.ack && !memory)
            && (ret == -22 <==> !open && !(seg.syn && !seg.ack))
  {
    InTableIffOpened(calls, seg.key);
    hide Run, Opening;
  }

  lemma OpeningIndex(calls: seq<Call>, i: nat, k: Key)
    requires Opening(calls, i, k)
    ensures i < |calls|
  {
  }

  lemma StepMembership(s: State, call: Call, k: Key)
    ensures k in Step(s, call).table <==>
            (k in s.table && !call.Clear?) ||
            (call.Track? && call.seg.key == k && call.seg.Opens() && Returned(s, call) == 0)
  {
  }

  // --------------------------------------------------------------------------
  // The record
  // --------------------------------------------------------------------------

  /** Every record in the table is the one the history dictates: opened by the first
      successful SYN since the clear, state 1 or 2 as the latest SYN lacked or had ACK, numbers
      from the latest SYN-ACK after the opening or else from the opening and 0, and last seen
      at the latest segment. */
  lemma {:induction false} RecordIsDictated(calls: seq<Call>, k: Key)
      returns (first: nat, latest: nat, syn: nat, source: nat)
    requires k in Run(calls).table
    ensures Dictates(calls, k, Run(calls).table[k], first, latest, syn, source)
  {
    var n := |calls| - 1;
    var shorter, call := calls[..n], calls[n];
    assert calls == shorter + [call];
    LastCall(shorter, call, k);
    if k in Run(shorter).table {
      first, latest, syn, source := RecordIsDictated(shorter, k);
      FirstStays(shorter, call, first, k);
      if call.Track? && call.seg.key == k {
        SegmentSeen(shorter, call, k, first, latest, syn, source);
        latest := n;
        if call.seg.syn {
          syn := n;
        }
        if call.seg.Answers() {
          source := n;
        }
      } else {
        OthersSeen(shorter, call, k, first, latest, syn, source);
      }
    } else {
      first, latest, syn, source := n, n, n, n;
      InTableIffOpened(shorter, k);
      forall j | 0 <= j < n ensures !Opening(calls, j, k) {
        Prefix(shorter, call, j, k);
      }
    }
  }

  lemma FirstStays(calls: seq<Call>, call: Call, first: nat, k: Key)
    requires First(calls, first, k) && !call.Clear?
    ensures First(calls + [call], first, k)
  {
    Prefix(calls, call, first, k);
    forall j | 0 <= j < first ensures !Opening(calls + [call], j, k) {
      Prefix(calls, call, j, k);
    }
  }

  /** One more segment of k. */
  lemma SegmentSeen(calls: seq<Call>, call: Call, k: Key, first: nat, latest: nat, syn: nat, source: nat)
    requires k in Run(calls).table && Dictates(calls, k, Run(calls).table[k], first, latest, syn, source)
    requires call.Track? && call.seg.key == k && First(calls + [call], first, k)
    ensures var n := |calls|;
            Dictates(calls + [call], k, Touch(Run(calls).table[k], call.seg, call.now), first, n,
                     if call.seg.syn then n else syn, if call.seg.Answers() then n else source)
  {
    hide Run, First;
    var longer := calls + [call];
    assert first < |calls| by { FirstIndex(calls, first, k); }
    assert forall j :: 0 <= j < |calls| ==> (About(longer, j, k) <==> About(calls, j, k)) && longer[j] == calls[j];
  }

  lemma FirstIndex(calls: seq<Call>, first: nat, k: Key)
    requires First(calls, first, k)
    ensures first < |calls|
  {
  }

  /** A call that is not about k and does not clear. */
  lemma OthersSeen(calls: seq<Call>, call: Call, k: Key, first: nat, latest: nat, syn: nat, source: nat)
    requires k in Run(calls).table && Dictates(calls, k, Run(calls).table[k], first, latest, syn, source)
    requires !(call.Track? && call.seg.key == k) && First(calls + [call], first, k)
    ensures Dictates(calls + [call], k, Run(calls).table[k], first, latest, syn, source)
  {
    hide Run, First;
    var longer := calls + [call];
    assert first < |calls| by { FirstIndex(calls, first, k); }
    assert forall j :: 0 <= j < |calls| ==> (About(longer, j, k) <==> About(calls, j, k)) && longer[j] == calls[j];
    assert !About(longer, |calls|, k);
  }

  /** The history leaves no choice: it dictates at most one record. */
  lemma DictatedRecordIsUnique(calls: seq<Call>, k: Key, c: Conn, f: nat, l: nat, y: nat, s: nat,
                               c': Conn, f': nat, l': nat, y': nat, s': nat)
    requires Dictates(calls, k, c, f, l, y, s) && Dictates(calls, k, c', f', l', y', s')
    ensures c == c'
  {
    hide Run, Result;
    FirstIndex(calls, f, k);
    FirstIndex(calls, f', k);
    assert f == f';
  }

  // --------------------------------------------------------------------------
  // The counters
  // --------------------------------------------------------------------------

  /** Connections opened since the last reset. */
  function Opened(calls: seq<Call>): nat {
    if calls == [] then 0
    else
      var shorter, call := calls[..|calls| - 1], calls[|calls| - 1];
      match call
      case Reset => 0
      case Clear => Opened(shorter)
      case Track(seg, _, _) =>
        if seg.key !in Run(shorter).table && Returned(Run(shorter), call) == 0 then Opened(shorter) + 1
        else Opened(shorter)
  }

  /** Table size at the last reset. */
  function SizeAtReset(calls: seq<Call>): nat {
    if calls == [] then 0
    else if calls[|calls| - 1].Reset? then |Run(calls).table|
    else SizeAtReset(calls[..|calls| - 1])
  }

  /** After every run: active plus dropped counts the connections opened since the last reset,
      and active is the table's size less its size at that reset. */
  lemma {:induction false} CountersConserved(calls: seq<Call>)
    ensures Run(calls).active + Run(calls).dropped == Opened(calls)
    ensures Run(calls).active == |Run(calls).table| - SizeAtReset(calls)
  {
    if calls != [] {
      CountersConserved(calls[..|calls| - 1]);
    }
  }

  /** So active reports the number of tracked connections exactly when the table was empty at
      the last reset. */
  lemma ActiveIsSizeIff(calls: seq<Call>)
    ensures Run(calls).active == |Run(calls).table| <==> SizeAtReset(calls) == 0
    ensures Run(calls).active < 0 <==> |Run(calls).table| < SizeAtReset(calls)
  {
    CountersConserved(calls);
  }

  /** Open one connection, reset, clear: active is -1. */
  lemma ActiveCanBeNegative(seg: Segment, now: u64)
    requires seg.Opens()
    ensures Run([Track(seg, now, true), Reset, Clear]).active == -1
  {
    var calls := [Track(seg, now, true), Reset, Clear];
    assert calls[..2] == [Track(seg, now, true), Reset] && calls[..2][..1] == [Track(seg, now, true)];
    assert calls[..2][..1][..0] == [];
    assert Run(calls[..2][..1]).table == map[seg.key := Connections.Opened(seg, now)];
    assert |Run(calls[..2]).table| == 1;
  }
}
