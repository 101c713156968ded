/** The processing-time statistics kept by nanonet_hook (src/nanonet.c): last, minimum,
    maximum and an integer running average, in 64-bit unsigned arithmetic. */
module Timing {
  import opened Bytes
  import opened Arithmetic

  /** `count` is packets_processed, which the average divides by. */
  datatype Times = Times(count: nat, last: u64, min: u64, max: u64, avg: u64)

  const FRESH: Times := Times(0, 0, U64_MAX, 0, 0)

  /** What the average's update divides, before it is reduced modulo 2^64. */
  function Dividend(s: Times, t: u64): nat {
    Product(s.avg, s.count) + t
  }

  function Record(s: Times, t: u64): Times {
    Times(s.count + 1, t, if t < s.min then t else s.min, if t > s.max then t else s.max,
          Quotient(Dividend(s, t) % TWO64, s.count + 1))
  }

  /** The statistics after the packets with these processing times since the last reset. */
  function After(ts: seq<u64>): Times {
    if ts == [] then FRESH else Record(After(ts[..|ts| - 1]), ts[|ts| - 1])
  }

  function Total(ts: seq<u64>): nat {
    if ts == [] then 0 else Total(ts[..|ts| - 1]) + ts[|ts| - 1]
  }

  lemma {:induction false} CountIsLength(ts: seq<u64>)
    ensures After(ts).count == |ts|
  {
    if ts != [] {
      CountIsLength(ts[..|ts| - 1]);
    }
  }

  // --------------------------------------------------------------------------
  // Drift of the running average
  // --------------------------------------------------------------------------

  /** No update of the average has wrapped. */
  predicate NoWrap(ts: seq<u64>) {
    ts == [] || (NoWrap(ts[..|ts| - 1]) && Dividend(After(ts[..|ts| - 1]), ts[|ts| - 1]) < TWO64)
  }

  /** By how much n times the average falls short of the total. */
  function Lag(ts: seq<u64>): int {
    Total(ts) - Product(|ts|, After(ts).avg)
  }

  /** 0 + 1 + ... + (n - 1), that is n(n-1)/2. */
  function Triangle(n: nat): nat {
    if n == 0 then 0 else Triangle(n - 1) + n - 1
  }

  lemma {:induction false} TriangleClosed(n: nat)
    ensures 2 * Triangle(n) == n * (n - 1)
  {
    if n > 0 {
      TriangleClosed(n - 1);
    }
  }

  /** One update adds to the lag the remainder of its division, less than n, and 2^64 for each
      wrap. */
  lemma UpdateAddsRemainder(s: Times, t: u64) returns (remainder: nat, wraps: nat)
    ensures remainder <= s.count
    ensures wraps > 0 <==> Dividend(s, t) >= TWO64
    ensures Product(s.count + 1, Record(s, t).avg) + remainder + TWO64 * wraps
            == Product(s.count, s.avg) + t
  {
    var x := Dividend(s, t);
    wraps := x / TWO64;
    var y := x % TWO64;
    QuotientBound(y, s.count + 1);
    remainder := y - Product(s.count + 1, y / (s.count + 1));
  }

  /** Over any run of packets the average never exceeds the true mean; it lags n*mean by at
      most n(n-1)/2 as long as no update wraps, and by at least 2^64 from the first wrap on. */
  lemma {:induction false} LagBounds(ts: seq<u64>)
    ensures 0 <= Lag(ts)
    ensures NoWrap(ts) ==> Lag(ts) <= Triangle(|ts|) && 2 * Lag(ts) <= |ts| * (|ts| - 1)
    ensures !NoWrap(ts) ==> Lag(ts) >= TWO64
  {
    TriangleClosed(|ts|);
    if ts != [] {
      var shorter, t := ts[..|ts| - 1], ts[|ts| - 1];
      LagBounds(shorter);
      CountIsLength(shorter);
      hide Record, Product, Dividend;
      var remainder, wraps := UpdateAddsRemainder(After(shorter), t);
    }
  }

  /** So the drift bound of n(n-1)/2 holds exactly when no update wrapped, while that bound is
      below 2^64. */
  lemma DriftBoundedIffNoWrap(ts: seq<u64>)
    requires Triangle(|ts|) < TWO64
    ensures 0 <= Lag(ts) <= Triangle(|ts|) <==> NoWrap(ts)
  {
    LagBounds(ts);
  }

  /** A total below 2^64 nanoseconds (584 years of processing) rules wraps out. */
  lemma {:induction false} SmallTotalNeverWraps(ts: seq<u64>)
    requires Total(ts) < TWO64
    ensures NoWrap(ts)
  {
    if ts != [] {
      var shorter := ts[..|ts| - 1];
      SmallTotalNeverWraps(shorter);
      LagBounds(shorter);
      CountIsLength(shorter);
      assert Dividend(After(shorter), ts[|ts| - 1]) <= Total(ts);
    }
  }

  lemma Extend(ts: seq<u64>, t: u64)
    ensures After(ts + [t]) == Record(After(ts), t) && Total(ts + [t]) == Total(ts) + t
    ensures NoWrap(ts + [t]) <==> NoWrap(ts) && Dividend(After(ts), t) < TWO64
  {
    assert (ts + [t])[..|ts|] == ts;
  }

  /** Times that fall by one nanosecond per packet. */
  function Falling(top: nat, n: nat): (ts: seq<u64>)
    requires n <= top + 1 <= TWO64
    ensures |ts| == n
  {
    seq(n, i requires 0 <= i < n => top - i)
  }

  lemma {:induction false} FallingLag(top: nat, n: nat)
    requires n <= top + 1 <= TWO64 && Product(top + 1, n) <= TWO64
    ensures NoWrap(Falling(top, n)) && Lag(Falling(top, n)) == Triangle(n)
    ensures n > 0 ==> After(Falling(top, n)).avg == top - (n - 1)
  {
    if n == 0 {
      assert Product(0, 0) == 0;
    } else {
      var ts, shorter, t := Falling(top, n), Falling(top, n - 1), top - (n - 1);
      Mono(top + 1, n - 1, n);
      FallingLag(top, n - 1);
      assert ts == shorter + [t];
      CountIsLength(shorter);
      Extend(shorter, t);
      FallingStep(After(shorter), t, top);
      FallingTriangle(n);
      hide *;
      FallingSum(ts, shorter, t);
    }
  }

  lemma FallingSum(ts: seq<u64>, shorter: seq<u64>, t: u64)
    requires |ts| == |shorter| + 1 && Total(ts) == Total(shorter) + t
    requires Product(|ts|, After(ts).avg) + |shorter| == Product(|shorter|, After(shorter).avg) + t
    ensures Lag(ts) == Lag(shorter) + |shorter|
  {
    hide Product, Total, After;
  }

  lemma FallingTriangle(n: nat)
    requires n > 0
    ensures Triangle(n) == Triangle(n - 1) + n - 1
  {
  }

  lemma FallingStep(s: Times, t: u64, top: nat)
    requires t + s.count <= top && Product(top + 1, s.count + 1) <= TWO64 && (s.count == 0 || s.avg == t + 1)
    ensures Dividend(s, t) < TWO64 && Record(s, t).avg == t
    ensures Product(s.count + 1, t) + s.count == Product(s.count, s.avg) + t
  {
    var n := s.count + 1;
    Distribute(n, t, 1);
    Distribute(n - 1, t, 1);
    Distribute(t, n - 1, 1);
    Distribute(s.avg, n - 1, 1);
    Mono(n, t + 1, top + 1);
    Distribute(top + 1, n, 0);
    assert n == 1 ==> Product(s.avg, 0) == 0 == Product(0, s.avg);
    hide Product;
    QuotientIs(Dividend(s, t), n, t);
  }

  /** The bound is attained for every number of packets (with n*n at most 2^64). */
  lemma DriftBoundAttained(n: nat)
    requires n > 0 && Product(n, n) <= TWO64
    ensures n <= TWO64 && |Falling(n - 1, n)| == n
    ensures NoWrap(Falling(n - 1, n)) && Lag(Falling(n - 1, n)) == Triangle(n)
  {
    Mono(n, 1, n);
    Distribute(n, 1, 0);
    FallingLag(n - 1, n);
  }

  // --------------------------------------------------------------------------
  // Extremes
  // --------------------------------------------------------------------------

  /** What the last update of the average divided. */
  function LastDividend(ts: seq<u64>): nat
    requires ts != []
  {
    Dividend(After(ts[..|ts| - 1]), ts[|ts| - 1])
  }

  predicate Extremes(ts: seq<u64>, min: u64, max: u64) {
    min in ts && max in ts && forall i :: 0 <= i < |ts| ==> min <= ts[i] <= max
  }

  /** With no packet since the reset the statistics are the initial ones; otherwise minimum and
      maximum are the exact extremes, the last time is the last, the average is at most the
      maximum.  It is at least the minimum exactly when the dividend of the last update, reduced
      modulo 2^64, is at least n times the minimum, and so as long as no update wraps. */
  lemma {:induction false} TimingInvariant(ts: seq<u64>)
    ensures ts == [] ==> After(ts) == FRESH
    ensures ts != [] ==> var s := After(ts);
              && Extremes(ts, s.min, s.max)
              && s.last == ts[|ts| - 1]
              && s.avg <= s.max
              && (s.min <= s.avg <==> Product(|ts|, s.min) <= LastDividend(ts) % TWO64)
              && (NoWrap(ts) ==> s.min <= s.avg)
  {
    if ts != [] {
      var shorter, t := ts[..|ts| - 1], ts[|ts| - 1];
      TimingInvariant(shorter);
      CountIsLength(shorter);
      var s, r := After(shorter), After(ts);
      assert Extremes(ts, r.min, r.max) by {
        hide Quotient, Dividend;
        assert ts == shorter + [t];
        assert forall x :: x in shorter ==> x in ts;
      }
      AverageBetween(s.avg, s.count, t, r.min, r.max);
      AtLeastIff(Dividend(s, t) % TWO64, r.min, s.count + 1);
    }
  }

  lemma AverageBetween(avg: u64, count: nat, t: u64, min: u64, max: u64)
    requires count > 0 ==> avg <= max
    requires min <= t <= max
    ensures var x := Product(avg, count) + t;
            && (x % TWO64) / (count + 1) <= max
            && (x < TWO64 && (count > 0 ==> min <= avg) ==> min <= (x % TWO64) / (count + 1))
  {
    var n := count + 1;
    var x := Product(avg, count) + t;
    Distribute(max, count, 1);
    Distribute(min, count, 1);
    assert count == 0 ==> Product(avg, count) == 0 && Product(max, count) == 0 && Product(min, count) == 0;
    if count > 0 {
      Mono(count, avg, max);
    }
    hide Product;
    DivUpper(x % TWO64, max, n);
    if x < TWO64 && (count > 0 ==> min <= avg) {
      if count > 0 {
        Mono(count, min, avg);
      }
      DivLower(x, min, n);
    }
  }

  /** Two packets of 2^64-1 ns: the wrapped average is below the minimum. */
  lemma WrappedAverageCanFallBelowMinimum()
    ensures var s := After([U64_MAX, U64_MAX]); s.avg < s.min
  {
    var ts := [U64_MAX, U64_MAX];
    assert ts[..1] == [U64_MAX] && ts[..1][..0] == [];
    assert After(ts[..1]) == Times(1, U64_MAX, U64_MAX, U64_MAX, U64_MAX);
  }

  /** A wrap need not do that: here the third update wraps and the minimum is 0. */
  lemma WrapCanLeaveMinimumBelow()
    ensures var ts := [0, U64_MAX, U64_MAX]; !NoWrap(ts) && After(ts).min <= After(ts).avg
  {
    var ts := [0, U64_MAX, U64_MAX];
    assert ts[..2] == [0, U64_MAX] && ts[..2][..1] == [0] && ts[..2][..1][..0] == [];
    assert After(ts[..2][..1]) == Times(1, 0, 0, 0, 0);
    assert After(ts[..2]).count == 2 && After(ts[..2]).avg == 0x7FFF_FFFF_FFFF_FFFF && After(ts[..2]).min == 0;
    assert Dividend(After(ts[..2]), U64_MAX) >= TWO64;
  }
}
