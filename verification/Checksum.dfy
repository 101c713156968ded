/** The Internet checksum of src/micro_stack.c and the test built on it, against the
    one's-complement arithmetic of sections 1 and 2 of RFC 1071. */
module Checksum {
  import opened Bytes

  /** Byte order of the host that loads the 16-bit words. */
  datatype Endian = Little | Big

  function Word(host: Endian, b0: u8, b1: u8): u16 {
    if host.Little? then (b0 as int) + 0x100 * (b1 as int) else 0x100 * (b0 as int) + (b1 as int)
  }

  /** What the accumulation adds up when nothing wraps.  A trailing odd byte is shifted
      left by eight on every host. */
  function WordSum(host: Endian, data: seq<u8>): nat {
    if data == [] then 0
    else if |data| == 1 then 0x100 * (data[0] as int)
    else (Word(host, data[0], data[1]) as int) + WordSum(host, data[2..])
  }

  /** The 16-bit one's-complement representative of x: multiples of 65535 are taken off
      while something larger remains, so that 65535 rather than 0 stands for the positive
      multiples. */
  function Canon(x: nat): (r: u16)
    ensures r == 0 <==> x == 0
  {
    if x <= 0xFFFF then x else Canon(x - 0xFFFF)
  }

  /** The value nanonet_compute_checksum returns: a 32-bit accumulator, folded and
      complemented. */
  function CodeChecksum(host: Endian, data: seq<u8>): u16 {
    0xFFFF - (Canon(WordSum(host, data) % TWO32) as int)
  }

  // --------------------------------------------------------------------------
  // The reference: section 1 of RFC 1071
  // --------------------------------------------------------------------------

  /** One's-complement addition: a carry out of bit 15 comes back in at bit 0. */
  function OnesAdd(a: u16, b: u16): u16 {
    var s: int := (a as int) + (b as int);
    if s < TWO16 then s else s - TWO16 + 1
  }

  function OnesSum(words: seq<u16>): u16 {
    if words == [] then 0 else OnesAdd(words[0], OnesSum(words[1..]))
  }

  /** The data as 16-bit words, an odd byte padded with a zero byte after it. */
  function PaddedWords(host: Endian, data: seq<u8>): seq<u16> {
    if data == [] then []
    else if |data| == 1 then [Word(host, data[0], 0)]
    else [Word(host, data[0], data[1])] + PaddedWords(host, data[2..])
  }

  function RfcChecksum(host: Endian, data: seq<u8>): u16 {
    0xFFFF - (OnesSum(PaddedWords(host, data)) as int)
  }

  // --------------------------------------------------------------------------
  // The two loops
  // --------------------------------------------------------------------------

  /** The summing loop.  `len` is a C int: a negative one sums nothing. */
  method Accumulate(host: Endian, data: seq<u8>, len: int) returns (sum: u32)
    requires len <= |data|
    ensures sum == WordSum(host, if len <= 0 then [] else data[..len]) % TWO32
  {
    ghost var region := if len <= 0 then [] else data[..len];
    var at: nat, left := 0, len;
    sum := 0;
    while left > 1
      invariant at + left == len && 0 <= at <= |region|
      invariant if len < 0 then at == 0 else left == |region| - at
      invariant (sum + WordSum(host, region[at..])) % TWO32 == WordSum(host, region) % TWO32
    {
      var w := Word(host, data[at], data[at + 1]);
      SumStep(host, region[at..], sum, w);
      assert region[at..][2..] == region[at + 2..];
      sum := ((sum as int) + (w as int)) % TWO32;
      at, left := at + 2, left - 2;
    }
    if left == 1 {
      assert region[at..] == [data[at]];
      sum := ((sum as int) + 0x100 * (data[at] as int)) % TWO32;
    } else {
      assert region[at..] == [];
    }
  }

  lemma SumStep(host: Endian, rest: seq<u8>, sum: u32, w: u16)
    requires |rest| >= 2 && w == Word(host, rest[0], rest[1])
    ensures ((sum + w) % TWO32 + WordSum(host, rest[2..])) % TWO32 == (sum + WordSum(host, rest)) % TWO32
  {
    ModAddLeft(sum + w, WordSum(host, rest[2..]));
  }

  /** The folding loop. */
  method Fold(start: u32) returns (sum: u32)
    ensures sum == Canon(start)
  {
    sum := start;
    while sum / TWO16 != 0
      invariant Canon(sum) == Canon(start)
      decreases sum
    {
      FoldStep(sum);
      sum := sum % TWO16 + sum / TWO16;
    }
  }

  /** nanonet_compute_checksum */
  method ComputeChecksum(host: Endian, data: seq<u8>, len: int) returns (check: u16)
    requires len <= |data|
    ensures check == CodeChecksum(host, if len <= 0 then [] else data[..len])
  {
    var sum := Accumulate(host, data, len);
    sum := Fold(sum);
    check := (TWO32 - 1 - sum) % TWO16;
  }

  lemma ModAddLeft(a: nat, b: nat)
    ensures (a % TWO32 + b) % TWO32 == (a + b) % TWO32
  {
  }

  /** One end-around-carry fold makes the sum strictly smaller, keeps it non-zero and
      keeps its one's-complement value. */
  lemma FoldStep(sum: u32)
    requires sum / TWO16 != 0
    ensures 0 < sum % TWO16 + sum / TWO16 < sum
    ensures Canon(sum % TWO16 + sum / TWO16) == Canon(sum)
  {
    CanonShift(sum % TWO16 + sum / TWO16, sum / TWO16);
  }

  // --------------------------------------------------------------------------
  // Arithmetic modulo 65535
  // --------------------------------------------------------------------------

  /** The closed form: the residue modulo 65535, zero only for zero. */
  lemma {:induction false} CanonMod(x: nat)
    ensures x == 0 ==> Canon(x) == 0
    ensures x > 0 ==> Canon(x) == (x - 1) % 0xFFFF + 1
  {
    if x > 0xFFFF {
      CanonMod(x - 0xFFFF);
      assert (x - 1) % 0xFFFF == (x - 0xFFFF - 1) % 0xFFFF;
    }
  }

  lemma {:induction false} CanonShift(x: nat, k: nat)
    requires x > 0
    ensures Canon(x + 0xFFFF * k) == Canon(x)
  {
    if k > 0 {
      CanonShift(x, k - 1);
      assert x + 0xFFFF * k - 0xFFFF == x + 0xFFFF * (k - 1);
    }
  }

  /** Two positive sums have the same one's-complement value exactly when they are
      congruent modulo 65535. */
  lemma CanonCongruent(x: nat, y: nat)
    requires x > 0 && y > 0
    ensures Canon(x) == Canon(y) <==> (x - y) % 0xFFFF == 0
  {
    CanonMod(x);
    CanonMod(y);
    SameResidue(x - 1, y - 1);
  }

  lemma SameResidue(x: nat, y: nat)
    ensures x % 0xFFFF == y % 0xFFFF <==> (x - y) % 0xFFFF == 0
  {
  }

  /** Every positive sum is its representative plus a multiple of 65535. */
  lemma CanonQuotient(x: nat) returns (q: nat)
    requires x > 0
    ensures x == 0xFFFF * q + Canon(x)
  {
    CanonMod(x);
    q := (x - 1) / 0xFFFF;
  }

  lemma CanonAdd(a: u16, x: nat)
    ensures OnesAdd(a, Canon(x)) == Canon((a as int) + x)
  {
    if x > 0 {
      var q := CanonQuotient(x);
      CanonShift(a as int + Canon(x) as int, q);
    }
  }

  /** A 32-bit accumulator that wrapped fewer than 65535 times holds the right value
      exactly when it never wrapped. */
  lemma WrapLoses(s: nat)
    requires s < 16384 * TWO32
    ensures Canon(s % TWO32) == Canon(s) <==> s < TWO32
  {
    var wraps, kept := s / TWO32, s % TWO32;
    if wraps > 0 && kept > 0 {
      hide Canon;
      ResidueOfWraps(wraps);
      CanonCongruent(s, kept);
    }
  }

  lemma ResidueOfWraps(wraps: nat)
    requires wraps < 0xFFFF
    ensures (TWO32 * wraps) % 0xFFFF == wraps
  {
    assert TWO32 * wraps == 0xFFFF * (65537 * wraps) + wraps;
  }

  lemma OddByteShift(p: nat, b: u8)
    requires p >= b
    ensures Canon(p + 255 * (b as int)) == Canon(p) <==> b == 0
  {
    if b != 0 {
      CanonCongruent(p + 255 * (b as int), p);
    }
  }

  /** When the complement of a sum t is c. */
  lemma ComplementIs(t: nat, c: u16)
    ensures 0xFFFF - (Canon(t) as int) == c <==>
            if t == 0 then c == 0xFFFF else c != 0xFFFF && (t + c) % 0xFFFF == 0
  {
    if t > 0 && c != 0xFFFF {
      CanonCongruent(t, 0xFFFF - c);
      assert t - (0xFFFF - c) == (t + c) - 0xFFFF;
    }
  }

  lemma ComplementFills(s: nat)
    requires s > 0
    ensures Canon(s + (0xFFFF - (Canon(s) as int))) == 0xFFFF
  {
    var q := CanonQuotient(s);
    CanonShift(0xFFFF, q);
  }

  function Sum(words: seq<u16>): nat {
    if words == [] then 0 else (words[0] as int) + Sum(words[1..])
  }

  /** Deferring the carries, as section 2(A) of RFC 1071 allows: the one's-complement sum
      is the representative of the plain sum. */
  lemma {:induction false} OnesSumIsCanon(words: seq<u16>)
    ensures OnesSum(words) == Canon(Sum(words))
  {
    if words != [] {
      OnesSumIsCanon(words[1..]);
      CanonAdd(words[0], Sum(words[1..]));
    }
  }

  // --------------------------------------------------------------------------
  // When the code computes the RFC 1071 checksum
  // --------------------------------------------------------------------------

  /** How the code's word sum differs from that of the padded words: not at all, except
      for an odd byte on a little-endian host. */
  lemma {:induction false} WordSumOfPadded(host: Endian, data: seq<u8>)
    ensures WordSum(host, data) == Sum(PaddedWords(host, data))
                                   + if host.Little? && |data| % 2 == 1 then 255 * (data[|data| - 1] as int) else 0
  {
    if |data| > 1 {
      WordSumOfPadded(host, data[2..]);
      assert PaddedWords(host, data)[1..] == PaddedWords(host, data[2..]);
    } else if |data| == 1 {
      assert PaddedWords(host, data)[1..] == [];
    }
  }

  lemma {:induction false} WordSumBound(host: Endian, data: seq<u8>)
    ensures WordSum(host, data) <= 0xFFFF * ((|data| + 1) / 2)
  {
    if |data| > 1 {
      WordSumBound(host, data[2..]);
    }
  }

  /** At most 131074 bytes never wrap the 32-bit accumulator. */
  lemma NoWrap(host: Endian, data: seq<u8>)
    requires |data| <= 131074
    ensures WordSum(host, data) < TWO32
  {
    WordSumBound(host, data);
  }

  lemma CodeWithoutWrap(host: Endian, data: seq<u8>)
    requires |data| <= 131074
    ensures CodeChecksum(host, data) == 0xFFFF - (Canon(WordSum(host, data)) as int)
  {
    NoWrap(host, data);
  }

  function Repeat(n: nat): (data: seq<u8>)
    ensures |data| == n
  {
    seq(n, _ => 0xFF)
  }

  lemma {:induction false} RepeatSum(host: Endian, n: nat)
    ensures WordSum(host, Repeat(2 * n)) == 0xFFFF * n
  {
    if n > 0 {
      RepeatSum(host, n - 1);
      assert Repeat(2 * n)[2..] == Repeat(2 * (n - 1));
    }
  }

  /** The length bound is the best possible: two bytes more can wrap. */
  lemma WrapBoundIsTight(host: Endian)
    ensures |Repeat(131076)| == 131076 && WordSum(host, Repeat(131076)) >= TWO32
  {
    RepeatSum(host, 65538);
  }

  /** Every wrap loses 1 modulo 65535, so for whole words (or an odd byte on a big-endian
      host) and any length a C int can hold, the code returns the RFC 1071 checksum
      exactly when the accumulator does not wrap. */
  lemma ChecksumMeetsRfc(host: Endian, data: seq<u8>)
    requires |data| < TWO31
    requires host.Big? || |data| % 2 == 0
    ensures CodeChecksum(host, data) == RfcChecksum(host, data) <==> WordSum(host, data) < TWO32
  {
    var words := PaddedWords(host, data);
    OnesSumIsCanon(words);
    WordSumOfPadded(host, data);
    WordSumBound(host, data);
    WrapLoses(WordSum(host, data));
  }

  /** An odd byte on a little-endian host: the code returns the RFC 1071 checksum exactly
      when that byte is zero. */
  lemma OddByteOnLittleEndian(data: seq<u8>)
    requires |data| % 2 == 1 && |data| <= 131074
    ensures CodeChecksum(Little, data) == RfcChecksum(Little, data) <==> data[|data| - 1] == 0
  {
    var words := PaddedWords(Little, data);
    OnesSumIsCanon(words);
    WordSumOfPadded(Little, data);
    CodeWithoutWrap(Little, data);
    PaddedSumPositive(Little, data);
    OddByteShift(Sum(words), data[|data| - 1]);
  }

  /** A single byte 1 is a failing input. */
  lemma OddByteFails()
    ensures CodeChecksum(Little, [1]) != RfcChecksum(Little, [1])
  {
    OddByteOnLittleEndian([1]);
  }

  lemma {:induction false} PaddedSumPositive(host: Endian, data: seq<u8>)
    requires |data| % 2 == 1
    ensures Sum(PaddedWords(host, data)) >= data[|data| - 1] as int
  {
    if |data| > 1 {
      PaddedSumPositive(host, data[2..]);
      assert PaddedWords(host, data)[1..] == PaddedWords(host, data[2..]);
    } else {
      assert PaddedWords(host, data) == [Word(host, data[0], 0)];
      assert PaddedWords(host, data)[1..] == [];
    }
  }

  // --------------------------------------------------------------------------
  // Byte-order independence: section 2(B) of RFC 1071
  // --------------------------------------------------------------------------

  function Swap(w: u16): u16 {
    (w % 0x100) * 0x100 + w / 0x100
  }

  /** Swapping the bytes of a word multiplies it by 256 modulo 65535. */
  lemma {:induction false} SwappedSum(data: seq<u8>)
    requires |data| % 2 == 0
    ensures (WordSum(Big, data) - 0x100 * WordSum(Little, data)) % 0xFFFF == 0
    ensures WordSum(Big, data) == 0 <==> WordSum(Little, data) == 0
  {
    if data != [] {
      SwappedSum(data[2..]);
      var q := (WordSum(Big, data[2..]) - 0x100 * WordSum(Little, data[2..])) / 0xFFFF;
      var b1: int := data[1];
      assert WordSum(Big, data) - 0x100 * WordSum(Little, data) == 0xFFFF * (q - b1);
    }
  }

  lemma CanonTimes256(x: nat)
    ensures Canon(0x100 * x) == Swap(Canon(x))
  {
    if x > 0 {
      var c: int := Canon(x);
      var q := CanonQuotient(x);
      CanonShift(0x100 * c, 0x100 * q);
      var hi := c / 0x100;
      assert 0x100 * c == Swap(c) + 0xFFFF * hi;
      CanonShift(Swap(c), hi);
    }
  }

  lemma SwapComplement(c: u16)
    ensures 0xFFFF - (Swap(c) as int) == Swap(0xFFFF - c)
  {
    assert 0xFFFF - (c as int) == 0x100 * (0xFF - c / 0x100) + (0xFF - c % 0x100);
  }

  lemma CanonSwapped(l: nat, b: nat)
    requires (b - 0x100 * l) % 0xFFFF == 0 && (b == 0 <==> l == 0)
    ensures 0xFFFF - (Canon(b) as int) == Swap(0xFFFF - (Canon(l) as int))
  {
    CanonTimes256(l);
    if l > 0 {
      CanonCongruent(b, 0x100 * l);
    }
    SwapComplement(Canon(l));
  }

  /** Summing whole words on the other kind of host gives the same checksum, byte-swapped. */
  lemma ByteOrderIndependence(data: seq<u8>)
    requires |data| % 2 == 0 && |data| <= 131074
    ensures CodeChecksum(Big, data) == Swap(CodeChecksum(Little, data))
  {
    SwappedSum(data);
    CodeWithoutWrap(Little, data);
    CodeWithoutWrap(Big, data);
    CanonSwapped(WordSum(Little, data), WordSum(Big, data));
  }

  // --------------------------------------------------------------------------
  // validate_checksum
  // --------------------------------------------------------------------------

  /** validate_checksum: the stored field is part of the data that is summed. */
  predicate Accepts(host: Endian, region: seq<u8>, check: u16) {
    CodeChecksum(host, region) == check
  }

  /** The data with the two bytes of the check field at offset k zeroed. */
  function Blank(region: seq<u8>, k: nat): (r: seq<u8>)
    requires k + 2 <= |region|
  {
    region[k := 0][k + 1 := 0]
  }

  lemma {:induction false} SumWithField(host: Endian, region: seq<u8>, k: nat)
    requires k % 2 == 0 && k + 2 <= |region|
    ensures WordSum(host, region) == WordSum(host, Blank(region, k)) + Word(host, region[k], region[k + 1])
  {
    if k == 0 {
      assert Blank(region, k)[2..] == region[2..];
    } else {
      SumWithField(host, region[2..], k - 2);
      assert Blank(region, k)[2..] == Blank(region[2..], k - 2);
    }
  }

  /** Exactly which fields the test lets through, whatever they have to do with the data: for
      data summing to t > 0 those that complete t to a multiple of 65535, 65535 itself excepted;
      for all-zero data only 65535. */
  lemma AcceptsAny(host: Endian, region: seq<u8>, c: u16)
    requires |region| <= 131074
    ensures var t := WordSum(host, region);
            Accepts(host, region, c) <==> if t == 0 then c == 0xFFFF else c != 0xFFFF && (t + c) % 0xFFFF == 0
  {
    CodeWithoutWrap(host, region);
    ComplementIs(WordSum(host, region), c);
  }

  /** Exactly which stored fields the test lets through, for a field at an even offset of the
      data and other words summing to S: with S = 0 none at all. */
  lemma AcceptsExactly(host: Endian, region: seq<u8>, k: nat)
    requires k % 2 == 0 && k + 2 <= |region| <= 131074
    ensures var s, c := WordSum(host, Blank(region, k)), Word(host, region[k], region[k + 1]);
            Accepts(host, region, c) <==> s > 0 && c != 0xFFFF && (s + 2 * (c as int)) % 0xFFFF == 0
  {
    var s, c := WordSum(host, Blank(region, k)), Word(host, region[k], region[k + 1]);
    SumWithField(host, region, k);
    AcceptsAny(host, region, c);
    hide Accepts, WordSum;
    assert s == 0 ==> WordSum(host, region) == c;
  }

  /** Section 3.1 of RFC 791 and section 1 of RFC 1071: a header is good when its
      one's-complement sum, field included, is all ones. */
  predicate RfcValid(host: Endian, region: seq<u8>) {
    OnesSum(PaddedWords(host, region)) == 0xFFFF
  }

  /** Even-length data that is good by RFC 1071 passes the test exactly when the field it is
      tested against is zero. */
  lemma ValidAcceptedIffZero(host: Endian, region: seq<u8>, check: u16)
    requires |region| <= 131074 && |region| % 2 == 0
    requires RfcValid(host, region)
    ensures Accepts(host, region, check) <==> check == 0
  {
    OnesSumIsCanon(PaddedWords(host, region));
    WordSumOfPadded(host, region);
    CodeWithoutWrap(host, region);
  }

  /** Storing the computed checksum in the blanked field makes the data good by RFC 1071:
      what a sender does. */
  lemma StoringMakesValid(host: Endian, region: seq<u8>, k: nat)
    requires k % 2 == 0 && k + 2 <= |region| <= 131074 && |region| % 2 == 0
    requires WordSum(host, Blank(region, k)) > 0
    requires Word(host, region[k], region[k + 1]) == CodeChecksum(host, Blank(region, k))
    ensures RfcValid(host, region)
  {
    OnesSumIsCanon(PaddedWords(host, region));
    WordSumOfPadded(host, region);
    SumWithField(host, region, k);
    CodeWithoutWrap(host, Blank(region, k));
    ComplementFills(WordSum(host, Blank(region, k)));
  }
}
