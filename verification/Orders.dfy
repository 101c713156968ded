/** Market data in, orders out: src/packet_processor.c. */
module Orders {
  import opened Bytes
  import opened Arithmetic

  const MARKET_DATA_LEN: int := 24
  const ORDER_LEN: int := 41
  const ID_LEN: int := 16
  const PRICE_LIMIT: u32 := 10000

  // --------------------------------------------------------------------------
  // Client order ids
  // --------------------------------------------------------------------------

  /** %llu, as ASCII */
  function Decimal(n: nat): (text: seq<u8>)
    ensures |text| >= 1 && forall i :: 0 <= i < |text| ==> 48 <= text[i] < 58
  {
    if n < 10 then [48 + n] else Decimal(n / 10) + [48 + n % 10]
  }

  /** The number a string of decimal digits stands for. */
  function Value(text: seq<u8>): int {
    if text == [] then 0 else 10 * Value(text[..|text| - 1]) + (text[|text| - 1] as int - 48)
  }

  /** Digits without a leading zero, unless there is just the one. */
  predicate Digits(text: seq<u8>) {
    && |text| >= 1 && (|text| > 1 ==> text[0] != 48)
    && forall i :: 0 <= i < |text| ==> 48 <= text[i] <= 57
  }

  /** Printing and reading back. */
  lemma {:induction false} DecimalValue(n: nat)
    ensures Digits(Decimal(n)) && Value(Decimal(n)) == n && (n > 0 ==> Decimal(n)[0] != 48)
  {
    if n < 10 {
      assert Decimal(n)[..0] == [];
    } else {
      DecimalValue(n / 10);
      var d := Decimal(n);
      assert d[..|d| - 1] == Decimal(n / 10);
    }
  }

  const ORD: seq<u8> := [79, 82, 68]

  /** What snprintf leaves in a 16-byte field, before the terminating NUL. */
  function IdText(timestamp: u64): (text: seq<u8>)
    ensures |text| < ID_LEN && 0 !in text
  {
    var text := ORD + Decimal(timestamp);
    if |text| < ID_LEN then text else text[..ID_LEN - 1]
  }

  /** The field: the bytes after the NUL keep what was in the allocation. */
  function IdField(timestamp: u64, before: seq<u8>): (field: seq<u8>)
    requires |before| == ID_LEN
    ensures |field| == ID_LEN
  {
    var text := IdText(timestamp);
    text + [0] + before[|text| + 1..]
  }

  /** A field read as a C string. */
  function CString(field: seq<u8>): seq<u8> {
    if field == [] || field[0] == 0 then [] else [field[0]] + CString(field[1..])
  }

  lemma {:induction false} CStringStops(text: seq<u8>, rest: seq<u8>)
    requires 0 !in text
    ensures CString(text + [0] + rest) == text
  {
    var field := text + [0] + rest;
    if text != [] {
      assert field[0] == text[0] && field[1..] == text[1..] + [0] + rest;
      assert forall x :: x in text[1..] ==> x in text;
      CStringStops(text[1..], rest);
    }
  }

  /** Whatever the allocation held, the field read as a C string is the text; what the
      allocation held is still there behind the NUL. */
  lemma IdFieldReadsText(timestamp: u64, before: seq<u8>)
    requires |before| == 16
    ensures var field, text := IdField(timestamp, before), IdText(timestamp);
            CString(field) == text && field[|text| + 1..] == before[|text| + 1..]
  {
    CStringStops(IdText(timestamp), before[|IdText(timestamp)| + 1..]);
  }

  function Pow10(k: nat): (p: nat)
    ensures p >= 1
  {
    if k == 0 then 1 else 10 * Pow10(k - 1)
  }

  /** The number formed by at most the first twelve digits. */
  function Lead(n: nat): nat {
    if n < 1_000_000_000_000 then n else Lead(n / 10)
  }

  lemma {:induction false} DecimalLength(n: nat, k: nat)
    requires k >= 1
    ensures |Decimal(n)| <= k <==> n < Pow10(k)
  {
    if n >= 10 {
      if k == 1 {
        assert Pow10(1) == 10 * Pow10(0);
      } else {
        DecimalLength(n / 10, k - 1);
      }
    }
  }

  lemma {:induction false} DecimalInjective(m: nat, n: nat)
    requires Decimal(m) == Decimal(n)
    ensures m == n
  {
    DecimalLength(m, 1);
    DecimalLength(n, 1);
    assert Pow10(1) == 10 * Pow10(0) == 10;
    if m >= 10 {
      var dm, dn := Decimal(m), Decimal(n);
      assert dm[..|dm| - 1] == Decimal(m / 10) && dn[..|dn| - 1] == Decimal(n / 10);
      assert dm[|dm| - 1] == 48 + m % 10 && dn[|dn| - 1] == 48 + n % 10;
      DecimalInjective(m / 10, n / 10);
    }
  }

  lemma Pow10Twelve()
    ensures Pow10(12) == 1_000_000_000_000
  {
    assert Pow10(4) == 10 * (10 * (10 * (10 * Pow10(0))));
    assert Pow10(8) == 10 * (10 * (10 * (10 * Pow10(4))));
    assert Pow10(12) == 10 * (10 * (10 * (10 * Pow10(8))));
  }

  /** Cutting a decimal to twelve characters prints its leading digits. */
  lemma {:induction false} CutIsLead(n: nat)
    ensures var d := Decimal(n);
            Decimal(Lead(n)) == if |d| <= 12 then d else d[..12]
  {
    Pow10Twelve();
    DecimalLength(n, 12);
    if n >= 1_000_000_000_000 {
      CutIsLead(n / 10);
      var d := Decimal(n);
      assert d[..|d| - 1] == Decimal(n / 10);
      assert d[..12] == d[..|d| - 1][..12];
    }
  }

  /** Two orders carry the same id exactly when the first twelve digits of their timestamps,
      or all of them if there are fewer, form the same number. */
  lemma SameIdIff(a: u64, b: u64)
    ensures IdText(a) == IdText(b) <==> Lead(a) == Lead(b)
  {
    CutIsLead(a);
    CutIsLead(b);
    IdTextIsLead(a);
    IdTextIsLead(b);
    hide IdText, Decimal;
    if IdText(a) == IdText(b) {
      assert IdText(a)[3..] == Decimal(Lead(a)) && IdText(b)[3..] == Decimal(Lead(b));
      DecimalInjective(Lead(a), Lead(b));
    }
  }

  lemma IdTextIsLead(n: u64)
    ensures IdText(n) == ORD + Decimal(Lead(n))
  {
    CutIsLead(n);
    var d := Decimal(n);
    if |d| > 12 {
      assert (ORD + d)[..15] == ORD + d[..12];
    }
  }

  lemma {:induction false} LeadIsQuotient(n: nat, d: nat)
    requires d == |Decimal(n)| > 12
    ensures Lead(n) == n / Pow10(d - 12)
  {
    Pow10Twelve();
    DecimalLength(n, 12);
    assert |Decimal(n / 10)| == d - 1;
    if d == 13 {
      DecimalLength(n / 10, 12);
      assert Pow10(1) == 10 * Pow10(0) == 10;
    } else {
      LeadIsQuotient(n / 10, d - 1);
      DivideTwice(n, 10, Pow10(d - 13));
      assert Product(10, Pow10(d - 13)) == Pow10(d - 12);
    }
  }

  /** For timestamps with the same number of digits: with more than twelve digits the ids are
      equal exactly when the timestamps agree after dividing by 10^(d-12), with twelve or fewer
      exactly when they are equal. */
  lemma SameIdAmongSameLength(a: u64, b: u64)
    requires |Decimal(a)| == |Decimal(b)|
    ensures var d := |Decimal(a)|;
            IdText(a) == IdText(b) <==> if d > 12 then a / Pow10(d - 12) == b / Pow10(d - 12) else a == b
  {
    SameIdIff(a, b);
    Pow10Twelve();
    DecimalLength(a, 12);
    DecimalLength(b, 12);
    if |Decimal(a)| > 12 {
      LeadIsQuotient(a, |Decimal(a)|);
      LeadIsQuotient(b, |Decimal(b)|);
    }
  }

  /** Nanosecond clock readings of today have nineteen digits: two orders share their id
      exactly when they were made in the same ten-millisecond slot. */
  lemma ClockIdsCollideWithinTenMilliseconds(a: u64, b: u64)
    requires |Decimal(a)| == |Decimal(b)| == 19
    ensures IdText(a) == IdText(b) <==> a / 10_000_000 == b / 10_000_000
  {
    SameIdAmongSameLength(a, b);
    assert Pow10(4) == 10 * (10 * (10 * (10 * Pow10(0))));
    assert Pow10(7) == 10 * (10 * (10 * Pow10(4))) == 10_000_000;
  }

  // --------------------------------------------------------------------------
  // The order
  // --------------------------------------------------------------------------

  /** struct trading_order */
  datatype Order = Order(symbol: seq<u8>, price: u32, quantity: u32, side: u8, timestamp: u64, clOrdId: seq<u8>) {
    predicate Valid() {
      |symbol| == 8 && |clOrdId| == ID_LEN
    }
  }

  /** The packed struct in memory. */
  function Encode(o: Order): (b: seq<u8>)
    requires o.Valid()
    ensures |b| == ORDER_LEN
  {
    o.symbol + PutLe32(o.price) + PutLe32(o.quantity) + [o.side] + PutLe64(o.timestamp) + o.clOrdId
  }

  /** Reading the packed struct. */
  function Decode(b: seq<u8>): Order
    requires |b| == ORDER_LEN
  {
    Order(b[..8], Le32(b, 8), Le32(b, 12), b[16], Le64(b, 17), b[25..])
  }

  lemma OrderRoundTrip(o: Order)
    requires o.Valid()
    ensures Decode(Encode(o)) == o
  {
    hide PutLe32, PutLe64;
    var b := Encode(o);
    assert b[..8] == o.symbol && b[8..12] == PutLe32(o.price) && b[12..16] == PutLe32(o.quantity);
    assert b[17..25] == PutLe64(o.timestamp) && b[25..] == o.clOrdId;
    assert Le32(b, 8) == Le32(b[8..12], 0) && Le32(b, 12) == Le32(b[12..16], 0);
    assert Le64(b, 17) == Le64(b[17..25], 0);
  }

  /** A return code, and an order when that code is 1. */
  datatype Decision = Decision(code: int, order: Option<Order>)

  function BuyOrder(payload: seq<u8>, timestamp: u64, before: seq<u8>): (o: Order)
    requires |payload| >= MARKET_DATA_LEN && Le32(payload, 8) < PRICE_LIMIT && |before| == ID_LEN
    ensures o.Valid()
  {
    Order(payload[..8], Le32(payload, 8) + 1, 100, 0, timestamp, IdField(timestamp, before))
  }

  /** What process_market_data does with its payload and with what the kernel gives it. */
  function Decide(payload: seq<u8>, memory: bool, timestamp: u64, before: seq<u8>): (d: Decision)
    requires |before| == ID_LEN
    ensures d.order.Some? <==> d.code == 1
    ensures d.order.Some? ==> d.order.value.Valid()
  {
    if |payload| < MARKET_DATA_LEN then Decision(EINVAL, None)
    else if Le32(payload, 8) < PRICE_LIMIT then
      if memory then Decision(1, Some(BuyOrder(payload, timestamp, before)))
      else Decision(ENOMEM, None)
    else Decision(0, None)
  }

  /** process_market_data, filling the order field by field. */
  method ProcessMarketData(payload: seq<u8>, memory: bool, timestamp: u64, before: seq<u8>)
      returns (code: int, order: Option<Order>)
    requires |before| == ID_LEN
    ensures Decision(code, order) == Decide(payload, memory, timestamp, before)
  {
    order := None;
    if |payload| < MARKET_DATA_LEN {
      return EINVAL, None;
    }
    var price := Le32(payload, 8);
    if price < PRICE_LIMIT {
      if !memory {
        return ENOMEM, None;
      }
      var o := Order(payload[..8], 0, 0, 0, 0, before);
      o := o.(price := price + 1);
      o := o.(quantity := 100);
      o := o.(side := 0);
      o := o.(timestamp := timestamp);
      o := o.(clOrdId := IdField(o.timestamp, before));
      return 1, Some(o);
    }
    code := 0;
  }

  /** Market data that calls for an order: 24 bytes or more, priced under 100 dollars. */
  predicate Attractive(data: seq<u8>) {
    |data| >= 24 && Le32(data, 8) < 10000
  }

  /** An id for this time: "ORD" and the time in decimal, or its first twelve digits. */
  ghost predicate IdFor(id: seq<u8>, time: u64) {
    && |id| > 3 && id[..3] == [79, 82, 68] && Digits(id[3..])
    && if time < 1_000_000_000_000 then Value(id[3..]) == time
       else |id| == 15 && exists k :: k > 0 && Value(id[3..]) == time / Pow10(k)
  }

  lemma IdTextIsId(time: u64)
    ensures IdFor(IdText(time), time)
  {
    IdTextIsLead(time);
    DecimalValue(Lead(time));
    Pow10Twelve();
    var id := IdText(time);
    assert id[..3] == ORD && id[3..] == Decimal(Lead(time));
    if time >= 1_000_000_000_000 {
      CutIsLead(time);
      DecimalLength(time, 12);
      var d := |Decimal(time)|;
      LeadIsQuotient(time, d);
      hide Decimal, Lead, Value;
      assert Value(id[3..]) == time / Pow10(d - 12);
    }
  }

  /** These bytes are an order to buy 100 of the symbol in the data at one cent above its price,
      stamped with the time and named after it. */
  ghost predicate OrderFor(bytes: seq<u8>, data: seq<u8>, time: u64)
    requires Attractive(data)
  {
    && |bytes| == 41
    && bytes[..8] == data[..8] && Le32(bytes, 8) == Le32(data, 8) + 1 && Le32(bytes, 12) == 100
    && bytes[16] == 0 && Le64(bytes, 17) == time && IdFor(CString(bytes[25..]), time)
  }

  /** An order is made, with code 1, exactly for attractive data when there is memory for it, and
      its bytes are the ones called for; short data is -EINVAL, missing memory -ENOMEM. */
  lemma DecisionOnWire(payload: seq<u8>, memory: bool, timestamp: u64, before: seq<u8>)
    requires |before| == 16
    ensures var d := Decide(payload, memory, timestamp, before);
            && (d.order.Some? <==> Attractive(payload) && memory)
            && (d.order.Some? ==> OrderFor(Encode(d.order.value), payload, timestamp))
            && d.code == if |payload| < 24 then -22 else if !Attractive(payload) then 0 else if memory then 1 else -12
  {
    var d := Decide(payload, memory, timestamp, before);
    if d.order.Some? {
      var o := d.order.value;
      OrderRoundTrip(o);
      IdFieldReadsText(timestamp, before);
      IdTextIsId(timestamp);
      assert Decode(Encode(o)) == o;
      hide Encode, IdField, IdText, CString, IdFor;
    }
  }

  /** At the limits: a price of 9999 gets an order and 10000 does not; 24 bytes are enough and 23
      are an error. */
  lemma DecisionAtTheLimits(payload: seq<u8>, timestamp: u64, before: seq<u8>)
    requires |before| == 16
    ensures |payload| == 24 && Le32(payload, 8) == 9999 ==> Decide(payload, true, timestamp, before).order.Some?
    ensures |payload| == 24 && Le32(payload, 8) == 10000 ==>
              Decide(payload, true, timestamp, before) == Decision(0, None)
    ensures |payload| == 23 ==> Decide(payload, true, timestamp, before) == Decision(-22, None)
  {
    hide Le32;
  }
}
