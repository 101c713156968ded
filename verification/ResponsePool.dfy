/** The pool of preallocated response buffers of src/optimizations.c, for any size of at
    least one.  A buffer is an identity; freeing is reported through an out-parameter. */
module ResponsePool {
  import opened Bytes

  /** The pool as a value: NULL slots are None. */
  datatype Pool<B> = Pool(slots: seq<Option<B>>, head: nat, tail: nat) {
    predicate Valid() {
      head < |slots| && tail < |slots|
    }
  }

  function Filled<B>(buffers: seq<B>): (r: seq<Option<B>>)
    ensures |r| == |buffers|
    ensures forall i :: 0 <= i < |r| ==> r[i] == Some(buffers[i])
  {
    seq(|buffers|, i requires 0 <= i < |buffers| => Some(buffers[i]))
  }

  function Nulls<B>(n: nat): (r: seq<Option<B>>)
    ensures |r| == n
    ensures forall i :: 0 <= i < n ==> r[i] == None
  {
    seq(n, _ => None)
  }

  /** The buffers still in the slots, in order. */
  function Held<B>(slots: seq<Option<B>>): seq<B> {
    if slots == [] then []
    else Listed(slots[0]) + Held(slots[1..])
  }

  function Listed<B>(o: Option<B>): seq<B> {
    if o.Some? then [o.value] else []
  }

  lemma HeldFrom<B>(slots: seq<Option<B>>, i: nat)
    requires i < |slots|
    ensures Held(slots[i..]) == Listed(slots[i]) + Held(slots[i + 1..])
  {
    assert slots[i..][1..] == slots[i + 1..];
  }

  lemma HeldNone<B>()
    ensures Held<B>([]) == []
  {
  }

  predicate Empty<B>(p: Pool<B>)
    requires p.Valid()
  {
    (p.head + 1) % |p.slots| == p.tail
  }

  function Taken<B>(p: Pool<B>): Option<B>
    requires p.Valid()
  {
    if Empty(p) then None else p.slots[p.head]
  }

  function AfterTake<B>(p: Pool<B>): (r: Pool<B>)
    requires p.Valid()
    ensures r.Valid() && |r.slots| == |p.slots|
  {
    if Empty(p) then p
    else Pool(p.slots[p.head := None], (p.head + 1) % |p.slots|, p.tail)
  }

  function AfterCleanup<B>(p: Pool<B>): (r: Pool<B>)
    requires p.Valid()
    ensures r.Valid() && |r.slots| == |p.slots|
  {
    Pool(Nulls(|p.slots|), 0, 0)
  }

  /** How many allocations succeed before the first that fails. */
  function Successes<B>(supply: seq<Option<B>>): (n: nat)
    ensures n <= |supply|
    ensures forall i :: 0 <= i < n ==> supply[i].Some?
    ensures n < |supply| ==> supply[n].None?
  {
    if supply == [] || supply[0].None? then 0 else 1 + Successes(supply[1..])
  }

  class SkbPool<B> {
    const slots: array<Option<B>>
    var head: nat
    var tail: nat

    ghost predicate Valid()
      reads this, slots
    {
      Abs().Valid()
    }

    ghost function Abs(): Pool<B>
      reads this, slots
    {
      Pool(slots[..], head, tail)
    }

    constructor (size: nat)
      requires size >= 1
      ensures Valid() && fresh(slots) && slots.Length == size
    {
      slots := new Option<B>[size](_ => None);
      head, tail := 0, 0;
    }

    /** nanonet_init_response_pool: the i-th allocation gives supply[i].  When one fails, every
        buffer allocated so far is freed, last first. */
    method Init(supply: seq<Option<B>>) returns (ret: int, freed: seq<B>)
      requires slots.Length >= 1 && |supply| == slots.Length
      modifies this, slots
      ensures Valid()
      ensures ret == if Successes(supply) == |supply| then 0 else ENOMEM
      ensures ret == 0 ==> freed == [] && Abs() == Pool(supply, 0, 0)
      ensures ret != 0 ==> |freed| == Successes(supply)
                           && forall i :: 0 <= i < |freed| ==> Some(freed[|freed| - 1 - i]) == supply[i]
    {
      head, tail, freed := 0, 0, [];
      var i := 0;
      while i < slots.Length
        invariant 0 <= i <= slots.Length && head == tail == 0 && freed == []
        invariant slots[..i] == supply[..i] && i <= Successes(supply)
      {
        slots[i] := supply[i];
        if slots[i].None? {
          assert i == Successes(supply);
          ghost var n := i;
          while i > 0
            invariant 0 <= i <= n && |freed| == n - i
            invariant forall j :: i <= j < n ==> Some(freed[n - 1 - j]) == supply[j]
          {
            i := i - 1;
            assert slots[i] == slots[..n][i] == supply[i];
            freed := freed + [slots[i].value];
          }
          ret := ENOMEM;
          return;
        }
        i := i + 1;
      }
      ret := 0;
    }

    /** nanonet_cleanup_response_pool */
    method Cleanup() returns (freed: seq<B>)
      requires Valid()
      modifies this, slots
      ensures Valid() && Abs() == AfterCleanup(old(Abs())) && freed == Held(old(slots[..]))
    {
      hide Held;
      freed := [];
      ghost var was := slots[..];
      assert was[0..] == was;
      for i := 0 to slots.Length
        invariant forall j :: 0 <= j < slots.Length ==> slots[j] == if j < i then None else was[j]
        invariant freed + Held(was[i..]) == Held(was)
      {
        HeldFrom(was, i);
        if slots[i].Some? {
          freed := freed + [slots[i].value];
          slots[i] := None;
        }
      }
      head, tail := 0, 0;
      HeldNone<B>();
      assert was[slots.Length..] == [] && slots[..] == Nulls(slots.Length);
    }

    /** nanonet_get_response_skb */
    method Get() returns (skb: Option<B>)
      requires Valid()
      modifies this, slots
      ensures Valid() && Abs() == AfterTake(old(Abs())) && skb == Taken(old(Abs()))
    {
      if (head + 1) % slots.Length == tail {
        return None;
      }
      skb := slots[head];
      slots[head] := None;
      head := (head + 1) % slots.Length;
    }
  }

  // --------------------------------------------------------------------------
  // Whole runs
  // --------------------------------------------------------------------------

  datatype Op = Take | Cleanup

  /** The pool with everything handed out and freed so far, in order. */
  datatype Ledger<B> = Ledger(pool: Pool<B>, taken: seq<B>, freed: seq<B>)

  function Perform<B>(l: Ledger<B>, op: Op): (r: Ledger<B>)
    requires l.pool.Valid()
    ensures r.pool.Valid() && |r.pool.slots| == |l.pool.slots|
  {
    match op
    case Take => Ledger(AfterTake(l.pool), l.taken + Listed(Taken(l.pool)), l.freed)
    case Cleanup => Ledger(AfterCleanup(l.pool), l.taken, l.freed + Held(l.pool.slots))
  }

  function Run<B>(buffers: seq<B>, ops: seq<Op>): (l: Ledger<B>)
    requires |buffers| >= 1
    ensures l.pool.Valid() && |l.pool.slots| == |buffers|
  {
    if ops == [] then Ledger(Pool(Filled(buffers), 0, 0), [], [])
    else Perform(Run(buffers, ops[..|ops| - 1]), ops[|ops| - 1])
  }

  /** Takes before the first cleanup. */
  function Takes(ops: seq<Op>): nat {
    if ops == [] || ops[0].Cleanup? then 0 else 1 + Takes(ops[1..])
  }

  function HandedOut(size: nat, ops: seq<Op>): (n: nat)
    requires size >= 1
    ensures n < size
  {
    if Takes(ops) < size - 1 then Takes(ops) else size - 1
  }

  lemma {:induction false} TakesGrow(ops: seq<Op>, op: Op)
    ensures Takes(ops + [op]) == if Cleanup in ops || op.Cleanup? then Takes(ops) else Takes(ops) + 1
    ensures Cleanup !in ops ==> Takes(ops) == |ops|
  {
    if ops != [] {
      TakesGrow(ops[1..], op);
      assert (ops + [op])[1..] == ops[1..] + [op];
      assert Cleanup in ops <==> ops[0] == Cleanup || Cleanup in ops[1..];
    }
  }

  lemma {:induction false} HeldOfParts<B>(n: nat, buffers: seq<B>)
    ensures Held(Nulls<B>(n) + Filled(buffers)) == buffers
  {
    var all := Nulls<B>(n) + Filled(buffers);
    if n > 0 {
      HeldOfParts(n - 1, buffers);
      assert all[1..] == Nulls<B>(n - 1) + Filled(buffers);
    } else if buffers != [] {
      HeldOfParts(0, buffers[1..]);
      assert all[1..] == Nulls<B>(0) + Filled(buffers[1..]);
    }
  }

  lemma HeldOfNulls<B>(n: nat)
    ensures Held(Nulls<B>(n)) == []
  {
    HeldOfParts<B>(n, []);
    assert Nulls<B>(n) + Filled<B>([]) == Nulls<B>(n);
  }

  /** A take with n buffers handed out so far. */
  lemma OneTake<B>(buffers: seq<B>, n: nat)
    requires n < |buffers|
    ensures var p := Pool(Nulls(n) + Filled(buffers[n..]), n, 0);
            if n == |buffers| - 1 then Taken(p) == None && AfterTake(p) == p
            else Taken(p) == Some(buffers[n])
                 && AfterTake(p) == Pool(Nulls(n + 1) + Filled(buffers[n + 1..]), n + 1, 0)
  {
    var p := Pool(Nulls<B>(n) + Filled(buffers[n..]), n, 0);
    assert p.slots[n] == Some(buffers[n]);
    if n < |buffers| - 1 {
      assert (n + 1) % |buffers| == n + 1;
      assert p.slots[n := None] == Nulls<B>(n + 1) + Filled(buffers[n + 1..]);
    }
  }

  /** Where a run stands: the first n buffers handed out in order, the others freed by a
      cleanup or still in their slots. */
  ghost predicate Stands<B>(buffers: seq<B>, n: nat, cleaned: bool, l: Ledger<B>) {
    && n < |buffers| && l.pool.Valid() && l.pool.tail == 0 && l.taken == buffers[..n]
    && if cleaned then l.freed == buffers[n..] && l.pool.slots == Nulls(|buffers|)
       else l.freed == [] && l.pool.head == n && l.pool.slots == Nulls(n) + Filled(buffers[n..])
  }

  lemma StandsAfterTake<B>(buffers: seq<B>, n: nat, cleaned: bool, l: Ledger<B>)
    requires Stands(buffers, n, cleaned, l)
    ensures Stands(buffers, if cleaned || n == |buffers| - 1 then n else n + 1, cleaned, Perform(l, Take))
  {
    if cleaned {
      assert Nulls<B>(|buffers|)[l.pool.head := None] == Nulls<B>(|buffers|);
    } else {
      OneTake(buffers, n);
      assert l.pool == Pool(Nulls(n) + Filled(buffers[n..]), n, 0);
      hide Taken, AfterTake, Nulls, Filled;
      assert buffers[..n] + [buffers[n]] == buffers[..n + 1];
    }
  }

  lemma StandsAfterCleanup<B>(buffers: seq<B>, n: nat, cleaned: bool, l: Ledger<B>)
    requires Stands(buffers, n, cleaned, l)
    ensures Stands(buffers, n, true, Perform(l, Cleanup))
  {
    HeldOfNulls<B>(|buffers|);
    HeldOfParts(n, buffers[n..]);
    hide Nulls, Filled, Held;
    assert |l.pool.slots| == |buffers|;
  }

  /** The shape of every run: the first size-1 takes before any cleanup hand out the original
      buffers in order, every other take hands out nothing, and the first cleanup frees
      exactly the rest. */
  lemma {:induction false} RunShape<B>(buffers: seq<B>, ops: seq<Op>)
    requires |buffers| >= 1
    ensures Stands(buffers, HandedOut(|buffers|, ops), Cleanup in ops, Run(buffers, ops))
  {
    if ops == [] {
      assert Nulls<B>(0) + Filled(buffers) == Filled(buffers) && buffers[0..] == buffers;
    } else {
      var shorter, op := ops[..|ops| - 1], ops[|ops| - 1];
      assert ops == shorter + [op];
      RunShape(buffers, shorter);
      TakesGrow(shorter, op);
      hide Stands, Perform;
      var l, n := Run(buffers, shorter), HandedOut(|buffers|, shorter);
      if op.Cleanup? {
        StandsAfterCleanup(buffers, n, Cleanup in shorter, l);
      } else {
        StandsAfterTake(buffers, n, Cleanup in shorter, l);
      }
    }
  }

  lemma Rejoin<B>(s: seq<B>, n: nat)
    requires n <= |s|
    ensures s[..n] + s[n..] + [] == s && s[..n] + [] + s[n..] == s
  {
  }

  lemma StandsConserves<B>(buffers: seq<B>, n: nat, cleaned: bool, l: Ledger<B>)
    requires Stands(buffers, n, cleaned, l)
    ensures l.taken + l.freed + Held(l.pool.slots) == buffers
  {
    HeldOfNulls<B>(|buffers|);
    HeldOfParts(n, buffers[n..]);
    Rejoin(buffers, n);
    hide Held, Nulls, Filled;
  }

  /** Conservation in every run: handed out, freed and still held buffers are together exactly
      the original ones, so with distinct buffers none is lost, handed out twice or freed
      twice. */
  lemma BuffersConserved<B>(buffers: seq<B>, ops: seq<Op>)
    requires |buffers| >= 1
    ensures var l := Run(buffers, ops);
            l.taken + l.freed + Held(l.pool.slots) == buffers
  {
    RunShape(buffers, ops);
    hide Stands, Run;
    StandsConserves(buffers, HandedOut(|buffers|, ops), Cleanup in ops, Run(buffers, ops));
  }

  /** What the next take returns after any run. */
  lemma NextTake<B>(buffers: seq<B>, ops: seq<Op>)
    requires |buffers| >= 1
    ensures Taken(Run(buffers, ops).pool) ==
            if Cleanup !in ops && |ops| < |buffers| - 1 then Some(buffers[|ops|]) else None
  {
    RunShape(buffers, ops);
    TakesGrow(ops, Take);
    if Cleanup !in ops {
      OneTake(buffers, HandedOut(|buffers|, ops));
    }
  }
}
