/** The chained hash table of src/security.c, for any hash function. */
module ConnectionTable {
  import opened Bytes
  import opened Checksum
  import opened Connections
  import opened HList

  const HASH_SIZE: int := 1024

  type Hash = (u32, u32, u32, u32) -> u32

  /** The bucket of a 4-tuple.  jhash_3words stays uninterpreted: any function will do. */
  function Slot(jhash: Hash, k: Key): (b: nat)
    ensures b < HASH_SIZE
  {
    jhash(k.srcIp, k.dstIp, Swap(k.srcPort) * TWO16 + Swap(k.dstPort), 0) % HASH_SIZE
  }

  // --------------------------------------------------------------------------
  // One bucket's share of the map
  // --------------------------------------------------------------------------

  /** Bucket b's chain holds, once each, exactly the connections of the map that hash to b. */
  ghost predicate Good(jhash: Hash, chain: seq<Conn>, view: map<Key, Conn>, b: nat) {
    && (forall i :: 0 <= i < |chain| ==>
          Slot(jhash, chain[i].key) == b && chain[i].key in view && view[chain[i].key] == chain[i])
    && (forall i, j :: 0 <= i < j < |chain| ==> chain[i].key != chain[j].key)
    && (forall k :: k in view && Slot(jhash, k) == b ==> exists i :: 0 <= i < |chain| && chain[i].key == k)
  }

  /** A change of the map outside bucket b. */
  lemma GoodElsewhere(jhash: Hash, chain: seq<Conn>, view: map<Key, Conn>, b: nat, view': map<Key, Conn>, key: Key)
    requires Good(jhash, chain, view, b) && Slot(jhash, key) != b && view - {key} == view' - {key}
    ensures Good(jhash, chain, view', b)
  {
    forall k | Slot(jhash, k) == b
      ensures k in view <==> k in view'
      ensures k in view ==> view[k] == view'[k]
    {
      assert k in view <==> k in view - {key};
      assert k in view' <==> k in view' - {key};
    }
  }

  lemma GoodAddHead(jhash: Hash, chain: seq<Conn>, view: map<Key, Conn>, conn: Conn)
    requires Good(jhash, chain, view, Slot(jhash, conn.key)) && conn.key !in view
    ensures Good(jhash, [conn] + chain, view[conn.key := conn], Slot(jhash, conn.key))
  {
    var chain', b := [conn] + chain, Slot(jhash, conn.key);
    hide Slot;
    forall k | k in view[conn.key := conn] && Slot(jhash, k) == b
      ensures exists i :: 0 <= i < |chain'| && chain'[i].key == k
    {
      if k == conn.key {
        assert chain'[0].key == k;
      } else {
        var i :| 0 <= i < |chain| && chain[i].key == k;
        assert chain'[i + 1].key == k;
      }
    }
  }

  lemma GoodWrite(jhash: Hash, chain: seq<Conn>, view: map<Key, Conn>, b: nat, i: nat, conn: Conn)
    requires Good(jhash, chain, view, b) && i < |chain| && conn.key == chain[i].key
    ensures Good(jhash, chain[i := conn], view[conn.key := conn], b)
  {
    var chain' := chain[i := conn];
    forall k | k in view && Slot(jhash, k) == b
      ensures exists j :: 0 <= j < |chain'| && chain'[j].key == k
    {
      var j :| 0 <= j < |chain| && chain[j].key == k;
      assert chain'[j].key == k;
    }
  }

  lemma GoodDelete(jhash: Hash, chain: seq<Conn>, view: map<Key, Conn>, b: nat, i: nat)
    requires Good(jhash, chain, view, b) && i < |chain|
    ensures Good(jhash, Without(chain, i), view - {chain[i].key}, b)
  {
    hide Slot, Without;
    var chain' := Without(chain, i);
    forall k | k in view - {chain[i].key} && Slot(jhash, k) == b
      ensures exists j :: 0 <= j < |chain'| && chain'[j].key == k
    {
      var j :| 0 <= j < |chain| && chain[j].key == k;
      assert chain'[if j < i then j else j - 1].key == k;
    }
  }

  lemma RemoveOne(m: map<Key, Conn>, k: Key)
    requires k in m
    ensures |m - {k}| == |m| - 1
  {
    assert (m - {k}).Keys == m.Keys - {k};
  }

  // --------------------------------------------------------------------------
  // The table
  // --------------------------------------------------------------------------

  /** The nodes allocated are exactly the nodes in the chains, each in one bucket only. */
  ghost predicate Owned(chains: seq<seq<Node>>, nodes: set<Node>) {
    && |chains| == HASH_SIZE
    && (forall b, n :: 0 <= b < HASH_SIZE && n in chains[b] ==> n in nodes && n.slot == b)
    && (forall n :: n in nodes ==> n.slot < HASH_SIZE && n in chains[n.slot])
  }

  lemma OwnedInsert(chains: seq<seq<Node>>, nodes: set<Node>, b: nat, n: Node)
    requires Owned(chains, nodes) && b < HASH_SIZE && n.slot == b
    ensures Owned(chains[b := [n] + chains[b]], nodes + {n})
  {
    forall m ensures m in [n] + chains[b] <==> m == n || m in chains[b] {
    }
  }

  lemma OwnedRemove(chains: seq<seq<Node>>, nodes: set<Node>, b: nat, i: nat)
    requires Owned(chains, nodes) && b < HASH_SIZE && i < |chains[b]| && Distinct(chains[b])
    ensures Owned(chains[b := Without(chains[b], i)], nodes - {chains[b][i]})
  {
    hide Without;
    var chain, n := chains[b], chains[b][i];
    var rest := Without(chain, i);
    var chains' := chains[b := rest];
    forall c, m | 0 <= c < HASH_SIZE && m in chains'[c] ensures m in nodes - {n} && m.slot == c {
      if c == b {
        var j :| 0 <= j < |rest| && rest[j] == m;
        var k := if j < i then j else j + 1;
        assert m == chain[k] && chain[k] in chains[b] && chain[k] != chain[i];
      } else {
        assert m in chains[c] && n in chains[b];
        assert m.slot == c && n.slot == b;
      }
      assert m in nodes && m != n;
    }
    forall m | m in nodes - {n} ensures m.slot < HASH_SIZE && m in chains'[m.slot] {
      if m.slot == b {
        var k :| 0 <= k < |chain| && chain[k] == m;
        assert rest[if k < i then k else k - 1] == m;
      }
    }
  }

  /** Buckets share no node. */
  lemma OwnedApart(chains: seq<seq<Node>>, nodes: set<Node>, b: nat)
    requires Owned(chains, nodes) && b < HASH_SIZE
    ensures forall n :: n in chains[b] ==> n in nodes
    ensures forall c, n :: 0 <= c < HASH_SIZE && c != b && n in chains[c] ==> n in nodes && n !in chains[b]
  {
  }

  class ConnTable {
    const jhash: Hash
    const heads: array<Node?>
    var active: int
    var dropped: int
    ghost var view: map<Key, Conn>
    ghost var nodes: set<Node>  // allocated and not freed
    ghost var chains: seq<seq<Node>>  // per bucket, the nodes in order
    ghost var buckets: seq<seq<Conn>>  // and what they hold

    /** Every bucket is a linked chain of its share of the map. */
    ghost predicate Valid()
      reads `view, `chains, `buckets, `nodes, heads, nodes
      ensures Valid() ==> heads.Length == |chains| == |buckets| == HASH_SIZE
    {
      && heads.Length == |buckets| == HASH_SIZE
      && Owned(chains, nodes)
      && (forall b :: 0 <= b < HASH_SIZE ==> Good(jhash, buckets[b], view, b))
      && (forall b :: 0 <= b < HASH_SIZE ==> Linked(heads[b], chains[b], buckets[b], b))
    }

    ghost function Abs(): State
      reads this
    {
      State(view, active, dropped)
    }

    constructor (jhash: Hash)
      ensures Valid() && Abs() == EMPTY && fresh(heads) && nodes == {} && this.jhash == jhash
    {
      this.jhash := jhash;
      heads := new Node?[HASH_SIZE](_ => null);
      active, dropped, view, nodes := 0, 0, map[], {};
      chains, buckets := seq(HASH_SIZE, _ => []), seq(HASH_SIZE, _ => []);
    }

    lemma EveryKeyIsChained()
      requires Valid()
      ensures forall k :: k in view ==> buckets[Slot(jhash, k)] != []
    {
      forall k | k in view ensures buckets[Slot(jhash, k)] != [] {
        assert Good(jhash, buckets[Slot(jhash, k)], view, Slot(jhash, k));
      }
    }

    /** Searching one chain is searching the whole table: an entry for k anywhere is in k's
        own bucket, that bucket holds no key twice, and the entry is there exactly when k is
        in the map. */
    lemma OneChainSuffices(k: Key)
      requires Valid()
      ensures var own := chains[Slot(jhash, k)];
              && (k in view <==> exists n :: n in own && n.conn.key == k)
              && (forall i, j :: 0 <= i < j < |own| ==> own[i].conn.key != own[j].conn.key)
      ensures forall n :: n in nodes && n.conn.key == k ==>
                n in chains[Slot(jhash, k)] && k in view && n.conn == view[k]
    {
      var b := Slot(jhash, k);
      assert Good(jhash, buckets[b], view, b) && Linked(heads[b], chains[b], buckets[b], b);
      if k in view {
        var i :| 0 <= i < |buckets[b]| && buckets[b][i].key == k;
        assert chains[b][i].conn.key == k;
      }
      forall n | n in nodes && n.conn.key == k ensures n in chains[b] && k in view && n.conn == view[k] {
        var c := n.slot;
        assert Good(jhash, buckets[c], view, c) && Linked(heads[c], chains[c], buckets[c], c);
        var i :| 0 <= i < |chains[c]| && chains[c][i] == n;
        assert chains[c][i].conn == buckets[c][i];
      }
    }

    /** hlist_for_each_entry: walk one chain from its head. */
    method Find(k: Key) returns (p: Node?, ghost i: nat)
      requires Valid()
      ensures i <= |chains[Slot(jhash, k)]| && p == At(chains[Slot(jhash, k)], i)
      ensures p != null <==> k in view
      ensures p != null ==> p in nodes && p.conn == view[k] && view[k].key == k
    {
      ghost var b := Slot(jhash, k);
      ghost var chain, conns := chains[b], buckets[b];
      assert Good(jhash, conns, view, b) && Linked(heads[b], chain, conns, b);
      i := 0;
      p := heads[Slot(jhash, k)];
      hide Valid, Slot;
      while p != null && p.conn.key != k
        invariant i <= |chain| && p == At(chain, i)
        invariant forall j :: 0 <= j < i ==> conns[j].key != k
        decreases |chain| - i
      {
        p, i := p.next, i + 1;
      }
    }

    /** The chains a change of one key does not touch. */
    lemma Elsewhere(key: Key, view': map<Key, Conn>)
      requires Valid() && view - {key} == view' - {key}
      ensures forall c :: 0 <= c < HASH_SIZE && c != Slot(jhash, key) ==> Good(jhash, buckets[c], view', c)
    {
      hide Good;
      forall c | 0 <= c < HASH_SIZE && c != Slot(jhash, key) ensures Good(jhash, buckets[c], view', c) {
        GoodElsewhere(jhash, buckets[c], view, c, view', key);
      }
    }

    /** Write a node's connection in place. */
    method Rewrite(p: Node, ghost b: nat, ghost i: nat, conn: Conn)
      requires Valid() && b == Slot(jhash, conn.key) && i < |chains[b]| && p == chains[b][i]
      requires conn.key == p.conn.key
      modifies `view, `buckets, p`conn
      ensures Valid() && view == old(view)[conn.key := conn]
    {
      assert Linked(heads[b], chains[b], buckets[b], b);
      assert buckets[b][i].key == conn.key;
      hide Good, Slot, Linked, Owned;
      OwnedApart(chains, nodes, b);
      GoodWrite(jhash, buckets[b], view, b, i, conn);
      Elsewhere(conn.key, view[conn.key := conn]);
      Write(p, conn, heads[b], b, chains[b], buckets[b], i);
      buckets := buckets[b := buckets[b][i := conn]];
      view := view[conn.key := conn];
    }

    /** kmalloc and hlist_add_head */
    method Insert(b: nat, conn: Conn)
      requires Valid() && conn.key !in view && b == Slot(jhash, conn.key)
      modifies `view, `buckets, `chains, `nodes, heads, nodes
      ensures Valid() && view == old(view)[conn.key := conn] && fresh(nodes - old(nodes))
    {
      hide Good, Slot, Owned;
      OwnedApart(chains, nodes, b);
      GoodAddHead(jhash, buckets[b], view, conn);
      Elsewhere(conn.key, view[conn.key := conn]);
      ghost var cs, bs := chains, buckets;
      label before:
      var n := AddHead(heads, b, conn, chains[b], buckets[b]);
      assert chains == cs && buckets == bs;
      forall c | 0 <= c < HASH_SIZE && c != b ensures Linked(heads[c], cs[c], bs[c], c) {
        assert old@before(Linked(heads[c], cs[c], bs[c], c));
        forall i | 0 <= i < |cs[c]| ensures unchanged@before(cs[c][i]) {
          assert cs[c][i] in cs[c] && cs[c][i] !in cs[b];
        }
      }
      OwnedInsert(chains, nodes, b, n);
      nodes := nodes + {n};
      chains := chains[b := [n] + chains[b]];
      buckets := buckets[b := [conn] + buckets[b]];
      view := view[conn.key := conn];
    }

    /** hlist_del and kfree */
    method Remove(n: Node, ghost b: nat, ghost i: nat)
      requires Valid() && b < HASH_SIZE && i < |chains[b]| && n == chains[b][i]
      modifies `view, `buckets, `chains, `nodes, heads, nodes
      ensures Valid() && n in old(nodes) && nodes == old(nodes) - {n}
      ensures old(n.conn.key) in old(view) && view == old(view) - {old(n.conn.key)}
      ensures chains == old(chains)[b := Without(old(chains[b]), i)]
    {
      ghost var key := n.conn.key;
      assert Linked(heads[b], chains[b], buckets[b], b) && Good(jhash, buckets[b], view, b);
      assert buckets[b][i].key == key && Slot(jhash, key) == b && key in view && Distinct(chains[b]);
      hide Good, Slot, Owned, Without, Distinct;
      OwnedApart(chains, nodes, b);
      OwnedRemove(chains, nodes, b, i);
      GoodDelete(jhash, buckets[b], view, b, i);
      Elsewhere(key, view - {key});
      ghost var cs, bs := chains, buckets;
      label before:
      Delete(heads, n, b, chains[b], buckets[b], i);
      assert chains == cs && buckets == bs;
      forall c | 0 <= c < HASH_SIZE && c != b ensures Linked(heads[c], cs[c], bs[c], c) {
        assert old@before(Linked(heads[c], cs[c], bs[c], c));
        forall i | 0 <= i < |cs[c]| ensures unchanged@before(cs[c][i]) {
          assert cs[c][i] in cs[c] && cs[c][i] !in cs[b];
        }
      }
      nodes := nodes - {n};
      chains := chains[b := Without(chains[b], i)];
      buckets := buckets[b := Without(buckets[b], i)];
      view := view - {key};
    }

    /** nanonet_track_tcp_connection */
    method TrackSegment(seg: Segment, now: u64, memory: bool) returns (ret: int)
      requires Valid()
      modifies this, heads, nodes
      ensures Valid() && fresh(nodes - old(nodes))
      ensures Abs() == Step(old(Abs()), Track(seg, now, memory))
      ensures ret == Returned(old(Abs()), Track(seg, now, memory))
    {
      hide Slot, Valid;
      var b := Slot(jhash, seg.key);
      var p, i := Find(seg.key);
      if p != null {
        var conn := p.conn.(lastSeen := now);
        if seg.syn && !seg.ack {
          conn := conn.(state := 1);
        } else if seg.syn && seg.ack {
          conn := conn.(state := 2);
          conn := conn.(seqNum := seg.seqNum);
          conn := conn.(ackNum := seg.ackNum);
        }
        Rewrite(p, b, i, conn);
      }
      if p == null && seg.syn && !seg.ack {
        if !memory {
          return ENOMEM;
        }
        Insert(b, Conn(seg.key, 1, seg.seqNum, 0, now));
        active := active + 1;
      }
      ret := if p != null || (seg.syn && !seg.ack) then 0 else EINVAL;
    }

    /** nanonet_clear_tcp_connections: the successor is saved before its node is unlinked and
        freed. */
    method ClearAll()
      requires Valid()
      modifies this, heads, nodes
      ensures Valid() && nodes == {} && (forall b :: 0 <= b < HASH_SIZE ==> heads[b] == null)
      ensures Abs() == Step(old(Abs()), Clear)
    {
      hide Slot, Valid, Linked;
      for b := 0 to HASH_SIZE
        invariant Valid() && nodes <= old(nodes) && forall c :: 0 <= c < b ==> chains[c] == []
        invariant active - |view| == old(active - |view|) && dropped + |view| == old(dropped + |view|)
      {
        FirstOf(b);
        var conn := heads[b];
        while conn != null
          invariant Valid() && nodes <= old(nodes) && forall c :: 0 <= c < b ==> chains[c] == []
          invariant conn == At(chains[b], 0)
          invariant active - |view| == old(active - |view|) && dropped + |view| == old(dropped + |view|)
          decreases |chains[b]|
        {
          FirstOf(b);
          var tmp := conn.next;
          ghost var was, k := view, conn.conn.key;
          Remove(conn, b, 0);
          RemoveOne(was, k);
          active := active - 1;
          dropped := dropped + 1;
          conn := tmp;
        }
      }
      AllCleared();
    }

    lemma FirstOf(b: nat)
      requires Valid() && b < HASH_SIZE
      ensures heads[b] == At(chains[b], 0)
      ensures chains[b] != [] ==> chains[b][0] in nodes && chains[b][0].next == At(chains[b], 1)
    {
      assert Linked(heads[b], chains[b], buckets[b], b);
    }

    lemma AllCleared()
      requires Valid() && forall b :: 0 <= b < HASH_SIZE ==> chains[b] == []
      ensures view == map[] && nodes == {} && forall b :: 0 <= b < HASH_SIZE ==> heads[b] == null
    {
      forall b | 0 <= b < HASH_SIZE ensures heads[b] == null && buckets[b] == [] {
        assert Linked(heads[b], chains[b], buckets[b], b);
      }
      EveryKeyIsChained();
      assert forall k :: k !in view;
    }

    /** The table's part of RESET_STATS. */
    method ResetCounters()
      requires Valid()
      modifies `active, `dropped
      ensures Valid() && Abs() == Step(old(Abs()), Reset)
    {
      active, dropped := 0, 0;
    }
  }
}
