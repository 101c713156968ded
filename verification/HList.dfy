/** The kernel's hlist, with the connections of src/security.c in its nodes: singly linked
    chains off an array of heads, each node also knowing what points at it. */
module HList {
  import opened Bytes
  import opened Connections

  /** What points at a node: a head, or the `next` of the node before. */
  datatype Link = HeadOf(bucket: nat) | NextOf(node: Node)

  /** struct ull_tcp_conn with its hlist_node; `slot` names the bucket it is linked in. */
  class Node {
    ghost const slot: nat
    var conn: Conn
    var next: Node?
    var pprev: Link

    constructor (conn: Conn, ghost slot: nat)
      ensures this.conn == conn && this.slot == slot
    {
      this.conn, this.slot, next, pprev := conn, slot, null, HeadOf(0);
    }
  }

  function At(chain: seq<Node>, i: nat): Node? {
    if i < |chain| then chain[i] else null
  }

  function Before(chain: seq<Node>, i: nat, b: nat): Link
    requires i <= |chain|
  {
    if i == 0 then HeadOf(b) else NextOf(chain[i - 1])
  }

  ghost predicate Distinct(chain: seq<Node>) {
    forall i, j :: 0 <= i < j < |chain| ==> chain[i] != chain[j]
  }

  /** The nodes hanging off bucket b's head, linked both ways, hold these connections. */
  ghost predicate Linked(head: Node?, chain: seq<Node>, conns: seq<Conn>, b: nat)
    reads chain
  {
    && |chain| == |conns| && head == At(chain, 0) && Distinct(chain)
    && (forall i {:trigger chain[i].conn} :: 0 <= i < |chain| ==> chain[i].conn == conns[i])
    && (forall i {:trigger chain[i].next} :: 0 <= i < |chain| ==> chain[i].next == At(chain, i + 1))
    && (forall i {:trigger chain[i].pprev} :: 0 <= i < |chain| ==> chain[i].pprev == Before(chain, i, b))
  }

  /** hlist_add_head of a new node */
  method AddHead(heads: array<Node?>, b: nat, conn: Conn, ghost chain: seq<Node>, ghost conns: seq<Conn>)
      returns (n: Node)
    requires b < heads.Length && Linked(heads[b], chain, conns, b)
    modifies heads, chain
    ensures fresh(n) && n.slot == b
    ensures Linked(heads[b], [n] + chain, [conn] + conns, b)
    ensures forall c :: 0 <= c < heads.Length && c != b ==> heads[c] == old(heads[c])
  {
    n := new Node(conn, b);
    var first := heads[b];
    n.next := first;
    if first != null {
      first.pprev := NextOf(n);
    }
    heads[b] := n;
    n.pprev := HeadOf(b);
  }

  /** Overwriting the i-th node's connection in place. */
  method Write(n: Node, conn: Conn, ghost head: Node?, ghost b: nat, ghost chain: seq<Node>, ghost conns: seq<Conn>,
               ghost i: nat)
    requires Linked(head, chain, conns, b) && i < |chain| && n == chain[i]
    modifies n`conn
    ensures Linked(head, chain, conns[i := conn], b)
  {
    n.conn := conn;
  }

  /** The chain without its i-th element. */
  function Without<T>(chain: seq<T>, i: nat): (r: seq<T>)
    requires i < |chain|
    ensures |r| == |chain| - 1
    ensures forall j :: 0 <= j < |r| ==> r[j] == chain[if j < i then j else j + 1]
  {
    chain[..i] + chain[i + 1..]
  }

  /** The chain with its i-th node bypassed both ways. */
  ghost predicate Bypassing(head: Node?, chain: seq<Node>, conns: seq<Conn>, b: nat, i: nat)
    requires i < |chain| == |conns|
    reads chain
  {
    && head == (if i == 0 then At(chain, 1) else chain[0]) && Distinct(chain)
    && (forall k {:trigger chain[k].conn} :: 0 <= k < |chain| && k != i ==> chain[k].conn == conns[k])
    && (forall k {:trigger chain[k].next} :: 0 <= k < |chain| && k != i ==>
          chain[k].next == At(chain, if k == i - 1 then i + 1 else k + 1))
    && (forall k {:trigger chain[k].pprev} :: 0 <= k < |chain| && k != i ==>
          chain[k].pprev == Before(chain, if k == i + 1 then i else k, b))
  }

  lemma BypassedIsLinked(head: Node?, chain: seq<Node>, conns: seq<Conn>, b: nat, i: nat)
    requires i < |chain| == |conns| && Bypassing(head, chain, conns, b, i)
    ensures Linked(head, Without(chain, i), Without(conns, i), b)
  {
    hide Without;
    var rest := Without(chain, i);
    forall j | 0 <= j < |rest|
      ensures rest[j].next == At(rest, j + 1) && rest[j].pprev == Before(rest, j, b)
    {
      assert rest[j] == chain[if j < i then j else j + 1];
    }
  }

  /** hlist_del of the i-th node; its own links are poisoned. */
  method Delete(heads: array<Node?>, n: Node,
                ghost b: nat, ghost chain: seq<Node>, ghost conns: seq<Conn>, ghost i: nat)
    requires b < heads.Length && Linked(heads[b], chain, conns, b) && i < |chain| && n == chain[i]
    modifies heads, chain
    ensures n.conn == old(n.conn)
    ensures Linked(heads[b], Without(chain, i), Without(conns, i), b)
    ensures forall c :: 0 <= c < heads.Length && c != b ==> heads[c] == old(heads[c])
  {
    hide Without;
    var next, pprev := n.next, n.pprev;
    match pprev {
      case HeadOf(h) => heads[h] := next;
      case NextOf(q) => q.next := next;
    }
    if next != null {
      next.pprev := pprev;
    }
    n.next, n.pprev := null, HeadOf(0);
    BypassedIsLinked(heads[b], chain, conns, b, i);
  }
}
