/**
 The profile in place (src/report-entry-arrays.c:57-134): heap nodes linked into buckets.
 */
module EntryProfile {
  import opened Bytes
  import opened EntryTable

  /** entry_array_t */
  class Node {
    var next: Node?
    const digest: Digest
    const size: nat
    const utilized: nat
    var count: nat

    constructor (digest: Digest, size: nat, utilized: nat, next: Node?)
      ensures this.digest == digest && this.size == size && this.utilized == utilized && this.next == next && count == 0
    {
      this.digest, this.size, this.utilized, this.next, count := digest, size, utilized, next, 0;
    }

    ghost function Value(): Entry
      reads this`count
    {
      Entry(digest, count, size, utilized)
    }
  }

  /** The k-th node of a chain, or null behind its end. */
  function NodeAt(chain: seq<Node>, k: nat): Node? {
    if k < |chain| then chain[k] else null
  }

  /** The nodes of a chain, linked from head on, hold these entries. */
  ghost predicate ChainIs(head: Node?, chain: seq<Node>, entries: seq<Entry>)
    reads chain
  {
    && head == NodeAt(chain, 0)
    && |entries| == |chain|
    && (forall k {:trigger chain[k].next} :: 0 <= k < |chain| ==> chain[k].next == NodeAt(chain, k + 1))
    && (forall k {:trigger chain[k].Value()} {:trigger entries[k]} ::
          0 <= k < |chain| ==> chain[k].Value() == entries[k])
  }

  lemma EmptyChain()
    ensures ChainIs(null, [], [])
  {}

  lemma ChainCons(ea: Node, head: Node?, chain: seq<Node>, entries: seq<Entry>)
    requires ChainIs(head, chain, entries) && ea.next == head
    ensures ChainIs(ea, [ea] + chain, [ea.Value()] + entries)
  {
    forall k | 0 <= k < |chain| ensures NodeAt([ea] + chain, k + 1) == chain[k] {}
  }

  /** The loop along a chain for the node of a digest. */
  method Search(head: Node?, ghost chain: seq<Node>, ghost entries: seq<Entry>, digest: Digest) returns (ea: Node?)
    requires ChainIs(head, chain, entries)
    ensures ea == NodeAt(chain, Find(entries, digest))
  {
    ea := head;
    ghost var k := 0;
    while ea != null && ea.digest != digest
      invariant 0 <= k <= |chain|
      invariant ea == NodeAt(chain, k)
      invariant forall j :: 0 <= j < k ==> entries[j].digest != digest
      decreases |chain| - k
    {
      assert entries[k] == chain[k].Value();
      ea := ea.next;
      k := k + 1;
    }
    if ea == null {
      FindAbsent(entries, digest);
    } else {
      assert entries[k] == chain[k].Value();
      FindIs(entries, digest, k);
    }
  }

  /** entry_array_profile_t, without the count of objects walked */
  class Profile {
    var unique: nat
    const buckets: array<Node?>

    ghost var nodes: seq<seq<Node>>  // the nodes of each bucket, in the order of the links
    ghost var repr: set<Node>  // all of them
    ghost var table: Table  // the value they represent

    ghost predicate Valid()
      reads this, buckets, repr
    {
      && buckets.Length == N_BUCKETS == |nodes| == |table|
      && WellFormed(table)
      && (forall b, k :: 0 <= b < N_BUCKETS && 0 <= k < |nodes[b]| ==> nodes[b][k] in repr)
      && (forall b :: 0 <= b < N_BUCKETS ==> ChainIs(buckets[b], nodes[b], table[b]))
      && unique == NodeCount(table)
    }

    constructor ()
      ensures Valid() && table == Empty() && repr == {} && fresh(buckets)
    {
      hide WellFormed, NodeCount, Empty, ChainIs;
      unique := 0;
      buckets := new Node?[N_BUCKETS](_ => null);
      nodes := seq(N_BUCKETS, _ => []);
      repr, table := {}, Empty();
      new;
      EmptyWellFormed();
      EmptyNodeCount();
      EmptyChain();
    }

    lemma ChainAt(b: nat)
      requires Valid() && b < N_BUCKETS
      ensures buckets.Length == |nodes| == |table| == N_BUCKETS
      ensures ChainIs(buckets[b], nodes[b], table[b])
    {}

    lemma UniqueIsNodes()
      requires Valid()
      ensures unique == NodeCount(table) && |table| == N_BUCKETS
    {
      hide WellFormed, ChainIs, NodeCount;
    }

    /** Different places hold different nodes, because they hold different digests. */
    lemma NodesApart(b: nat, k: nat, c: nat, j: nat)
      requires Valid() && b < N_BUCKETS && c < N_BUCKETS
      requires k < |nodes[b]| && j < |nodes[c]| && (b != c || k != j)
      ensures nodes[b][k] != nodes[c][j]
    {
      hide BucketOf, NodeCount;
      assert ChainIs(buckets[b], nodes[b], table[b]) && ChainIs(buckets[c], nodes[c], table[c]);
      assert table[b][k] == nodes[b][k].Value() && table[c][j] == nodes[c][j].Value();
      if b == c && k < j { assert table[b][k].digest != table[b][j].digest; }
      if b == c && j < k { assert table[b][j].digest != table[b][k].digest; }
    }

    /** per_entry_array_payload, for a payload and its digest; a new digest needs memory for its node. */
    method AddPayload(payload: seq<byte>, digest: Digest, enoughMemory: bool) returns (added: bool)
      requires Valid() && payload != []
      modifies this, buckets, repr`count
      ensures Valid() && fresh(repr - old(repr)) && |old(table)| == N_BUCKETS
      ensures added <==> enoughMemory || Get(old(table), digest).Some?
      ensures table == if added then Added(old(table), digest, payload) else old(table)
    {
      hide BucketOf, Utilized, WellFormed, NodeCount, ChainIs, Added;
      AddedNodeCount(table, digest, payload);
      AddedKeepsWellFormed(table, digest, payload);
      var bucket := FindBucket(digest);
      ChainAt(bucket);
      var ea := Search(buckets[bucket], nodes[bucket], table[bucket], digest);
      ghost var k := Find(table[bucket], digest);
      added := true;
      if ea == null {
        if !enoughMemory {
          return false;
        }
        Insert(payload, digest, bucket);
      } else {
        Bump(ea, digest, payload, bucket, k);
      }
    }

    /** A digest not seen before gets a node at the head of its bucket. */
    method Insert(payload: seq<byte>, digest: Digest, bucket: nat)
      requires Valid() && bucket == BucketOf(digest) && Find(table[bucket], digest) == |table[bucket]|
      requires WellFormed(Added(table, digest, payload))
      requires NodeCount(Added(table, digest, payload)) == NodeCount(table) + 1
      modifies this, buckets
      ensures Valid() && fresh(repr - old(repr))
      ensures table == Added(old(table), digest, payload)
    {
      hide BucketOf, Utilized, WellFormed, NodeCount, Added, Find, ChainIs, Valid;
      ChainAt(bucket);
      var utilized := CountUtilized(payload);
      var head := buckets[bucket];
      ghost var chain, entries := nodes[bucket], table[bucket];
      var ea := new Node(digest, |payload|, utilized, head);
      ea.count := ea.count + 1;
      ChainCons(ea, head, chain, entries);
      Publish(ea, digest, payload, bucket);
    }

    /** The new node becomes the head of its bucket. */
    method Publish(ea: Node, ghost digest: Digest, ghost payload: seq<byte>, bucket: nat)
      requires Valid() && bucket == BucketOf(digest) && Find(table[bucket], digest) == |table[bucket]|
      requires ea !in repr && ea.Value() == Entry(digest, 1, |payload|, Utilized(payload))
      requires ChainIs(ea, [ea] + nodes[bucket], [ea.Value()] + table[bucket])
      requires WellFormed(Added(table, digest, payload))
      requires NodeCount(Added(table, digest, payload)) == NodeCount(table) + 1
      modifies this, buckets
      ensures Valid() && repr == old(repr) + {ea}
      ensures table == Added(old(table), digest, payload)
    {
      hide BucketOf, Utilized, WellFormed, NodeCount, Added, Find, ChainIs;
      AddedNew(table, digest, payload);
      ghost var was, before := nodes, table;
      buckets[bucket] := ea;
      unique := unique + 1;
      nodes := was[bucket := [ea] + was[bucket]];
      table := Added(before, digest, payload);
      repr := repr + {ea};
      forall b | 0 <= b < N_BUCKETS ensures ChainIs(buckets[b], nodes[b], table[b]) {
        assert forall o: object :: o in nodes[b] ==> o != buckets && o != this;
        if b != bucket { assert old(ChainIs(buckets[b], nodes[b], table[b])); }
      }
    }

    /** A digest seen before is counted once more. */
    method Bump(ea: Node, digest: Digest, payload: seq<byte>, ghost bucket: nat, ghost k: nat)
      requires Valid() && bucket == BucketOf(digest) && k == Find(table[bucket], digest) < |table[bucket]|
      requires |nodes[bucket]| == |table[bucket]| && nodes[bucket][k] == ea
      requires WellFormed(Added(table, digest, payload))
      requires NodeCount(Added(table, digest, payload)) == NodeCount(table)
      modifies this`table, ea`count
      ensures Valid()
      ensures table == Added(old(table), digest, payload)
    {
      hide BucketOf, Utilized, NodeCount, Added, Find, WellFormed, ChainIs;
      AddedSeen(table, digest, payload);
      OnlyHere(bucket, k);
      ChainAt(bucket);
      CountUp(ea, buckets[bucket], nodes[bucket], table[bucket], k);
      table := Added(table, digest, payload);
      forall b | 0 <= b < N_BUCKETS ensures ChainIs(buckets[b], nodes[b], table[b]) {
        if b != bucket {
          assert old(ChainIs(buckets[b], nodes[b], table[b]));
          assert ea !in nodes[b];
        }
      }
    }

    /** A node is in one chain only, at one place. */
    lemma OnlyHere(b: nat, k: nat)
      requires Valid() && b < N_BUCKETS && k < |nodes[b]|
      ensures forall c :: 0 <= c < N_BUCKETS && c != b ==> nodes[b][k] !in nodes[c]
      ensures forall j :: 0 <= j < |nodes[b]| && j != k ==> nodes[b][j] != nodes[b][k]
    {
      hide BucketOf, NodeCount, WellFormed, ChainIs;
      forall c | 0 <= c < N_BUCKETS && c != b ensures nodes[b][k] !in nodes[c] {
        forall j | 0 <= j < |nodes[c]| ensures nodes[c][j] != nodes[b][k] { NodesApart(c, j, b, k); }
      }
      forall j | 0 <= j < |nodes[b]| && j != k ensures nodes[b][j] != nodes[b][k] { NodesApart(b, j, b, k); }
    }
  }

  /** One more of the k-th node of a chain. */
  method CountUp(ea: Node, ghost head: Node?, ghost chain: seq<Node>, ghost entries: seq<Entry>, ghost k: nat)
    requires ChainIs(head, chain, entries) && k < |chain| && chain[k] == ea
    requires forall j :: 0 <= j < |chain| && j != k ==> chain[j] != ea
    modifies ea`count
    ensures ChainIs(head, chain, entries[k := entries[k].(count := entries[k].count + 1)])
  {
    ea.count := ea.count + 1;
  }
}
