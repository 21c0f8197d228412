/**
 The profile of entry-array payloads (src/report-entry-arrays.c:55-134): a hash table of
 chains, one node for every digest seen, with how often it was seen.
 */
module EntryTable {
  import opened Bytes
  import opened Word64

  /** SHA_DIGEST_LENGTH */
  const DIGEST_LENGTH := 20

  const N_BUCKETS: nat := 0x1_0000

  type Digest = d: seq<byte> | |d| == DIGEST_LENGTH witness seq(DIGEST_LENGTH, _ => 0 as byte)

  // ----- The bucket of a digest -----

  function ByteSum(d: seq<byte>): nat {
    if d == [] then 0 else ByteSum(d[..|d| - 1]) + d[|d| - 1] as nat
  }

  function BucketOf(d: seq<byte>): (b: nat)
    ensures b < N_BUCKETS
  {
    ByteSum(d) % N_BUCKETS
  }

  method FindBucket(digest: Digest) returns (bucket: nat)
    ensures bucket == BucketOf(digest)
  {
    bucket := 0;
    for i := 0 to DIGEST_LENGTH
      invariant bucket == ByteSum(digest[..i]) <= 255 * i
    {
      assert digest[..i + 1][..i] == digest[..i];
      assert digest[i] as nat <= 255;
      bucket := bucket + digest[i] as nat;
      bucket := bucket % N_BUCKETS;
    }
    assert digest[..DIGEST_LENGTH] == digest;
  }

  lemma {:induction false} ByteSumBound(d: seq<byte>)
    ensures ByteSum(d) <= 255 * |d|
  {
    if d != [] {
      ByteSumBound(d[..|d| - 1]);
      assert d[|d| - 1] as nat <= 255;
    }
  }

  /** The sum of twenty bytes never reaches the number of buckets: no bucket behind 5100 is ever used. */
  lemma FewBucketsUsed(d: Digest)
    ensures BucketOf(d) == ByteSum(d) <= 5100
  {
    ByteSumBound(d);
  }

  // ----- How much of a payload is used -----

  predicate SomeNotZero(bytes: seq<byte>) {
    exists b :: b in bytes && b != 0
  }

  /** Eight bytes for every item among the first n that has a byte which is not zero. */
  function UsedBytes(payload: seq<byte>, n: nat): (u: nat)
    requires 8 * n <= |payload|
    ensures u <= 8 * n
  {
    if n == 0 then 0
    else UsedBytes(payload, n - 1) + if SomeNotZero(payload[8 * (n - 1)..8 * (n - 1) + 8]) then 8 else 0
  }

  function Utilized(payload: seq<byte>): (u: nat)
    ensures u <= |payload|
  {
    UsedBytes(payload, |payload| / 8)
  }

  /** The items below n whose word is not zero. */
  ghost function UsedItems(payload: seq<byte>, n: nat): (items: set<nat>)
    requires 8 * n <= |payload|
    ensures forall i: nat :: i in items <==> i < n && LoadLE(payload[8 * i..8 * i + 8]) != 0
  {
    set i: nat | i < n && LoadLE(payload[8 * i..8 * i + 8]) != 0
  }

  /** A word is zero exactly if its bytes are. */
  lemma {:induction false} LoadedZero(s: seq<byte>)
    requires |s| <= 8
    ensures LoadLE(s) != 0 <==> SomeNotZero(s)
  {
    hide Place, Or, SomeNotZero;
    if s != [] {
      var n := |s| - 1;
      LastNotZero(s);
      LoadedZero(s[..n]);
      OrZero(LoadLE(s[..n]), Place(s[n], n));
      PlaceZero(s[n], n);
    } else {
      NothingNotZero();
    }
  }

  lemma NothingNotZero()
    ensures !SomeNotZero([])
  {}

  lemma LastNotZero(s: seq<byte>)
    requires s != []
    ensures SomeNotZero(s) <==> SomeNotZero(s[..|s| - 1]) || s[|s| - 1] != 0
  {
    var n := |s| - 1;
    assert s == s[..n] + [s[n]] && s[n] in s;
    assert forall b :: b in s <==> b in s[..n] || b == s[n];
  }

  lemma OrZero(x: bv64, y: bv64)
    ensures Or(x, y) == 0 <==> x == 0 && y == 0
  {}

  lemma PlaceZero(b: byte, i: nat)
    requires i < 8
    ensures Place(b, i) == 0 <==> b == 0
  {}

  /** The used bytes are eight times the number of words that are not zero. */
  lemma {:induction false} UsedBytesCount(payload: seq<byte>, n: nat)
    requires 8 * n <= |payload|
    ensures UsedBytes(payload, n) == 8 * |UsedItems(payload, n)|
  {
    hide LoadLE, SomeNotZero, UsedItems;
    if n > 0 {
      UsedBytesCount(payload, n - 1);
      LoadedZero(payload[8 * (n - 1)..8 * (n - 1) + 8]);
      OneMoreItem(payload, n);
    } else {
      NoItems(payload);
    }
  }

  lemma NoItems(payload: seq<byte>)
    ensures UsedItems(payload, 0) == {}
  {}

  lemma OneMoreItem(payload: seq<byte>, n: nat)
    requires 0 < n && 8 * n <= |payload|
    ensures
      |UsedItems(payload, n)| ==
        |UsedItems(payload, n - 1)| + if LoadLE(payload[8 * (n - 1)..8 * (n - 1) + 8]) != 0 then 1 else 0
  {
    hide LoadLE;
    var more, fewer := UsedItems(payload, n), UsedItems(payload, n - 1);
    assert more == if n - 1 in more then fewer + {n - 1} else fewer;
  }

  /** An item is used if its lowest byte is the only one that is not zero; eight zeros are an unused item. */
  lemma ItemsToldApart(b: byte)
    ensures Utilized([b, 0, 0, 0, 0, 0, 0, 0]) == if b == 0 then 0 else 8
  {
    var payload := [b, 0, 0, 0, 0, 0, 0, 0];
    assert payload[0..8] == payload && b in payload;
    assert UsedBytes(payload, 0) == 0;
  }

  method CountUtilized(payload: seq<byte>) returns (utilized: nat)
    ensures utilized == Utilized(payload)
    ensures utilized == 8 * |UsedItems(payload, |payload| / 8)|
  {
    hide LoadLE, SomeNotZero;
    utilized := 0;
    for i := 0 to |payload| / 8
      invariant utilized == UsedBytes(payload, i)
    {
      LoadedZero(payload[8 * i..8 * i + 8]);
      if LoadLE(payload[8 * i..8 * i + 8]) != 0 {
        utilized := utilized + 8;
      }
    }
    UsedBytesCount(payload, |payload| / 8);
  }

  // ----- The table as a value -----

  datatype Entry = Entry(digest: Digest, count: nat, size: nat, utilized: nat)

  type Table = seq<seq<Entry>>

  /** The position of a digest in a chain, or the length of the chain. */
  function Find(chain: seq<Entry>, d: Digest): (k: nat)
    ensures k <= |chain|
    ensures k < |chain| ==> chain[k].digest == d
    ensures forall j :: 0 <= j < k ==> chain[j].digest != d
  {
    if chain == [] then 0 else if chain[0].digest == d then 0 else 1 + Find(chain[1..], d)
  }

  function Bumped(chain: seq<Entry>, d: Digest, payload: seq<byte>): seq<Entry> {
    var k := Find(chain, d);
    if k < |chain| then chain[k := chain[k].(count := chain[k].count + 1)]
    else [Entry(d, 1, |payload|, Utilized(payload))] + chain
  }

  function Added(t: Table, d: Digest, payload: seq<byte>): (r: Table)
    requires |t| == N_BUCKETS
    ensures |r| == |t|
  {
    var b := BucketOf(d);
    t[b := Bumped(t[b], d, payload)]
  }

  lemma AddedSeen(t: Table, d: Digest, payload: seq<byte>)
    requires |t| == N_BUCKETS && Find(t[BucketOf(d)], d) < |t[BucketOf(d)]|
    ensures
      var (b, k) := (BucketOf(d), Find(t[BucketOf(d)], d));
      Added(t, d, payload) == t[b := t[b][k := t[b][k].(count := t[b][k].count + 1)]]
  {}

  lemma AddedNew(t: Table, d: Digest, payload: seq<byte>)
    requires |t| == N_BUCKETS && Find(t[BucketOf(d)], d) == |t[BucketOf(d)]|
    ensures Added(t, d, payload) == t[BucketOf(d) := [Entry(d, 1, |payload|, Utilized(payload))] + t[BucketOf(d)]]
  {}

  ghost predicate DigestsOnce(chain: seq<Entry>) {
    forall i, j :: 0 <= i < j < |chain| ==> chain[i].digest != chain[j].digest
  }

  /** Every digest is in its own bucket, once. */
  ghost predicate WellFormed(t: Table) {
    && |t| == N_BUCKETS
    && (forall b :: 0 <= b < |t| ==> DigestsOnce(t[b]))
    && (forall b, k :: 0 <= b < |t| && 0 <= k < |t[b]| ==> BucketOf(t[b][k].digest) == b)
  }

  datatype Option<+T> = None | Some(value: T)

  lemma EmptyWellFormed()
    ensures WellFormed(Empty()) && |Empty()| == 65536 && forall b :: 0 <= b < 65536 ==> Empty()[b] == []
  {}

  /** What the table says of a digest. */
  function Get(t: Table, d: Digest): Option<Entry>
    requires |t| == N_BUCKETS
  {
    var chain := t[BucketOf(d)];
    var k := Find(chain, d);
    if k < |chain| then Some(chain[k]) else None
  }

  /** No node outside the digest's own bucket could hold it: the table is a map from digests. */
  lemma GetFindsAll(t: Table, b: nat, k: nat)
    requires WellFormed(t) && b < |t| && k < |t[b]|
    ensures Get(t, t[b][k].digest) == Some(t[b][k])
  {
    hide BucketOf;
    var d := t[b][k].digest;
    assert BucketOf(d) == b && Find(t[b], d) <= k;
  }

  lemma BumpedKeepsOnce(chain: seq<Entry>, d: Digest, payload: seq<byte>)
    requires DigestsOnce(chain)
    ensures DigestsOnce(Bumped(chain, d, payload))
  {}

  lemma AddedKeepsWellFormed(t: Table, d: Digest, payload: seq<byte>)
    requires WellFormed(t)
    ensures WellFormed(Added(t, d, payload))
  {
    hide BucketOf, Utilized;
    var b := BucketOf(d);
    var r: Table := Added(t, d, payload);
    BumpedKeepsOnce(t[b], d, payload);
    forall c, k | 0 <= c < |r| && 0 <= k < |r[c]| ensures BucketOf(r[c][k].digest) == c {
      if c == b && r[b][k].digest != d {
        var j := if Find(t[b], d) < |t[b]| then k else k - 1;
        assert r[b][k].digest == t[b][j].digest;
      } else if c != b {
        assert r[c] == t[c];
      }
    }
  }

  /** Adding a payload changes what the table says of its own digest only. */
  lemma AddedGet(t: Table, d: Digest, payload: seq<byte>, e: Digest)
    requires WellFormed(t)
    ensures
      Get(Added(t, d, payload), e) ==
        if e != d then Get(t, e)
        else match Get(t, d)
          case None => Some(Entry(d, 1, |payload|, Utilized(payload)))
          case Some(seen) => Some(seen.(count := seen.count + 1))
  {
    hide BucketOf, Utilized;
    var b := BucketOf(d);
    BumpedFind(t[b], d, payload, e);
  }

  lemma FindUnique(chain: seq<Entry>, d: Digest, k: nat)
    requires DigestsOnce(chain) && k < |chain| && chain[k].digest == d
    ensures Find(chain, d) == k
  {}

  lemma FindIs(chain: seq<Entry>, d: Digest, k: nat)
    requires k < |chain| && chain[k].digest == d && forall j :: 0 <= j < k ==> chain[j].digest != d
    ensures Find(chain, d) == k
  {}

  lemma FindAbsent(chain: seq<Entry>, d: Digest)
    requires forall j :: 0 <= j < |chain| ==> chain[j].digest != d
    ensures Find(chain, d) == |chain|
  {}

  lemma BumpedFind(chain: seq<Entry>, d: Digest, payload: seq<byte>, e: Digest)
    requires DigestsOnce(chain)
    ensures
      var r := Bumped(chain, d, payload);
      var k, k' := Find(chain, e), Find(r, e);
      if e == d && k == |chain| then k' == 0 < |r| && r[0] == Entry(d, 1, |payload|, Utilized(payload))
      else if k == |chain| then k' == |r|
      else k' < |r| && r[k'] == if e == d then chain[k].(count := chain[k].count + 1) else chain[k]
  {
    hide Utilized, Find, Bumped, DigestsOnce;
    var r, k := Bumped(chain, d, payload), Find(chain, e);
    BumpedKeepsOnce(chain, d, payload);
    BumpedAt(chain, d, payload, e);
    if k < |chain| {
      FindUnique(r, e, if Find(chain, d) < |chain| then k else k + 1);
    } else if e == d {
      FindUnique(r, e, 0);
    } else {
      FindAbsent(r, e);
    }
  }

  /** Where a digest is in a chain with one more payload. */
  lemma BumpedAt(chain: seq<Entry>, d: Digest, payload: seq<byte>, e: Digest)
    requires DigestsOnce(chain)
    ensures
      var r := Bumped(chain, d, payload);
      var k := Find(chain, e);
      if k < |chain| then
        var i := if Find(chain, d) < |chain| then k else k + 1;
        i < |r| && r[i] == (if e == d then chain[k].(count := chain[k].count + 1) else chain[k]) && r[i].digest == e
      else if e == d then r != [] && r[0] == Entry(d, 1, |payload|, Utilized(payload))
      else forall i :: 0 <= i < |r| ==> r[i].digest != e
  {
    hide Utilized;
  }

  // ----- Sums over a table -----

  function SumChain(chain: seq<Entry>, w: Entry -> nat): nat {
    if chain == [] then 0 else w(chain[0]) + SumChain(chain[1..], w)
  }

  function SumTable(t: Table, w: Entry -> nat): nat {
    if t == [] then 0 else SumChain(t[0], w) + SumTable(t[1..], w)
  }

  /** The number of nodes in a table. */
  function NodeCount(t: Table): nat {
    SumTable(t, (e: Entry) => 1)
  }

  lemma EmptyNodeCount()
    ensures NodeCount(Empty()) == 0
  {
    EmptySum(N_BUCKETS, (e: Entry) => 1);
  }

  /** A payload adds a node exactly when its digest is new. */
  lemma AddedNodeCount(t: Table, d: Digest, payload: seq<byte>)
    requires WellFormed(t)
    ensures
      NodeCount(Added(t, d, payload)) ==
        NodeCount(t) + if Find(t[BucketOf(d)], d) == |t[BucketOf(d)]| then 1 else 0
  {
    AddedSum(t, d, payload, (e: Entry) => 1);
  }

  lemma {:induction false} SumTableUpdate(t: Table, b: nat, chain: seq<Entry>, w: Entry -> nat)
    requires b < |t|
    ensures SumTable(t[b := chain], w) + SumChain(t[b], w) == SumTable(t, w) + SumChain(chain, w)
  {
    if b == 0 {
      assert t[0 := chain][1..] == t[1..];
    } else {
      SumTableUpdate(t[1..], b - 1, chain, w);
      assert t[b := chain][1..] == t[1..][b - 1 := chain];
    }
  }

  lemma {:induction false} SumChainUpdate(chain: seq<Entry>, k: nat, e: Entry, w: Entry -> nat)
    requires k < |chain|
    ensures SumChain(chain[k := e], w) + w(chain[k]) == SumChain(chain, w) + w(e)
  {
    if k == 0 {
      assert chain[0 := e][1..] == chain[1..];
    } else {
      SumChainUpdate(chain[1..], k - 1, e, w);
      assert chain[k := e][1..] == chain[1..][k - 1 := e];
    }
  }

  /** What one payload adds to a sum: its new entry, or the change of the entry of its digest. */
  lemma AddedSum(t: Table, d: Digest, payload: seq<byte>, w: Entry -> nat)
    requires WellFormed(t)
    ensures
      match Get(t, d)
        case None => SumTable(Added(t, d, payload), w) == SumTable(t, w) + w(Entry(d, 1, |payload|, Utilized(payload)))
        case Some(e) => SumTable(Added(t, d, payload), w) + w(e) == SumTable(t, w) + w(e.(count := e.count + 1))
  {
    hide BucketOf, Utilized;
    var chain := t[BucketOf(d)];
    var k := Find(chain, d);
    SumTableUpdate(t, BucketOf(d), Bumped(chain, d, payload), w);
    if k < |chain| {
      SumChainUpdate(chain, k, chain[k].(count := chain[k].count + 1), w);
    } else {
      assert Bumped(chain, d, payload)[1..] == chain;
    }
  }

  // ----- The table of all payloads of a walk -----

  type Sha = seq<byte> -> Digest

  function Empty(): Table {
    seq(N_BUCKETS, _ => [])
  }

  function AllAdded(ps: seq<seq<byte>>, sha: Sha): (t: Table)
    ensures |t| == N_BUCKETS
  {
    if ps == [] then Empty()
    else
      var last := ps[|ps| - 1];
      Added(AllAdded(ps[..|ps| - 1], sha), sha(last), last)
  }

  lemma {:induction false} AllAddedWellFormed(ps: seq<seq<byte>>, sha: Sha)
    ensures WellFormed(AllAdded(ps, sha))
  {
    hide Added;
    if ps != [] {
      AllAddedWellFormed(ps[..|ps| - 1], sha);
      AddedKeepsWellFormed(AllAdded(ps[..|ps| - 1], sha), sha(ps[|ps| - 1]), ps[|ps| - 1]);
    }
  }

  /** How many payloads have a digest. */
  function Occurrences(ps: seq<seq<byte>>, sha: Sha, d: Digest): nat {
    if ps == [] then 0
    else Occurrences(ps[..|ps| - 1], sha, d) + if sha(ps[|ps| - 1]) == d then 1 else 0
  }

  /** The first payload with a digest. */
  function First(ps: seq<seq<byte>>, sha: Sha, d: Digest): (p: seq<byte>)
    requires Occurrences(ps, sha, d) > 0
    ensures p in ps && sha(p) == d
  {
    if Occurrences(ps[..|ps| - 1], sha, d) > 0 then First(ps[..|ps| - 1], sha, d) else ps[|ps| - 1]
  }

  lemma {:induction false} EmptyGet(d: Digest)
    ensures Get(Empty(), d) == None
  {}

  /** The table is the map digest -> (occurrences, size and used bytes of the first payload). */
  lemma {:induction false} TableIsMap(ps: seq<seq<byte>>, sha: Sha, d: Digest)
    ensures
      Get(AllAdded(ps, sha), d) ==
        if Occurrences(ps, sha, d) == 0 then None
        else
          var p := First(ps, sha, d);
          Some(Entry(d, Occurrences(ps, sha, d), |p|, Utilized(p)))
  {
    hide Added, Get, Utilized, Empty;
    if ps == [] {
      EmptyGet(d);
    } else {
      var earlier, last := ps[..|ps| - 1], ps[|ps| - 1];
      TableIsMap(earlier, sha, d);
      AllAddedWellFormed(earlier, sha);
      AddedGet(AllAdded(earlier, sha), sha(last), last, d);
    }
  }

  lemma {:induction false} EmptySum(n: nat, w: Entry -> nat)
    ensures SumTable(seq(n, _ => []), w) == 0
  {
    if n > 0 {
      var t: Table := seq(n, _ => []);
      assert t[1..] == seq(n - 1, _ => []);
      EmptySum(n - 1, w);
    }
  }

  /** The counts of all nodes add up to the number of payloads. */
  lemma {:induction false} CountsAddUp(ps: seq<seq<byte>>, sha: Sha)
    ensures SumTable(AllAdded(ps, sha), (e: Entry) => e.count) == |ps|
  {
    hide Added, Get, Utilized;
    var w := (e: Entry) => e.count;
    if ps == [] {
      EmptySum(N_BUCKETS, w);
    } else {
      var earlier, last := ps[..|ps| - 1], ps[|ps| - 1];
      CountsAddUp(earlier, sha);
      AllAddedWellFormed(earlier, sha);
      AddedSum(AllAdded(earlier, sha), sha(last), last, w);
    }
  }

  function Digests(ps: seq<seq<byte>>, sha: Sha): set<Digest> {
    if ps == [] then {} else Digests(ps[..|ps| - 1], sha) + {sha(ps[|ps| - 1])}
  }

  lemma {:induction false} DigestsOccur(ps: seq<seq<byte>>, sha: Sha, d: Digest)
    ensures d in Digests(ps, sha) <==> Occurrences(ps, sha, d) > 0
  {
    if ps != [] { DigestsOccur(ps[..|ps| - 1], sha, d); }
  }

  /** There are as many nodes as there are different digests. */
  lemma {:induction false} NodesAreDigests(ps: seq<seq<byte>>, sha: Sha)
    ensures NodeCount(AllAdded(ps, sha)) == |Digests(ps, sha)|
  {
    hide Added, Get, Utilized, Occurrences;
    var w := (e: Entry) => 1;
    if ps == [] {
      EmptySum(N_BUCKETS, w);
    } else {
      var earlier, last := ps[..|ps| - 1], ps[|ps| - 1];
      NodesAreDigests(earlier, sha);
      AllAddedWellFormed(earlier, sha);
      AddedSum(AllAdded(earlier, sha), sha(last), last, w);
      TableIsMap(earlier, sha, sha(last));
      DigestsOccur(earlier, sha, sha(last));
    }
  }

  function SumOver(ps: seq<seq<byte>>, f: seq<byte> -> nat): nat {
    if ps == [] then 0 else SumOver(ps[..|ps| - 1], f) + f(ps[|ps| - 1])
  }

  /** No two of the payloads have the same digest without being the same. */
  ghost predicate CollisionFree(ps: seq<seq<byte>>, sha: Sha) {
    forall p, q :: p in ps && q in ps && sha(p) == sha(q) ==> p == q
  }

  lemma Distributes(x: nat, c: nat)
    ensures x * (c + 1) == x * c + x
  {}

  /** What the table holds for the digest of one more payload, when payloads with the same digest are the same. */
  lemma SeenIsSame(ps: seq<seq<byte>>, sha: Sha, last: seq<byte>)
    requires CollisionFree(ps + [last], sha)
    ensures
      var seen := Get(AllAdded(ps, sha), sha(last));
      seen == None || seen == Some(Entry(sha(last), Occurrences(ps, sha, sha(last)), |last|, Utilized(last)))
  {
    hide Added, AllAdded, Get, Utilized, Occurrences;
    TableIsMap(ps, sha, sha(last));
    if Occurrences(ps, sha, sha(last)) > 0 {
      var p := First(ps, sha, sha(last));
      assert p in ps + [last] && last in ps + [last];
    }
  }

  /** What one more payload adds to a sum over the nodes, each taken as often as it was counted. */
  lemma OneMore(ps: seq<seq<byte>>, sha: Sha, last: seq<byte>, w: Entry -> nat, x: nat)
    requires CollisionFree(ps + [last], sha)
    requires forall c: nat {:trigger Entry(sha(last), c, |last|, Utilized(last))} ::
               w(Entry(sha(last), c, |last|, Utilized(last))) == x * c
    ensures SumTable(AllAdded(ps + [last], sha), w) == SumTable(AllAdded(ps, sha), w) + x
  {
    assert (ps + [last])[..|ps|] == ps;
    assert AllAdded(ps + [last], sha) == Added(AllAdded(ps, sha), sha(last), last);
    hide Added, AllAdded, Get, Utilized, Occurrences;
    AllAddedWellFormed(ps, sha);
    AddedSum(AllAdded(ps, sha), sha(last), last, w);
    SeenIsSame(ps, sha, last);
    var c := Occurrences(ps, sha, sha(last));
    assert w(Entry(sha(last), 1, |last|, Utilized(last))) == x * 1;
    assert w(Entry(sha(last), c, |last|, Utilized(last))) == x * c;
    assert w(Entry(sha(last), c + 1, |last|, Utilized(last))) == x * (c + 1);
    Distributes(x, c);
  }

  /** Without digest collisions, a sum over the nodes, each as often as it was counted, is a sum over the payloads. */
  lemma {:induction false} WeightsAddUp(ps: seq<seq<byte>>, sha: Sha, w: Entry -> nat, f: seq<byte> -> nat)
    requires CollisionFree(ps, sha)
    requires forall p, c: nat {:trigger Entry(sha(p), c, |p|, Utilized(p))} ::
               p in ps ==> w(Entry(sha(p), c, |p|, Utilized(p))) == f(p) * c
    ensures SumTable(AllAdded(ps, sha), w) == SumOver(ps, f)
  {
    hide Added, AllAdded, Utilized;
    if ps == [] {
      EmptyTable(sha, w);
    } else {
      var earlier, last := ps[..|ps| - 1], ps[|ps| - 1];
      assert ps == earlier + [last];
      WeightsAddUp(earlier, sha, w, f);
      OneMore(earlier, sha, last, w, f(last));
    }
  }

  lemma EmptyTable(sha: Sha, w: Entry -> nat)
    ensures SumTable(AllAdded([], sha), w) == 0
  {
    EmptySum(N_BUCKETS, w);
  }

  /** Every node stands for a payload that was walked. */
  lemma NodesArePayloads(ps: seq<seq<byte>>, sha: Sha, b: nat, k: nat)
    requires b < N_BUCKETS && k < |AllAdded(ps, sha)[b]|
    ensures
      var e := AllAdded(ps, sha)[b][k];
      e.count > 0 && exists p :: p in ps && e.size == |p| && e.utilized == Utilized(p)
  {
    hide AllAdded, Utilized, Occurrences, WellFormed;
    AllAddedWellFormed(ps, sha);
    GetFindsAll(AllAdded(ps, sha), b, k);
    TableIsMap(ps, sha, AllAdded(ps, sha)[b][k].digest);
  }
}
