/**
 What the histogram of a journal conserves, and the totals over journals
 (src/report-entry-arrays.c:194-249).
 */
module EntryTotals {
  import opened Bytes
  import opened EntryStats
  import opened EntryTable
  import opened Lru
  import opened Schedules

  type Weight = Entry -> nat

  function Once(): Weight { (e: Entry) => 1 }

  function Counted(): Weight { (e: Entry) => e.count }

  function Allocated(): Weight { (e: Entry) => e.size * e.count }

  function Sizes(): Weight { (e: Entry) => e.size }

  function InUse(): Weight { (e: Entry) => e.utilized * e.count }

  /** A weight that looks at one slot only. */
  function InSlot(l: nat, w: Weight): Weight {
    (e: Entry) => if U64Log2(e.size) == l then w(e) else 0
  }

  ghost predicate AllFit(es: seq<Entry>) {
    forall k :: 0 <= k < |es| ==> es[k].size < Pow2(64)
  }

  lemma {:induction false} SumChainAppend(a: seq<Entry>, b: seq<Entry>, w: Weight)
    ensures SumChain(a + b, w) == SumChain(a, w) + SumChain(b, w)
  {
    if a == [] {
      assert a + b == b;
    } else {
      assert (a + b)[1..] == a[1..] + b;
      SumChainAppend(a[1..], b, w);
    }
  }

  lemma {:induction false} SumTableSnoc(t: Table, w: Weight)
    requires t != []
    ensures SumTable(t, w) == SumTable(t[..|t| - 1], w) + SumChain(t[|t| - 1], w)
  {
    if |t| > 1 {
      SumTableSnoc(t[1..], w);
      assert t[1..][..|t| - 2] == t[..|t| - 1][1..];
    }
  }

  /** The nodes bucket by bucket are the nodes of the table. */
  lemma {:induction false} FlatSum(t: Table, w: Weight)
    ensures SumChain(Flat(t), w) == SumTable(t, w)
  {
    if t != [] {
      var n := |t| - 1;
      FlatSum(t[..n], w);
      SumTableSnoc(t, w);
      SumChainAppend(Flat(t[..n]), t[n], w);
    }
  }

  lemma {:induction false} FlatFits(t: Table)
    requires SizesFit(t)
    ensures AllFit(Flat(t))
  {
    hide Pow2;
    if t != [] { FlatFits(t[..|t| - 1]); }
  }

  /** The node of a slot that was tallied last. */
  function LastIn(es: seq<Entry>, l: nat): Pair {
    if es == [] then Pair(0, 0)
    else
      var e := es[|es| - 1];
      if U64Log2(e.size) == l then Pair(e.size * e.count, e.size) else LastIn(es[..|es| - 1], l)
  }

  /** What slot l holds after the loops: sums over the nodes of the slot, but the bytes are those of its last node. */
  lemma {:induction false} SlotHolds(count: nat, unique: nat, es: seq<Entry>, l: nat)
    requires l < SLOTS && AllFit(es)
    ensures
      var s := Tally(count, unique, es);
      && s.count == count && s.unique == unique
      && s.counts[l] == Pair(SumChain(es, InSlot(l, Counted())), SumChain(es, InSlot(l, Once())))
      && s.utilized[l] == Pair(SumChain(es, InSlot(l, Allocated())), SumChain(es, InSlot(l, InUse())))
      && s.bytes[l] == LastIn(es, l)
  {
    hide Pow2, U64Log2;
    if es != [] {
      var n := |es| - 1;
      var e := es[n];
      SlotHolds(count, unique, es[..n], l);
      Log2Fits(e.size);
      LastOf(es, InSlot(l, Counted()));
      LastOf(es, InSlot(l, Once()));
      LastOf(es, InSlot(l, Allocated()));
      LastOf(es, InSlot(l, InUse()));
    }
  }

  lemma LastOf(es: seq<Entry>, w: Weight)
    requires es != []
    ensures SumChain(es, w) == SumChain(es[..|es| - 1], w) + w(es[|es| - 1])
  {
    var last := es[|es| - 1..];
    assert es == es[..|es| - 1] + last && last[1..] == [];
    SumChainAppend(es[..|es| - 1], last, w);
  }

  // ----- Conservation -----

  function PerSlot(es: seq<Entry>, w: Weight): nat -> nat {
    l => SumChain(es, InSlot(l, w))
  }

  /** Every node is in one slot: a weight summed slot by slot is the weight of all nodes. */
  lemma {:induction false} SlotsAddUp(es: seq<Entry>, w: Weight)
    requires AllFit(es)
    ensures SumBelow(PerSlot(es, w), SLOTS) == SumChain(es, w)
  {
    hide Pow2, U64Log2;
    if es == [] {
      SumZero(PerSlot(es, w), SLOTS);
    } else {
      var n := |es| - 1;
      SlotsAddUp(es[..n], w);
      Log2Fits(es[n].size);
      LastOf(es, w);
      forall l: nat | l < SLOTS
        ensures PerSlot(es, w)(l) == PerSlot(es[..n], w)(l) + if l == U64Log2(es[n].size) then w(es[n]) else 0
      {
        LastOf(es, InSlot(l, w));
      }
      SumOneMore(PerSlot(es, w), PerSlot(es[..n], w), SLOTS, U64Log2(es[n].size), w(es[n]));
    }
  }

  lemma {:induction false} Lighter(es: seq<Entry>, v: Weight, w: Weight)
    requires forall e :: e in es ==> v(e) <= w(e)
    ensures SumChain(es, v) <= SumChain(es, w)
  {
    if es != [] { Lighter(es[1..], v, w); }
  }

  lemma {:induction false} EmptySlot(es: seq<Entry>, l: nat)
    requires forall e :: e in es ==> e.size > 0 && e.count > 0
    ensures SumChain(es, InSlot(l, Allocated())) == 0 <==> SumChain(es, InSlot(l, Once())) == 0
    ensures SumChain(es, InSlot(l, Sizes())) == 0 <==> SumChain(es, InSlot(l, Once())) == 0
  {
    hide U64Log2;
    if es != [] {
      EmptySlot(es[1..], l);
      Product(es[0].size, es[0].count);
    }
  }

  lemma Product(x: nat, y: nat)
    requires x > 0 && y > 0
    ensures x * y > 0
  {}

  /**
   The bytes of a slot are the bytes of its nodes, and the unique bytes the sizes of them, exactly as long as no second
   node has a size of the slot.
   */
  lemma {:induction false} BytesExactly(count: nat, unique: nat, es: seq<Entry>, l: nat)
    requires l < SLOTS && AllFit(es) && forall e :: e in es ==> e.size > 0 && e.count > 0
    ensures
      var bytes := Tally(count, unique, es).bytes[l];
      && (bytes.total == SumChain(es, InSlot(l, Allocated())) <==> SumChain(es, InSlot(l, Once())) <= 1)
      && (bytes.part == SumChain(es, InSlot(l, Sizes())) <==> SumChain(es, InSlot(l, Once())) <= 1)
  {
    hide Pow2, U64Log2, Tally;
    SlotHolds(count, unique, es, l);
    if es != [] {
      var n := |es| - 1;
      SlotHolds(count, unique, es[..n], l);
      BytesExactly(count, unique, es[..n], l);
      EmptySlot(es[..n], l);
      LastOf(es, InSlot(l, Once()));
      LastOf(es, InSlot(l, Allocated()));
      LastOf(es, InSlot(l, Sizes()));
      Product(es[n].size, es[n].count);
    }
  }

  // ----- The histogram of the payloads of a journal -----

  /** What a journal with these payloads prints and adds to the totals. */
  function Report(ps: seq<seq<byte>>, sha: Sha): (h: Histogram)
    ensures Sized(h)
  {
    Tally(|ps|, NodeCount(AllAdded(ps, sha)), Flat(AllAdded(ps, sha)))
  }

  ghost predicate PayloadsFit(ps: seq<seq<byte>>) {
    forall p :: p in ps ==> |p| < Pow2(64)
  }

  function Totals(slots: seq<Pair>): nat -> nat {
    (l: nat) => if l < |slots| then slots[l].total else 0
  }

  function Parts(slots: seq<Pair>): nat -> nat {
    (l: nat) => if l < |slots| then slots[l].part else 0
  }

  lemma TableFits(ps: seq<seq<byte>>, sha: Sha)
    requires PayloadsFit(ps)
    ensures SizesFit(AllAdded(ps, sha))
  {
    hide Pow2, AllAdded;
    forall b, k | 0 <= b < N_BUCKETS && 0 <= k < |AllAdded(ps, sha)[b]|
      ensures AllAdded(ps, sha)[b][k].size < Pow2(64)
    {
      NodesArePayloads(ps, sha, b, k);
    }
  }

  lemma {:induction false} InFlat(t: Table, e: Entry)
    requires e in Flat(t)
    ensures exists b, k :: 0 <= b < |t| && 0 <= k < |t[b]| && t[b][k] == e
  {
    if t != [] {
      var n := |t| - 1;
      if e in t[n] {
        var k :| 0 <= k < |t[n]| && t[n][k] == e;
      } else {
        InFlat(t[..n], e);
        var b, k :| 0 <= b < n && 0 <= k < |t[..n][b]| && t[..n][b][k] == e;
        assert t[b][k] == e;
      }
    }
  }

  /** No node uses more than it allocates. */
  lemma UsedWithin(ps: seq<seq<byte>>, sha: Sha, e: Entry)
    requires e in Flat(AllAdded(ps, sha))
    ensures e.utilized * e.count <= e.size * e.count
  {
    hide AllAdded, Utilized;
    InFlat(AllAdded(ps, sha), e);
    var b, k :| 0 <= b < N_BUCKETS && 0 <= k < |AllAdded(ps, sha)[b]| && AllAdded(ps, sha)[b][k] == e;
    NodesArePayloads(ps, sha, b, k);
    Scaled(e.utilized, e.size, e.count);
  }

  lemma Scaled(x: nat, y: nat, c: nat)
    requires x <= y
    ensures x * c <= y * c
  {}

  /** A slot of the report is a sum over the whole table. */
  lemma ReportSlot(ps: seq<seq<byte>>, sha: Sha, l: nat)
    requires l < SLOTS && PayloadsFit(ps)
    ensures
      var h, t := Report(ps, sha), AllAdded(ps, sha);
      && h.counts[l] == Pair(SumTable(t, InSlot(l, Counted())), SumTable(t, InSlot(l, Once())))
      && h.utilized[l] == Pair(SumTable(t, InSlot(l, Allocated())), SumTable(t, InSlot(l, InUse())))
  {
    hide AllAdded, Pow2, U64Log2, Tally, NodeCount, Flat, SumTable, SumChain;
    var t := AllAdded(ps, sha);
    TableFits(ps, sha);
    FlatFits(t);
    SlotHolds(|ps|, NodeCount(t), Flat(t), l);
    FlatSum(t, InSlot(l, Counted()));
    FlatSum(t, InSlot(l, Once()));
    FlatSum(t, InSlot(l, Allocated()));
    FlatSum(t, InSlot(l, InUse()));
  }

  /** Summed over the slots, a column of the report is a sum over the whole table. */
  lemma ColumnAddsUp(ps: seq<seq<byte>>, sha: Sha, column: nat -> nat, w: Weight)
    requires PayloadsFit(ps)
    requires forall l: nat {:trigger column(l)} :: l < SLOTS ==> column(l) == SumTable(AllAdded(ps, sha), InSlot(l, w))
    ensures SumBelow(column, SLOTS) == SumTable(AllAdded(ps, sha), w)
  {
    hide AllAdded, Pow2, U64Log2, Flat, SumTable, SumChain;
    var t := AllAdded(ps, sha);
    TableFits(ps, sha);
    FlatFits(t);
    forall l: nat | l < SLOTS ensures column(l) == PerSlot(Flat(t), w)(l) { FlatSum(t, InSlot(l, w)); }
    SumSame(column, PerSlot(Flat(t), w), SLOTS);
    SlotsAddUp(Flat(t), w);
    FlatSum(t, w);
  }

  /** The counts of the slots add up to the objects walked and to the different digests. */
  lemma CountsConserved(ps: seq<seq<byte>>, sha: Sha)
    requires PayloadsFit(ps)
    ensures
      var h := Report(ps, sha);
      && SumBelow(Totals(h.counts), SLOTS) == h.count == |ps|
      && SumBelow(Parts(h.counts), SLOTS) == h.unique == |Digests(ps, sha)|
  {
    hide AllAdded, Pow2, U64Log2, Tally, Flat, SumTable, SumChain, SumBelow, Report, Digests;
    var h := Report(ps, sha);
    forall l: nat | l < SLOTS
      ensures Totals(h.counts)(l) == SumTable(AllAdded(ps, sha), InSlot(l, Counted()))
      ensures Parts(h.counts)(l) == SumTable(AllAdded(ps, sha), InSlot(l, Once()))
    {
      ReportSlot(ps, sha, l);
    }
    ColumnAddsUp(ps, sha, Totals(h.counts), Counted());
    ColumnAddsUp(ps, sha, Parts(h.counts), Once());
    SumsOfNodes(ps, sha);
    ReportHead(ps, sha);
  }

  lemma ReportHead(ps: seq<seq<byte>>, sha: Sha)
    requires PayloadsFit(ps)
    ensures Report(ps, sha).count == |ps| && Report(ps, sha).unique == NodeCount(AllAdded(ps, sha))
  {
    hide AllAdded, Pow2, U64Log2, Tally, Flat, NodeCount;
    TableFits(ps, sha);
    FlatFits(AllAdded(ps, sha));
    SlotHolds(|ps|, NodeCount(AllAdded(ps, sha)), Flat(AllAdded(ps, sha)), 0);
  }

  lemma SumsOfNodes(ps: seq<seq<byte>>, sha: Sha)
    ensures SumTable(AllAdded(ps, sha), Counted()) == |ps|
    ensures SumTable(AllAdded(ps, sha), Once()) == NodeCount(AllAdded(ps, sha)) == |Digests(ps, sha)|
  {
    hide AllAdded, SumChain, Digests;
    CountsAddUp(ps, sha);
    NodesAreDigests(ps, sha);
    SameTableSum(AllAdded(ps, sha), Counted(), (e: Entry) => e.count);
    SameTableSum(AllAdded(ps, sha), Once(), (e: Entry) => 1);
  }

  lemma {:induction false} SameTableSum(t: Table, v: Weight, w: Weight)
    requires forall e :: v(e) == w(e)
    ensures SumTable(t, v) == SumTable(t, w)
  {
    if t != [] {
      SameTableSum(t[1..], v, w);
      SameChainSum(t[0], v, w);
    }
  }

  lemma {:induction false} SameChainSum(chain: seq<Entry>, v: Weight, w: Weight)
    requires forall e :: v(e) == w(e)
    ensures SumChain(chain, v) == SumChain(chain, w)
  {
    if chain != [] { SameChainSum(chain[1..], v, w); }
  }

  /** In no slot are more bytes used than allocated. */
  lemma UsedNeverExceeds(ps: seq<seq<byte>>, sha: Sha, l: nat)
    requires l < SLOTS && PayloadsFit(ps)
    ensures Report(ps, sha).utilized[l].part <= Report(ps, sha).utilized[l].total
  {
    hide AllAdded, Pow2, U64Log2, Flat, SumTable, SumChain, Report;
    var t := AllAdded(ps, sha);
    ReportSlot(ps, sha, l);
    FlatSum(t, InSlot(l, Allocated()));
    FlatSum(t, InSlot(l, InUse()));
    forall e | e in Flat(t) ensures InSlot(l, InUse())(e) <= InSlot(l, Allocated())(e) {
      UsedWithin(ps, sha, e);
    }
    Lighter(Flat(t), InSlot(l, InUse()), InSlot(l, Allocated()));
  }

  /** A sum over the payloads of one slot. */
  function OfSlot(l: nat, f: seq<byte> -> nat): seq<byte> -> nat {
    p => if U64Log2(|p|) == l then f(p) else 0
  }

  function PayloadBytes(): seq<byte> -> nat { p => |p| }

  function PayloadUsed(): seq<byte> -> nat { p => Utilized(p) }

  function PayloadOnce(): seq<byte> -> nat { p => 1 }

  /** Without digest collisions, slot l tells how many payloads of 2^l to 2^(l + 1) - 1 bytes there were. */
  lemma SlotTells(ps: seq<seq<byte>>, sha: Sha, l: nat)
    requires l < SLOTS && PayloadsFit(ps) && CollisionFree(ps, sha)
    ensures
      var h := Report(ps, sha);
      && h.counts[l].total == SumOver(ps, OfSlot(l, PayloadOnce()))
      && h.utilized[l] == Pair(SumOver(ps, OfSlot(l, PayloadBytes())), SumOver(ps, OfSlot(l, PayloadUsed())))
  {
    hide AllAdded, Pow2, U64Log2, Utilized, SumTable, SumOver, Report;
    ReportSlot(ps, sha, l);
    WeightsAddUp(ps, sha, InSlot(l, Counted()), OfSlot(l, PayloadOnce()));
    WeightsAddUp(ps, sha, InSlot(l, Allocated()), OfSlot(l, PayloadBytes()));
    WeightsAddUp(ps, sha, InSlot(l, InUse()), OfSlot(l, PayloadUsed()));
  }

  /** Without digest collisions, the utilization totals are the bytes, and the used bytes, of all payloads. */
  lemma BytesConserved(ps: seq<seq<byte>>, sha: Sha)
    requires PayloadsFit(ps) && CollisionFree(ps, sha)
    ensures
      var h := Report(ps, sha);
      && SumBelow(Totals(h.utilized), SLOTS) == SumOver(ps, PayloadBytes())
      && SumBelow(Parts(h.utilized), SLOTS) == SumOver(ps, PayloadUsed())
  {
    hide AllAdded, Pow2, U64Log2, Utilized, SumTable, SumOver, SumBelow, Report;
    var h := Report(ps, sha);
    forall l: nat | l < SLOTS
      ensures Totals(h.utilized)(l) == SumTable(AllAdded(ps, sha), InSlot(l, Allocated()))
      ensures Parts(h.utilized)(l) == SumTable(AllAdded(ps, sha), InSlot(l, InUse()))
    {
      ReportSlot(ps, sha, l);
    }
    ColumnAddsUp(ps, sha, Totals(h.utilized), Allocated());
    ColumnAddsUp(ps, sha, Parts(h.utilized), InUse());
    WeightsAddUp(ps, sha, Allocated(), PayloadBytes());
    WeightsAddUp(ps, sha, InUse(), PayloadUsed());
  }

  // ----- Where the bytes are not those of the slot -----

  lemma SlotOfEight()
    ensures U64Log2(8) == 3
  {
    SlotByPowers(8, 3);
  }

  /** The slot is the only one whose powers enclose the size. */
  lemma SlotByPowers(n: nat, l: nat)
    requires 0 < n < Pow2(64) && Pow2(l) <= n < Pow2(l + 1)
    ensures U64Log2(n) == l
  {
    hide U64Log2, Pow2;
    Log2Fits(n);
    var m := U64Log2(n);
    if m < l { PowersGrow(m + 1, l); } else if l < m { PowersGrow(l + 1, m); }
  }

  lemma {:induction false} PowersGrow(a: nat, b: nat)
    requires a <= b
    ensures Pow2(a) <= Pow2(b)
  {
    if a < b { PowersGrow(a, b - 1); }
  }

  lemma {:induction false} LastOfAlike(es: seq<Entry>, l: nat, size: nat)
    requires es != [] && U64Log2(size) == l && forall e :: e in es ==> e.size == size && e.count == 1
    ensures LastIn(es, l) == Pair(size, size)
  {
    hide U64Log2;
    assert es[|es| - 1] in es;
  }

  /** Two payloads of eight bytes with different digests: slot 3 says eight bytes where there are sixteen. */
  lemma TwoOfOneSlot(p: seq<byte>, q: seq<byte>, sha: Sha)
    requires |p| == |q| == 8 && sha(p) != sha(q)
    ensures
      var h := Report([p, q], sha);
      h.bytes[3].total == h.bytes[3].part == 8 && h.utilized[3].total == 16 && h.counts[3].total == 2
  {
    hide AllAdded, U64Log2, Utilized, SumTable, SumChain, Flat, Digests, Report, Occurrences, Pow2;
    var ps := [p, q];
    EightFits();
    SlotOfEight();
    SlotTells(ps, sha, 3);
    SumOfTwo(p, q, OfSlot(3, PayloadBytes()));
    SumOfTwo(p, q, OfSlot(3, PayloadOnce()));
    var es := Flat(AllAdded(ps, sha));
    forall e | e in es ensures e.size == 8 && e.count == 1 { NodeOfTwo(p, q, sha, e); }
    if es == [] {
      NoBytes(ps, sha);
      assert false;
    }
    LastOfAlike(es, 3, 8);
    BytesAreLast(ps, sha, 3);
  }

  lemma EightFits()
    ensures 8 < Pow2(64)
  {
    PowersGrow(4, 64);
  }

  lemma SumOfTwo(p: seq<byte>, q: seq<byte>, f: seq<byte> -> nat)
    ensures SumOver([p, q], f) == f(p) + f(q)
  {
    assert [p, q][..1] == [p] && [p][..0] == [];
    assert SumOver([p], f) == SumOver([], f) + f(p);
  }

  lemma NodeOfTwo(p: seq<byte>, q: seq<byte>, sha: Sha, e: Entry)
    requires |p| == |q| && sha(p) != sha(q) && e in Flat(AllAdded([p, q], sha))
    ensures e.size == |p| && e.count == 1
  {
    hide AllAdded, Utilized, WellFormed, Get;
    var t := AllAdded([p, q], sha);
    InFlat(t, e);
    var b, k :| 0 <= b < |t| && 0 <= k < |t[b]| && t[b][k] == e;
    AllAddedWellFormed([p, q], sha);
    GetFindsAll(t, b, k);
    TableIsMap([p, q], sha, e.digest);
    OccursOnce(p, q, sha, e.digest);
  }

  lemma OccursOnce(p: seq<byte>, q: seq<byte>, sha: Sha, d: Digest)
    requires sha(p) != sha(q)
    ensures Occurrences([p, q], sha, d) <= 1
  {
    assert [p, q][..1] == [p] && [p][..0] == [];
    assert Occurrences([p], sha, d) == Occurrences([], sha, d) + if sha(p) == d then 1 else 0;
  }

  /** A report of nothing has nothing in its slots. */
  lemma NoBytes(ps: seq<seq<byte>>, sha: Sha)
    requires Flat(AllAdded(ps, sha)) == []
    ensures Report(ps, sha).counts[3].total == 0
  {
    hide AllAdded, Flat, NodeCount;
  }

  lemma BytesAreLast(ps: seq<seq<byte>>, sha: Sha, l: nat)
    requires l < SLOTS && PayloadsFit(ps)
    ensures Report(ps, sha).bytes[l] == LastIn(Flat(AllAdded(ps, sha)), l)
  {
    hide AllAdded, Flat, NodeCount, Pow2, U64Log2, Tally, LastIn;
    TableFits(ps, sha);
    FlatFits(AllAdded(ps, sha));
    SlotHolds(|ps|, NodeCount(AllAdded(ps, sha)), Flat(AllAdded(ps, sha)), l);
  }

  // ----- Totals over journals -----

  function PlusPair(a: Pair, b: Pair): Pair {
    Pair(a.total + b.total, a.part + b.part)
  }

  function PlusSlots(a: seq<Pair>, b: seq<Pair>): (r: seq<Pair>)
    requires |a| == |b|
    ensures |r| == |a|
  {
    seq(|a|, l requires 0 <= l < |a| => PlusPair(a[l], b[l]))
  }

  function Plus(a: Histogram, b: Histogram): (r: Histogram)
    requires Sized(a) && Sized(b)
    ensures Sized(r)
  {
    Histogram(a.count + b.count, a.unique + b.unique,
              PlusSlots(a.counts, b.counts), PlusSlots(a.bytes, b.bytes), PlusSlots(a.utilized, b.utilized))
  }

  /** One array of the loop of add_stats. */
  method AddSlots(dest: array<Pair>, src: array<Pair>)
    requires dest.Length == src.Length == SLOTS && dest != src
    modifies dest
    ensures dest[..] == PlusSlots(old(dest[..]), src[..])
  {
    for i := 0 to SLOTS
      invariant forall l :: 0 <= l < i ==> dest[l] == PlusPair(old(dest[l]), src[l])
      invariant forall l :: i <= l < SLOTS ==> dest[l] == old(dest[l])
    {
      dest[i] := Pair(dest[i].total + src[i].total, dest[i].part + src[i].part);
    }
  }

  /** add_stats */
  method AddStats(dest: Stats, src: Stats)
    requires dest.Valid() && src.Valid() && dest != src
    requires {dest.counts, dest.bytes, dest.utilized} !! {src.counts, src.bytes, src.utilized}
    modifies dest, dest.counts, dest.bytes, dest.utilized
    ensures dest.Value() == Plus(old(dest.Value()), src.Value())
    ensures src.Value() == old(src.Value())
  {
    hide PlusSlots;
    dest.count := dest.count + src.count;
    dest.unique := dest.unique + src.unique;
    AddSlots(dest.counts, src.counts);
    AddSlots(dest.bytes, src.bytes);
    AddSlots(dest.utilized, src.utilized);
  }

  ghost predicate AllSized(reports: seq<Histogram>) {
    forall j :: 0 <= j < |reports| ==> Sized(reports[j])
  }

  /** The totals after the journals have reached their ends in this order. */
  function Aggregate(reports: seq<Histogram>, order: seq<nat>): (h: Histogram)
    requires AllSized(reports) && forall i :: 0 <= i < |order| ==> order[i] < |reports|
    ensures Sized(h)
  {
    if order == [] then Blank(0, 0)
    else Plus(Aggregate(reports, order[..|order| - 1]), reports[order[|order| - 1]])
  }

  function Each(reports: seq<Histogram>, c: Histogram -> nat): nat -> nat {
    (j: nat) => if j < |reports| then c(reports[j]) else 0
  }

  /** A number in a report that is added up by Plus. */
  ghost predicate Additive(c: Histogram -> nat) {
    c(Blank(0, 0)) == 0 && forall a, b {:trigger Plus(a, b)} :: Sized(a) && Sized(b) ==> c(Plus(a, b)) == c(a) + c(b)
  }

  lemma {:induction false} AggregateSums(reports: seq<Histogram>, order: seq<nat>, c: Histogram -> nat)
    requires AllSized(reports) && (forall i :: 0 <= i < |order| ==> order[i] < |reports|) && Additive(c)
    ensures c(Aggregate(reports, order)) == SumInOrder(Each(reports, c), order)
  {
    hide Plus;
    if order != [] {
      var n := |order| - 1;
      AggregateSums(reports, order[..n], c);
    }
  }

  /** Each number in the totals is the sum of that number over the journals, whatever order they ended in. */
  lemma AggregateIsPointwise(reports: seq<Histogram>, order: seq<nat>, c: Histogram -> nat)
    requires AllSized(reports) && Permutation(order, |reports|) && Additive(c)
    ensures c(Aggregate(reports, order)) == SumBelow(Each(reports, c), |reports|)
  {
    hide Aggregate, Additive;
    AggregateSums(reports, order, c);
    SumAnyOrder(Each(reports, c), order, |reports|);
  }

  lemma SlotsAdditive(l: nat)
    requires l < SLOTS
    ensures Additive((h: Histogram) => if l < |h.counts| then h.counts[l].total else 0)
    ensures Additive((h: Histogram) => if l < |h.counts| then h.counts[l].part else 0)
    ensures Additive((h: Histogram) => if l < |h.bytes| then h.bytes[l].total else 0)
    ensures Additive((h: Histogram) => if l < |h.bytes| then h.bytes[l].part else 0)
    ensures Additive((h: Histogram) => if l < |h.utilized| then h.utilized[l].total else 0)
    ensures Additive((h: Histogram) => if l < |h.utilized| then h.utilized[l].part else 0)
  {}

  /** The totals do not depend on the order in which the journals reach their ends. */
  lemma TotalsAnyOrder(reports: seq<Histogram>, order: seq<nat>, other: seq<nat>)
    requires AllSized(reports) && Permutation(order, |reports|) && Permutation(other, |reports|)
    ensures Aggregate(reports, order) == Aggregate(reports, other)
  {
    var a, b := Aggregate(reports, order), Aggregate(reports, other);
    assert Additive((h: Histogram) => h.count) && Additive((h: Histogram) => h.unique);
    hide Aggregate, Additive, Permutation;
    SameNumber(reports, order, other, (h: Histogram) => h.count);
    SameNumber(reports, order, other, (h: Histogram) => h.unique);
    forall l | 0 <= l < SLOTS
      ensures a.counts[l] == b.counts[l] && a.bytes[l] == b.bytes[l] && a.utilized[l] == b.utilized[l]
    {
      SameSlot(reports, order, other, l);
    }
    assert a.counts == b.counts && a.bytes == b.bytes && a.utilized == b.utilized;
  }

  lemma SameSlot(reports: seq<Histogram>, order: seq<nat>, other: seq<nat>, l: nat)
    requires AllSized(reports) && Permutation(order, |reports|) && Permutation(other, |reports|) && l < SLOTS
    ensures
      var a, b := Aggregate(reports, order), Aggregate(reports, other);
      a.counts[l] == b.counts[l] && a.bytes[l] == b.bytes[l] && a.utilized[l] == b.utilized[l]
  {
    hide Aggregate, Additive, SumBelow, Each, Permutation;
    SlotsAdditive(l);
    SameNumber(reports, order, other, (h: Histogram) => if l < |h.counts| then h.counts[l].total else 0);
    SameNumber(reports, order, other, (h: Histogram) => if l < |h.counts| then h.counts[l].part else 0);
    SameNumber(reports, order, other, (h: Histogram) => if l < |h.bytes| then h.bytes[l].total else 0);
    SameNumber(reports, order, other, (h: Histogram) => if l < |h.bytes| then h.bytes[l].part else 0);
    SameNumber(reports, order, other, (h: Histogram) => if l < |h.utilized| then h.utilized[l].total else 0);
    SameNumber(reports, order, other, (h: Histogram) => if l < |h.utilized| then h.utilized[l].part else 0);
  }

  lemma SameNumber(reports: seq<Histogram>, order: seq<nat>, other: seq<nat>, c: Histogram -> nat)
    requires AllSized(reports) && Permutation(order, |reports|) && Permutation(other, |reports|) && Additive(c)
    ensures c(Aggregate(reports, order)) == c(Aggregate(reports, other))
  {
    AggregateIsPointwise(reports, order, c);
    AggregateIsPointwise(reports, other, c);
  }
}
