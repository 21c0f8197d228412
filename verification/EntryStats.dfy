/**
 The histogram of a profile and the totals over journals (src/report-entry-arrays.c:68-77,
 138-144, 194-249).
 */
module EntryStats {
  import opened EntryProfile
  import opened EntryTable

  const SLOTS: nat := 64

  // ----- u64log2 -----

  function Pow2(n: nat): (p: nat)
    ensures p >= 1
  {
    if n == 0 then 1 else 2 * Pow2(n - 1)
  }

  lemma {:induction false} PowerSum(a: nat, b: nat)
    ensures Pow2(a + b) == Pow2(a) * Pow2(b)
  {
    if a > 0 {
      PowerSum(a - 1, b);
      Twice(Pow2(a - 1), Pow2(b));
    }
  }

  lemma Twice(x: nat, y: nat)
    ensures 2 * x * y == 2 * (x * y)
  {}

  /** The leading zeros of a number of `width` bits: __builtin_clzll for a width of 64. */
  function LeadingZeros(n: nat, width: nat): (z: nat)
    ensures z <= width
  {
    if width == 0 || n >= Pow2(width - 1) then 0 else 1 + LeadingZeros(n, width - 1)
  }

  lemma {:induction false} LeadingZerosFit(n: nat, width: nat)
    requires 0 < n < Pow2(width)
    ensures
      var z := LeadingZeros(n, width);
      z < width && Pow2(width - 1 - z) <= n < Pow2(width - z)
  {
    if n < Pow2(width - 1) { LeadingZerosFit(n, width - 1); }
  }

  function Flip(b: bv6): bv6 {
    b ^ 63
  }

  function FromTop(b: bv6): bv6 {
    63 - b
  }

  lemma FlipIsFromTop(b: bv6)
    ensures Flip(b) == FromTop(b)
  {}

  lemma NoBorrow(b: bv6)
    ensures FromTop(b) as nat == 63 - b as nat
  {}

  lemma SixBits(z: nat)
    requires z < 64
    ensures (z as bv6) as nat == z
  {}

  /** z ^ 63U */
  function Xor63(z: nat): (r: nat)
    requires z < 64
    ensures r < 64
  {
    Flip(z as bv6) as nat
  }

  lemma Flipped(z: nat)
    requires z < 64
    ensures Xor63(z) == 63 - z
  {
    hide Flip, FromTop;
    FlipIsFromTop(z as bv6);
    NoBorrow(z as bv6);
    SixBits(z);
  }

  function U64Log2(n: nat): nat {
    var z := LeadingZeros(n, 64);
    if 1 < n && z < 64 then Xor63(z) else 0
  }

  lemma SmallPowers()
    ensures Pow2(0) == 1 && Pow2(1) == 2
  {}

  /** The slot of a size: 2^l <= size < 2^(l + 1). */
  lemma Log2Fits(n: nat)
    requires n < Pow2(64)
    ensures U64Log2(n) < 64 && (n == 0 ==> U64Log2(n) == 0)
    ensures n > 0 ==> Pow2(U64Log2(n)) <= n < Pow2(U64Log2(n) + 1)
  {
    hide Xor63, LeadingZeros, Pow2;
    SmallPowers();
    if n > 1 {
      LeadingZerosFit(n, 64);
      Flipped(LeadingZeros(n, 64));
    }
  }

  // ----- The histogram as a value -----

  /** A slot: the total over all objects, and the part of it that is unique or utilized. */
  datatype Pair = Pair(total: nat, part: nat)

  datatype Histogram = Histogram(count: nat, unique: nat, counts: seq<Pair>, bytes: seq<Pair>, utilized: seq<Pair>)

  ghost predicate Sized(s: Histogram) {
    |s.counts| == |s.bytes| == |s.utilized| == SLOTS
  }

  function Blank(count: nat, unique: nat): Histogram {
    var zeros := seq(SLOTS, _ => Pair(0, 0));
    Histogram(count, unique, zeros, zeros, zeros)
  }

  function Raised(slots: seq<Pair>, l: nat, total: nat, part: nat): (r: seq<Pair>)
    requires l < |slots|
    ensures |r| == |slots|
  {
    slots[l := Pair(slots[l].total + total, slots[l].part + part)]
  }

  /** One node's share: bytes are assigned where the others are accumulated. */
  function Tallied(s: Histogram, e: Entry): (r: Histogram)
    requires Sized(s)
    ensures Sized(r)
  {
    var l := U64Log2(e.size);
    if l >= SLOTS then s
    else
      Histogram(
        s.count, s.unique,
        Raised(s.counts, l, e.count, 1),
        s.bytes[l := Pair(e.size * e.count, e.size)],
        Raised(s.utilized, l, e.size * e.count, e.utilized * e.count))
  }

  function Tally(count: nat, unique: nat, es: seq<Entry>): (s: Histogram)
    ensures Sized(s)
  {
    if es == [] then Blank(count, unique)
    else Tallied(Tally(count, unique, es[..|es| - 1]), es[|es| - 1])
  }

  /** All entries of a table, bucket by bucket. */
  function Flat(t: Table): seq<Entry> {
    if t == [] then [] else Flat(t[..|t| - 1]) + t[|t| - 1]
  }

  lemma FlatStart(t: Table, count: nat, unique: nat)
    ensures Tally(count, unique, Flat(t[..0])) == Blank(count, unique)
  {
    assert t[..0] == [];
  }

  lemma FlatNext(t: Table, b: nat)
    requires b < |t|
    ensures Flat(t[..b + 1]) == Flat(t[..b]) + t[b]
  {
    assert t[..b + 1][..b] == t[..b];
  }

  /** Sizes are 64-bit numbers. */
  ghost predicate SizesFit(t: Table) {
    forall b, k :: 0 <= b < |t| && 0 <= k < |t[b]| ==> t[b][k].size < Pow2(64)
  }

  // ----- The histogram in place -----

  /** The two += of a slot. */
  method Raise(slots: array<Pair>, l: nat, total: nat, part: nat)
    requires l < slots.Length
    modifies slots
    ensures slots[..] == Raised(old(slots[..]), l, total, part)
  {
    slots[l] := Pair(slots[l].total + total, slots[l].part + part);
  }

  /** The two = of a slot. */
  method Assign(slots: array<Pair>, l: nat, total: nat, part: nat)
    requires l < slots.Length
    modifies slots
    ensures slots[..] == old(slots[..])[l := Pair(total, part)]
  {
    slots[l] := Pair(total, part);
  }

  /** entry_array_stats_t */
  class Stats {
    var count: nat
    var unique: nat
    const counts: array<Pair>
    const bytes: array<Pair>
    const utilized: array<Pair>

    ghost predicate Valid() {
      && counts.Length == bytes.Length == utilized.Length == SLOTS
      && counts != bytes && counts != utilized && bytes != utilized
    }

    ghost function Value(): (s: Histogram)
      requires Valid()
      reads this, counts, bytes, utilized
      ensures Sized(s)
    {
      Histogram(count, unique, counts[..], bytes[..], utilized[..])
    }

    constructor (count: nat, unique: nat)
      ensures Valid() && Value() == Blank(count, unique)
      ensures fresh(counts) && fresh(bytes) && fresh(utilized)
      ensures counts.Length == bytes.Length == utilized.Length == 64
    {
      this.count, this.unique := count, unique;
      counts := new Pair[SLOTS](_ => Pair(0, 0));
      bytes := new Pair[SLOTS](_ => Pair(0, 0));
      utilized := new Pair[SLOTS](_ => Pair(0, 0));
    }

    /** The body of the loop over the nodes. */
    method TallyNode(ea: Node)
      requires Valid() && ea.size < Pow2(64)
      modifies counts, bytes, utilized
      ensures Value() == Tallied(old(Value()), ea.Value())
    {
      hide U64Log2, Pow2, Raised;
      Log2Fits(ea.size);
      var l := U64Log2(ea.size);
      Raise(counts, l, ea.count, 1);
      Assign(bytes, l, ea.size * ea.count, ea.size);
      Raise(utilized, l, ea.size * ea.count, ea.utilized * ea.count);
    }

    /** The loop along one bucket, after the entries that have been tallied before. */
    method TallyChain(head: Node?, ghost chain: seq<Node>, ghost entries: seq<Entry>, ghost before: seq<Entry>)
      requires Valid() && ChainIs(head, chain, entries)
      requires forall k :: 0 <= k < |entries| ==> entries[k].size < Pow2(64)
      requires Value() == Tally(count, unique, before)
      modifies counts, bytes, utilized
      ensures Value() == Tally(count, unique, before + entries)
    {
      hide Pow2, Tallied;
      ghost var k := 0;
      var ea := head;
      assert before + entries[..0] == before;
      while ea != null
        invariant 0 <= k <= |chain| == |entries|
        invariant ChainIs(head, chain, entries)
        invariant ea == NodeAt(chain, k)
        invariant Value() == Tally(count, unique, before + entries[..k])
        decreases |chain| - k
      {
        assert entries[k] == chain[k].Value();
        ghost var es := before + entries[..k + 1];
        assert es[..|es| - 1] == before + entries[..k];
        TallyNode(ea);
        assert forall o: object :: o in chain ==> o != counts && o != bytes && o != utilized;
        assert chain[k].next == NodeAt(chain, k + 1);
        ea := ea.next;
        k := k + 1;
      }
      assert entries[..k] == entries;
    }

    /** One bucket of the loop over the buckets. */
    method TallyBucket(profile: Profile, i: nat)
      requires Valid() && profile.Valid() && i < N_BUCKETS && |profile.table| == N_BUCKETS && SizesFit(profile.table)
      requires Value() == Tally(count, unique, Flat(profile.table[..i]))
      modifies counts, bytes, utilized
      ensures profile.Valid() && profile.table == old(profile.table)
      ensures Value() == Tally(count, unique, Flat(profile.table[..i + 1]))
    {
      hide Pow2, Tally, WellFormed, NodeCount, ChainIs, Flat, Profile.Valid;
      profile.ChainAt(i);
      FlatNext(profile.table, i);
      TallyChain(profile.buckets[i], profile.nodes[i], profile.table[i], Flat(profile.table[..i]));
      assert forall o: object :: o == profile || o == profile.buckets || o in profile.repr ==>
        o != counts && o != bytes && o != utilized;
    }

    /** The loop over the buckets at the end of a journal. */
    method TallyProfile(profile: Profile)
      requires Valid() && profile.Valid() && |profile.table| == N_BUCKETS && SizesFit(profile.table)
      requires Value() == Blank(count, unique)
      modifies counts, bytes, utilized
      ensures profile.Valid() && profile.table == old(profile.table)
      ensures Value() == Tally(count, unique, Flat(profile.table))
    {
      hide Pow2, Tally, Flat, Profile.Valid, SizesFit;
      FlatStart(profile.table, count, unique);
      for i := 0 to N_BUCKETS
        invariant profile.Valid() && profile.table == old(profile.table)
        invariant Value() == Tally(count, unique, Flat(profile.table[..i]))
      {
        TallyBucket(profile, i);
      }
      assert profile.table[..N_BUCKETS] == profile.table;
    }
  }
}
