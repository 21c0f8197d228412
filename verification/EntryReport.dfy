/**
 The entry-array report of one journal (src/report-entry-arrays.c:215-296): the walk that
 loads every entry array into the profile, and what its end adds to the totals.
 */
module EntryReport {
  import CacheProtocol
  import opened Bytes
  import opened Counters
  import opened EntryProfile
  import opened EntryStats
  import opened EntryTable
  import opened EntryTotals
  import opened JournalCache
  import opened JournalFile
  import opened JournalSample
  import opened ObjectIterator
  import opened ObjectWalk

  /** offsetof(EntryArrayObject, items) */
  const ITEMS_OFFSET := 24

  /** An object whose items lie within the file, at least one byte of them. */
  predicate Complete(file: seq<byte>, offset: nat)
    requires HasObject(file, offset)
  {
    var size := ObjectAt(file, offset).size;
    ITEMS_OFFSET < size && offset + size <= |file|
  }

  function Payload(file: seq<byte>, offset: nat): seq<byte>
    requires HasObject(file, offset) && Complete(file, offset)
  {
    file[offset + ITEMS_OFFSET..offset + ObjectAt(file, offset).size]
  }

  predicate IsArray(file: seq<byte>, offset: nat)
    requires HasObject(file, offset)
  {
    ObjectAt(file, offset).kind == OBJECT_ENTRY_ARRAY
  }

  ghost predicate ArraysComplete(file: seq<byte>, s: seq<nat>)
    requires Readable(file, s)
  {
    forall i :: 0 <= i < |s| && IsArray(file, s[i]) ==> Complete(file, s[i])
  }

  /** The items of the entry arrays at these offsets. */
  ghost function Payloads(file: seq<byte>, s: seq<nat>): seq<seq<byte>>
    requires Readable(file, s) && ArraysComplete(file, s)
  {
    if s == [] then []
    else
      var n := |s| - 1;
      Payloads(file, s[..n]) + if IsArray(file, s[n]) then [Payload(file, s[n])] else []
  }

  /** A journal with one entry array: where the next one is, and two items. */
  function ArrayFile(next: bv64, a: bv64, b: bv64): (file: seq<byte>)
    ensures |file| == 296
  {
    HeaderBytes(0, 0, Zeros(16), 256, 256) + ArrayBytes(next, a, b)
  }

  function ArrayBytes(next: bv64, a: bv64, b: bv64): (bytes: seq<byte>)
    ensures |bytes| == 40
  {
    ObjectBytes(6, 0, 40) + StoreLE(next) + StoreLE(a) + StoreLE(b)
  }

  /** Its payload is the two items, and nothing else. */
  lemma ItemsArePayload(next: bv64, a: bv64, b: bv64)
    ensures
      var file := ArrayFile(next, a, b);
      var h := ParseHeader(file);
      && Offsets(file, h, h.headerSize) == [256] && EndOf(file, h, h.headerSize).Finished?
      && HasObject(file, 256) && IsArray(file, 256) && Complete(file, 256)
      && Payload(file, 256) == StoreLE(a) + StoreLE(b)
  {
    hide HeaderBytes, ObjectBytes, ParseHeader, ObjectAt, StoreLE, HasObject;
    var file, start := ArrayFile(next, a, b), HeaderBytes(0, 0, Zeros(16), 256, 256);
    var rest := StoreLE(next) + StoreLE(a) + StoreLE(b);
    HeaderIs(0, 0, Zeros(16), 256, 256, ArrayBytes(next, a, b));
    ObjectIs(start, 6, 0, 40, rest);
    assert start + ObjectBytes(6, 0, 40) + rest == file;
    var h := ParseHeader(file);
    Unfold(file, h, 256);
    NothingAfterTail(file, h, 296);
    assert file[280..296] == StoreLE(a) + StoreLE(b);
  }

  lemma PayloadsNext(file: seq<byte>, s: seq<nat>, k: nat)
    requires k < |s| && Readable(file, s[..k + 1]) && ArraysComplete(file, s[..k + 1])
    ensures Readable(file, s[..k]) && ArraysComplete(file, s[..k])
    ensures HasObject(file, s[k]) && (IsArray(file, s[k]) ==> Complete(file, s[k]))
    ensures
      Payloads(file, s[..k + 1]) ==
        Payloads(file, s[..k]) + if IsArray(file, s[k]) then [Payload(file, s[k])] else []
  {
    hide HasObject, IsArray, Complete, Payload;
    assert s[..k + 1][..k] == s[..k];
    assert s[..k + 1][k] == s[k];
    forall i | 0 <= i < k ensures HasObject(file, s[..k][i]) { assert s[..k + 1][i] == s[i]; }
    forall i | 0 <= i < k && IsArray(file, s[..k][i]) ensures Complete(file, s[..k][i]) {
      assert s[..k + 1][i] == s[i];
    }
  }

  lemma ArraysNext(file: seq<byte>, s: seq<nat>, k: nat)
    requires k < |s| && Readable(file, s[..k]) && ArraysComplete(file, s[..k])
    requires HasObject(file, s[k]) && (IsArray(file, s[k]) ==> Complete(file, s[k]))
    ensures Readable(file, s[..k + 1]) && ArraysComplete(file, s[..k + 1])
  {
    hide HasObject, IsArray, Complete;
    var t := s[..k + 1];
    forall i | 0 <= i < |t| ensures HasObject(file, t[i]) {
      if i < k { assert s[..k][i] == t[i]; }
    }
    forall i | 0 <= i < |t| && IsArray(file, t[i]) ensures Complete(file, t[i]) {
      if i < k { assert s[..k][i] == t[i]; }
    }
  }

  lemma AllAddedNext(ps: seq<seq<byte>>, p: seq<byte>, sha: Sha)
    ensures AllAdded(ps + [p], sha) == Added(AllAdded(ps, sha), sha(p), p)
  {
    assert (ps + [p])[..|ps|] == ps;
  }

  /** What the visit of an object does to the profile. */
  function Visited(file: seq<byte>, offset: nat, table: Table, sha: Sha): Table
    requires HasObject(file, offset) && (IsArray(file, offset) ==> Complete(file, offset)) && |table| == N_BUCKETS
  {
    if IsArray(file, offset) then Added(table, sha(Payload(file, offset)), Payload(file, offset)) else table
  }

  /** The profile after the first k objects of a walk. */
  ghost predicate Walked(file: seq<byte>, s: seq<nat>, k: nat, sha: Sha, table: Table, count: nat) {
    && k <= |s| && Readable(file, s[..k]) && ArraysComplete(file, s[..k])
    && table == AllAdded(Payloads(file, s[..k]), sha) && count == |Payloads(file, s[..k])|
  }

  lemma WalkedNext(file: seq<byte>, s: seq<nat>, k: nat, sha: Sha, table: Table, count: nat)
    requires Walked(file, s, k, sha, table, count) && |table| == N_BUCKETS && k < |s|
    requires HasObject(file, s[k]) && (IsArray(file, s[k]) ==> Complete(file, s[k]))
    ensures Walked(file, s, k + 1, sha, Visited(file, s[k], table, sha), count + if IsArray(file, s[k]) then 1 else 0)
  {
    hide HasObject, IsArray, Complete, Payload, AllAdded, Added;
    ArraysNext(file, s, k);
    PayloadsNext(file, s, k);
    var ps := Payloads(file, s[..k]);
    if IsArray(file, s[k]) {
      AllAddedNext(ps, Payload(file, s[k]), sha);
    } else {
      assert ps + [] == ps;
    }
  }

  lemma WalkedAll(file: seq<byte>, s: seq<nat>, sha: Sha, table: Table, count: nat)
    requires Walked(file, s, |s|, sha, table, count)
    ensures Readable(file, s) && ArraysComplete(file, s)
    ensures table == AllAdded(Payloads(file, s), sha) && count == |Payloads(file, s)|
  {
    assert s[..|s|] == s;
  }

  lemma ArrayMissing(file: seq<byte>, s: seq<nat>, k: nat)
    requires Readable(file, s) && k < |s| && HasObject(file, s[k]) && IsArray(file, s[k]) && !Complete(file, s[k])
    ensures !ArraysComplete(file, s)
  {
    hide IsArray, Complete, HasObject;
  }

  lemma WalkedNothing(file: seq<byte>, s: seq<nat>, sha: Sha)
    ensures Walked(file, s, 0, sha, Empty(), 0)
  {
    assert s[..0] == [];
  }

  /** How the walk of a journal ends. */
  datatype Outcome = Reported | Failed | Aborted

  /** No part of the profile is a part of the journal. */
  ghost predicate Separated(profile: Profile, journal: Journal)
    reads profile
  {
    var ours: set<object> := (set o: object | o in profile.repr) + {profile, profile.buckets};
    var theirs: set<object> := (set o: object | o in journal.bufs) + (set o: object | o in journal.datas) + {journal};
    ours !! theirs
  }

  lemma NoOverlap(profile: Profile, journal: Journal)
    requires Separated(profile, journal)
    ensures forall o: object :: o == profile || o == profile.buckets || o in profile.repr ==>
      o != journal && o !in journal.bufs && o !in journal.datas
  {}

  /** The journal is idle, the profile is a table, and neither is part of the other. */
  ghost predicate Ready(journal: Journal, profile: Profile, file: seq<byte>)
    reads journal, journal.bufs, journal.datas, journal.Dests(), profile, profile.buckets, profile.repr
  {
    Idle(journal, file) && profile.Valid() && Separated(profile, journal)
  }

  lemma TableSize(journal: Journal, profile: Profile, file: seq<byte>)
    requires Ready(journal, profile, file)
    ensures |profile.table| == N_BUCKETS
  {
    hide Idle, Separated, WellFormed, ChainIs, NodeCount;
  }

  datatype Taken = Next(isArray: bool) | Stop(outcome: Outcome)

  /** iter_object_header->size - offsetof(EntryArrayObject, items), in 64 bits */
  function PayloadSize(size: nat): nat {
    (size + U64_LIMIT - ITEMS_OFFSET) % U64_LIMIT
  }

  lemma PayloadSizeIs(size: nat)
    requires size < U64_LIMIT
    ensures PayloadSize(size) == if size < ITEMS_OFFSET then size + U64_LIMIT - ITEMS_OFFSET else size - ITEMS_OFFSET
  {}

  /** per_object on an entry array, and per_entry_array_payload: memory is needed for the payload, and for a node. */
  method TakeArray(journal: Journal, profile: Profile, offset: nat, header: ObjectHeader, reply: Replies, n: nat,
        forPayload: bool, forNode: bool, sha: Sha, ghost file: seq<byte>)
    returns (r: Taken)
    requires Ready(journal, profile, file) && AllHonest(file, reply)
    requires HasObject(file, offset) && header == ObjectAt(file, offset) && |file| < U64_LIMIT
    modifies journal, journal.bufs, journal.datas
    modifies profile, profile.buckets, profile.repr`count
    ensures Ready(journal, profile, file) && fresh(profile.repr - old(profile.repr))
    ensures
      r.Next? ==>
        && r.isArray && Complete(file, offset)
        && profile.table == Added(old(profile.table), sha(Payload(file, offset)), Payload(file, offset))
    ensures r.Stop? ==> !r.outcome.Reported? && profile.table == old(profile.table)
    ensures Complete(file, offset) && forPayload && forNode && AllWilling(file, reply) ==> r.Next?
  {
    hide CacheProtocol.Inv, Willing, Honest, Journal.Valid, Profile.Valid, HasObject, ObjectAt, Added, PayloadSize;
    PayloadSizeIs(header.size);
    var payloadSize := PayloadSize(header.size);
    if !forPayload {
      return Stop(Failed);
    }
    if payloadSize == 0 {
      return Stop(Aborted);  // assert(length) in journal_read
    }
    var items := offset + ITEMS_OFFSET;
    var loaded, payload := ReadItems(journal, items, payloadSize, reply(n, items, payloadSize), file);
    if !loaded {
      return Stop(Failed);
    }
    assert Complete(file, offset) && payload == Payload(file, offset);
    NoOverlap(profile, journal);
    assert journal.Dests() == {};
    var added := profile.AddPayload(payload, sha(payload), forNode);
    assert journal.Dests() == {};
    assert forall o: object :: o in journal.datas || o in journal.bufs ==> old(allocated(o));
    return if added then Next(true) else Stop(Failed);
  }

  /** journal_read of the items into memory of their size. */
  method ReadItems(journal: Journal, items: nat, size: nat, reply: Reply, ghost file: seq<byte>)
    returns (loaded: bool, payload: seq<byte>)
    requires Idle(journal, file) && size > 0 && Honest(file, items, size, reply)
    modifies journal, journal.bufs, journal.datas
    ensures Idle(journal, file)
    ensures loaded ==> items + size <= |file| && payload == file[items..items + size]
    ensures Willing(file, items, size, reply) ==> (loaded <==> items + size <= |file|)
  {
    hide CacheProtocol.Inv, Willing, Honest, Journal.Valid;
    var buf := new byte[size];
    assert buf !in journal.datas && buf !in journal.Dests();
    var answer := journal.ReadThrough(items, size, buf, reply, file);
    assert buf[..] == buf[..size];
    return answer == Done, buf[..];
  }

  /** One step of the iterator, and per_object on what it finds. */
  method OneObject(journal: Journal, profile: Profile, it: ObjectIterator, h: Header, reply: Replies, k: nat,
        memory: nat -> bool, sha: Sha, ghost file: seq<byte>)
    returns (r: Taken)
    requires Ready(journal, profile, file) && AllHonest(file, reply) && |file| < U64_LIMIT
    modifies it, journal, journal.bufs, journal.datas
    modifies profile, profile.buckets, profile.repr`count
    ensures Ready(journal, profile, file) && fresh(profile.repr - old(profile.repr))
    ensures
      var offset := NextOffset(h, old(it.State()));
      && (r.Next? ==>
            && HasObject(file, offset) && (IsArray(file, offset) ==> Complete(file, offset))
            && Step(file, h, old(it.State())) == (it.State(), Object(offset, ObjectAt(file, offset)))
            && |old(profile.table)| == N_BUCKETS
            && profile.table == Visited(file, offset, old(profile.table), sha)
            && (r.isArray <==> IsArray(file, offset)))
      && (r == Stop(Reported) ==> offset > h.tailObjectOffset && profile.table == old(profile.table))
      && (AllWilling(file, reply) && memory(2 * k) && memory(2 * k + 1) && r.Stop? ==>
            if offset > h.tailObjectOffset then r.outcome.Reported?
            else HasObject(file, offset) ==> IsArray(file, offset) && !Complete(file, offset))
  {
    hide CacheProtocol.Inv, Willing, Honest, Journal.Valid, Profile.Valid, HasObject, ObjectAt, NextOffset, Step;
    hide Complete, Payload, Added, Offsets, EndOf, Separated, Idle;
    ghost var before := it.State();
    StepIs(file, h, before);
    NoOverlap(profile, journal);
    TableSize(journal, profile, file);
    var offset := NextOffset(h, it.State());
    assert forall o: object :: o == profile || o == profile.buckets || o in profile.repr ==> o != it;
    var e := it.Next(journal, h, reply(2 * k, offset, OBJECT_HEADER_BYTES), file);
    if e.End? {
      return Stop(Reported);
    }
    if e.Unreadable? {
      return Stop(Failed);
    }
    if e.header.kind != OBJECT_ENTRY_ARRAY {
      return Next(false);
    }
    r := TakeArray(journal, profile, e.offset, e.header, reply, 2 * k + 1, memory(2 * k), memory(2 * k + 1), sha,
      file);
  }

  /** The walk of per_object up to its last dispatch. */
  method WalkArrays(journal: Journal, profile: Profile, it: ObjectIterator, h: Header, reply: Replies,
        memory: nat -> bool, sha: Sha, ghost file: seq<byte>)
    returns (outcome: Outcome, count: nat)
    requires Ready(journal, profile, file) && profile.table == Empty() && it.State().offset == 0
    requires AllHonest(file, reply) && |file| < U64_LIMIT
    requires Sane(h) && EndOf(file, h, h.headerSize) != Wrapping
    modifies it, journal, journal.bufs, journal.datas
    modifies profile, profile.buckets, profile.repr`count
    ensures Ready(journal, profile, file) && fresh(profile.repr - old(profile.repr))
    ensures
      var s := Offsets(file, h, h.headerSize);
      && Chain(file, h, h.headerSize, s) && Readable(file, s)
      && (outcome.Reported? ==>
            && EndOf(file, h, h.headerSize).Finished? && ArraysComplete(file, s)
            && profile.table == AllAdded(Payloads(file, s), sha) && count == |Payloads(file, s)|)
      && (AllWilling(file, reply) && (forall n :: memory(n)) ==>
            (outcome.Reported? <==> EndOf(file, h, h.headerSize).Finished? && ArraysComplete(file, s)))
  {
    hide Ready, NextOffset, HasObject, ObjectAt, Offsets, EndOf, Step, Chain, Complete, Payload, AllAdded;
    hide Walked, Visited, Sane, IsArray, ArraysComplete, Payloads, AllHonest;
    ghost var s := Offsets(file, h, h.headerSize);
    OffsetsAreChain(file, h, h.headerSize);
    OffsetsReadable(file, h, h.headerSize);
    FirstOffset(h, it.State());
    StartsBehindHeader(h);
    WalkedNothing(file, s, sha);
    count := 0;
    var k := 0;
    assert s[0..] == s;
    while true
      invariant Ready(journal, profile, file) && fresh(profile.repr - old(profile.repr))
      invariant NextOffset(h, it.State()) > 0
      invariant k <= |s|
      invariant s[k..] == Offsets(file, h, NextOffset(h, it.State()))
      invariant EndOf(file, h, NextOffset(h, it.State())) == EndOf(file, h, h.headerSize)
      invariant Walked(file, s, k, sha, profile.table, count)
      decreases |s| - k
    {
      ghost var before, table := it.State(), profile.table;
      StepIs(file, h, before);
      TableSize(journal, profile, file);
      var r := OneObject(journal, profile, it, h, reply, k, memory, sha, file);
      if r.Stop? {
        if EndOf(file, h, h.headerSize).Finished? && NextOffset(h, before) <= h.tailObjectOffset {
          StillThere(file, h, NextOffset(h, before), s, k);
          if IsArray(file, s[k]) && !Complete(file, s[k]) { ArrayMissing(file, s, k); }
        }
        if r.outcome.Reported? { WalkedAll(file, s, sha, profile.table, count); }
        return r.outcome, count;
      }
      ghost var next := NextStop(file, h, before);
      assert s[k..][0] == s[k] && s[k..][1..] == s[k + 1..];
      WalkedNext(file, s, k, sha, table, count);
      if r.isArray {
        count := count + 1;
      }
      k := k + 1;
    }
  }

  lemma BytePower()
    ensures Pow2(8) == 0x100
  {}

  lemma WordPower()
    ensures Pow2(64) == U64_LIMIT
  {
    hide Pow2;
    BytePower();
    PowerSum(8, 8);
    PowerSum(16, 16);
    PowerSum(32, 32);
  }

  /** A payload is shorter than 2^64. */
  lemma {:induction false} PayloadsAreShort(file: seq<byte>, s: seq<nat>)
    requires Readable(file, s) && ArraysComplete(file, s)
    ensures PayloadsFit(Payloads(file, s))
  {
    hide Pow2, HasObject, ObjectAt;
    WordPower();
    if s != [] {
      var n := |s| - 1;
      assert s[..n + 1] == s;
      PayloadsNext(file, s, n);
      PayloadsAreShort(file, s[..n]);
      forall p | p in Payloads(file, s) ensures |p| < U64_LIMIT {
        if p !in Payloads(file, s[..n]) {
          assert IsArray(file, s[n]) && p == Payload(file, s[n]);
        }
      }
      assert PayloadsFit(Payloads(file, s));
    } else {
      assert Payloads(file, s) == [];
    }
  }

  /** per_object at the end of a journal: the statistics of the profile are added to the totals. */
  method EndOfJournal(profile: Profile, count: nat, totals: Stats, ghost ps: seq<seq<byte>>, ghost sha: Sha)
    requires profile.Valid() && profile.table == AllAdded(ps, sha) && count == |ps| && PayloadsFit(ps)
    requires totals.Valid()
    modifies totals, totals.counts, totals.bytes, totals.utilized
    ensures totals.Value() == Plus(old(totals.Value()), Report(ps, sha))
  {
    hide Profile.Valid, AllAdded, Pow2, Tally, Plus, Flat, SizesFit;
    profile.UniqueIsNodes();
    TableFits(ps, sha);
    var stats := new Stats(count, profile.unique);
    assert stats.counts != totals.counts && stats.counts != totals.bytes && stats.counts != totals.utilized;
    assert forall o: object :: o == profile || o == profile.buckets || o in profile.repr ==>
      o != stats.counts && o != stats.bytes && o != stats.utilized;
    stats.TallyProfile(profile);
    AddStats(totals, stats);
  }

  /** The parts of the totals are not parts of the journal. */
  ghost predicate ApartFromJournal(totals: Stats, journal: Journal) {
    var ours: set<object> := {totals, totals.counts, totals.bytes, totals.utilized};
    var theirs: set<object> := (set o: object | o in journal.bufs) + (set o: object | o in journal.datas) + {journal};
    ours !! theirs
  }

  ghost predicate TotalsApart(totals: Stats, journal: Journal, profile: Profile)
    reads profile
  {
    var ours: set<object> := {totals, totals.counts, totals.bytes, totals.utilized};
    var theirs: set<object> := (set o: object | o in profile.repr) + {profile, profile.buckets};
    ApartFromJournal(totals, journal) && ours !! theirs
  }

  /** The walk and its end, with everything allocated. */
  method Run(journal: Journal, profile: Profile, it: ObjectIterator, h: Header, reply: Replies,
        memory: nat -> bool, sha: Sha, totals: Stats, ghost file: seq<byte>)
    returns (outcome: Outcome)
    requires Ready(journal, profile, file) && profile.table == Empty() && it.State().offset == 0
    requires AllHonest(file, reply) && |file| < U64_LIMIT
    requires Sane(h) && EndOf(file, h, h.headerSize) != Wrapping
    requires totals.Valid() && TotalsApart(totals, journal, profile)
    modifies it, journal, journal.bufs, journal.datas
    modifies profile, profile.buckets, profile.repr`count
    modifies totals, totals.counts, totals.bytes, totals.utilized
    ensures Idle(journal, file)
    ensures
      var s := Offsets(file, h, h.headerSize);
      && Chain(file, h, h.headerSize, s) && Readable(file, s)
      && (outcome.Reported? ==>
            && EndOf(file, h, h.headerSize).Finished? && ArraysComplete(file, s)
            && totals.Value() == Plus(old(totals.Value()), Report(Payloads(file, s), sha)))
      && (!outcome.Reported? ==> totals.Value() == old(totals.Value()))
      && (AllWilling(file, reply) && (forall n :: memory(n)) ==>
            (outcome.Reported? <==> EndOf(file, h, h.headerSize).Finished? && ArraysComplete(file, s)))
  {
    hide HasObject, ObjectAt, NextOffset, Offsets, EndOf, Step, Chain, Complete, Payload, AllAdded, Sane, Plus;
    hide Report, Readable;
    hide CacheProtocol.Inv, Journal.Valid, Profile.Valid, Willing, Honest, AllWilling, AllHonest, Separated;
    hide ArraysComplete;
    ghost var was := totals.Value();
    assert {totals, totals.counts, totals.bytes, totals.utilized} !! {it as object};
    var count;
    outcome, count := WalkArrays(journal, profile, it, h, reply, memory, sha, file);
    assert totals.Value() == was;
    if outcome.Reported? {
      ghost var s := Offsets(file, h, h.headerSize);
      PayloadsAreShort(file, s);
      assert journal.Dests() == {};
      EndOfJournal(profile, count, totals, Payloads(file, s), sha);
      assert journal.Dests() == {};
      assert forall o: object :: o in journal.datas || o in journal.bufs ==>
        o != totals && o != totals.counts && o != totals.bytes && o != totals.utilized;
    }
  }

  /** per_journal: from the header to the totals. */
  method PerJournal(journal: Journal, first: Reply, reply: Replies, memory: nat -> bool, sha: Sha, totals: Stats,
        ghost file: seq<byte>)
    returns (outcome: Outcome)
    requires Idle(journal, file) && AllHonest(file, reply) && Honest(file, 0, HEADER_BYTES, first)
    requires |file| < U64_LIMIT
    requires |file| >= HEADER_BYTES ==>
               Sane(ParseHeader(file)) && EndOf(file, ParseHeader(file), ParseHeader(file).headerSize) != Wrapping
    requires totals.Valid() && ApartFromJournal(totals, journal)
    modifies journal, journal.bufs, journal.datas
    modifies totals, totals.counts, totals.bytes, totals.utilized
    ensures Idle(journal, file)
    ensures !outcome.Reported? ==> totals.Value() == old(totals.Value())
    ensures |file| < HEADER_BYTES ==> outcome.Failed?
    ensures |file| >= HEADER_BYTES ==>
              var h := ParseHeader(file);
              var s := Offsets(file, h, h.headerSize);
              && Chain(file, h, h.headerSize, s) && Readable(file, s)
              && (outcome.Reported? ==>
                    && EndOf(file, h, h.headerSize).Finished? && ArraysComplete(file, s)
                    && totals.Value() == Plus(old(totals.Value()), Report(Payloads(file, s), sha)))
              && (Willing(file, 0, HEADER_BYTES, first) && AllWilling(file, reply) && (forall n :: memory(n)) ==>
                    (outcome.Reported? <==> EndOf(file, h, h.headerSize).Finished? && ArraysComplete(file, s)))
  {
    hide HasObject, ObjectAt, NextOffset, Offsets, EndOf, Step, Chain, Complete, Payload, AllAdded, Sane, Plus;
    hide Report, Readable, ParseHeader;
    hide CacheProtocol.Inv, Journal.Valid, Profile.Valid, Willing, Honest, AllWilling, AllHonest, ArraysComplete;
    ghost var was := totals.Value();
    var answer, h := LoadHeader(journal, first, file);
    assert totals.Value() == was;
    if answer != Done {
      if |file| >= HEADER_BYTES {
        OffsetsAreChain(file, ParseHeader(file), ParseHeader(file).headerSize);
        OffsetsReadable(file, ParseHeader(file), ParseHeader(file).headerSize);
      }
      return Failed;
    }
    assert journal.Dests() == {};
    var it := new ObjectIterator(ObjectHeader(0, 0, 0));
    var profile := new Profile();
    assert journal.Dests() == {};
    assert forall o: object :: o in journal.datas || o in journal.bufs ==>
      o != it && o != profile && o != profile.buckets;
    outcome := Run(journal, profile, it, h, reply, memory, sha, totals, file);
  }

  // ----- The ends of all journals -----

  /** A profile at the end of a walk over these payloads. */
  ghost predicate Ended(profile: Profile, count: nat, ps: seq<seq<byte>>, sha: Sha)
    reads profile, profile.buckets, profile.repr
  {
    profile.Valid() && profile.table == AllAdded(ps, sha) && count == |ps| && PayloadsFit(ps)
  }

  ghost predicate ApartFromProfile(totals: Stats, profile: Profile)
    reads profile
  {
    var ours: set<object> := {totals, totals.counts, totals.bytes, totals.utilized};
    var theirs: set<object> := (set o: object | o in profile.repr) + {profile, profile.buckets};
    ours !! theirs
  }

  ghost function Reports(walks: seq<seq<seq<byte>>>, sha: Sha): (reports: seq<Histogram>)
    ensures AllSized(reports) && |reports| == |walks|
  {
    seq(|walks|, j requires 0 <= j < |walks| => Report(walks[j], sha))
  }

  /** The journals reach their ends in some order: the totals are the aggregate of their reports. */
  method EndInOrder(profiles: seq<Profile>, counts: seq<nat>, order: seq<nat>, totals: Stats,
        ghost walks: seq<seq<seq<byte>>>, ghost sha: Sha)
    requires |profiles| == |counts| == |walks| && forall i :: 0 <= i < |order| ==> order[i] < |profiles|
    requires forall j :: 0 <= j < |profiles| ==> Ended(profiles[j], counts[j], walks[j], sha)
    requires forall j :: 0 <= j < |profiles| ==> ApartFromProfile(totals, profiles[j])
    requires totals.Valid() && totals.Value() == Blank(0, 0)
    modifies totals, totals.counts, totals.bytes, totals.utilized
    ensures totals.Value() == Aggregate(Reports(walks, sha), order)
  {
    hide Profile.Valid, AllAdded, Plus, Report, PayloadsFit;
    for i := 0 to |order|
      invariant forall j :: 0 <= j < |profiles| ==> Ended(profiles[j], counts[j], walks[j], sha)
      invariant totals.Value() == Aggregate(Reports(walks, sha), order[..i])
    {
      var j := order[i];
      assert order[..i + 1][..i] == order[..i];
      EndOfJournal(profiles[j], counts[j], totals, walks[j], sha);
      assert forall k :: 0 <= k < |profiles| ==> ApartFromProfile(totals, profiles[k]);
    }
    assert order[..|order|] == order;
  }
}
