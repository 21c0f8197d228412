/**
 The verification of hashed objects in place (src/verify-hashed-objects.c:116-223): one buffer
 for all objects of a journal, and counters, against the specification in VerifyHashed.
 */
module HashVerifier {
  import CacheProtocol
  import Lookup3
  import SipHash
  import opened Bytes
  import opened Counters
  import opened JournalCache
  import opened JournalFile
  import opened ObjectIterator
  import opened ObjectWalk
  import opened VerifyHashed

  /** What the machine does for a verification: it hands out memory or not, and decompresses into some of it. */
  datatype Machine = Machine(host: Lookup3.Host, heap: Heap, memory: nat -> bool, decompress: Decompressor,
                             decompressed: nat)

  lemma WordsReadable(host: Lookup3.Host, address: nat, memory: seq<byte>, n: nat)
    requires n <= |memory| && |memory| % 4 == 0
    ensures Lookup3.Readable(host, Lookup3.LittleEndian, address, memory, n)
  {}

  /** Memory as malloc hands it out: rounded up to whole words. */
  function Padded(content: seq<byte>): (memory: seq<byte>)
    ensures |content| <= |memory| && |memory| % 4 == 0 && memory[..|content|] == content
  {
    WholeWords(|content|);
    content + seq(Aligned(|content|) - |content|, _ => 0 as byte)
  }

  lemma WholeWords(n: nat)
    ensures Aligned(n) % 4 == 0
  {
    assert Aligned(n) == 4 * ((n + 7) / 8 * 2);
  }

  /** hash(), on memory that need not reach as far as it is told. */
  method Hash(h: Header, host: Lookup3.Host, memory: seq<byte>, address: nat, n: nat) returns (r: SipHash.Outcome)
    requires |h.fileId| == 16 && |memory| % 4 == 0 && address + |memory| < U64_LIMIT && n < U64_LIMIT
    ensures r == HashIn(h, memory, address, n)
  {
    hide SipHash.SipHash24, SipHash.HashAt, Lookup3.Hash64, Lookup3.Readable, Keyed;
    if Keyed(h) {
      r := SipHash.OneShotAt(memory, address, n, h.fileId);
    } else if n <= |memory| {
      WordsReadable(host, address, memory, n);
      var hash := Lookup3.JenkinsHash64(host, address, memory, n);
      r := SipHash.Inside(hash);
    } else {
      r := SipHash.PastEnd;
    }
  }

  /** hash() of decompressed content. */
  method HashContent(h: Header, machine: Machine, content: seq<byte>) returns (hash: bv64)
    requires |h.fileId| == 16
    ensures hash == HashOf(h, content)
  {
    hide SipHash.SipHash24, Lookup3.Hash64, Lookup3.Readable, Padded, Keyed;
    if Keyed(h) {
      hash := SipHash.OneShot(content, h.fileId);
    } else {
      var memory := Padded(content);
      WordsReadable(machine.host, machine.decompressed, memory, |content|);
      hash := Lookup3.JenkinsHash64(machine.host, machine.decompressed, memory, |content|);
    }
  }

  /** The part of verify_hashed_object behind the switch; held is whether *decompressed has memory, before and after. */
  method CheckPayload(h: Header, machine: Machine, bytes: seq<byte>, address: nat, held: bool, offset: nat,
        payloadSize: nat)
    returns (v: Verdict, holds: bool)
    requires |h.fileId| == 16 && Usable(Block(address, bytes)) && |bytes| >= STORED_HASH_END
    requires offset == PayloadOffset(bytes[0]) && payloadSize == PayloadSize(bytes)
    ensures v == VerdictIn(h, Block(address, bytes), held, machine.decompress)
    ensures holds <==> held || Inflates(Block(address, bytes), machine.decompress)
  {
    hide HashOf, LoadLE, Compressed, Zstd, HashIn, U64At, Keyed;
    var payload := Behind(bytes, offset);
    var hash;
    holds := held;
    if Compressed(bytes[1]) {
      if !Zstd(bytes[1]) || payloadSize == 0 {
        return Asserts, holds;
      }
      var content := machine.decompress(payload, payloadSize);
      if content.Undecodable? {
        return Corrupt(content.error), holds;
      }
      if content.ReadsPast? {
        return Overrun, holds;
      }
      holds := held || content.data != [];
      if Keyed(h) && !holds {
        return Asserts, holds;  // assert(in) in siphash24
      }
      hash := HashContent(h, machine, content.data);
    } else {
      PayloadUsable(bytes, address, offset);
      var r := Hash(h, machine.host, payload, address + offset, payloadSize);
      if r.PastEnd? {
        return Overrun, holds;
      }
      hash := r.hash;
    }
    return if hash != LoadLE(bytes[16..24]) then Mismatch else Good, holds;
  }

  lemma PayloadUsable(bytes: seq<byte>, address: nat, offset: nat)
    requires Usable(Block(address, bytes)) && offset % 4 == 0 && offset <= DATA_PAYLOAD
    ensures |Behind(bytes, offset)| % 4 == 0 && address + offset + |Behind(bytes, offset)| < U64_LIMIT
  {}

  /** How the verification of a journal ends. */
  datatype Outcome = Verified | Unread | Refused(verdict: Verdict)

  datatype Progress = Onward | Stopped(outcome: Outcome)

  /** The buffer and the counters that per_journal keeps for one journal. */
  class Verifier {
    var iterObject: array<byte>
    var iterAddress: nat  // 0 is NULL
    var hasDecompressed: bool  // *decompressed is not NULL
    var nFieldObjects: nat
    var nDataObjects: nat

    constructor ()
      ensures fresh(iterObject) && Value() == Buffers(Block(0, []), false) && nFieldObjects == nDataObjects == 0
    {
      iterObject, iterAddress, hasDecompressed := new byte[0], 0, false;
      nFieldObjects, nDataObjects := 0, 0;
    }

    function Memory(): Block
      reads this, iterObject
    {
      Block(iterAddress, iterObject[..])
    }

    function Value(): Buffers
      reads this, iterObject
    {
      Buffers(Memory(), hasDecompressed)
    }

    ghost predicate Separated(journal: Journal)
      reads this, iterObject
    {
      iterObject !in journal.datas && Usable(Memory())
    }

    /** verify_hashed_object on whatever iter_object holds. */
    method VerifyHashedObject(h: Header, machine: Machine) returns (v: Verdict)
      requires |h.fileId| == 16 && Usable(Memory()) && iterObject.Length > 0 && Hashed(iterObject[0])
      modifies `nFieldObjects, `nDataObjects, `hasDecompressed
      ensures v == VerdictIn(h, Memory(), old(hasDecompressed), machine.decompress)
      ensures hasDecompressed <==> old(hasDecompressed) || Inflates(Memory(), machine.decompress)
      ensures iterObject.Length >= STORED_HASH_END ==>
                && nFieldObjects == old(nFieldObjects) + (if iterObject[0] == OBJECT_FIELD then 1 else 0)
                && nDataObjects == old(nDataObjects) + (if iterObject[0] == OBJECT_DATA then 1 else 0)
    {
      hide HashOf, LoadLE, Compressed, Zstd, HashIn, U64At, Usable;
      var bytes := iterObject[..];
      if |bytes| < STORED_HASH_END {
        return Overrun;
      }
      var offset;
      if bytes[0] == OBJECT_FIELD {
        offset := FIELD_PAYLOAD;
        nFieldObjects := nFieldObjects + 1;
      } else {
        offset := DATA_PAYLOAD;
        nDataObjects := nDataObjects + 1;
      }
      var payloadSize := (U64At(bytes, 8) + U64_LIMIT - offset) % U64_LIMIT;
      v, hasDecompressed := CheckPayload(h, machine, bytes, iterAddress, hasDecompressed, offset, payloadSize);
    }

    /** The k-th journal_get_object into iter_object, for which new memory is taken if it is too small. */
    method Load(journal: Journal, offset: nat, size: nat, k: nat, machine: Machine, reply: Reply,
          ghost file: seq<byte>)
      returns (loaded: bool)
      requires Idle(journal, file) && Separated(journal) && size > 0 && Honest(file, offset, size, reply)
      requires Allocates(machine.heap, |file|)
      modifies this`iterObject, this`iterAddress, iterObject, journal, journal.bufs, journal.datas
      ensures Idle(journal, file) && Separated(journal) && (iterObject == old(iterObject) || fresh(iterObject))
      ensures
        loaded ==>
          && offset + size <= |file|
          && Memory() == Loaded(old(Memory()), k, file[offset..offset + size], machine.heap)
      ensures machine.memory(k) && Willing(file, offset, size, reply) && offset + size <= |file| ==> loaded
    {
      hide CacheProtocol.Inv, Journal.Valid, Willing, Honest, Aligned, Usable, Allocates;
      HeapIs(machine.heap, k, size, |file|);
      if iterObject.Length < size {
        var b := machine.heap(k, size);
        if !machine.memory(k) || |b.bytes| < size {
          return false;
        }
        assert journal.Dests() == {};
        var grown := new byte[|b.bytes|](i requires 0 <= i < |b.bytes| => b.bytes[i]);
        assert grown[..] == b.bytes;
        assert grown !in journal.datas && journal.Dests() == {};
        assert forall o: object :: o in journal.datas || o in journal.bufs ==> o != this;
        iterObject, iterAddress := grown, b.address;
        assert journal.Dests() == {};
        assert Memory() == b;
      }
      ghost var before := Memory();
      var answer := journal.ReadThrough(offset, size, iterObject, reply, file);
      assert before.bytes[size..] == iterObject[size..];
      assert iterObject[..] == iterObject[..size] + iterObject[size..];
      StillUsable(before, Memory());
      return answer == Done;
    }

    /** per_object on a hashed object, and per_hashed_object. */
    method TakeObject(journal: Journal, h: Header, machine: Machine, offset: nat, header: ObjectHeader, k: nat,
          reply: Reply, ghost file: seq<byte>)
      returns (r: Progress)
      requires Idle(journal, file) && Separated(journal) && |h.fileId| == 16 && Allocates(machine.heap, |file|)
      requires HasObject(file, offset) && header == ObjectAt(file, offset) && Hashed(header.kind)
      requires header.size > 0 ==> Honest(file, offset, header.size, reply)
      modifies this, iterObject, journal, journal.bufs, journal.datas
      ensures Idle(journal, file) && Separated(journal) && (iterObject == old(iterObject) || fresh(iterObject))
      ensures
        var before := old(Value());
        && (r.Onward? ==>
              && AcceptedNext(file, h, offset, k, before, machine.heap, machine.decompress)
              && Value() == Used(file, offset, k, before, machine.heap, machine.decompress)
              && nFieldObjects == old(nFieldObjects) + OfKind(file, offset, OBJECT_FIELD)
              && nDataObjects == old(nDataObjects) + OfKind(file, offset, OBJECT_DATA))
        && (r.Stopped? ==> !r.outcome.Verified?)
        && (r.Stopped? && r.outcome.Refused? ==>
              r.outcome.verdict == JudgedNext(file, h, offset, k, before, machine.heap, machine.decompress) != Good)
        && ((header.size > 0 ==> Willing(file, offset, header.size, reply)) ==>
              machine.memory(k) && AcceptedNext(file, h, offset, k, before, machine.heap, machine.decompress) ==>
                r.Onward?)
    {
      hide CacheProtocol.Inv, Journal.Valid, Willing, Honest, ObjectAt, HasObject, VerdictIn, Usable, Allocates;
      hide Inflates;
      if header.size == 0 {
        return Stopped(Refused(Asserts));  // assert(length) in journal_read
      }
      ghost var b := Taken(file, offset, k, Memory(), machine.heap);
      var loaded := Load(journal, offset, header.size, k, machine, reply, file);
      if !loaded {
        return Stopped(Unread);
      }
      TakenStarts(file, offset, k, old(Memory()), machine.heap);
      assert Memory() == b && iterObject[0] == b.bytes[0];
      assert journal.Dests() == {};
      var verdict := VerifyHashedObject(h, machine);
      assert journal.Dests() == {};
      if verdict != Good {
        return Stopped(Refused(verdict));
      }
      GoodIsLong(h, b, old(hasDecompressed), machine.decompress);
      return Onward;
    }

    /** One step of the iterator, and per_object on what it finds. */
    method OneObject(journal: Journal, it: ObjectIterator, h: Header, machine: Machine, reply: Replies, k: nat,
          ghost file: seq<byte>)
      returns (r: Progress)
      requires Idle(journal, file) && Separated(journal) && AllHonest(file, reply) && |h.fileId| == 16
      requires Allocates(machine.heap, |file|)
      modifies this, iterObject, it, journal, journal.bufs, journal.datas
      ensures Idle(journal, file) && Separated(journal) && (iterObject == old(iterObject) || fresh(iterObject))
      ensures
        var offset := NextOffset(h, old(it.State()));
        && (r == Stopped(Verified) ==>
              && offset > h.tailObjectOffset
              && nFieldObjects == old(nFieldObjects) && nDataObjects == old(nDataObjects))
        && (r != Stopped(Verified) && r != Stopped(Unread) ==> offset <= h.tailObjectOffset && HasObject(file, offset))
        && (offset > h.tailObjectOffset ==> r.Stopped?)
        && (HasObject(file, offset) && offset <= h.tailObjectOffset ==>
              var before := old(Value());
              && (r.Onward? ==>
                    && Step(file, h, old(it.State())) == (it.State(), Object(offset, ObjectAt(file, offset)))
                    && AcceptedNext(file, h, offset, k, before, machine.heap, machine.decompress)
                    && Value() == Used(file, offset, k, before, machine.heap, machine.decompress)
                    && nFieldObjects == old(nFieldObjects) + OfKind(file, offset, OBJECT_FIELD)
                    && nDataObjects == old(nDataObjects) + OfKind(file, offset, OBJECT_DATA))
              && (r.Stopped? && r.outcome.Refused? ==>
                    r.outcome.verdict ==
                      JudgedNext(file, h, offset, k, before, machine.heap, machine.decompress) != Good)
              && (AllWilling(file, reply) && machine.memory(k) ==>
                    AcceptedNext(file, h, offset, k, before, machine.heap, machine.decompress) ==> r.Onward?))
        && (AllWilling(file, reply) && offset > h.tailObjectOffset ==> r == Stopped(Verified))
    {
      hide CacheProtocol.Inv, Journal.Valid, Willing, Honest, NextOffset, HasObject, ObjectAt, VerdictIn;
      hide Usable, Allocates, Loaded;
      ghost var was := it.State();
      StepIs(file, h, was);
      var offset := NextOffset(h, it.State());
      assert journal.Dests() == {};
      var e := it.Next(journal, h, reply(2 * k, offset, OBJECT_HEADER_BYTES), file);
      assert Value() == old(Value());
      if e.End? {
        return Stopped(Verified);
      }
      if e.Unreadable? {
        return Stopped(Unread);
      }
      if !Hashed(e.header.kind) {
        return Onward;
      }
      r := TakeObject(journal, h, machine, e.offset, e.header, k, reply(2 * k + 1, e.offset, e.header.size), file);
    }
  }

  lemma TakenStarts(file: seq<byte>, offset: nat, k: nat, b: Block, heap: Heap)
    requires HasObject(file, offset) && Hashed(ObjectAt(file, offset).kind) && Allocates(heap, |file|)
    requires offset + ObjectAt(file, offset).size <= |file| && ObjectAt(file, offset).size > 0
    ensures
      var after := Taken(file, offset, k, b, heap).bytes;
      |after| > 0 && after[0] == ObjectAt(file, offset).kind
  {
    hide ObjectAt, Loaded;
    var bytes := file[offset..offset + ObjectAt(file, offset).size];
    SliceIs(file, offset);
    LoadedStarts(b, k, bytes, heap, |file|);
    assert Loaded(b, k, bytes, heap).bytes[..|bytes|][0] == bytes[0];
  }

  lemma GoodIsLong(h: Header, b: Block, held: bool, decompress: Decompressor)
    requires |h.fileId| == 16 && VerdictIn(h, b, held, decompress) == Good
    ensures |b.bytes| >= STORED_HASH_END
  {}

  /** What a verification has kept and counted. */
  datatype Kept = Kept(buffers: Buffers, nField: nat, nData: nat)

  /** Where a verification stands behind the first k objects of a walk. */
  ghost predicate SoFar(file: seq<byte>, h: Header, s: seq<nat>, k: nat, machine: Machine, kept: Kept)
    requires Readable(file, s) && |h.fileId| == 16
  {
    && k <= |s|
    && (forall i :: 0 <= i < k ==> Accepts(file, h, s, i, machine.heap, machine.decompress))
    && kept.buffers == BuffersAfter(file, s[..k], machine.heap, machine.decompress)
    && kept.nField == NumberOf(file, s[..k], OBJECT_FIELD) && kept.nData == NumberOf(file, s[..k], OBJECT_DATA)
  }

  lemma SoFarNothing(file: seq<byte>, h: Header, s: seq<nat>, machine: Machine)
    requires Readable(file, s) && |h.fileId| == 16
    ensures SoFar(file, h, s, 0, machine, Kept(Buffers(Block(0, []), false), 0, 0))
  {
    assert s[..0] == [];
  }

  lemma SoFarNext(file: seq<byte>, h: Header, s: seq<nat>, k: nat, machine: Machine, kept: Kept)
    requires Readable(file, s) && |h.fileId| == 16 && SoFar(file, h, s, k, machine, kept) && k < |s|
    requires AcceptedNext(file, h, s[k], k, kept.buffers, machine.heap, machine.decompress)
    ensures
      var buffers := Used(file, s[k], k, kept.buffers, machine.heap, machine.decompress);
      SoFar(file, h, s, k + 1, machine,
            Kept(buffers, kept.nField + OfKind(file, s[k], OBJECT_FIELD), kept.nData + OfKind(file, s[k], OBJECT_DATA)))
  {
    hide HasObject, OfKind, Used, AcceptedNext;
    assert s[..k + 1][..k] == s[..k];
  }

  /** At the end of a walk, or at an object that is not accepted. */
  lemma SoFarEnds(file: seq<byte>, h: Header, s: seq<nat>, k: nat, machine: Machine, kept: Kept, outcome: Outcome)
    requires Readable(file, s) && |h.fileId| == 16 && SoFar(file, h, s, k, machine, kept)
    requires outcome.Verified? ==> k == |s|
    requires
      outcome.Refused? ==>
        k < |s| &&
        outcome.verdict == JudgedNext(file, h, s[k], k, kept.buffers, machine.heap, machine.decompress) != Good
    ensures Concluded(file, h, s, machine, outcome, k)
    ensures
      k == |s| ==>
        && AllAccepted(file, h, s, machine.heap, machine.decompress)
        && kept.nField == NumberOf(file, s, OBJECT_FIELD) && kept.nData == NumberOf(file, s, OBJECT_DATA)
    ensures
      k < |s| && !AcceptedNext(file, h, s[k], k, kept.buffers, machine.heap, machine.decompress) ==>
        !AllAccepted(file, h, s, machine.heap, machine.decompress)
  {
    hide HasObject, OfKind, AcceptedNext, JudgedNext, BuffersAfter;
    assert s[..|s|] == s;
    if k < |s| && Accepts(file, h, s, k, machine.heap, machine.decompress) {
      AcceptedIsGood(file, h, s[k], k, kept.buffers, machine.heap, machine.decompress);
    }
  }

  lemma AcceptedIsGood(file: seq<byte>, h: Header, offset: nat, k: nat, before: Buffers, heap: Heap,
        decompress: Decompressor)
    requires HasObject(file, offset) && |h.fileId| == 16
    requires AcceptedNext(file, h, offset, k, before, heap, decompress)
    ensures JudgedNext(file, h, offset, k, before, heap, decompress) == Good
  {
    hide VerdictIn;
  }

  /** What the end of a verification says about the objects of its walk. */
  ghost predicate Concluded(file: seq<byte>, h: Header, s: seq<nat>, machine: Machine, outcome: Outcome, k: nat)
    requires Readable(file, s) && |h.fileId| == 16
  {
    && (outcome.Verified? ==> AllAccepted(file, h, s, machine.heap, machine.decompress))
    && (outcome.Refused? ==>
          && k < |s|
          && (forall i :: 0 <= i < k ==> Accepts(file, h, s, i, machine.heap, machine.decompress))
          && !Accepts(file, h, s, k, machine.heap, machine.decompress)
          && (var before := BuffersAfter(file, s[..k], machine.heap, machine.decompress);
              outcome.verdict == JudgedNext(file, h, s[k], k, before, machine.heap, machine.decompress)))
  }

  /** per_journal, once the header is loaded: the walk of per_object up to its last dispatch. */
  method PerJournal(journal: Journal, it: ObjectIterator, verifier: Verifier, h: Header, machine: Machine,
        reply: Replies, ghost file: seq<byte>)
    returns (outcome: Outcome, ghost k: nat)
    requires Idle(journal, file) && verifier.Separated(journal) && AllHonest(file, reply) && |h.fileId| == 16
    requires Sane(h) && EndOf(file, h, h.headerSize) != Wrapping && Allocates(machine.heap, |file|)
    requires it.State().offset == 0 && verifier.nFieldObjects == verifier.nDataObjects == 0
    requires verifier.Value() == Buffers(Block(0, []), false)
    modifies verifier, verifier.iterObject, it, journal, journal.bufs, journal.datas
    ensures Idle(journal, file)
    ensures
      var s := Offsets(file, h, h.headerSize);
      && Chain(file, h, h.headerSize, s) && Readable(file, s)
      // the end is reached when everything has been loaded, accepted and counted
      && Concluded(file, h, s, machine, outcome, k)
      && (outcome.Verified? ==>
            && EndOf(file, h, h.headerSize).Finished?
            && verifier.nFieldObjects == NumberOf(file, s, OBJECT_FIELD)
            && verifier.nDataObjects == NumberOf(file, s, OBJECT_DATA))
      // and nothing else stops a verification that is given what it asks for
      && (AllWilling(file, reply) && (forall n :: machine.memory(n)) && EndOf(file, h, h.headerSize).Finished? ==>
            (outcome.Verified? <==> AllAccepted(file, h, s, machine.heap, machine.decompress)))
  {
    hide Idle, Willing, Honest, HasObject, ObjectAt, NextOffset, Step, Offsets, EndOf, Chain, AcceptedNext, Sane;
    hide OfKind, Verifier.Separated, Used, Allocates, JudgedNext, SoFar, Concluded, AllAccepted, AllHonest, NumberOf;
    ghost var s := Offsets(file, h, h.headerSize);
    OffsetsAreChain(file, h, h.headerSize);
    OffsetsReadable(file, h, h.headerSize);
    FirstOffset(h, it.State());
    StartsBehindHeader(h);
    SoFarNothing(file, h, s, machine);
    k := 0;
    var n := 0;
    assert s[0..] == s;
    while true
      invariant Idle(journal, file) && verifier.Separated(journal)
      invariant verifier.iterObject == old(verifier.iterObject) || fresh(verifier.iterObject)
      invariant NextOffset(h, it.State()) > 0
      invariant k == n <= |s| && s[k..] == Offsets(file, h, NextOffset(h, it.State()))
      invariant EndOf(file, h, NextOffset(h, it.State())) == EndOf(file, h, h.headerSize)
      invariant
        SoFar(file, h, s, k, machine, Kept(verifier.Value(), verifier.nFieldObjects, verifier.nDataObjects))
      decreases |s| - k
    {
      ghost var was := it.State();
      ghost var kept := Kept(verifier.Value(), verifier.nFieldObjects, verifier.nDataObjects);
      StepIs(file, h, was);
      if NextOffset(h, was) <= h.tailObjectOffset { StillThere(file, h, NextOffset(h, was), s, k); }
      var r := verifier.OneObject(journal, it, h, machine, reply, n, file);
      if r.Stopped? {
        SoFarEnds(file, h, s, k, machine, kept, r.outcome);
        return r.outcome, k;
      }
      ghost var next := NextStop(file, h, was);
      assert s[k..][0] == s[k] && s[k..][1..] == s[k + 1..];
      SoFarNext(file, h, s, k, machine, kept);
      k, n := k + 1, n + 1;
    }
  }

  /** What an outcome says about the file itself: a verified journal is good exactly when no object is cut short. */
  ghost predicate Tells(file: seq<byte>, h: Header, s: seq<nat>, machine: Machine, outcome: Outcome, k: nat)
    requires Readable(file, s) && |h.fileId| == 16
  {
    && (outcome.Verified? ==> (AllPass(file, h, s, machine.decompress) <==> AllWhole(file, s)))
    && (outcome.Verified? && Plain(file, h, s) ==> AllPass(file, h, s, machine.decompress))
    && (outcome.Refused? ==>
          && k < |s|
          && (!Passes(file, h, s[k], machine.decompress) || (Keyed(h) && HollowAt(file, s[k], machine.decompress))))
    && (outcome.Refused? ==> !AllPass(file, h, s, machine.decompress) || Stumbles(file, h, s, machine.decompress))
  }

  lemma ConcludedTells(file: seq<byte>, h: Header, s: seq<nat>, machine: Machine, outcome: Outcome, k: nat)
    requires Readable(file, s) && |h.fileId| == 16 && Allocates(machine.heap, |file|) && Modest(machine.decompress)
    requires Concluded(file, h, s, machine, outcome, k)
    ensures Tells(file, h, s, machine, outcome, k)
  {
    hide AcceptedNext, Passes, HasObject, Modest, Allocates, ObjectAt, Keyed, Compressed, Whole, Plain, JudgedNext;
    hide HollowAt, Stumbles, BuffersAfter, Used;
    AllAcceptedExactly(file, h, s, machine.heap, machine.decompress);
    if Plain(file, h, s) { PlainAccepted(file, h, s, machine.heap, machine.decompress); }
    if outcome.Refused? {
      var before := BuffersAfter(file, s[..k], machine.heap, machine.decompress);
      AcceptedWhole(file, h, s[k], k, before, machine.heap, machine.decompress);
    }
  }

  /** Reads answer as far as the file goes, memory does not run out, and the walk has an end. */
  ghost predicate Cooperative(file: seq<byte>, h: Header, machine: Machine, first: Reply, reply: Replies) {
    && Willing(file, 0, HEADER_BYTES, first) && AllWilling(file, reply) && (forall n :: machine.memory(n))
    && EndOf(file, h, h.headerSize).Finished?
  }

  /** per_journal: the header, then the walk. */
  method VerifyJournal(journal: Journal, machine: Machine, first: Reply, reply: Replies, ghost file: seq<byte>)
    returns (outcome: Outcome, verifier: Verifier)
    requires Idle(journal, file) && AllHonest(file, reply) && Honest(file, 0, HEADER_BYTES, first)
    requires Allocates(machine.heap, |file|) && Modest(machine.decompress)
    requires |file| >= HEADER_BYTES ==>
               Sane(ParseHeader(file)) && EndOf(file, ParseHeader(file), ParseHeader(file).headerSize) != Wrapping
    modifies journal, journal.bufs, journal.datas
    ensures Idle(journal, file)
    ensures |file| < HEADER_BYTES ==> outcome.Unread?
    ensures |file| >= HEADER_BYTES ==>
              var h := ParseHeader(file);
              var s := Offsets(file, h, h.headerSize);
              && Chain(file, h, h.headerSize, s) && Readable(file, s)
              && (outcome.Verified? ==>
                    && EndOf(file, h, h.headerSize).Finished?
                    && (AllPass(file, h, s, machine.decompress) <==> AllWhole(file, s))
                    && verifier.nFieldObjects == NumberOf(file, s, OBJECT_FIELD)
                    && verifier.nDataObjects == NumberOf(file, s, OBJECT_DATA))
              && (outcome.Refused? ==>
                    !AllPass(file, h, s, machine.decompress) || Stumbles(file, h, s, machine.decompress))
              && (Cooperative(file, h, machine, first, reply) ==>
                    && (outcome.Verified? <==> AllAccepted(file, h, s, machine.heap, machine.decompress))
                    && (AllWhole(file, s) || Plain(file, h, s) ==>
                          (outcome.Verified? <==>
                             AllPass(file, h, s, machine.decompress) && !Stumbles(file, h, s, machine.decompress))))
  {
    hide CacheProtocol.Inv, Journal.Valid, Willing, Honest, AllWilling, AllHonest, Sane, Offsets, EndOf, Chain;
    hide Passes, ParseHeader, HasObject, OfKind, Allocates, Modest, Plain, Whole, AcceptedNext, Usable;
    hide Stumbles, HollowAt, BuffersAfter, Keyed;
    verifier := new Verifier();
    assert journal.Dests() == {};
    assert verifier.iterObject !in journal.datas;
    NullIsUsable();
    var answer, h := LoadHeader(journal, first, file);
    if answer != Done {
      if |file| >= HEADER_BYTES {
        OffsetsAreChain(file, ParseHeader(file), ParseHeader(file).headerSize);
        OffsetsReadable(file, ParseHeader(file), ParseHeader(file).headerSize);
      }
      return Unread, verifier;
    }
    var it := new ObjectIterator(ObjectHeader(0, 0, 0));
    ghost var k;
    outcome, k := PerJournal(journal, it, verifier, h, machine, reply, file);
    ghost var s := Offsets(file, h, h.headerSize);
    ConcludedTells(file, h, s, machine, outcome, k);
    AllAcceptedExactly(file, h, s, machine.heap, machine.decompress);
    if Plain(file, h, s) { PlainAccepted(file, h, s, machine.heap, machine.decompress); }
  }

  lemma HeapIs(heap: Heap, k: nat, n: nat, limit: nat)
    requires Allocates(heap, limit)
    ensures Usable(heap(k, n)) && (n <= limit ==> n <= |heap(k, n).bytes|)
  {}

  lemma StillUsable(b: Block, c: Block)
    requires Usable(b) && c.address == b.address && |c.bytes| == |b.bytes|
    ensures Usable(c)
  {}
}
