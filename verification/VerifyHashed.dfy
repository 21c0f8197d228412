/**
 Verifying hashed objects (src/verify-hashed-objects.c:45-250): every DATA and FIELD object
 of a journal is loaded into one buffer, decompressed where it has to be, hashed and compared.
 */
module VerifyHashed {
  import Lookup3
  import SipHash
  import opened Bytes
  import opened Counters
  import opened JournalFile
  import opened ObjectWalk

  const KEYED_HASH: byte := 4  // HEADER_INCOMPATIBLE_KEYED_HASH
  const COMPRESSION_MASK: byte := 7
  const COMPRESSED_ZSTD: byte := 4

  /** offsetof(DataObject, payload) and offsetof(FieldObject, payload) */
  const DATA_PAYLOAD := 64
  const FIELD_PAYLOAD := 40

  /** Behind the member hash of a HashedObject. */
  const STORED_HASH_END := 24

  predicate Hashed(kind: byte) {
    kind == OBJECT_DATA || kind == OBJECT_FIELD
  }

  function PayloadOffset(kind: byte): (offset: nat)
    ensures offset % 4 == 0 && HASHED_HEADER_BYTES <= offset <= DATA_PAYLOAD
  {
    if kind == OBJECT_DATA then DATA_PAYLOAD else FIELD_PAYLOAD
  }

  predicate Keyed(h: Header) {
    h.incompatibleFlags & KEYED_HASH != 0
  }

  predicate Compressed(flags: byte) {
    flags & COMPRESSION_MASK != 0
  }

  predicate Zstd(flags: byte) {
    flags & COMPRESSED_ZSTD != 0
  }

  /** Compression is in the three lowest bits of the flags, Zstandard in the third; so is the key of a journal. */
  lemma FlagBits(h: Header, flags: byte)
    ensures Compressed(flags) <==> flags << 5 != 0
    ensures Zstd(flags) <==> (flags >> 2) & 1 == 1
    ensures Keyed(h) <==> (h.incompatibleFlags >> 2) & 1 == 1
  {}

  /** What the decompression library makes of the first n bytes of some memory, which need not reach that far. */
  datatype Decompressed = Content(data: seq<byte>) | Undecodable(error: int) | ReadsPast

  type Decompressor = (seq<byte>, nat) -> Decompressed

  /** It uses no more than it is told to. */
  ghost predicate Modest(decompress: Decompressor) {
    forall memory: seq<byte>, n: nat {:trigger decompress(memory, n)} ::
      n <= |memory| ==> decompress(memory, n) == decompress(memory[..n], n)
  }

  // ----- What it means for an object of a file to be good -----

  /** The hash of a content: keyed with the file's id, or Jenkins' where the header does not ask for that. */
  function HashOf(h: Header, content: seq<byte>): bv64
    requires |h.fileId| == 16
  {
    if Keyed(h) then SipHash.SipHash24(h.fileId, content) else Lookup3.Hash64(content)
  }

  /** An object as large as its fixed part at least, whose stored hash is the hash of what its payload stands for. */
  ghost predicate GoodObject(h: Header, bytes: seq<byte>, decompress: Decompressor)
    requires |h.fileId| == 16
  {
    && |bytes| >= OBJECT_HEADER_BYTES && |bytes| >= PayloadOffset(bytes[0])
    && (var payload := bytes[PayloadOffset(bytes[0])..];
        var stored := LoadLE(bytes[16..24]);
        if !Compressed(bytes[1]) then stored == HashOf(h, payload)
        else
          && Zstd(bytes[1]) && payload != []
          && (var content := decompress(payload, |payload|);
              content.Content? && stored == HashOf(h, content.data)))
  }

  /** An object of a file, whole and good. */
  ghost predicate Matches(file: seq<byte>, h: Header, offset: nat, decompress: Decompressor)
    requires HasObject(file, offset) && |h.fileId| == 16
  {
    var size := ObjectAt(file, offset).size;
    offset + size <= |file| && GoodObject(h, file[offset..offset + size], decompress)
  }

  /** An object that is not hashed, or whose hash matches. */
  ghost predicate Passes(file: seq<byte>, h: Header, offset: nat, decompress: Decompressor)
    requires HasObject(file, offset) && |h.fileId| == 16
  {
    Hashed(ObjectAt(file, offset).kind) ==> Matches(file, h, offset, decompress)
  }

  // ----- What the code looks at: the memory of iter_object -----

  /** Memory as malloc hands it out: an address, and what it holds, rounded up to whole words. */
  datatype Block = Block(address: nat, bytes: seq<byte>)

  /** The block that malloc returns for the object of some place in a walk, and some size. */
  type Heap = (nat, nat) -> Block

  ghost predicate Usable(b: Block) {
    && |b.bytes| % 8 == 0 && b.address + |b.bytes| + DATA_PAYLOAD < U64_LIMIT
    && (b.bytes != [] ==> b.address >= 8)
  }

  /** Blocks are usable, and large enough for whatever is not larger than some limit. */
  ghost predicate Allocates(heap: Heap, limit: nat) {
    forall k: nat, n: nat {:trigger heap(k, n)} ::
      Usable(heap(k, n)) && (n <= limit ==> n <= |heap(k, n).bytes|)
  }

  /** Memory at one address, all zero. */
  function ZeroHeap(): Heap {
    (k: nat, n: nat) => Block(8, if n < 0x8000_0000_0000_0000 then seq(Aligned(n), _ => 0 as byte) else [])
  }

  /** There is such memory for any file that has fewer than 2^63 bytes. */
  lemma ZeroHeapAllocates(limit: nat)
    requires limit < 0x8000_0000_0000_0000
    ensures Allocates(ZeroHeap(), limit)
  {
    hide Aligned;
  }

  /** iter_object after an object has been loaded: new memory if it was too small, and stale bytes behind the object. */
  function Loaded(b: Block, k: nat, bytes: seq<byte>, heap: Heap): Block {
    var block := if |b.bytes| < |bytes| then heap(k, |bytes|) else b;
    if |block.bytes| < |bytes| then b else block.(bytes := bytes + block.bytes[|bytes|..])
  }

  /** The verdict on what lies in iter_object; a failed assertion and a read past the memory are verdicts, too. */
  datatype Verdict = Good | Mismatch | Corrupt(error: int) | Asserts | Overrun

  function Compared(stored: bv64, hash: bv64): Verdict {
    if stored == hash then Good else Mismatch
  }

  /** hash() of n bytes at the start of some memory, which need not reach that far. */
  function HashIn(h: Header, memory: seq<byte>, address: nat, n: nat): SipHash.Outcome
    requires |h.fileId| == 16
  {
    if Keyed(h) then SipHash.HashAt(h.fileId, memory, address, n)
    else if n <= |memory| then SipHash.Inside(Lookup3.Hash64(memory[..n])) else SipHash.PastEnd
  }

  /** o->object.size - offsetof(..., payload), in 64 bits */
  function PayloadSize(bytes: seq<byte>): (n: nat)
    requires |bytes| >= OBJECT_HEADER_BYTES
    ensures n < U64_LIMIT
  {
    (U64At(bytes, 8) + U64_LIMIT - PayloadOffset(bytes[0])) % U64_LIMIT
  }

  /** What the memory holds from an offset on. */
  function Behind(bytes: seq<byte>, offset: nat): seq<byte> {
    if offset <= |bytes| then bytes[offset..] else []
  }

  /** The verdict on some memory; held tells whether *decompressed, where content goes, has ever been allocated. */
  function VerdictIn(h: Header, b: Block, held: bool, decompress: Decompressor): Verdict
    requires |h.fileId| == 16
  {
    if |b.bytes| < STORED_HASH_END then Overrun
    else
      var offset := PayloadOffset(b.bytes[0]);
      var memory, n, stored := Behind(b.bytes, offset), PayloadSize(b.bytes), LoadLE(b.bytes[16..24]);
      if Compressed(b.bytes[1]) then
        if !Zstd(b.bytes[1]) || n == 0 then Asserts
        else match decompress(memory, n)
          case Undecodable(error) => Corrupt(error)
          case ReadsPast => Overrun
          case Content(data) =>
            if Keyed(h) && data == [] && !held then Asserts  // assert(in) in siphash24
            else Compared(stored, HashOf(h, data))
      else match HashIn(h, memory, b.address + offset, n)
        case PastEnd => Overrun
        case Inside(hash) => Compared(stored, hash)
  }

  /** Content other than nothing comes of some memory, and so *decompressed is allocated. */
  predicate Inflates(b: Block, decompress: Decompressor) {
    && |b.bytes| >= STORED_HASH_END && Compressed(b.bytes[1]) && Zstd(b.bytes[1]) && PayloadSize(b.bytes) != 0
    && (var content := decompress(Behind(b.bytes, PayloadOffset(b.bytes[0])), PayloadSize(b.bytes));
        content.Content? && content.data != [])
  }

  // ----- Objects that are large enough -----

  lemma LoadedStarts(b: Block, k: nat, bytes: seq<byte>, heap: Heap, limit: nat)
    requires Allocates(heap, limit) && |bytes| <= limit
    ensures
      var after := Loaded(b, k, bytes, heap).bytes;
      |bytes| <= |after| && after[..|bytes|] == bytes
  {}

  lemma LoadedUsable(b: Block, k: nat, bytes: seq<byte>, heap: Heap, limit: nat)
    requires Allocates(heap, limit) && Usable(b)
    ensures Usable(Loaded(b, k, bytes, heap))
  {}

  /** What the memory of an object as large as its fixed part tells is what the object tells. */
  lemma SameFields(memory: seq<byte>, bytes: seq<byte>)
    requires |bytes| <= |memory| && memory[..|bytes|] == bytes && |bytes| >= OBJECT_HEADER_BYTES
    requires |bytes| >= PayloadOffset(bytes[0]) && U64At(bytes, 8) == |bytes|
    ensures memory[0] == bytes[0] && memory[1] == bytes[1] && memory[16..24] == bytes[16..24]
    ensures
      var offset := PayloadOffset(bytes[0]);
      && PayloadSize(memory) == |bytes| - offset
      && memory[offset..][..|bytes| - offset] == bytes[offset..]
  {
    hide U64At, PayloadOffset;
    SameStart(memory, bytes);
    Unwrapped(|bytes|, PayloadOffset(bytes[0]));
    SlicedTail(memory, bytes, PayloadOffset(bytes[0]));
  }

  lemma SlicedTail(memory: seq<byte>, bytes: seq<byte>, offset: nat)
    requires offset <= |bytes| <= |memory| && memory[..|bytes|] == bytes
    ensures memory[offset..][..|bytes| - offset] == bytes[offset..]
  {
    forall i | 0 <= i < |bytes| - offset ensures memory[offset..][..|bytes| - offset][i] == bytes[offset..][i] {
      assert memory[..|bytes|][offset + i] == memory[offset + i];
    }
  }

  lemma Unwrapped(size: nat, offset: nat)
    requires offset <= size < U64_LIMIT
    ensures (size + U64_LIMIT - offset) % U64_LIMIT == size - offset
  {}

  /** An object whose payload decompresses to nothing. */
  ghost predicate Hollow(bytes: seq<byte>, decompress: Decompressor)
    requires |bytes| >= OBJECT_HEADER_BYTES && |bytes| >= PayloadOffset(bytes[0])
  {
    var payload := bytes[PayloadOffset(bytes[0])..];
    Compressed(bytes[1]) && Zstd(bytes[1]) && payload != [] && decompress(payload, |payload|) == Content([])
  }

  /**
   Whatever was in the memory before: an object as large as its fixed part is found good exactly when it is good, unless
   it is the first to be decompressed, to nothing, and the hash is keyed.
   */
  lemma WholeObject(h: Header, b: Block, held: bool, bytes: seq<byte>, decompress: Decompressor)
    requires |h.fileId| == 16 && Modest(decompress)
    requires |bytes| <= |b.bytes| && b.bytes[..|bytes|] == bytes && |bytes| >= OBJECT_HEADER_BYTES
    requires |bytes| >= PayloadOffset(bytes[0]) && U64At(bytes, 8) == |bytes|
    ensures
      VerdictIn(h, b, held, decompress) == Good <==>
        GoodObject(h, bytes, decompress) && !(Keyed(h) && !held && Hollow(bytes, decompress))
    ensures
      GoodObject(h, bytes, decompress) ==>
        (Inflates(b, decompress) <==> Compressed(bytes[1]) && !Hollow(bytes, decompress))
  {
    hide LoadLE, HashOf, Compressed, Zstd, PayloadSize, U64At, SipHash.SipHash24, Lookup3.Hash64, PayloadOffset, Keyed;
    SameFields(b.bytes, bytes);
    var offset := PayloadOffset(bytes[0]);
    var memory, n := b.bytes[offset..], |bytes| - offset;
    HashInside(h, memory, b.address + offset, n);
    assert decompress(memory, n) == decompress(memory[..n], n);
  }

  lemma HashInside(h: Header, memory: seq<byte>, address: nat, n: nat)
    requires |h.fileId| == 16 && n <= |memory|
    ensures HashIn(h, memory, address, n) == SipHash.Inside(HashOf(h, memory[..n]))
  {
    hide SipHash.SipHash24, Lookup3.Hash64, Keyed;
  }

  // ----- Objects that are not -----

  /** Between header and payload offset, without a key or compression: the hash runs away over the memory. */
  lemma ShortUnkeyed(h: Header, b: Block, held: bool, size: nat, decompress: Decompressor)
    requires |h.fileId| == 16 && !Keyed(h) && Usable(b) && |b.bytes| >= OBJECT_HEADER_BYTES
    requires U64At(b.bytes, 8) == size < PayloadOffset(b.bytes[0]) && !Compressed(b.bytes[1])
    ensures VerdictIn(h, b, held, decompress) == Overrun
  {
    hide LoadLE, U64At, Lookup3.Hash64;
    Wrapped(size, PayloadOffset(b.bytes[0]));
  }

  lemma Wrapped(size: nat, offset: nat)
    requires size < offset <= DATA_PAYLOAD
    ensures (size + U64_LIMIT - offset) % U64_LIMIT == U64_LIMIT - (offset - size) > U64_LIMIT - 65
  {}

  /** With a key: no word is hashed, only what the length leaves over in its low bits, and the length's low byte. */
  lemma ShortKeyed(h: Header, b: Block, held: bool, size: nat, decompress: Decompressor)
    requires |h.fileId| == 16 && Keyed(h) && Usable(b) && |b.bytes| >= STORED_HASH_END
    requires U64At(b.bytes, 8) == size < PayloadOffset(b.bytes[0]) && !Compressed(b.bytes[1])
    ensures
      var memory := Behind(b.bytes, PayloadOffset(b.bytes[0]));
      var n := U64_LIMIT - (PayloadOffset(b.bytes[0]) - size);
      VerdictIn(h, b, held, decompress) ==
        if |memory| < n % 8 then Overrun
        else Compared(LoadLE(b.bytes[16..24]), SipHash.CutShort(h.fileId, memory[..n % 8], n))
  {
    hide LoadLE, U64At, Keyed, Compressed, SipHash.CutShort, SipHash.EndPointer, SipHash.SipHash24;
    var offset := PayloadOffset(b.bytes[0]);
    Wrapped(size, offset);
    SipHash.WrappedReadsNoWord(b.address + offset, offset - size);
  }

  /** An object of at most 8 bytes leaves size, hash and payload of the one before in place, and gets its verdict. */
  lemma ShortIsNotLookedAt(h: Header, before: Block, held: bool, k: nat, bytes: seq<byte>, heap: Heap,
        decompress: Decompressor)
    requires |h.fileId| == 16 && 2 <= |bytes| <= 8 <= |before.bytes| && bytes[..2] == before.bytes[..2]
    ensures VerdictIn(h, Loaded(before, k, bytes, heap), held, decompress) == VerdictIn(h, before, held, decompress)
  {
    hide VerdictIn;
    var after := Loaded(before, k, bytes, heap);
    SameBehind(before.bytes, bytes, after.bytes);
    if |before.bytes| >= STORED_HASH_END { SameHeader(before.bytes, after.bytes); }
    SameVerdict(h, before, after, held, decompress);
  }

  lemma SameVerdict(h: Header, a: Block, b: Block, held: bool, decompress: Decompressor)
    requires |h.fileId| == 16 && a.address == b.address && |a.bytes| == |b.bytes| >= 8
    requires a.bytes[0] == b.bytes[0] && a.bytes[1] == b.bytes[1]
    requires |a.bytes| >= STORED_HASH_END ==>
               a.bytes[8..16] == b.bytes[8..16] && a.bytes[16..24] == b.bytes[16..24]
    requires forall i :: 8 <= i <= |a.bytes| ==> a.bytes[i..] == b.bytes[i..]
    ensures VerdictIn(h, a, held, decompress) == VerdictIn(h, b, held, decompress)
  {
    hide LoadLE, Keyed, HashIn, HashOf, Compressed, Zstd;
    if |a.bytes| >= STORED_HASH_END {
      assert PayloadSize(a.bytes) == PayloadSize(b.bytes);
      assert Behind(a.bytes, PayloadOffset(a.bytes[0])) == Behind(b.bytes, PayloadOffset(b.bytes[0]));
    }
  }

  lemma SameBehind(b: seq<byte>, bytes: seq<byte>, after: seq<byte>)
    requires 2 <= |bytes| <= 8 <= |b| && bytes[..2] == b[..2] && after == bytes + b[|bytes|..]
    ensures |after| == |b| && after[0] == b[0] && after[1] == b[1]
    ensures forall i :: 8 <= i <= |b| ==> after[i..] == b[i..]
  {
    assert after[0] == bytes[..2][0] && after[1] == bytes[..2][1];
    assert forall i :: 8 <= i < |b| ==> after[i] == b[i];
  }

  lemma SameHeader(b: seq<byte>, after: seq<byte>)
    requires STORED_HASH_END <= |b| == |after| && after[8..] == b[8..]
    ensures after[8..16] == b[8..16] && after[16..24] == b[16..24]
  {
    assert after[8..16] == after[8..][..8] && b[8..16] == b[8..][..8];
    assert after[16..24] == after[8..][8..16] && b[16..24] == b[8..][8..16];
  }

  // ----- A walk over a file -----

  function OfKind(file: seq<byte>, offset: nat, kind: byte): nat
    requires HasObject(file, offset)
  {
    if ObjectAt(file, offset).kind == kind then 1 else 0
  }

  /** How many of these objects are of a kind. */
  function NumberOf(file: seq<byte>, s: seq<nat>, kind: byte): nat
    requires Readable(file, s)
  {
    if s == [] then 0 else NumberOf(file, s[..|s| - 1], kind) + OfKind(file, s[|s| - 1], kind)
  }

  /** The positions among these objects whose type byte is of a kind. */
  ghost function PositionsOf(file: seq<byte>, s: seq<nat>, kind: byte): set<nat>
    requires Readable(file, s)
  {
    set i: nat | i < |s| && file[s[i]] == kind
  }

  lemma {:induction false} NumberIsPositions(file: seq<byte>, s: seq<nat>, kind: byte)
    requires Readable(file, s)
    ensures NumberOf(file, s, kind) == |PositionsOf(file, s, kind)|
  {
    hide PositionsOf, ObjectAt;
    if s != [] {
      NumberIsPositions(file, s[..|s| - 1], kind);
      OneMorePosition(file, s, kind);
    } else {
      NoPositions(file, kind);
    }
  }

  lemma NoPositions(file: seq<byte>, kind: byte)
    ensures PositionsOf(file, [], kind) == {}
  {}

  lemma OneMorePosition(file: seq<byte>, s: seq<nat>, kind: byte)
    requires Readable(file, s) && s != []
    ensures
      |PositionsOf(file, s, kind)| ==
        |PositionsOf(file, s[..|s| - 1], kind)| + OfKind(file, s[|s| - 1], kind)
  {
    hide U64At;
    var n := |s| - 1;
    var all, before := PositionsOf(file, s, kind), PositionsOf(file, s[..n], kind);
    assert all == if file[s[n]] == kind then before + {n} else before;
  }

  /** iter_object behind the k-th object of a walk: only hashed objects are loaded. */
  function Taken(file: seq<byte>, offset: nat, k: nat, b: Block, heap: Heap): Block
    requires HasObject(file, offset)
  {
    var o := ObjectAt(file, offset);
    if Hashed(o.kind) && offset + o.size <= |file| then Loaded(b, k, file[offset..offset + o.size], heap) else b
  }

  /** What a verification keeps from object to object: iter_object, and whether *decompressed has been allocated. */
  datatype Buffers = Buffers(block: Block, decompressed: bool)

  /** The buffers after these objects, both from NULL. */
  function BuffersAfter(file: seq<byte>, s: seq<nat>, heap: Heap, decompress: Decompressor): Buffers
    requires Readable(file, s)
  {
    if s == [] then Buffers(Block(0, []), false)
    else
      var n := |s| - 1;
      Used(file, s[n], n, BuffersAfter(file, s[..n], heap, decompress), heap, decompress)
  }

  function Used(file: seq<byte>, offset: nat, k: nat, before: Buffers, heap: Heap, decompress: Decompressor): Buffers
    requires HasObject(file, offset)
  {
    var b := Taken(file, offset, k, before.block, heap);
    Buffers(b, before.decompressed || (Hashed(ObjectAt(file, offset).kind) && Inflates(b, decompress)))
  }

  /** The verdict on an object that has been taken; journal_read asserts that there is something to read. */
  function Judged(file: seq<byte>, h: Header, offset: nat, b: Block, held: bool, decompress: Decompressor): Verdict
    requires HasObject(file, offset) && |h.fileId| == 16
  {
    if !Hashed(ObjectAt(file, offset).kind) then Good
    else if ObjectAt(file, offset).size == 0 then Asserts
    else VerdictIn(h, b, held, decompress)
  }

  /** The code finds nothing wrong with an object, given what its buffers are then. */
  predicate Accepted(file: seq<byte>, h: Header, offset: nat, b: Block, held: bool, decompress: Decompressor)
    requires HasObject(file, offset) && |h.fileId| == 16
  {
    && (Hashed(ObjectAt(file, offset).kind) ==> offset + ObjectAt(file, offset).size <= |file|)
    && Judged(file, h, offset, b, held, decompress).Good?
  }

  /** Accepted as the k-th object of a walk, with these buffers before it. */
  predicate AcceptedNext(file: seq<byte>, h: Header, offset: nat, k: nat, before: Buffers, heap: Heap,
        decompress: Decompressor)
    requires HasObject(file, offset) && |h.fileId| == 16
  {
    Accepted(file, h, offset, Taken(file, offset, k, before.block, heap), before.decompressed, decompress)
  }

  /** The verdict on the k-th object of a walk, with these buffers before it. */
  function JudgedNext(file: seq<byte>, h: Header, offset: nat, k: nat, before: Buffers, heap: Heap,
        decompress: Decompressor): Verdict
    requires HasObject(file, offset) && |h.fileId| == 16
  {
    Judged(file, h, offset, Taken(file, offset, k, before.block, heap), before.decompressed, decompress)
  }

  /** The k-th object of a walk is accepted in the course of it. */
  predicate Accepts(file: seq<byte>, h: Header, s: seq<nat>, k: nat, heap: Heap, decompress: Decompressor)
    requires Readable(file, s) && k < |s| && |h.fileId| == 16
  {
    AcceptedNext(file, h, s[k], k, BuffersAfter(file, s[..k], heap, decompress), heap, decompress)
  }

  ghost predicate AllAccepted(file: seq<byte>, h: Header, s: seq<nat>, heap: Heap, decompress: Decompressor)
    requires Readable(file, s) && |h.fileId| == 16
  {
    forall k :: 0 <= k < |s| ==> Accepts(file, h, s, k, heap, decompress)
  }

  ghost predicate AllPass(file: seq<byte>, h: Header, s: seq<nat>, decompress: Decompressor)
    requires Readable(file, s) && |h.fileId| == 16
  {
    forall k :: 0 <= k < |s| ==> Passes(file, h, s[k], decompress)
  }

  /** An object that is not hashed, or as large as its fixed part at least. */
  predicate Whole(file: seq<byte>, offset: nat)
    requires HasObject(file, offset)
  {
    var o := ObjectAt(file, offset);
    Hashed(o.kind) ==> o.size >= PayloadOffset(o.kind)
  }

  ghost predicate AllWhole(file: seq<byte>, s: seq<nat>)
    requires Readable(file, s)
  {
    forall k :: 0 <= k < |s| ==> Whole(file, s[k])
  }

  predicate CompressedAt(file: seq<byte>, offset: nat)
    requires HasObject(file, offset)
  {
    Hashed(ObjectAt(file, offset).kind) && Compressed(ObjectAt(file, offset).flags)
  }

  /** A whole object of a file whose payload decompresses to nothing. */
  ghost predicate HollowAt(file: seq<byte>, offset: nat, decompress: Decompressor)
    requires HasObject(file, offset)
  {
    var size := ObjectAt(file, offset).size;
    && CompressedAt(file, offset) && Whole(file, offset) && offset + size <= |file|
    && |file[offset..offset + size]| >= PayloadOffset(file[offset..offset + size][0])
    && Hollow(file[offset..offset + size], decompress)
  }

  /** In a keyed journal, the first compressed object of a walk decompresses to nothing. */
  ghost predicate Stumbles(file: seq<byte>, h: Header, s: seq<nat>, decompress: Decompressor)
    requires Readable(file, s)
  {
    && Keyed(h)
    && exists k ::
         0 <= k < |s| && HollowAt(file, s[k], decompress) && forall i :: 0 <= i < k ==> !CompressedAt(file, s[i])
  }

  /** The object at an offset as a slice of the file. */
  lemma SliceIs(file: seq<byte>, offset: nat)
    requires HasObject(file, offset)
    ensures ObjectAt(file, offset).kind == file[offset]
    ensures
      var o := ObjectAt(file, offset);
      offset + o.size <= |file| && o.size >= OBJECT_HEADER_BYTES ==>
        var bytes := file[offset..offset + o.size];
        bytes[0] == o.kind && bytes[1] == o.flags && U64At(bytes, 8) == |bytes|
  {
    hide U64At;
    var o := ObjectAt(file, offset);
    if offset + o.size <= |file| && o.size >= OBJECT_HEADER_BYTES { SameWord(file, offset, o.size); }
  }

  lemma SameWord(file: seq<byte>, offset: nat, size: nat)
    requires OBJECT_HEADER_BYTES <= size && offset + size <= |file|
    ensures U64At(file[offset..offset + size], 8) == U64At(file[offset..offset + OBJECT_HEADER_BYTES], 8)
  {
    hide LoadLE;
    SliceOfSlice(file, offset, offset + size, 8, 16);
    SliceOfSlice(file, offset, offset + OBJECT_HEADER_BYTES, 8, 16);
  }

  /** One object: exactly if it passes, and is not the one to stumble over, it is accepted and is whole. */
  lemma AcceptedWhole(file: seq<byte>, h: Header, offset: nat, k: nat, before: Buffers, heap: Heap,
        decompress: Decompressor)
    requires HasObject(file, offset) && |h.fileId| == 16 && Allocates(heap, |file|) && Modest(decompress)
    ensures
      && Passes(file, h, offset, decompress)
      && !(Keyed(h) && !before.decompressed && HollowAt(file, offset, decompress))
      <==>
        AcceptedNext(file, h, offset, k, before, heap, decompress) && Whole(file, offset)
    ensures
      Passes(file, h, offset, decompress) ==>
        && Whole(file, offset)
        && (Used(file, offset, k, before, heap, decompress).decompressed <==>
              before.decompressed || (CompressedAt(file, offset) && !HollowAt(file, offset, decompress)))
  {
    hide GoodObject, VerdictIn, ObjectAt, Loaded, HasObject, Inflates, Keyed, Compressed, Zstd;
    hide Allocates, Modest, U64At;
    SliceIs(file, offset);
    var o := ObjectAt(file, offset);
    if Hashed(o.kind) && offset + o.size <= |file| {
      var bytes := file[offset..offset + o.size];
      LoadedStarts(before.block, k, bytes, heap, |file|);
      if o.size >= PayloadOffset(o.kind) {
        WholeObject(h, Loaded(before.block, k, bytes, heap), before.decompressed, bytes, decompress);
      } else {
        ShortIsNotGood(h, bytes, decompress);
      }
    }
  }

  /** In terms of one object: too small is not good. */
  lemma ShortIsNotGood(h: Header, bytes: seq<byte>, decompress: Decompressor)
    requires |h.fileId| == 16
    requires |bytes| < OBJECT_HEADER_BYTES || |bytes| < PayloadOffset(bytes[0])
    ensures !GoodObject(h, bytes, decompress)
  {}

  /** After objects that pass, *decompressed has been allocated exactly if one was compressed and not hollow. */
  lemma {:induction false} HeldAfter(file: seq<byte>, h: Header, s: seq<nat>, k: nat, heap: Heap,
        decompress: Decompressor)
    requires Readable(file, s) && |h.fileId| == 16 && Allocates(heap, |file|) && Modest(decompress)
    requires k <= |s| && forall i :: 0 <= i < k ==> Passes(file, h, s[i], decompress)
    ensures
      BuffersAfter(file, s[..k], heap, decompress).decompressed <==>
        exists i :: 0 <= i < k && CompressedAt(file, s[i]) && !HollowAt(file, s[i], decompress)
    decreases k
  {
    hide Passes, HasObject, Used, Modest, Allocates, CompressedAt, HollowAt, Whole, AcceptedNext;
    if k > 0 {
      HeldAfter(file, h, s, k - 1, heap, decompress);
      var before := BuffersAfter(file, s[..k - 1], heap, decompress);
      assert s[..k][..k - 1] == s[..k - 1];
      AcceptedWhole(file, h, s[k - 1], k - 1, before, heap, decompress);
    }
  }

  /** If one of the objects before a hollow one is compressed, but all such are hollow, then the first of them is. */
  lemma {:induction false} FirstHollow(file: seq<byte>, s: seq<nat>, k: nat, decompress: Decompressor) returns (j: nat)
    requires Readable(file, s) && k < |s| && HollowAt(file, s[k], decompress)
    requires forall i :: 0 <= i < k && CompressedAt(file, s[i]) ==> HollowAt(file, s[i], decompress)
    ensures j <= k && HollowAt(file, s[j], decompress) && forall i :: 0 <= i < j ==> !CompressedAt(file, s[i])
    decreases k
  {
    hide HasObject, CompressedAt, HollowAt;
    if i :| 0 <= i < k && CompressedAt(file, s[i]) {
      j := FirstHollow(file, s, i, decompress);
    } else {
      j := k;
    }
  }

  /**
   What the code promises of a walk: exactly if all objects are good, and it does not stumble over the first compressed
   one, it accepts all, and none is cut short.
   */
  lemma AllAcceptedExactly(file: seq<byte>, h: Header, s: seq<nat>, heap: Heap, decompress: Decompressor)
    requires Readable(file, s) && |h.fileId| == 16 && Allocates(heap, |file|) && Modest(decompress)
    ensures
      AllPass(file, h, s, decompress) && !Stumbles(file, h, s, decompress) <==>
        AllAccepted(file, h, s, heap, decompress) && AllWhole(file, s)
    ensures AllPass(file, h, s, decompress) ==> AllWhole(file, s)
  {
    hide AcceptedNext, Whole, Passes, HasObject, Used, Modest, Allocates, HollowAt, CompressedAt, BuffersAfter, Keyed;
    forall k | 0 <= k < |s|
      ensures
        var held := BuffersAfter(file, s[..k], heap, decompress).decompressed;
        (Passes(file, h, s[k], decompress) && !(Keyed(h) && !held && HollowAt(file, s[k], decompress))) <==>
          (Accepts(file, h, s, k, heap, decompress) && Whole(file, s[k]))
      ensures Passes(file, h, s[k], decompress) ==> Whole(file, s[k])
    {
      AcceptedWhole(file, h, s[k], k, BuffersAfter(file, s[..k], heap, decompress), heap, decompress);
    }
    if AllPass(file, h, s, decompress) {
      forall k | 0 <= k < |s| && Keyed(h) && HollowAt(file, s[k], decompress)
        ensures Stumbles(file, h, s, decompress) || BuffersAfter(file, s[..k], heap, decompress).decompressed
      {
        HeldAfter(file, h, s, k, heap, decompress);
        if !BuffersAfter(file, s[..k], heap, decompress).decompressed {
          var j := FirstHollow(file, s, k, decompress);
        }
      }
      if Stumbles(file, h, s, decompress) {
        var k :|
          0 <= k < |s| && HollowAt(file, s[k], decompress) && forall i :: 0 <= i < k ==> !CompressedAt(file, s[i]);
        HeldAfter(file, h, s, k, heap, decompress);
      }
    }
  }

  /** Without a key or compression, no object between the object header and its fixed part gets through. */
  lemma ShortUnkeyedFails(file: seq<byte>, h: Header, offset: nat, k: nat, before: Buffers, heap: Heap,
        decompress: Decompressor)
    requires HasObject(file, offset) && |h.fileId| == 16 && Allocates(heap, |file|) && Usable(before.block)
    requires !Keyed(h) && !Compressed(ObjectAt(file, offset).flags)
    requires !Whole(file, offset) && ObjectAt(file, offset).size >= OBJECT_HEADER_BYTES
    ensures !AcceptedNext(file, h, offset, k, before, heap, decompress)
  {
    hide VerdictIn, ObjectAt, Loaded, HasObject, Usable, Keyed, Compressed, U64At;
    SliceIs(file, offset);
    var o := ObjectAt(file, offset);
    if offset + o.size <= |file| {
      var bytes := file[offset..offset + o.size];
      LoadedStarts(before.block, k, bytes, heap, |file|);
      LoadedUsable(before.block, k, bytes, heap, |file|);
      var after := Loaded(before.block, k, bytes, heap);
      SameStart(after.bytes, bytes);
      ShortUnkeyed(h, after, before.decompressed, o.size, decompress);
    }
  }

  lemma SameStart(memory: seq<byte>, bytes: seq<byte>)
    requires |bytes| <= |memory| && memory[..|bytes|] == bytes && |bytes| >= OBJECT_HEADER_BYTES
    ensures memory[0] == bytes[0] && memory[1] == bytes[1] && U64At(memory, 8) == U64At(bytes, 8)
    ensures |bytes| >= STORED_HASH_END ==> memory[16..24] == bytes[16..24]
  {
    hide LoadLE;
    assert memory[8..16] == bytes[8..16];
  }

  /** With a key, without compression, in whole words: all that counts is the stored hash, not the payload. */
  lemma ShortKeyedExactly(file: seq<byte>, h: Header, offset: nat, k: nat, before: Buffers, heap: Heap,
        decompress: Decompressor)
    requires HasObject(file, offset) && |h.fileId| == 16 && Allocates(heap, |file|) && Usable(before.block)
    requires Keyed(h) && !Compressed(ObjectAt(file, offset).flags) && !Whole(file, offset)
    requires ObjectAt(file, offset).size % 8 == 0 && ObjectAt(file, offset).size >= 24
    ensures
      var o := ObjectAt(file, offset);
      AcceptedNext(file, h, offset, k, before, heap, decompress) <==>
        && offset + o.size <= |file|
        && LoadLE(file[offset..offset + o.size][16..24]) ==
             SipHash.CutShort(h.fileId, [], U64_LIMIT - (PayloadOffset(o.kind) - o.size))
  {
    hide VerdictIn, ObjectAt, Loaded, HasObject, Usable, Keyed, Compressed, U64At, LoadLE, SipHash.CutShort;
    SliceIs(file, offset);
    var o := ObjectAt(file, offset);
    if offset + o.size <= |file| {
      var bytes := file[offset..offset + o.size];
      LoadedStarts(before.block, k, bytes, heap, |file|);
      LoadedUsable(before.block, k, bytes, heap, |file|);
      var after := Loaded(before.block, k, bytes, heap);
      SameStart(after.bytes, bytes);
      ShortKeyed(h, after, before.decompressed, o.size, decompress);
      WholeWordsLeft(PayloadOffset(o.kind) - o.size);
      assert Behind(after.bytes, PayloadOffset(o.kind))[..0] == [];
    }
  }

  /** Behind an accepted object of its kind and flags, an object of at most 8 bytes is accepted, whatever it is. */
  lemma StaleAccepted(file: seq<byte>, h: Header, offset: nat, k: nat, before: nat, held: bool, after: Buffers,
        heap: Heap, decompress: Decompressor)
    requires HasObject(file, offset) && HasObject(file, before) && |h.fileId| == 16
    requires Hashed(ObjectAt(file, before).kind) && Accepted(file, h, before, after.block, held, decompress)
    requires held ==> after.decompressed
    requires
      var bytes := after.block.bytes;
      |bytes| >= 8 && bytes[0] == ObjectAt(file, before).kind && bytes[1] == ObjectAt(file, before).flags
    requires ObjectAt(file, offset).kind == ObjectAt(file, before).kind
    requires ObjectAt(file, offset).flags == ObjectAt(file, before).flags
    requires 2 <= ObjectAt(file, offset).size <= 8
    ensures AcceptedNext(file, h, offset, k, after, heap, decompress)
    ensures !Whole(file, offset)
  {
    hide VerdictIn, Loaded;
    var b, bytes := after.block, file[offset..offset + ObjectAt(file, offset).size];
    FirstTwo(file, offset);
    assert b.bytes[..2] == [b.bytes[0], b.bytes[1]];
    ShortIsNotLookedAt(h, b, after.decompressed, k, bytes, heap, decompress);
    HeldIsBetter(h, b, held, after.decompressed, decompress);
  }

  lemma FirstTwo(file: seq<byte>, offset: nat)
    requires HasObject(file, offset) && ObjectAt(file, offset).size >= 2
    requires offset + ObjectAt(file, offset).size <= |file|
    ensures
      var o := ObjectAt(file, offset);
      file[offset..offset + o.size][..2] == [o.kind, o.flags]
  {
    hide U64At;
  }

  lemma HeldIsBetter(h: Header, b: Block, held: bool, later: bool, decompress: Decompressor)
    requires |h.fileId| == 16 && (held ==> later) && VerdictIn(h, b, held, decompress) == Good
    ensures VerdictIn(h, b, later, decompress) == Good
  {
    hide LoadLE, HashIn, HashOf, Compressed, Zstd, Keyed;
  }

  lemma WholeWordsLeft(d: nat)
    requires d % 8 == 0 && d <= U64_LIMIT
    ensures (U64_LIMIT - d) % 8 == 0
  {}

  lemma {:induction false} BuffersUsable(file: seq<byte>, s: seq<nat>, heap: Heap, decompress: Decompressor)
    requires Readable(file, s) && Allocates(heap, |file|)
    ensures Usable(BuffersAfter(file, s, heap, decompress).block)
    decreases |s|
  {
    hide ObjectAt, HasObject, Loaded, Allocates, Usable, Inflates;
    NullIsUsable();
    if s != [] {
      var n := |s| - 1;
      BuffersUsable(file, s[..n], heap, decompress);
      var o := ObjectAt(file, s[n]);
      if Hashed(o.kind) && s[n] + o.size <= |file| {
        var bytes := file[s[n]..s[n] + o.size];
        LoadedUsable(BuffersAfter(file, s[..n], heap, decompress).block, n, bytes, heap, |file|);
      }
    }
  }

  lemma NullIsUsable()
    ensures Usable(Block(0, []))
  {}

  /** Objects without compression, each with an object header at least, in a journal without a key. */
  ghost predicate Plain(file: seq<byte>, h: Header, s: seq<nat>)
    requires Readable(file, s)
  {
    && !Keyed(h)
    && forall k :: 0 <= k < |s| && Hashed(ObjectAt(file, s[k]).kind) ==>
         !Compressed(ObjectAt(file, s[k]).flags) && ObjectAt(file, s[k]).size >= OBJECT_HEADER_BYTES
  }

  /** There the code is right without further conditions: what it accepts is good. */
  lemma PlainAccepted(file: seq<byte>, h: Header, s: seq<nat>, heap: Heap, decompress: Decompressor)
    requires Readable(file, s) && |h.fileId| == 16 && Allocates(heap, |file|) && Modest(decompress) && Plain(file, h, s)
    ensures AllPass(file, h, s, decompress) <==> AllAccepted(file, h, s, heap, decompress)
  {
    hide AcceptedNext, Passes, HasObject, Taken, Modest, Allocates, Usable, ObjectAt, Keyed, Compressed, Whole;
    hide BuffersAfter, HollowAt, CompressedAt;
    AllAcceptedExactly(file, h, s, heap, decompress);
    forall k | 0 <= k < |s| && !Whole(file, s[k]) ensures !Accepts(file, h, s, k, heap, decompress) {
      ShortIsHashed(file, s[k]);
      BuffersUsable(file, s[..k], heap, decompress);
      ShortUnkeyedFails(file, h, s[k], k, BuffersAfter(file, s[..k], heap, decompress), heap, decompress);
    }
  }

  lemma ShortIsHashed(file: seq<byte>, offset: nat)
    requires HasObject(file, offset) && !Whole(file, offset)
    ensures Hashed(ObjectAt(file, offset).kind)
  {}
}
