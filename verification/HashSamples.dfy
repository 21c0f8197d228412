/**
 Three families of journals: two that a verification of hashed objects finds in order, although
 one of their objects is too small to be, and one in order that it stumbles over.
 */
module HashSamples {
  import Lookup3
  import SipHash
  import opened Bytes
  import opened Counters
  import opened JournalFile
  import opened JournalSample
  import opened ObjectWalk
  import opened VerifyHashed

  /** A data object of 72 bytes with one word of payload. */
  function DataBytes(hash: bv64, word: bv64): (bytes: seq<byte>)
    ensures |bytes| == 72
  {
    ObjectBytes(1, 0, 72) + StoreLE(hash) + Zeros(40) + StoreLE(word)
  }

  lemma DataBytesAre(hash: bv64, word: bv64)
    ensures
      var bytes := DataBytes(hash, word);
      && bytes[0] == OBJECT_DATA && bytes[1] == 0 && U64At(bytes, 8) == |bytes|
      && LoadLE(bytes[16..24]) == hash && bytes[64..] == StoreLE(word)
  {
    hide StoreLE, LoadLE;
    var bytes := DataBytes(hash, word);
    assert bytes[8..16] == StoreLE(72) && bytes[16..24] == StoreLE(hash) && bytes[64..] == StoreLE(word);
    StoredIsLoaded(72);
    StoredIsLoaded(hash);
  }

  /** Behind a sound data object, the header of one that claims to be 8 bytes long. */
  function StaleFile(id: seq<byte>, hash: bv64, word: bv64): (file: seq<byte>)
    requires |id| == 16
    ensures |file| == 344
  {
    HeaderBytes(0, 0, id, 256, 328) + DataBytes(hash, word) + ObjectBytes(1, 0, 8)
  }

  lemma StaleFileIs(id: seq<byte>, hash: bv64, word: bv64)
    requires |id| == 16
    ensures
      var file := StaleFile(id, hash, word);
      && ParseHeader(file) == Header(0, 0, id, 256, 328)
      && HasObject(file, 256) && ObjectAt(file, 256) == ObjectHeader(OBJECT_DATA, 0, 72)
      && HasObject(file, 328) && ObjectAt(file, 328) == ObjectHeader(OBJECT_DATA, 0, 8)
      && file[256..328] == DataBytes(hash, word)
  {
    hide HeaderBytes, ObjectBytes, ParseHeader, ObjectAt, StoreLE, Zeros, HasObject;
    var file, start, data := StaleFile(id, hash, word), HeaderBytes(0, 0, id, 256, 328), DataBytes(hash, word);
    var last, rest := ObjectBytes(1, 0, 8), StoreLE(hash) + Zeros(40) + StoreLE(word);
    HeaderIs(0, 0, id, 256, 328, data + last);
    assert start + (data + last) == file;
    ObjectIs(start, 1, 0, 72, rest + last);
    assert start + ObjectBytes(1, 0, 72) + (rest + last) == file;
    ObjectIs(start + data, 1, 0, 8, []);
    assert start + data + last + [] == file;
    assert file[256..328] == data;
  }

  lemma NoFlags(id: seq<byte>)
    ensures !Compressed(0) && Keyed(Header(4, 0, id, 256, 256)) && !Keyed(Header(0, 0, id, 256, 328))
  {}

  lemma DataIsGood(h: Header, word: bv64, decompress: Decompressor)
    requires |h.fileId| == 16 && !Keyed(h)
    ensures GoodObject(h, DataBytes(Lookup3.Hash64(StoreLE(word)), word), decompress)
  {
    hide Keyed, Lookup3.Hash64, StoreLE, LoadLE, DataBytes, U64At;
    DataBytesAre(Lookup3.Hash64(StoreLE(word)), word);
    NoFlags(h.fileId);
  }

  /** Size, hash and payload of the object before are still in the buffer, and so the small object is accepted. */
  lemma StaleIsAccepted(id: seq<byte>, word: bv64, heap: Heap, decompress: Decompressor)
    requires |id| == 16 && Allocates(heap, 344) && Modest(decompress)
    ensures
      var file := StaleFile(id, Lookup3.Hash64(StoreLE(word)), word);
      var h := ParseHeader(file);
      var s := Offsets(file, h, h.headerSize);
      && Sane(h) && EndOf(file, h, h.headerSize).Finished? && Readable(file, s)
      && AllAccepted(file, h, s, heap, decompress) && !AllPass(file, h, s, decompress)
  {
    hide ParseHeader, ObjectAt, StaleFile, Offsets, EndOf, VerdictIn, Loaded, GoodObject, Keyed, Allocates, Modest;
    hide Zeros, StoreLE, Lookup3.Hash64, DataBytes, LoadLE, U64At, Accepted, Whole, HasObject, Inflates, Stumbles;
    var hash := Lookup3.Hash64(StoreLE(word));
    var file := StaleFile(id, hash, word);
    StaleFileIs(id, hash, word);
    var h, s := ParseHeader(file), [256, 328];
    TwoObjects(file, h);
    NoFlags(id);
    DataIsGood(h, word, decompress);
    FirstAccepted(file, h, heap, decompress);
    var first := Loaded(Block(0, []), 0, file[256..328], heap);
    LoadedStarts(Block(0, []), 0, file[256..328], heap, |file|);
    DataBytesAre(hash, word);
    assert first.bytes[0] == first.bytes[..72][0] && first.bytes[1] == first.bytes[..72][1];
    var after := Used(file, 256, 0, Buffers(Block(0, []), false), heap, decompress);
    StaleAccepted(file, h, 328, 1, 256, false, after, heap, decompress);
    BuffersOfTwo(file, heap, decompress);
    assert Accepts(file, h, s, 0, heap, decompress) && Accepts(file, h, s, 1, heap, decompress);
    assert !Whole(file, s[1]);
    AllAcceptedExactly(file, h, s, heap, decompress);
  }

  lemma TwoObjects(file: seq<byte>, h: Header)
    requires h.headerSize == 256 && h.tailObjectOffset == 328 && HasObject(file, 256) && HasObject(file, 328)
    requires ObjectAt(file, 256).size == 72 && ObjectAt(file, 328).size == 8
    ensures Offsets(file, h, 256) == [256, 328] && EndOf(file, h, 256).Finished?
  {
    hide ObjectAt, HasObject;
    Unfold(file, h, 256);
    Unfold(file, h, 328);
    NothingAfterTail(file, h, 336);
  }

  lemma BuffersOfTwo(file: seq<byte>, heap: Heap, decompress: Decompressor)
    requires HasObject(file, 256) && HasObject(file, 328)
    ensures
      var start := Buffers(Block(0, []), false);
      && BuffersAfter(file, [256, 328][..0], heap, decompress) == start
      && BuffersAfter(file, [256, 328][..1], heap, decompress) == Used(file, 256, 0, start, heap, decompress)
  {
    hide HasObject, Used;
    assert [256, 328][..1] == [256] && [256, 328][..0] == [] && [256][..0] == [];
    assert BuffersAfter(file, [], heap, decompress) == Buffers(Block(0, []), false);
  }

  lemma FirstAccepted(file: seq<byte>, h: Header, heap: Heap, decompress: Decompressor)
    requires HasObject(file, 256) && ObjectAt(file, 256) == ObjectHeader(OBJECT_DATA, 0, 72) && |file| >= 328
    requires |h.fileId| == 16 && GoodObject(h, file[256..328], decompress) && !Keyed(h)
    requires Allocates(heap, |file|) && Modest(decompress)
    ensures Taken(file, 256, 0, Block(0, []), heap) == Loaded(Block(0, []), 0, file[256..328], heap)
    ensures Accepted(file, h, 256, Taken(file, 256, 0, Block(0, []), heap), false, decompress)
  {
    hide ObjectAt, GoodObject, Loaded, VerdictIn, Allocates, Modest, Keyed, HollowAt, Inflates;
    AcceptedWhole(file, h, 256, 0, Buffers(Block(0, []), false), heap, decompress);
  }

  /** In a keyed journal, a field object of 32 bytes. */
  function CutFile(id: seq<byte>, hash: bv64, word: bv64): (file: seq<byte>)
    requires |id| == 16
    ensures |file| == 288
  {
    HeaderBytes(4, 0, id, 256, 256) + CutBytes(hash, word)
  }

  function CutBytes(hash: bv64, word: bv64): (bytes: seq<byte>)
    ensures |bytes| == 32
  {
    ObjectBytes(2, 0, 32) + StoreLE(hash) + StoreLE(word)
  }

  lemma CutFileIs(id: seq<byte>, hash: bv64, word: bv64)
    requires |id| == 16
    ensures
      var file := CutFile(id, hash, word);
      && ParseHeader(file) == Header(4, 0, id, 256, 256)
      && HasObject(file, 256) && ObjectAt(file, 256) == ObjectHeader(OBJECT_FIELD, 0, 32)
      && file[256..288] == CutBytes(hash, word)
  {
    hide HeaderBytes, ObjectBytes, ParseHeader, ObjectAt, StoreLE, Zeros, HasObject;
    var file, start := CutFile(id, hash, word), HeaderBytes(4, 0, id, 256, 256);
    var rest := StoreLE(hash) + StoreLE(word);
    HeaderIs(4, 0, id, 256, 256, CutBytes(hash, word));
    ObjectIs(start, 2, 0, 32, rest);
    assert start + ObjectBytes(2, 0, 32) + rest == file;
  }

  lemma CutBytesAre(hash: bv64, word: bv64)
    ensures LoadLE(CutBytes(hash, word)[16..24]) == hash
  {
    hide StoreLE, LoadLE;
    assert CutBytes(hash, word)[16..24] == StoreLE(hash);
    StoredIsLoaded(hash);
  }

  /** Its payload's length wraps around: it is accepted with one hash, whatever its bytes, and is never good. */
  lemma CutShortIsAccepted(id: seq<byte>, hash: bv64, word: bv64, heap: Heap, decompress: Decompressor)
    requires |id| == 16 && Allocates(heap, 288) && Modest(decompress)
    ensures
      var file := CutFile(id, hash, word);
      var h := ParseHeader(file);
      var s := Offsets(file, h, h.headerSize);
      && Sane(h) && EndOf(file, h, h.headerSize).Finished? && Readable(file, s)
      && h.fileId == id && !AllPass(file, h, s, decompress)
      && (AllAccepted(file, h, s, heap, decompress) <==>
            hash == SipHash.CutShort(h.fileId, [], U64_LIMIT - 8))
  {
    hide ParseHeader, ObjectAt, CutFile, CutBytes, AcceptedNext, Allocates, Modest, Zeros, LoadLE, SipHash.CutShort;
    hide Keyed, Compressed, HasObject, Offsets, EndOf, Whole, Stumbles;
    var file := CutFile(id, hash, word);
    CutFileIs(id, hash, word);
    CutBytesAre(hash, word);
    var h, s := ParseHeader(file), [256];
    JustOne(file, h);
    NoFlags(id);
    NullIsUsable();
    CutIsShort(file);
    ShortKeyedExactly(file, h, 256, 0, Buffers(Block(0, []), false), heap, decompress);
    assert s[..0] == [];
    assert Accepts(file, h, s, 0, heap, decompress) <==>
           AcceptedNext(file, h, s[0], 0, Buffers(Block(0, []), false), heap, decompress);
    assert !Whole(file, s[0]);
    AllAcceptedExactly(file, h, s, heap, decompress);
  }

  lemma JustOne(file: seq<byte>, h: Header)
    requires h.headerSize == h.tailObjectOffset == 256 && HasObject(file, 256) && ObjectAt(file, 256).size > 0
    requires ObjectAt(file, 256).size < 1000
    ensures Offsets(file, h, 256) == [256] && EndOf(file, h, 256).Finished?
  {
    hide ObjectAt, HasObject;
    Unfold(file, h, 256);
    NothingAfterTail(file, h, 256 + Aligned(ObjectAt(file, 256).size));
  }

  lemma CutIsShort(file: seq<byte>)
    requires HasObject(file, 256) && ObjectAt(file, 256) == ObjectHeader(OBJECT_FIELD, 0, 32)
    ensures !Whole(file, 256)
  {
    hide ObjectAt, HasObject;
  }

  /** In a keyed journal, a compressed field object with eight bytes of payload. */
  function EmptyFile(id: seq<byte>, hash: bv64, word: bv64): (file: seq<byte>)
    requires |id| == 16
    ensures |file| == 304
  {
    HeaderBytes(4, 0, id, 256, 256) + FieldBytes(hash, word)
  }

  function FieldBytes(hash: bv64, word: bv64): (bytes: seq<byte>)
    ensures |bytes| == 48
  {
    ObjectBytes(2, 4, 48) + StoreLE(hash) + Zeros(16) + StoreLE(word)
  }

  lemma EmptyFileIs(id: seq<byte>, hash: bv64, word: bv64)
    requires |id| == 16
    ensures
      var file := EmptyFile(id, hash, word);
      && ParseHeader(file) == Header(4, 0, id, 256, 256)
      && HasObject(file, 256) && ObjectAt(file, 256) == ObjectHeader(OBJECT_FIELD, COMPRESSED_ZSTD, 48)
      && file[256..304] == FieldBytes(hash, word)
  {
    hide HeaderBytes, ObjectBytes, ParseHeader, ObjectAt, StoreLE, Zeros, HasObject;
    var file, start := EmptyFile(id, hash, word), HeaderBytes(4, 0, id, 256, 256);
    var rest := StoreLE(hash) + Zeros(16) + StoreLE(word);
    HeaderIs(4, 0, id, 256, 256, FieldBytes(hash, word));
    ObjectIs(start, 2, 4, 48, rest);
    assert start + ObjectBytes(2, 4, 48) + rest == file;
  }

  lemma FieldBytesAre(hash: bv64, word: bv64)
    ensures
      var bytes := FieldBytes(hash, word);
      && bytes[0] == OBJECT_FIELD && bytes[1] == COMPRESSED_ZSTD
      && LoadLE(bytes[16..24]) == hash && bytes[40..] == StoreLE(word)
  {
    hide StoreLE, LoadLE;
    var bytes := FieldBytes(hash, word);
    assert bytes[16..24] == StoreLE(hash) && bytes[40..] == StoreLE(word);
    StoredIsLoaded(hash);
  }

  lemma ZstdFlag()
    ensures Compressed(COMPRESSED_ZSTD) && Zstd(COMPRESSED_ZSTD)
  {}

  lemma FieldIsGood(h: Header, hash: bv64, word: bv64, decompress: Decompressor)
    requires |h.fileId| == 16 && hash == HashOf(h, []) && decompress(StoreLE(word), 8) == Content([])
    ensures GoodObject(h, FieldBytes(hash, word), decompress) && Hollow(FieldBytes(hash, word), decompress)
  {
    hide HashOf, StoreLE, LoadLE, FieldBytes;
    FieldBytesAre(hash, word);
    ZstdFlag();
  }

  /** Content of no bytes needs no memory, and the hash asserts that it is given some: a good journal is refused. */
  lemma EmptyIsRefused(id: seq<byte>, hash: bv64, word: bv64, heap: Heap, decompress: Decompressor)
    requires |id| == 16 && Allocates(heap, 304) && Modest(decompress) && decompress(StoreLE(word), 8) == Content([])
    ensures
      var file := EmptyFile(id, hash, word);
      var h := ParseHeader(file);
      var s := Offsets(file, h, h.headerSize);
      && Sane(h) && EndOf(file, h, h.headerSize).Finished? && Readable(file, s) && h.fileId == id
      && (hash == HashOf(h, []) ==>
            AllPass(file, h, s, decompress) && AllWhole(file, s) && !AllAccepted(file, h, s, heap, decompress))
  {
    hide ParseHeader, ObjectAt, EmptyFile, FieldBytes, StoreLE, Offsets, EndOf, GoodObject, Allocates, Modest, Zeros;
    hide HashOf, Compressed, HasObject, Hollow, BuffersAfter, Used, Inflates, VerdictIn, Keyed, AllAccepted;
    var file := EmptyFile(id, hash, word);
    EmptyFileIs(id, hash, word);
    var h, s := ParseHeader(file), [256];
    JustOne(file, h);
    NoFlags(id);
    ZstdFlag();
    FieldBytesAre(hash, word);
    if hash == HashOf(h, []) {
      FieldIsGood(h, hash, word, decompress);
      assert HollowAt(file, s[0], decompress);
      assert AllPass(file, h, s, decompress) && AllWhole(file, s) && Stumbles(file, h, s, decompress);
      AllAcceptedExactly(file, h, s, heap, decompress);
    }
  }

  /** In a keyed journal, a sound data object. */
  function KeyedFile(id: seq<byte>, hash: bv64, word: bv64): (file: seq<byte>)
    requires |id| == 16
    ensures |file| == 328
  {
    HeaderBytes(4, 0, id, 256, 256) + DataBytes(hash, word)
  }

  lemma KeyedFileIs(id: seq<byte>, hash: bv64, word: bv64)
    requires |id| == 16
    ensures
      var file := KeyedFile(id, hash, word);
      && ParseHeader(file) == Header(4, 0, id, 256, 256)
      && HasObject(file, 256) && ObjectAt(file, 256) == ObjectHeader(OBJECT_DATA, 0, 72)
      && file[256..328] == DataBytes(hash, word)
  {
    hide HeaderBytes, ObjectBytes, ParseHeader, ObjectAt, StoreLE, Zeros, HasObject;
    var file, start := KeyedFile(id, hash, word), HeaderBytes(4, 0, id, 256, 256);
    var rest := StoreLE(hash) + Zeros(40) + StoreLE(word);
    HeaderIs(4, 0, id, 256, 256, DataBytes(hash, word));
    ObjectIs(start, 1, 0, 72, rest);
    assert start + ObjectBytes(1, 0, 72) + rest == file;
  }

  lemma KeyedDataExactly(h: Header, hash: bv64, word: bv64, decompress: Decompressor)
    requires |h.fileId| == 16 && Keyed(h)
    ensures GoodObject(h, DataBytes(hash, word), decompress) <==> hash == SipHash.SipHash24(h.fileId, StoreLE(word))
  {
    hide Keyed, SipHash.SipHash24, StoreLE, LoadLE, DataBytes, U64At;
    DataBytesAre(hash, word);
    NoFlags(h.fileId);
  }

  /** It is verified exactly with the hash of its payload under the file's own id, the 16 bytes at 24 of the header. */
  lemma KeyedExactly(id: seq<byte>, hash: bv64, word: bv64, heap: Heap, decompress: Decompressor)
    requires |id| == 16 && Allocates(heap, 328) && Modest(decompress)
    ensures
      var file := KeyedFile(id, hash, word);
      var h := ParseHeader(file);
      var s := Offsets(file, h, h.headerSize);
      && file[24..40] == id && Sane(h) && EndOf(file, h, h.headerSize).Finished? && Readable(file, s)
      && (AllAccepted(file, h, s, heap, decompress) <==> hash == SipHash.SipHash24(id, StoreLE(word)))
  {
    hide ParseHeader, ObjectAt, KeyedFile, StoreLE, Offsets, EndOf, GoodObject, Allocates, Modest, Zeros, DataBytes;
    hide HasObject, Hollow, BuffersAfter, Used, VerdictIn, Keyed, AllAccepted, SipHash.SipHash24, Compressed;
    var file := KeyedFile(id, hash, word);
    KeyedFileIs(id, hash, word);
    IdIs(id, hash, word);
    var h, s := ParseHeader(file), [256];
    JustOne(file, h);
    NoFlags(id);
    KeyedDataExactly(h, hash, word, decompress);
    assert !CompressedAt(file, s[0]) && Whole(file, s[0]);
    AllAcceptedExactly(file, h, s, heap, decompress);
  }

  lemma IdIs(id: seq<byte>, hash: bv64, word: bv64)
    requires |id| == 16
    ensures KeyedFile(id, hash, word)[24..40] == id
  {
    hide StoreLE, DataBytes;
  }
}
