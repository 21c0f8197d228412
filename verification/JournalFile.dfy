/**
 The parts of the journal file format (src/upstream/journal-def.h) that the walks and the
 reports read, as functions of the bytes of a file.
 */
module JournalFile {
  import opened Bytes
  import opened Counters

  const HEADER_BYTES := 256
  const OBJECT_HEADER_BYTES := 16
  const HASHED_HEADER_BYTES := 32

  const OBJECT_DATA: byte := 1
  const OBJECT_FIELD: byte := 2
  const OBJECT_ENTRY_ARRAY: byte := 6
  const OBJECT_TYPE_MAX := 8

  const STATE_ARCHIVED: byte := 2
  const STATE_MAX := 3

  /** le64toh of the eight bytes at an offset. */
  function U64At(bytes: seq<byte>, offset: nat): (n: nat)
    requires offset + 8 <= |bytes|
    ensures n < U64_LIMIT
  {
    LoadLE(bytes[offset..offset + 8]) as nat
  }

  datatype Header =
    Header(incompatibleFlags: byte, state: byte, fileId: seq<byte>, headerSize: nat, tailObjectOffset: nat)

  /** The fields of struct Header that are used; of incompatible_flags, the low byte, which holds every flag. */
  function ParseHeader(bytes: seq<byte>): (h: Header)
    requires |bytes| >= HEADER_BYTES
    ensures h.headerSize < U64_LIMIT && h.tailObjectOffset < U64_LIMIT && |h.fileId| == 16
  {
    Header(bytes[12], bytes[16], bytes[24..40], U64At(bytes, 88), U64At(bytes, 136))
  }

  /** The header is in the first bytes of a file. */
  lemma CutKeepsHeader(file: seq<byte>, cut: nat)
    requires HEADER_BYTES <= cut <= |file|
    ensures ParseHeader(file[..cut]) == ParseHeader(file)
  {
    hide LoadLE;
    var short := file[..cut];
    assert short[24..40] == file[24..40] && short[88..96] == file[88..96] && short[136..144] == file[136..144];
  }

  datatype ObjectHeader = ObjectHeader(kind: byte, flags: byte, size: nat)

  function ParseObjectHeader(bytes: seq<byte>): (o: ObjectHeader)
    requires |bytes| >= OBJECT_HEADER_BYTES
    ensures o.size < U64_LIMIT
  {
    ObjectHeader(bytes[0], bytes[1], U64At(bytes, 8))
  }

  /** Whether an object header can be read at an offset. */
  predicate HasObject(file: seq<byte>, offset: nat) {
    offset + OBJECT_HEADER_BYTES <= |file|
  }

  function ObjectAt(file: seq<byte>, offset: nat): (o: ObjectHeader)
    requires HasObject(file, offset)
    ensures o.size < U64_LIMIT
  {
    ParseObjectHeader(file[offset..offset + OBJECT_HEADER_BYTES])
  }

  /** ALIGN64 on unbounded integers: the next multiple of eight. */
  function Aligned(size: nat): (n: nat)
    ensures n % 8 == 0 && size <= n < size + 8
  {
    (size + 7) / 8 * 8
  }

  /** ALIGN64 as the macro computes it: (x + 7) & ~7 in 64 bits. */
  function Align64(size: nat): nat {
    (size + 7) % U64_LIMIT / 8 * 8
  }

  lemma AlignWraps(size: nat)
    requires size < U64_LIMIT
    ensures Align64(size) == if size + 7 < U64_LIMIT then Aligned(size) else 0
  {}
}
