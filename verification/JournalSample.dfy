/**
 Small journal files, built byte by byte: the inputs on which some properties fail.
 */
module JournalSample {
  import opened Bytes
  import opened JournalFile
  import opened Word64

  /** Byte i of a word, lowest first. */
  function ByteOf(w: bv64, i: nat): byte
    requires i < 8
  {
    match i
    case 0 => (w & 0xff) as byte
    case 1 => ((w >> 8) & 0xff) as byte
    case 2 => ((w >> 16) & 0xff) as byte
    case 3 => ((w >> 24) & 0xff) as byte
    case 4 => ((w >> 32) & 0xff) as byte
    case 5 => ((w >> 40) & 0xff) as byte
    case 6 => ((w >> 48) & 0xff) as byte
    case 7 => ((w >> 56) & 0xff) as byte
  }

  /** htole64 */
  function StoreLE(w: bv64): (s: seq<byte>)
    ensures |s| == 8
  {
    [ByteOf(w, 0), ByteOf(w, 1), ByteOf(w, 2), ByteOf(w, 3), ByteOf(w, 4), ByteOf(w, 5), ByteOf(w, 6), ByteOf(w, 7)]
  }

  /** A word with all but its lowest bytes zero. */
  function LowBytes(w: bv64, k: nat): bv64
    requires k <= 8
  {
    match k
    case 0 => 0
    case 1 => w & 0xff
    case 2 => w & 0xffff
    case 3 => w & 0xff_ffff
    case 4 => w & 0xffff_ffff
    case 5 => w & 0xff_ffff_ffff
    case 6 => w & 0xffff_ffff_ffff
    case 7 => w & 0xff_ffff_ffff_ffff
    case 8 => w
  }

  lemma OneMoreByte(w: bv64, k: nat)
    requires k < 8
    ensures Or(LowBytes(w, k), Place(ByteOf(w, k), k)) == LowBytes(w, k + 1)
  {
    match k
    case 0 =>
    case 1 =>
    case 2 =>
    case 3 =>
    case 4 =>
    case 5 =>
    case 6 =>
    case 7 =>
  }

  lemma {:induction false} StoredPrefix(w: bv64, k: nat)
    requires k <= 8
    ensures LoadLE(StoreLE(w)[..k]) == LowBytes(w, k)
  {
    hide Place, Or, LoadLE, LowBytes;
    if k == 0 {
      LoadNothing();
      NoBytes(w);
    } else {
      StoredPrefix(w, k - 1);
      LoadLEPrefix(StoreLE(w), k - 1);
      StoredAt(w, k - 1);
      OneMoreByte(w, k - 1);
    }
  }

  lemma StoredAt(w: bv64, k: nat)
    requires k < 8
    ensures StoreLE(w)[k] == ByteOf(w, k)
  {
    hide ByteOf;
  }

  lemma NoBytes(w: bv64)
    ensures LowBytes(w, 0) == 0 && LowBytes(w, 8) == w
  {}

  lemma StoredIsLoaded(w: bv64)
    ensures LoadLE(StoreLE(w)) == w
  {
    hide LoadLE, StoreLE, LowBytes;
    StoredPrefix(w, 8);
    NoBytes(w);
    assert StoreLE(w)[..8] == StoreLE(w);
  }

  lemma LoadNothing()
    ensures LoadLE([]) == 0
  {}

  function Zeros(n: nat): (s: seq<byte>)
    ensures |s| == n
  {
    seq(n, _ => 0 as byte)
  }

  function Ones(n: nat): (s: seq<byte>)
    ensures |s| == n
  {
    seq(n, _ => 0xff as byte)
  }

  /** A file header with these fields, and all bits set elsewhere. */
  function HeaderBytes(flags: byte, state: byte, id: seq<byte>, headerSize: bv64, tail: bv64): (s: seq<byte>)
    requires |id| == 16
    ensures |s| == HEADER_BYTES
  {
    Ones(12) + [flags] + Ones(3) + [state] + Ones(7) + id + Ones(48) + StoreLE(headerSize) + Ones(40) + StoreLE(tail)
      + Ones(112)
  }

  /** The fields of a header are where the format has them, whatever else is in it and behind it. */
  lemma HeaderIs(flags: byte, state: byte, id: seq<byte>, headerSize: bv64, tail: bv64, rest: seq<byte>)
    requires |id| == 16
    ensures
      ParseHeader(HeaderBytes(flags, state, id, headerSize, tail) + rest) ==
        Header(flags, state, id, headerSize as nat, tail as nat)
  {
    hide StoreLE, LoadLE, Ones;
    var bytes := HeaderBytes(flags, state, id, headerSize, tail) + rest;
    assert bytes[88..96] == StoreLE(headerSize) && bytes[136..144] == StoreLE(tail) && bytes[24..40] == id;
    StoredIsLoaded(headerSize);
    StoredIsLoaded(tail);
  }

  /** An object header. */
  function ObjectBytes(kind: byte, flags: byte, size: bv64): (s: seq<byte>)
    ensures |s| == OBJECT_HEADER_BYTES
  {
    [kind, flags] + Ones(6) + StoreLE(size)
  }

  lemma ObjectIs(before: seq<byte>, kind: byte, flags: byte, size: bv64, rest: seq<byte>)
    ensures
      var file := before + ObjectBytes(kind, flags, size) + rest;
      HasObject(file, |before|) && ObjectAt(file, |before|) == ObjectHeader(kind, flags, size as nat)
  {
    hide StoreLE, LoadLE, Ones;
    var file := before + ObjectBytes(kind, flags, size) + rest;
    var bytes := file[|before|..|before| + OBJECT_HEADER_BYTES];
    assert bytes == ObjectBytes(kind, flags, size);
    assert bytes[8..16] == StoreLE(size);
    StoredIsLoaded(size);
  }
}
