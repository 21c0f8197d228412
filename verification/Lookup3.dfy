/**
 Bob Jenkins' lookup3 (src/upstream/lookup3.c): one hash, read from memory in four
 different ways depending on the host and on the alignment of the key.
 */
module Word32 {
  import opened Bytes

  function Add(x: bv32, y: bv32): bv32 { x + y }

  function Sub(x: bv32, y: bv32): bv32 { x - y }

  function Xor(x: bv32, y: bv32): bv32 { x ^ y }

  function And(x: bv32, y: bv32): bv32 { x & y }

  function Rot(x: bv32, k: bv32): bv32
    requires 0 < k < 32
  {
    (x << k) | (x >> (32 - k))
  }

  /** (uint32_t)b shifted left by 0, 8, 16 or 24 bits. */
  function B0(b: byte): bv32 { b as bv32 }

  function B1(b: byte): bv32 { (b as bv32) << 8 }

  function B2(b: byte): bv32 { (b as bv32) << 16 }

  function B3(b: byte): bv32 { (b as bv32) << 24 }

  /** The word a little-endian host reads from four bytes, lowest address first. */
  function Le32(b0: byte, b1: byte, b2: byte, b3: byte): bv32 {
    (b0 as bv32) | ((b1 as bv32) << 8) | ((b2 as bv32) << 16) | ((b3 as bv32) << 24)
  }

  /** The 16-bit word a little-endian host reads from two bytes, promoted to 32 bits. */
  function Le16(b0: byte, b1: byte): bv32 { (b0 as bv32) | ((b1 as bv32) << 8) }

  function Shl16(x: bv32): bv32 { x << 16 }

  /** (uint32_t)n */
  function U32(n: nat): bv32 { (n % 0x1_0000_0000) as bv32 }

  lemma SubUndoesAdd(x: bv32, y: bv32)
    ensures Sub(Add(x, y), y) == x
  {
    assert Sub(x + y, y) == x;
  }

  lemma AddUndoesSub(x: bv32, y: bv32)
    ensures Add(Sub(x, y), y) == x
  {
    assert Add(x - y, y) == x;
  }

  lemma XorUndoesXor(x: bv32, y: bv32)
    ensures Xor(Xor(x, y), y) == x
  {
    assert Xor(x ^ y, y) == x;
  }

  lemma AddAbsent(x: bv32)
    ensures B0(0) == B1(0) == B2(0) == B3(0) == 0 && Add(x, 0) == x
  {}

  /** Masking a word drops the bytes past the end of the key, whatever they are. */
  lemma Masked24(b0: byte, b1: byte, b2: byte, b3: byte)
    ensures And(Le32(b0, b1, b2, b3), 0xffffff) == Le32(b0, b1, b2, 0)
  {}

  lemma Masked16(b0: byte, b1: byte, b2: byte, b3: byte)
    ensures And(Le32(b0, b1, b2, b3), 0xffff) == Le32(b0, b1, 0, 0)
  {}

  lemma Masked8(b0: byte, b1: byte, b2: byte, b3: byte)
    ensures And(Le32(b0, b1, b2, b3), 0xff) == Le32(b0, 0, 0, 0)
  {}

  /** The same masks from the other end, for a big-endian host. */
  lemma MaskedHigh24(b0: byte, b1: byte, b2: byte, b3: byte)
    ensures And(Le32(b0, b1, b2, b3), 0xffffff00) == Le32(0, b1, b2, b3)
  {}

  lemma MaskedHigh16(b0: byte, b1: byte, b2: byte, b3: byte)
    ensures And(Le32(b0, b1, b2, b3), 0xffff0000) == Le32(0, 0, b2, b3)
  {}

  lemma MaskedHigh8(b0: byte, b1: byte, b2: byte, b3: byte)
    ensures And(Le32(b0, b1, b2, b3), 0xff000000) == Le32(0, 0, 0, b3)
  {}

  lemma SecondByte(b0: byte, b1: byte)
    ensures Add(B0(b0), B1(b1)) == Le16(b0, b1)
  {}

  lemma ThirdByte(b0: byte, b1: byte, b2: byte)
    ensures Add(Le16(b0, b1), B2(b2)) == Le32(b0, b1, b2, 0)
    ensures Add(B2(b2), Le16(b0, b1)) == Le32(b0, b1, b2, 0)
  {}

  lemma FourthByte(b0: byte, b1: byte, b2: byte, b3: byte)
    ensures Add(Le32(b0, b1, b2, 0), B3(b3)) == Le32(b0, b1, b2, b3)
  {}

  /** Shifted bytes occupy different bits, so adding them is reading the word. */
  lemma Pieces(b0: byte, b1: byte, b2: byte, b3: byte)
    ensures Add(Add(Add(B0(b0), B1(b1)), B2(b2)), B3(b3)) == Le32(b0, b1, b2, b3)
  {
    hide Add, B0, B1, B2, B3, Le16, Le32;
    SecondByte(b0, b1);
    ThirdByte(b0, b1, b2);
    FourthByte(b0, b1, b2, b3);
  }

  lemma TopHalf(b2: byte, b3: byte)
    ensures Shl16(Le16(b2, b3)) == Le32(0, 0, b2, b3)
  {}

  lemma DisjointHalves(b0: byte, b1: byte, b2: byte, b3: byte)
    ensures Add(Le16(b0, b1), Le32(0, 0, b2, b3)) == Le32(b0, b1, b2, b3)
  {}

  lemma Halves(b0: byte, b1: byte, b2: byte, b3: byte)
    ensures Add(Le16(b0, b1), Shl16(Le16(b2, b3))) == Le32(b0, b1, b2, b3)
  {
    hide Add, Le16, Le32, Shl16;
    TopHalf(b2, b3);
    DisjointHalves(b0, b1, b2, b3);
  }

  lemma ZeroWord()
    ensures Le32(0, 0, 0, 0) == 0
  {}

  lemma ShortWords(b0: byte, b1: byte)
    ensures Le16(b0, b1) == Le32(b0, b1, 0, 0) && B0(b0) == Le32(b0, 0, 0, 0)
  {}

  lemma AddAssociates(x: bv32, y: bv32, z: bv32)
    ensures Add(Add(x, y), z) == Add(x, Add(y, z))
    ensures Add(x, y) == Add(y, x)
  {}

  lemma Le32Injective(b0: byte, b1: byte, b2: byte, b3: byte, d0: byte, d1: byte, d2: byte, d3: byte)
    requires Le32(b0, b1, b2, b3) == Le32(d0, d1, d2, d3)
    ensures b0 == d0 && b1 == d1 && b2 == d2 && b3 == d3
  {}

  /** A word and its four bytes, lowest first. */
  function Byte0(w: bv32): byte { (w & 0xff) as byte }
  function Byte1(w: bv32): byte { ((w >> 8) & 0xff) as byte }
  function Byte2(w: bv32): byte { ((w >> 16) & 0xff) as byte }
  function Byte3(w: bv32): byte { ((w >> 24) & 0xff) as byte }

  lemma WordOfBytes(w: bv32)
    ensures Le32(Byte0(w), Byte1(w), Byte2(w), Byte3(w)) == w
  {}
}

module Lookup3 {
  import opened Bytes
  import opened Word32

  /** The internal state a, b, c. */
  datatype Abc = Abc(a: bv32, b: bv32, c: bv32)

  /** The byte order in which the words of a key are read. */
  datatype Order = Little | Big

  // ----- The hash as one fold over zero-padded 12-byte blocks -----

  /** One line of mix: x -= z; x ^= rot(z, k); z += y; then the three roles move on by one. */
  function Turn(s: Abc, k: bv32): Abc
    requires 0 < k < 32
  {
    Abc(s.b, Add(s.c, s.b), Xor(Sub(s.a, s.c), Rot(s.c, k)))
  }

  function Mixed(s: Abc): Abc {
    Turn(Turn(Turn(Turn(Turn(Turn(s, 4), 6), 8), 16), 19), 4)
  }

  /** One step of final: x ^= z; x -= rot(z, k); then the three roles move on by one. */
  function Stir(s: Abc, k: bv32): Abc
    requires 0 < k < 32
  {
    Abc(s.b, s.c, Sub(Xor(s.a, s.c), Rot(s.c, k)))
  }

  function Finished(s: Abc): Abc {
    Stir(Stir(Stir(Stir(Stir(Stir(Stir(Abc(s.c, s.a, s.b), 14), 11), 25), 16), 4), 14), 24)
  }

  function At(p: seq<byte>, i: nat): byte {
    if i < |p| then p[i] else 0
  }

  function Word(order: Order, p: seq<byte>, i: nat): bv32 {
    if order.Little?
    then Le32(At(p, i), At(p, i + 1), At(p, i + 2), At(p, i + 3))
    else Le32(At(p, i + 3), At(p, i + 2), At(p, i + 1), At(p, i))
  }

  /** A block of at most twelve bytes, padded with zeros, is added to the state as three words. */
  function Absorbed(order: Order, s: Abc, block: seq<byte>): Abc {
    Abc(Add(s.a, Word(order, block, 0)), Add(s.b, Word(order, block, 4)), Add(s.c, Word(order, block, 8)))
  }

  function Fold(order: Order, s: Abc, key: seq<byte>): Abc
    decreases |key|
  {
    if key == [] then s
    else if |key| <= 12 then Finished(Absorbed(order, s, key))
    else Fold(order, Mixed(Absorbed(order, s, key[..12])), key[12..])
  }

  lemma LastBlock(order: Order, s: Abc, key: seq<byte>)
    requires |key| <= 12
    ensures Fold(order, s, key) == if key == [] then s else Finished(Absorbed(order, s, key))
  {}

  function Start(length: nat, pc: bv32, pb: bv32): Abc {
    var i := Add(Add(0xdeadbeef, U32(length)), pc);
    Abc(i, i, Add(i, pb))
  }

  lemma StartIs(length: nat, pc: bv32, pb: bv32)
    ensures
      var i := Add(Add(0xdeadbeef, U32(length)), pc);
      Start(length, pc, pb) == Abc(i, i, Add(i, pb))
  {
    hide Add, U32;
  }

  /** The two hash values (primary, secondary) of a key. */
  function Hash2(order: Order, key: seq<byte>, pc: bv32, pb: bv32): (bv32, bv32) {
    var s := Fold(order, Start(|key|, pc, pb), key);
    (s.c, s.b)
  }

  // ----- The macros -----

  method Mix(a0: bv32, b0: bv32, c0: bv32) returns (a: bv32, b: bv32, c: bv32)
    ensures Abc(a, b, c) == Mixed(Abc(a0, b0, c0))
  {
    hide Add, Sub, Xor, Rot;
    a, b, c := a0, b0, c0;
    a := Sub(a, c); a := Xor(a, Rot(c, 4)); c := Add(c, b);
    b := Sub(b, a); b := Xor(b, Rot(a, 6)); a := Add(a, c);
    c := Sub(c, b); c := Xor(c, Rot(b, 8)); b := Add(b, a);
    a := Sub(a, c); a := Xor(a, Rot(c, 16)); c := Add(c, b);
    b := Sub(b, a); b := Xor(b, Rot(a, 19)); a := Add(a, c);
    c := Sub(c, b); c := Xor(c, Rot(b, 4)); b := Add(b, a);
  }

  method Final(a0: bv32, b0: bv32, c0: bv32) returns (a: bv32, b: bv32, c: bv32)
    ensures Abc(a, b, c) == Finished(Abc(a0, b0, c0))
  {
    hide Add, Sub, Xor, Rot;
    a, b, c := a0, b0, c0;
    c := Xor(c, b); c := Sub(c, Rot(b, 14));
    a := Xor(a, c); a := Sub(a, Rot(c, 11));
    b := Xor(b, a); b := Sub(b, Rot(a, 25));
    c := Xor(c, b); c := Sub(c, Rot(b, 16));
    a := Xor(a, c); a := Sub(a, Rot(c, 4));
    b := Xor(b, a); b := Sub(b, Rot(a, 14));
    c := Xor(c, b); c := Sub(c, Rot(b, 24));
  }

  // ----- All but the last block -----

  /** Aligned 32-bit reads, in the byte order of the host. */
  method WordBlocks(order: Order, k: seq<byte>, length: nat, a0: bv32, b0: bv32, c0: bv32)
    returns (off: nat, left: nat, a: bv32, b: bv32, c: bv32)
    requires length <= |k|
    ensures off % 12 == 0 && off + left == length && left <= 12 && (length > 0 ==> left > 0)
    ensures Fold(order, Abc(a0, b0, c0), k[..length]) == Fold(order, Abc(a, b, c), k[off..length])
  {
    hide Add, Word, Mixed, Finished;
    off, left, a, b, c := 0, length, a0, b0, c0;
    while left > 12
      invariant off % 12 == 0 && off + left == length && (length > 0 ==> left > 0)
      invariant Fold(order, Abc(a0, b0, c0), k[..length]) == Fold(order, Abc(a, b, c), k[off..length])
    {
      BlockWords(order, k, off, length);
      a := Add(a, Word(order, k, off));
      b := Add(b, Word(order, k, off + 4));
      c := Add(c, Word(order, k, off + 8));
      a, b, c := Mix(a, b, c);
      left, off := left - 12, off + 12;
    }
  }

  /** 16-bit reads on a little-endian host. */
  method HalfBlocks(k: seq<byte>, length: nat, a0: bv32, b0: bv32, c0: bv32)
    returns (off: nat, left: nat, a: bv32, b: bv32, c: bv32)
    requires length <= |k|
    ensures off + left == length && left <= 12 && (length > 0 ==> left > 0)
    ensures Fold(Little, Abc(a0, b0, c0), k[..length]) == Fold(Little, Abc(a, b, c), k[off..length])
  {
    hide Add, Mixed, Finished, Le16, Le32, Shl16;
    off, left, a, b, c := 0, length, a0, b0, c0;
    while left > 12
      invariant off + left == length && (length > 0 ==> left > 0)
      invariant Fold(Little, Abc(a0, b0, c0), k[..length]) == Fold(Little, Abc(a, b, c), k[off..length])
    {
      BlockWords(Little, k, off, length);
      Halves(k[off], k[off + 1], k[off + 2], k[off + 3]);
      Halves(k[off + 4], k[off + 5], k[off + 6], k[off + 7]);
      Halves(k[off + 8], k[off + 9], k[off + 10], k[off + 11]);
      a := Add(a, Add(Le16(k[off], k[off + 1]), Shl16(Le16(k[off + 2], k[off + 3]))));
      b := Add(b, Add(Le16(k[off + 4], k[off + 5]), Shl16(Le16(k[off + 6], k[off + 7]))));
      c := Add(c, Add(Le16(k[off + 8], k[off + 9]), Shl16(Le16(k[off + 10], k[off + 11]))));
      a, b, c := Mix(a, b, c);
      left, off := left - 12, off + 12;
    }
  }

  /** One byte at a time, lowest address first. */
  method ByteBlocks(k: seq<byte>, length: nat, a0: bv32, b0: bv32, c0: bv32)
    returns (off: nat, left: nat, a: bv32, b: bv32, c: bv32)
    requires length <= |k|
    ensures off + left == length && left <= 12 && (length > 0 ==> left > 0)
    ensures Fold(Little, Abc(a0, b0, c0), k[..length]) == Fold(Little, Abc(a, b, c), k[off..length])
  {
    hide Add, Mixed, Finished, Le32, B0, B1, B2, B3;
    off, left, a, b, c := 0, length, a0, b0, c0;
    while left > 12
      invariant off + left == length && (length > 0 ==> left > 0)
      invariant Fold(Little, Abc(a0, b0, c0), k[..length]) == Fold(Little, Abc(a, b, c), k[off..length])
    {
      BlockWords(Little, k, off, length);
      Ascending(a, k[off], k[off + 1], k[off + 2], k[off + 3]);
      Ascending(b, k[off + 4], k[off + 5], k[off + 6], k[off + 7]);
      Ascending(c, k[off + 8], k[off + 9], k[off + 10], k[off + 11]);
      a := Add(a, B0(k[off]));
      a := Add(a, B1(k[off + 1]));
      a := Add(a, B2(k[off + 2]));
      a := Add(a, B3(k[off + 3]));
      b := Add(b, B0(k[off + 4]));
      b := Add(b, B1(k[off + 5]));
      b := Add(b, B2(k[off + 6]));
      b := Add(b, B3(k[off + 7]));
      c := Add(c, B0(k[off + 8]));
      c := Add(c, B1(k[off + 9]));
      c := Add(c, B2(k[off + 10]));
      c := Add(c, B3(k[off + 11]));
      a, b, c := Mix(a, b, c);
      left, off := left - 12, off + 12;
    }
  }

  /** One byte at a time for jenkins_hashbig, highest byte of each word first. */
  method BigByteBlocks(k: seq<byte>, length: nat, a0: bv32, b0: bv32, c0: bv32)
    returns (off: nat, left: nat, a: bv32, b: bv32, c: bv32)
    requires length <= |k|
    ensures off + left == length && left <= 12 && (length > 0 ==> left > 0)
    ensures Fold(Big, Abc(a0, b0, c0), k[..length]) == Fold(Big, Abc(a, b, c), k[off..length])
  {
    hide Add, Mixed, Finished, Le32, B0, B1, B2, B3;
    off, left, a, b, c := 0, length, a0, b0, c0;
    while left > 12
      invariant off + left == length && (length > 0 ==> left > 0)
      invariant Fold(Big, Abc(a0, b0, c0), k[..length]) == Fold(Big, Abc(a, b, c), k[off..length])
    {
      BlockWords(Big, k, off, length);
      Descending(a, k[off + 3], k[off + 2], k[off + 1], k[off]);
      Descending(b, k[off + 7], k[off + 6], k[off + 5], k[off + 4]);
      Descending(c, k[off + 11], k[off + 10], k[off + 9], k[off + 8]);
      a := Add(a, B3(k[off]));
      a := Add(a, B2(k[off + 1]));
      a := Add(a, B1(k[off + 2]));
      a := Add(a, B0(k[off + 3]));
      b := Add(b, B3(k[off + 4]));
      b := Add(b, B2(k[off + 5]));
      b := Add(b, B1(k[off + 6]));
      b := Add(b, B0(k[off + 7]));
      c := Add(c, B3(k[off + 8]));
      c := Add(c, B2(k[off + 9]));
      c := Add(c, B1(k[off + 10]));
      c := Add(c, B0(k[off + 11]));
      a, b, c := Mix(a, b, c);
      left, off := left - 12, off + 12;
    }
  }

  /** The first block of what is left of a key, cut out or read in place. */
  lemma BlockWords(order: Order, k: seq<byte>, off: nat, length: nat)
    requires off + 12 <= length <= |k|
    ensures k[off..length][..12] == k[off..off + 12] && k[off..length][12..] == k[off + 12..length]
    ensures Word(order, k[off..off + 12], 0) == Word(order, k, off)
    ensures Word(order, k[off..off + 12], 4) == Word(order, k, off + 4)
    ensures Word(order, k[off..off + 12], 8) == Word(order, k, off + 8)
  {
    hide Le32;
  }

  lemma Ascending(x: bv32, b0: byte, b1: byte, b2: byte, b3: byte)
    ensures Add(Add(Add(Add(x, B0(b0)), B1(b1)), B2(b2)), B3(b3)) == Add(x, Le32(b0, b1, b2, b3))
  {
    hide Add, Le32, B0, B1, B2, B3;
    Pieces(b0, b1, b2, b3);
    AddAssociates(x, B0(b0), B1(b1));
    AddAssociates(x, Add(B0(b0), B1(b1)), B2(b2));
    AddAssociates(x, Add(Add(B0(b0), B1(b1)), B2(b2)), B3(b3));
  }

  lemma Descending(x: bv32, b0: byte, b1: byte, b2: byte, b3: byte)
    ensures Add(Add(Add(Add(x, B3(b3)), B2(b2)), B1(b1)), B0(b0)) == Add(x, Le32(b0, b1, b2, b3))
  {
    hide Add, Le32, B0, B1, B2, B3;
    var x0, x1, x2, x3 := B0(b0), B1(b1), B2(b2), B3(b3);
    Pieces(b0, b1, b2, b3);
    AddReversed(x, x0, x1, x2, x3);
    AddAssociates(x, x0, x1);
    AddAssociates(x, Add(x0, x1), x2);
    AddAssociates(x, Add(Add(x0, x1), x2), x3);
  }

  lemma AddSwap(x: bv32, y: bv32, z: bv32)
    ensures Add(Add(x, y), z) == Add(Add(x, z), y)
  {
    hide Add;
    AddAssociates(x, y, z);
    AddAssociates(x, z, y);
    AddAssociates(y, z, x);
  }

  lemma AddReversed(x: bv32, x0: bv32, x1: bv32, x2: bv32, x3: bv32)
    ensures Add(Add(Add(Add(x, x3), x2), x1), x0) == Add(Add(Add(Add(x, x0), x1), x2), x3)
  {
    hide Add;
    AddSwap(Add(Add(x, x3), x2), x1, x0);
    AddSwap(Add(x, x3), x2, x0);
    AddSwap(x, x3, x0);
    AddSwap(Add(Add(x, x0), x3), x2, x1);
    AddSwap(Add(x, x0), x3, x1);
    AddSwap(Add(Add(x, x0), x1), x3, x2);
  }

  // ----- The last block -----

  /** Whole words, the last one masked: bytes past the end of the key are read and dropped. */
  method TailMasked(k: seq<byte>, left: nat, a0: bv32, b0: bv32, c0: bv32)
    returns (a: bv32, b: bv32, c: bv32)
    requires 1 <= left <= 12 && (left + 3) / 4 * 4 <= |k|
    ensures Abc(a, b, c) == Absorbed(Little, Abc(a0, b0, c0), k[..left])
  {
    hide Add, And, Le32;
    a, b, c := a0, b0, c0;
    ReadPastEnd(k, left, 0);
    ReadPastEnd(k, left, 4);
    ReadPastEnd(k, left, 8);
    AbsentWords(Little, k, left, b0, c0);
    match left
    case 12 => c := Add(c, Word(Little, k, 8)); b := Add(b, Word(Little, k, 4)); a := Add(a, Word(Little, k, 0));
    case 11 =>
      c := Add(c, And(Word(Little, k, 8), 0xffffff));
      b := Add(b, Word(Little, k, 4));
      a := Add(a, Word(Little, k, 0));
    case 10 =>
      c := Add(c, And(Word(Little, k, 8), 0xffff));
      b := Add(b, Word(Little, k, 4));
      a := Add(a, Word(Little, k, 0));
    case 9 =>
      c := Add(c, And(Word(Little, k, 8), 0xff));
      b := Add(b, Word(Little, k, 4));
      a := Add(a, Word(Little, k, 0));
    case 8 => b := Add(b, Word(Little, k, 4)); a := Add(a, Word(Little, k, 0));
    case 7 => b := Add(b, And(Word(Little, k, 4), 0xffffff)); a := Add(a, Word(Little, k, 0));
    case 6 => b := Add(b, And(Word(Little, k, 4), 0xffff)); a := Add(a, Word(Little, k, 0));
    case 5 => b := Add(b, And(Word(Little, k, 4), 0xff)); a := Add(a, Word(Little, k, 0));
    case 4 => a := Add(a, Word(Little, k, 0));
    case 3 => a := Add(a, And(Word(Little, k, 0), 0xffffff));
    case 2 => a := Add(a, And(Word(Little, k, 0), 0xffff));
    case 1 => a := Add(a, And(Word(Little, k, 0), 0xff));
  }

  /** What the masks make of a word that the key ends in. */
  lemma ReadPastEnd(k: seq<byte>, left: nat, i: nat)
    requires left <= |k|
    ensures left >= i + 4 ==> Word(Little, k[..left], i) == Word(Little, k, i)
    ensures left == i + 3 ==> Word(Little, k[..left], i) == And(Word(Little, k, i), 0xffffff)
    ensures left == i + 2 ==> Word(Little, k[..left], i) == And(Word(Little, k, i), 0xffff)
    ensures left == i + 1 ==> Word(Little, k[..left], i) == And(Word(Little, k, i), 0xff)
  {
    hide And, Le32;
    Masked24(At(k, i), At(k, i + 1), At(k, i + 2), At(k, i + 3));
    Masked16(At(k, i), At(k, i + 1), At(k, i + 2), At(k, i + 3));
    Masked8(At(k, i), At(k, i + 1), At(k, i + 2), At(k, i + 3));
  }

  /** Words that lie wholly within the key are read as they are. */
  lemma WholeWords(order: Order, k: seq<byte>, left: nat)
    requires left <= |k|
    ensures left >= 4 ==> Word(order, k[..left], 0) == Word(order, k, 0)
    ensures left >= 8 ==> Word(order, k[..left], 4) == Word(order, k, 4)
    ensures left >= 12 ==> Word(order, k[..left], 8) == Word(order, k, 8)
  {
    hide Le32;
  }

  /** Words that lie wholly past the end of the key add nothing. */
  lemma AbsentWords(order: Order, k: seq<byte>, left: nat, b: bv32, c: bv32)
    requires left <= 12 && left <= |k|
    ensures left <= 4 ==> Add(b, Word(order, k[..left], 4)) == b
    ensures left <= 8 ==> Add(c, Word(order, k[..left], 8)) == c
  {
    hide Add, Le32;
    ZeroWord();
    AddAbsent(b);
    AddAbsent(c);
  }

  /** The same, with the bytes of the last word read one by one. */
  method TailBytewise(k: seq<byte>, left: nat, a0: bv32, b0: bv32, c0: bv32)
    returns (a: bv32, b: bv32, c: bv32)
    requires 1 <= left <= 12 && left <= |k|
    ensures Abc(a, b, c) == Absorbed(Little, Abc(a0, b0, c0), k[..left])
  {
    hide Add, Le32, B0, B1, B2, B3, Word, At;
    AbsentWords(Little, k, left, b0, c0);
    WholeWords(Little, k, left);
    a, b, c := a0, b0, c0;
    if left == 12 {
      c := Add(c, Word(Little, k, 8)); b := Add(b, Word(Little, k, 4)); a := Add(a, Word(Little, k, 0));
    } else if left >= 8 {
      LastBytes(c0, k, left, 8);
      if left >= 11 { c := Add(c, B2(k[10])); }
      if left >= 10 { c := Add(c, B1(k[9])); }
      if left >= 9 { c := Add(c, B0(k[8])); }
      b := Add(b, Word(Little, k, 4)); a := Add(a, Word(Little, k, 0));
    } else if left >= 4 {
      LastBytes(b0, k, left, 4);
      if left >= 7 { b := Add(b, B2(k[6])); }
      if left >= 6 { b := Add(b, B1(k[5])); }
      if left >= 5 { b := Add(b, B0(k[4])); }
      a := Add(a, Word(Little, k, 0));
    } else {
      LastBytes(a0, k, left, 0);
      if left >= 3 { a := Add(a, B2(k[2])); }
      if left >= 2 { a := Add(a, B1(k[1])); }
      if left >= 1 { a := Add(a, B0(k[0])); }
    }
  }

  /** The bytes of the word that the key ends in, from the last one down. */
  lemma LastBytes(x: bv32, k: seq<byte>, left: nat, i: nat)
    requires left <= |k|
    ensures
      left == i + 3 ==>
        Add(Add(Add(x, B2(k[i + 2])), B1(k[i + 1])), B0(k[i])) == Add(x, Word(Little, k[..left], i))
    ensures left == i + 2 ==> Add(Add(x, B1(k[i + 1])), B0(k[i])) == Add(x, Word(Little, k[..left], i))
    ensures left == i + 1 ==> Add(x, B0(k[i])) == Add(x, Word(Little, k[..left], i))
  {
    hide Add, Le32, B0, B1, B2, B3;
    var p := k[..left];
    DescendingPadded(x, At(p, i), At(p, i + 1), At(p, i + 2));
  }

  /** Three bytes added from the highest down, absent ones being zero. */
  lemma DescendingPadded(x: bv32, b0: byte, b1: byte, b2: byte)
    ensures Add(Add(Add(x, B2(b2)), B1(b1)), B0(b0)) == Add(x, Le32(b0, b1, b2, 0))
    ensures B2(0) == 0 && Add(x, 0) == x
    ensures B1(0) == 0 && Add(Add(x, B2(b2)), 0) == Add(x, B2(b2))
    ensures B0(0) == 0 && Add(Add(Add(x, B2(b2)), B1(b1)), 0) == Add(Add(x, B2(b2)), B1(b1))
  {
    hide Add, Le32, B0, B1, B2, B3;
    AddAbsent(x);
    AddAbsent(Add(x, B2(b2)));
    AddAbsent(Add(Add(x, B2(b2)), B1(b1)));
    Descending(x, b0, b1, b2, 0);
  }

  /** 16-bit reads, with odd bytes read on their own. */
  method TailHalves(k: seq<byte>, left: nat, a0: bv32, b0: bv32, c0: bv32)
    returns (a: bv32, b: bv32, c: bv32)
    requires 1 <= left <= 12 && left <= |k|
    ensures Abc(a, b, c) == Absorbed(Little, Abc(a0, b0, c0), k[..left])
  {
    hide Add, Le16, Le32, Shl16, B0, B2;
    ghost var p := k[..left];
    AbsentWords(Little, k, left, b0, c0);
    a, b, c := a0, b0, c0;
    Halves(At(p, 0), At(p, 1), At(p, 2), At(p, 3));
    Halves(At(p, 4), At(p, 5), At(p, 6), At(p, 7));
    Halves(At(p, 8), At(p, 9), At(p, 10), At(p, 11));
    if left == 12 {
      c := Add(c, Add(Le16(k[8], k[9]), Shl16(Le16(k[10], k[11]))));
      b := Add(b, Add(Le16(k[4], k[5]), Shl16(Le16(k[6], k[7]))));
      a := Add(a, Add(Le16(k[0], k[1]), Shl16(Le16(k[2], k[3]))));
    } else if left >= 8 {
      HalfPadded(c0, At(p, 8), At(p, 9), At(p, 10));
      if left >= 11 { c := Add(c, B2(k[10])); }
      if left >= 10 { c := Add(c, Le16(k[8], k[9])); }
      if left == 9 { c := Add(c, B0(k[8])); }
      b := Add(b, Add(Le16(k[4], k[5]), Shl16(Le16(k[6], k[7]))));
      a := Add(a, Add(Le16(k[0], k[1]), Shl16(Le16(k[2], k[3]))));
    } else if left >= 4 {
      HalfPadded(b0, At(p, 4), At(p, 5), At(p, 6));
      if left >= 7 { b := Add(b, B2(k[6])); }
      if left >= 6 { b := Add(b, Le16(k[4], k[5])); }
      if left == 5 { b := Add(b, B0(k[4])); }
      a := Add(a, Add(Le16(k[0], k[1]), Shl16(Le16(k[2], k[3]))));
    } else {
      HalfPadded(a0, At(p, 0), At(p, 1), At(p, 2));
      if left >= 3 { a := Add(a, B2(k[2])); }
      if left >= 2 { a := Add(a, Le16(k[0], k[1])); }
      if left == 1 { a := Add(a, B0(k[0])); }
    }
  }

  lemma HalfPadded(x: bv32, b0: byte, b1: byte, b2: byte)
    ensures Add(Add(x, B2(b2)), Le16(b0, b1)) == Add(x, Le32(b0, b1, b2, 0))
    ensures Add(x, Le16(b0, b1)) == Add(x, Le32(b0, b1, 0, 0))
    ensures Add(x, B0(b0)) == Add(x, Le32(b0, 0, 0, 0))
    ensures Add(x, Le32(0, 0, 0, 0)) == x
  {
    hide Add, Le16, B0, B2;
    AddAssociates(x, B2(b2), Le16(b0, b1));
    ThirdByte(b0, b1, b2);
    ShortWords(b0, b1);
    AddAbsent(x);
  }

  /** Bytes only; every case falls through to the next. */
  method TailBytes(k: seq<byte>, left: nat, a0: bv32, b0: bv32, c0: bv32)
    returns (a: bv32, b: bv32, c: bv32)
    requires 1 <= left <= 12 && left <= |k|
    ensures Abc(a, b, c) == Absorbed(Little, Abc(a0, b0, c0), k[..left])
  {
    hide Add, Le32, B0, B1, B2, B3;
    ghost var p := k[..left];
    a, b, c := a0, b0, c0;
    FallThrough(c0, At(p, 8), At(p, 9), At(p, 10), At(p, 11));
    if left >= 12 { c := Add(c, B3(k[11])); }
    if left >= 11 { c := Add(c, B2(k[10])); }
    if left >= 10 { c := Add(c, B1(k[9])); }
    if left >= 9 { c := Add(c, B0(k[8])); }
    FallThrough(b0, At(p, 4), At(p, 5), At(p, 6), At(p, 7));
    if left >= 8 { b := Add(b, B3(k[7])); }
    if left >= 7 { b := Add(b, B2(k[6])); }
    if left >= 6 { b := Add(b, B1(k[5])); }
    if left >= 5 { b := Add(b, B0(k[4])); }
    FallThrough(a0, At(p, 0), At(p, 1), At(p, 2), At(p, 3));
    if left >= 4 { a := Add(a, B3(k[3])); }
    if left >= 3 { a := Add(a, B2(k[2])); }
    if left >= 2 { a := Add(a, B1(k[1])); }
    if left >= 1 { a := Add(a, B0(k[0])); }
  }

  /** jenkins_hashbig: the first byte of a word is its highest. */
  method TailBigBytes(k: seq<byte>, left: nat, a0: bv32, b0: bv32, c0: bv32)
    returns (a: bv32, b: bv32, c: bv32)
    requires 1 <= left <= 12 && left <= |k|
    ensures Abc(a, b, c) == Absorbed(Big, Abc(a0, b0, c0), k[..left])
  {
    hide Add, Le32, B0, B1, B2, B3;
    ghost var p := k[..left];
    a, b, c := a0, b0, c0;
    FallThroughBig(c0, At(p, 8), At(p, 9), At(p, 10), At(p, 11));
    if left >= 12 { c := Add(c, B0(k[11])); }
    if left >= 11 { c := Add(c, B1(k[10])); }
    if left >= 10 { c := Add(c, B2(k[9])); }
    if left >= 9 { c := Add(c, B3(k[8])); }
    FallThroughBig(b0, At(p, 4), At(p, 5), At(p, 6), At(p, 7));
    if left >= 8 { b := Add(b, B0(k[7])); }
    if left >= 7 { b := Add(b, B1(k[6])); }
    if left >= 6 { b := Add(b, B2(k[5])); }
    if left >= 5 { b := Add(b, B3(k[4])); }
    FallThroughBig(a0, At(p, 0), At(p, 1), At(p, 2), At(p, 3));
    if left >= 4 { a := Add(a, B0(k[3])); }
    if left >= 3 { a := Add(a, B1(k[2])); }
    if left >= 2 { a := Add(a, B2(k[1])); }
    if left >= 1 { a := Add(a, B3(k[0])); }
  }

  /** Four additions from the highest byte down, an absent byte adding nothing. */
  lemma FallThrough(x: bv32, b0: byte, b1: byte, b2: byte, b3: byte)
    ensures Add(Add(Add(Add(x, B3(b3)), B2(b2)), B1(b1)), B0(b0)) == Add(x, Le32(b0, b1, b2, b3))
    ensures B3(0) == 0 && Add(x, 0) == x
    ensures B2(0) == 0 && Add(Add(x, B3(b3)), 0) == Add(x, B3(b3))
    ensures B1(0) == 0 && Add(Add(Add(x, B3(b3)), B2(b2)), 0) == Add(Add(x, B3(b3)), B2(b2))
    ensures B0(0) == 0 && Add(Add(Add(Add(x, B3(b3)), B2(b2)), B1(b1)), 0) == Add(Add(Add(x, B3(b3)), B2(b2)), B1(b1))
  {
    hide Add, Le32, B0, B1, B2, B3;
    Descending(x, b0, b1, b2, b3);
    AddAbsent(x);
    AddAbsent(Add(x, B3(b3)));
    AddAbsent(Add(Add(x, B3(b3)), B2(b2)));
    AddAbsent(Add(Add(Add(x, B3(b3)), B2(b2)), B1(b1)));
  }

  /** The same for a word whose first byte, b0, is the highest. */
  lemma FallThroughBig(x: bv32, b0: byte, b1: byte, b2: byte, b3: byte)
    ensures Add(Add(Add(Add(x, B0(b3)), B1(b2)), B2(b1)), B3(b0)) == Add(x, Le32(b3, b2, b1, b0))
    ensures B0(0) == 0 && Add(x, 0) == x
    ensures B1(0) == 0 && Add(Add(x, B0(b3)), 0) == Add(x, B0(b3))
    ensures B2(0) == 0 && Add(Add(Add(x, B0(b3)), B1(b2)), 0) == Add(Add(x, B0(b3)), B1(b2))
    ensures B3(0) == 0 && Add(Add(Add(Add(x, B0(b3)), B1(b2)), B2(b1)), 0) == Add(Add(Add(x, B0(b3)), B1(b2)), B2(b1))
  {
    hide Add, Le32, B0, B1, B2, B3;
    Ascending(x, b3, b2, b1, b0);
    AddAbsent(x);
    AddAbsent(Add(x, B0(b3)));
    AddAbsent(Add(Add(x, B0(b3)), B1(b2)));
    AddAbsent(Add(Add(Add(x, B0(b3)), B1(b2)), B2(b1)));
  }

  /** jenkins_hashbig on a big-endian host: masked from the other end. */
  method TailBigMasked(k: seq<byte>, left: nat, a0: bv32, b0: bv32, c0: bv32)
    returns (a: bv32, b: bv32, c: bv32)
    requires 1 <= left <= 12 && (left + 3) / 4 * 4 <= |k|
    ensures Abc(a, b, c) == Absorbed(Big, Abc(a0, b0, c0), k[..left])
  {
    hide Add, And, Le32;
    a, b, c := a0, b0, c0;
    ReadPastEndBig(k, left, 0);
    ReadPastEndBig(k, left, 4);
    ReadPastEndBig(k, left, 8);
    AbsentWords(Big, k, left, b0, c0);
    match left
    case 12 => c := Add(c, Word(Big, k, 8)); b := Add(b, Word(Big, k, 4)); a := Add(a, Word(Big, k, 0));
    case 11 =>
      c := Add(c, And(Word(Big, k, 8), 0xffffff00));
      b := Add(b, Word(Big, k, 4));
      a := Add(a, Word(Big, k, 0));
    case 10 =>
      c := Add(c, And(Word(Big, k, 8), 0xffff0000));
      b := Add(b, Word(Big, k, 4));
      a := Add(a, Word(Big, k, 0));
    case 9 => c := Add(c, And(Word(Big, k, 8), 0xff000000)); b := Add(b, Word(Big, k, 4)); a := Add(a, Word(Big, k, 0));
    case 8 => b := Add(b, Word(Big, k, 4)); a := Add(a, Word(Big, k, 0));
    case 7 => b := Add(b, And(Word(Big, k, 4), 0xffffff00)); a := Add(a, Word(Big, k, 0));
    case 6 => b := Add(b, And(Word(Big, k, 4), 0xffff0000)); a := Add(a, Word(Big, k, 0));
    case 5 => b := Add(b, And(Word(Big, k, 4), 0xff000000)); a := Add(a, Word(Big, k, 0));
    case 4 => a := Add(a, Word(Big, k, 0));
    case 3 => a := Add(a, And(Word(Big, k, 0), 0xffffff00));
    case 2 => a := Add(a, And(Word(Big, k, 0), 0xffff0000));
    case 1 => a := Add(a, And(Word(Big, k, 0), 0xff000000));
  }

  /** The same, with the bytes of the last word read one by one. */
  method TailBigBytewise(k: seq<byte>, left: nat, a0: bv32, b0: bv32, c0: bv32)
    returns (a: bv32, b: bv32, c: bv32)
    requires 1 <= left <= 12 && left <= |k|
    ensures Abc(a, b, c) == Absorbed(Big, Abc(a0, b0, c0), k[..left])
  {
    hide Add, Le32, B0, B1, B2, B3, Word, At;
    AbsentWords(Big, k, left, b0, c0);
    WholeWords(Big, k, left);
    a, b, c := a0, b0, c0;
    if left == 12 {
      c := Add(c, Word(Big, k, 8)); b := Add(b, Word(Big, k, 4)); a := Add(a, Word(Big, k, 0));
    } else if left >= 8 {
      LastBytesBig(c0, k, left, 8);
      if left >= 11 { c := Add(c, B1(k[10])); }
      if left >= 10 { c := Add(c, B2(k[9])); }
      if left >= 9 { c := Add(c, B3(k[8])); }
      b := Add(b, Word(Big, k, 4)); a := Add(a, Word(Big, k, 0));
    } else if left >= 4 {
      LastBytesBig(b0, k, left, 4);
      if left >= 7 { b := Add(b, B1(k[6])); }
      if left >= 6 { b := Add(b, B2(k[5])); }
      if left >= 5 { b := Add(b, B3(k[4])); }
      a := Add(a, Word(Big, k, 0));
    } else {
      LastBytesBig(a0, k, left, 0);
      if left >= 3 { a := Add(a, B1(k[2])); }
      if left >= 2 { a := Add(a, B2(k[1])); }
      if left >= 1 { a := Add(a, B3(k[0])); }
    }
  }

  /** The bytes of the word that the key ends in, from the last one down. */
  lemma LastBytesBig(x: bv32, k: seq<byte>, left: nat, i: nat)
    requires left <= |k|
    ensures
      left == i + 3 ==>
        Add(Add(Add(x, B1(k[i + 2])), B2(k[i + 1])), B3(k[i])) == Add(x, Word(Big, k[..left], i))
    ensures left == i + 2 ==> Add(Add(x, B2(k[i + 1])), B3(k[i])) == Add(x, Word(Big, k[..left], i))
    ensures left == i + 1 ==> Add(x, B3(k[i])) == Add(x, Word(Big, k[..left], i))
  {
    hide Add, Le32, B0, B1, B2, B3;
    var p := k[..left];
    FallThroughBig(x, At(p, i), At(p, i + 1), At(p, i + 2), 0);
  }

  lemma ReadPastEndBig(k: seq<byte>, left: nat, i: nat)
    requires left <= |k|
    ensures left >= i + 4 ==> Word(Big, k[..left], i) == Word(Big, k, i)
    ensures left == i + 3 ==> Word(Big, k[..left], i) == And(Word(Big, k, i), 0xffffff00)
    ensures left == i + 2 ==> Word(Big, k[..left], i) == And(Word(Big, k, i), 0xffff0000)
    ensures left == i + 1 ==> Word(Big, k[..left], i) == And(Word(Big, k, i), 0xff000000)
  {
    hide And, Le32;
    MaskedHigh24(At(k, i + 3), At(k, i + 2), At(k, i + 1), At(k, i));
    MaskedHigh16(At(k, i + 3), At(k, i + 2), At(k, i + 1), At(k, i));
    MaskedHigh8(At(k, i + 3), At(k, i + 2), At(k, i + 1), At(k, i));
  }

  // ----- The hash functions -----

  datatype Endian = LittleEndian | BigEndian | UnknownEndian

  /** What is fixed when lookup3 is compiled: the byte order and whether a sanitizer watches reads. */
  datatype Host = Host(endian: Endian, sanitized: bool)

  /**
   On hosts of one byte order, aligned words are read, up to the end of the word that the key ends in, unless a
   sanitizer forbids it.
   */
  ghost predicate Readable(host: Host, words: Endian, address: nat, memory: seq<byte>, length: nat) {
    length <= |memory| &&
    (!host.sanitized && host.endian == words && address % 4 == 0 ==> (length + 3) / 4 * 4 <= |memory|)
  }

  lemma ReadableLength(host: Host, words: Endian, address: nat, memory: seq<byte>, length: nat)
    requires Readable(host, words, address, memory, length)
    ensures length <= |memory|
  {}

  /** What is readable of the last block, which starts at a whole word. */
  lemma TailReadable(host: Host, words: Endian, address: nat, memory: seq<byte>, length: nat, off: nat, left: nat)
    requires Readable(host, words, address, memory, length) && off + left == length && off % 12 == 0
    ensures off + left <= |memory|
    ensures !host.sanitized && host.endian == words && address % 4 == 0 ==> off + (left + 3) / 4 * 4 <= |memory|
  {
    QuarterShift(off / 4, left);
  }

  lemma QuarterShift(q: nat, left: nat)
    ensures (4 * q + left + 3) / 4 * 4 == 4 * q + (left + 3) / 4 * 4
  {}

  method HashLittle2(host: Host, address: nat, memory: seq<byte>, length: nat, pc0: bv32, pb0: bv32)
    returns (pc: bv32, pb: bv32)
    requires Readable(host, LittleEndian, address, memory, length)
    ensures (pc, pb) == Hash2(Little, memory[..length], pc0, pb0)
  {
    hide Fold, Absorbed, Finished, Add, U32, Readable, Start;
    ReadableLength(host, LittleEndian, address, memory, length);
    var off, left;
    var a := Add(Add(0xdeadbeef, U32(length)), pc0);
    var b, c := a, a;
    c := Add(c, pb0);
    StartIs(length, pc0, pb0);
    ghost var s := Abc(a, b, c);
    if host.endian.LittleEndian? && address % 4 == 0 {
      off, left, a, b, c := WordBlocks(Little, memory, length, a, b, c);
      TailReadable(host, LittleEndian, address, memory, length, off, left);
      LastBlock(Little, Abc(a, b, c), memory[off..length]);
      if left == 0 { return c, b; }
      if host.sanitized {
        a, b, c := TailBytewise(memory[off..], left, a, b, c);
      } else {
        a, b, c := TailMasked(memory[off..], left, a, b, c);
      }
    } else if host.endian.LittleEndian? && address % 2 == 0 {
      off, left, a, b, c := HalfBlocks(memory, length, a, b, c);
      LastBlock(Little, Abc(a, b, c), memory[off..length]);
      if left == 0 { return c, b; }
      a, b, c := TailHalves(memory[off..], left, a, b, c);
    } else {
      off, left, a, b, c := ByteBlocks(memory, length, a, b, c);
      LastBlock(Little, Abc(a, b, c), memory[off..length]);
      if left == 0 { return c, b; }
      a, b, c := TailBytes(memory[off..], left, a, b, c);
    }
    assert memory[off..][..left] == memory[off..length];
    assert Fold(Little, s, memory[..length]) == Finished(Abc(a, b, c));
    a, b, c := Final(a, b, c);
    return c, b;
  }

  method HashLittle(host: Host, address: nat, memory: seq<byte>, length: nat, initval: bv32)
    returns (hash: bv32)
    requires Readable(host, LittleEndian, address, memory, length)
    ensures hash == Hash2(Little, memory[..length], initval, 0).0
  {
    hide Fold, Absorbed, Finished, Add, U32, Readable;
    ReadableLength(host, LittleEndian, address, memory, length);
    var off, left;
    var a := Add(Add(0xdeadbeef, U32(length)), initval);
    var b, c := a, a;
    AddAbsent(c);
    assert Abc(a, b, c) == Start(length, initval, 0);
    if host.endian.LittleEndian? && address % 4 == 0 {
      off, left, a, b, c := WordBlocks(Little, memory, length, a, b, c);
      TailReadable(host, LittleEndian, address, memory, length, off, left);
      LastBlock(Little, Abc(a, b, c), memory[off..length]);
      if left == 0 { return c; }
      if host.sanitized {
        a, b, c := TailBytewise(memory[off..], left, a, b, c);
      } else {
        a, b, c := TailMasked(memory[off..], left, a, b, c);
      }
    } else if host.endian.LittleEndian? && address % 2 == 0 {
      off, left, a, b, c := HalfBlocks(memory, length, a, b, c);
      LastBlock(Little, Abc(a, b, c), memory[off..length]);
      if left == 0 { return c; }
      a, b, c := TailHalves(memory[off..], left, a, b, c);
    } else {
      off, left, a, b, c := ByteBlocks(memory, length, a, b, c);
      LastBlock(Little, Abc(a, b, c), memory[off..length]);
      if left == 0 { return c; }
      a, b, c := TailBytes(memory[off..], left, a, b, c);
    }
    assert memory[off..][..left] == memory[off..length];
    a, b, c := Final(a, b, c);
    return c;
  }

  method HashBig(host: Host, address: nat, memory: seq<byte>, length: nat, initval: bv32)
    returns (hash: bv32)
    requires Readable(host, BigEndian, address, memory, length)
    ensures hash == Hash2(Big, memory[..length], initval, 0).0
  {
    hide Fold, Absorbed, Finished, Add, U32, Readable;
    ReadableLength(host, BigEndian, address, memory, length);
    var off, left;
    var a := Add(Add(0xdeadbeef, U32(length)), initval);
    var b, c := a, a;
    AddAbsent(c);
    assert Abc(a, b, c) == Start(length, initval, 0);
    if host.endian.BigEndian? && address % 4 == 0 {
      off, left, a, b, c := WordBlocks(Big, memory, length, a, b, c);
      TailReadable(host, BigEndian, address, memory, length, off, left);
      LastBlock(Big, Abc(a, b, c), memory[off..length]);
      if left == 0 { return c; }
      if host.sanitized {
        a, b, c := TailBigBytewise(memory[off..], left, a, b, c);
      } else {
        a, b, c := TailBigMasked(memory[off..], left, a, b, c);
      }
    } else {
      off, left, a, b, c := BigByteBlocks(memory, length, a, b, c);
      LastBlock(Big, Abc(a, b, c), memory[off..length]);
      if left == 0 { return c; }
      a, b, c := TailBigBytes(memory[off..], left, a, b, c);
    }
    assert memory[off..][..left] == memory[off..length];
    a, b, c := Final(a, b, c);
    return c;
  }

  /** jenkins_hash64: both seeds zero, the primary value in the high half. */
  function Joined(pc: bv32, pb: bv32): bv64 { ((pc as bv64) << 32) | (pb as bv64) }

  function Hash64(key: seq<byte>): bv64 {
    var r := Hash2(Little, key, 0, 0);
    Joined(r.0, r.1)
  }

  lemma JoinedHalves(pc: bv32, pb: bv32)
    ensures (Joined(pc, pb) >> 32) as bv32 == pc && (Joined(pc, pb) & 0xffff_ffff) as bv32 == pb
  {}

  /** The primary value of the key is in the high half of its 64-bit hash, the secondary value in the low half. */
  lemma Hash64Halves(key: seq<byte>)
    ensures (Hash64(key) >> 32) as bv32 == Hash2(Little, key, 0, 0).0
    ensures (Hash64(key) & 0xffff_ffff) as bv32 == Hash2(Little, key, 0, 0).1
  {
    hide Hash2, Joined;
    var r := Hash2(Little, key, 0, 0);
    JoinedHalves(r.0, r.1);
  }

  method JenkinsHash64(host: Host, address: nat, memory: seq<byte>, length: nat) returns (hash: bv64)
    requires Readable(host, LittleEndian, address, memory, length)
    ensures hash == Hash64(memory[..length])
    ensures (hash >> 32) as bv32 == Hash2(Little, memory[..length], 0, 0).0
    ensures (hash & 0xffff_ffff) as bv32 == Hash2(Little, memory[..length], 0, 0).1
  {
    hide Hash2;
    var a, b := HashLittle2(host, address, memory, length, 0, 0);
    hash := ((a as bv64) << 32) | (b as bv64);
    Hash64Halves(memory[..length]);
  }

  // ----- Keys that are arrays of words -----

  /** The bytes of one word, in a byte order. */
  function Encoded(order: Order, w: bv32): (bytes: seq<byte>)
    ensures |bytes| == 4
  {
    if order.Little? then [Byte0(w), Byte1(w), Byte2(w), Byte3(w)] else [Byte3(w), Byte2(w), Byte1(w), Byte0(w)]
  }

  function EncodedAll(order: Order, ks: seq<bv32>): (bytes: seq<byte>)
    ensures |bytes| == 4 * |ks|
  {
    if ks == [] then [] else Encoded(order, ks[0]) + EncodedAll(order, ks[1..])
  }

  function WordAt(ks: seq<bv32>, i: nat): bv32 {
    if i < |ks| then ks[i] else 0
  }

  function AbsorbedWords(s: Abc, ks: seq<bv32>): Abc {
    Abc(Add(s.a, WordAt(ks, 0)), Add(s.b, WordAt(ks, 1)), Add(s.c, WordAt(ks, 2)))
  }

  function FoldWords(s: Abc, ks: seq<bv32>): Abc
    decreases |ks|
  {
    if ks == [] then s
    else if |ks| <= 3 then Finished(AbsorbedWords(s, ks))
    else FoldWords(Mixed(AbsorbedWords(s, ks[..3])), ks[3..])
  }

  lemma EncodedWord(order: Order, w: bv32, rest: seq<byte>)
    ensures Word(order, Encoded(order, w) + rest, 0) == w
  {
    hide Le32, Byte0, Byte1, Byte2, Byte3;
    WordOfBytes(w);
  }

  /** Word i of an encoded array, read back in the same order. */
  lemma {:induction false} EncodedWords(order: Order, ks: seq<bv32>, i: nat)
    ensures Word(order, EncodedAll(order, ks), 4 * i) == WordAt(ks, i)
    decreases i
  {
    hide Le32, Encoded;
    if ks == [] {
      ZeroWord();
    } else if i == 0 {
      EncodedWord(order, ks[0], EncodedAll(order, ks[1..]));
    } else {
      EncodedWords(order, ks[1..], i - 1);
      var head, tail := Encoded(order, ks[0]), EncodedAll(order, ks[1..]);
      assert forall j :: j >= 4 ==> At(head + tail, j) == At(tail, j - 4);
    }
  }

  lemma {:induction false} EncodedSplit(order: Order, ks: seq<bv32>, n: nat)
    requires n <= |ks|
    ensures EncodedAll(order, ks)[..4 * n] == EncodedAll(order, ks[..n])
    ensures EncodedAll(order, ks)[4 * n..] == EncodedAll(order, ks[n..])
    decreases n
  {
    hide Encoded;
    if n == 0 {
      assert ks[..0] == [] && ks[0..] == ks;
    } else {
      EncodedSplit(order, ks[1..], n - 1);
      assert ks[..n][1..] == ks[1..][..n - 1] && ks[n..] == ks[1..][n - 1..];
    }
  }

  /** Hashing words is hashing their bytes, in either byte order. */
  lemma {:induction false} FoldOfWords(order: Order, s: Abc, ks: seq<bv32>)
    ensures Fold(order, s, EncodedAll(order, ks)) == FoldWords(s, ks)
    decreases |ks|
  {
    hide Word, WordAt, Add, Mixed, Finished, EncodedAll;
    if |ks| == 0 {
    } else if |ks| <= 3 {
      EncodedWords(order, ks, 0);
      EncodedWords(order, ks, 1);
      EncodedWords(order, ks, 2);
    } else {
      EncodedSplit(order, ks, 3);
      EncodedWords(order, ks[..3], 0);
      EncodedWords(order, ks[..3], 1);
      EncodedWords(order, ks[..3], 2);
      FoldOfWords(order, Mixed(AbsorbedWords(s, ks[..3])), ks[3..]);
    }
  }

  /** (uint32_t)length << 2, and (uint32_t)(length << 2) of a 64-bit length, are the byte count. */
  lemma ByteCount(n: nat)
    ensures U32(n % 0x1_0000_0000 * 4) == U32(4 * n)
    ensures U32(4 * n % 0x1_0000_0000_0000_0000) == U32(4 * n)
  {
    var q, r := n / 0x1_0000_0000, n % 0x1_0000_0000;
    assert 4 * n == 0x1_0000_0000 * (4 * q) + 4 * r;
    ModOfMultiple(4 * q, 4 * r);
    var p, t := 4 * n / 0x1_0000_0000_0000_0000, 4 * n % 0x1_0000_0000_0000_0000;
    assert 4 * n == 0x1_0000_0000 * (0x1_0000_0000 * p) + t;
    ModOfMultiple(0x1_0000_0000 * p, t);
  }

  lemma ModOfMultiple(q: int, r: int)
    ensures (0x1_0000_0000 * q + r) % 0x1_0000_0000 == r % 0x1_0000_0000
  {
    assert 0x1_0000_0000 * q + r == 0x1_0000_0000 * (q + r / 0x1_0000_0000) + r % 0x1_0000_0000;
  }

  method HashWord2(k: seq<bv32>, pc0: bv32, pb0: bv32) returns (pc: bv32, pb: bv32)
    ensures (pc, pb) == Hash2(Little, EncodedAll(Little, k), pc0, pb0)
    ensures (pc, pb) == Hash2(Big, EncodedAll(Big, k), pc0, pb0)
  {
    hide AbsorbedWords, Mixed, Finished, Add, U32, EncodedAll;
    ByteCount(|k|);
    var a := Add(Add(0xdeadbeef, U32(4 * |k| % 0x1_0000_0000_0000_0000)), pc0);
    var b, c := a, a;
    c := Add(c, pb0);
    FoldOfWords(Little, Abc(a, b, c), k);
    FoldOfWords(Big, Abc(a, b, c), k);
    a, b, c := WordLoop(k, a, b, c);
    return c, b;
  }

  method HashWord(k: seq<bv32>, initval: bv32) returns (hash: bv32)
    ensures hash == Hash2(Little, EncodedAll(Little, k), initval, 0).0
    ensures hash == Hash2(Big, EncodedAll(Big, k), initval, 0).0
  {
    hide AbsorbedWords, Mixed, Finished, Add, U32, EncodedAll;
    ByteCount(|k|);
    var a := Add(Add(0xdeadbeef, U32(|k| % 0x1_0000_0000 * 4)), initval);
    var b, c := a, a;
    AddAbsent(c);
    FoldOfWords(Little, Abc(a, b, c), k);
    FoldOfWords(Big, Abc(a, b, c), k);
    a, b, c := WordLoop(k, a, b, c);
    return c;
  }

  /** The loop and the fall-through switch that both word hashes share; with no words left nothing is mixed. */
  method WordLoop(k: seq<bv32>, a0: bv32, b0: bv32, c0: bv32) returns (a: bv32, b: bv32, c: bv32)
    ensures Abc(a, b, c) == FoldWords(Abc(a0, b0, c0), k)
  {
    hide Mixed, Finished, Add;
    var off, length := 0, |k|;
    a, b, c := a0, b0, c0;
    while length > 3
      invariant 0 <= off && 0 <= length && off + length == |k|
      invariant FoldWords(Abc(a0, b0, c0), k) == FoldWords(Abc(a, b, c), k[off..])
    {
      assert k[off..][..3] == [k[off], k[off + 1], k[off + 2]] && k[off..][3..] == k[off + 3..];
      a := Add(a, k[off]);
      b := Add(b, k[off + 1]);
      c := Add(c, k[off + 2]);
      a, b, c := Mix(a, b, c);
      length, off := length - 3, off + 3;
    }
    AddAbsent(b);
    AddAbsent(c);
    if length > 0 {
      if length >= 3 { c := Add(c, k[off + 2]); }
      if length >= 2 { b := Add(b, k[off + 1]); }
      a := Add(a, k[off]);
      a, b, c := Final(a, b, c);
    }
  }

  // ----- mix and final lose nothing -----

  function Unturn(t: Abc, k: bv32): Abc
    requires 0 < k < 32
  {
    var c := Sub(t.b, t.a);
    Abc(Add(Xor(t.c, Rot(c, k)), c), t.a, c)
  }

  function Unmixed(t: Abc): Abc {
    Unturn(Unturn(Unturn(Unturn(Unturn(Unturn(t, 4), 19), 16), 8), 6), 4)
  }

  lemma TurnUndone(s: Abc, k: bv32)
    requires 0 < k < 32
    ensures Unturn(Turn(s, k), k) == s && Turn(Unturn(s, k), k) == s
  {
    hide Add, Sub, Xor, Rot;
    SubUndoesAdd(s.c, s.b);
    XorUndoesXor(Sub(s.a, s.c), Rot(s.c, k));
    AddUndoesSub(s.a, s.c);
    var c := Sub(s.b, s.a);
    AddUndoesSub(s.b, s.a);
    SubUndoesAdd(Xor(s.c, Rot(c, k)), c);
    XorUndoesXor(s.c, Rot(c, k));
  }

  /** mix is a bijection on triples of words. */
  lemma MixReversible(s: Abc)
    ensures Unmixed(Mixed(s)) == s && Mixed(Unmixed(s)) == s
  {
    hide Turn, Unturn;
    var s1 := Turn(s, 4); var s2 := Turn(s1, 6); var s3 := Turn(s2, 8);
    var s4 := Turn(s3, 16); var s5 := Turn(s4, 19);
    TurnUndone(s, 4); TurnUndone(s1, 6); TurnUndone(s2, 8);
    TurnUndone(s3, 16); TurnUndone(s4, 19); TurnUndone(s5, 4);
    var t1 := Unturn(s, 4); var t2 := Unturn(t1, 19); var t3 := Unturn(t2, 16);
    var t4 := Unturn(t3, 8); var t5 := Unturn(t4, 6);
    TurnUndone(t1, 19); TurnUndone(t2, 16); TurnUndone(t3, 8);
    TurnUndone(t4, 6); TurnUndone(t5, 4);
  }

  function Unstir(t: Abc, k: bv32): Abc
    requires 0 < k < 32
  {
    Abc(Xor(Add(t.c, Rot(t.b, k)), t.b), t.a, t.b)
  }

  function Unfinished(t: Abc): Abc {
    var u := Unstir(Unstir(Unstir(Unstir(Unstir(Unstir(Unstir(t, 24), 14), 4), 16), 25), 11), 14);
    Abc(u.b, u.c, u.a)
  }

  lemma StirUndone(s: Abc, k: bv32)
    requires 0 < k < 32
    ensures Unstir(Stir(s, k), k) == s && Stir(Unstir(s, k), k) == s
  {
    hide Add, Sub, Xor, Rot;
    AddUndoesSub(Xor(s.a, s.c), Rot(s.c, k));
    XorUndoesXor(s.a, s.c);
    XorUndoesXor(Add(s.c, Rot(s.b, k)), s.b);
    SubUndoesAdd(s.c, Rot(s.b, k));
  }

  /** final is a bijection on triples of words. */
  lemma FinalReversible(s: Abc)
    ensures Unfinished(Finished(s)) == s && Finished(Unfinished(s)) == s
  {
    hide Stir, Unstir;
    var s0 := Abc(s.c, s.a, s.b);
    var s1 := Stir(s0, 14); var s2 := Stir(s1, 11); var s3 := Stir(s2, 25);
    var s4 := Stir(s3, 16); var s5 := Stir(s4, 4); var s6 := Stir(s5, 14);
    StirUndone(s0, 14); StirUndone(s1, 11); StirUndone(s2, 25); StirUndone(s3, 16);
    StirUndone(s4, 4); StirUndone(s5, 14); StirUndone(s6, 24);
    var t1 := Unstir(s, 24); var t2 := Unstir(t1, 14); var t3 := Unstir(t2, 4);
    var t4 := Unstir(t3, 16); var t5 := Unstir(t4, 25); var t6 := Unstir(t5, 11);
    StirUndone(s, 24); StirUndone(t1, 14); StirUndone(t2, 4); StirUndone(t3, 16);
    StirUndone(t4, 25); StirUndone(t5, 11); StirUndone(t6, 14);
  }

  lemma AbsorbedInjectiveInState(order: Order, s: Abc, t: Abc, block: seq<byte>)
    requires Absorbed(order, s, block) == Absorbed(order, t, block)
    ensures s == t
  {
    hide Add, Word;
    SubUndoesAdd(s.a, Word(order, block, 0)); SubUndoesAdd(t.a, Word(order, block, 0));
    SubUndoesAdd(s.b, Word(order, block, 4)); SubUndoesAdd(t.b, Word(order, block, 4));
    SubUndoesAdd(s.c, Word(order, block, 8)); SubUndoesAdd(t.c, Word(order, block, 8));
  }

  /** Two different states never merge while they absorb the same bytes. */
  lemma {:induction false} StatesNeverMerge(order: Order, s: Abc, t: Abc, key: seq<byte>)
    requires s != t
    ensures Fold(order, s, key) != Fold(order, t, key)
    decreases |key|
  {
    hide Absorbed, Mixed, Finished, Unmixed, Unfinished;
    if key == [] {
    } else if |key| <= 12 {
      if Absorbed(order, s, key) == Absorbed(order, t, key) { AbsorbedInjectiveInState(order, s, t, key); }
      FinalReversible(Absorbed(order, s, key));
      FinalReversible(Absorbed(order, t, key));
    } else {
      if Absorbed(order, s, key[..12]) == Absorbed(order, t, key[..12]) {
        AbsorbedInjectiveInState(order, s, t, key[..12]);
      }
      MixReversible(Absorbed(order, s, key[..12]));
      MixReversible(Absorbed(order, t, key[..12]));
      StatesNeverMerge(order, Mixed(Absorbed(order, s, key[..12])), Mixed(Absorbed(order, t, key[..12])), key[12..]);
    }
  }

  lemma WordTells(order: Order, x: seq<byte>, y: seq<byte>, i: nat)
    requires Word(order, x, i) == Word(order, y, i)
    ensures At(x, i) == At(y, i) && At(x, i + 1) == At(y, i + 1)
    ensures At(x, i + 2) == At(y, i + 2) && At(x, i + 3) == At(y, i + 3)
  {
    hide Le32;
    if order.Little? {
      Le32Injective(
        At(x, i), At(x, i + 1), At(x, i + 2), At(x, i + 3), At(y, i), At(y, i + 1), At(y, i + 2), At(y, i + 3));
    } else {
      Le32Injective(
        At(x, i + 3), At(x, i + 2), At(x, i + 1), At(x, i), At(y, i + 3), At(y, i + 2), At(y, i + 1), At(y, i));
    }
  }

  lemma AddCancels(s: bv32, x: bv32, y: bv32)
    requires Add(s, x) == Add(s, y)
    ensures x == y
  {
    hide Add, Sub;
    AddAssociates(s, x, s);
    AddAssociates(s, y, s);
    SubUndoesAdd(x, s);
    SubUndoesAdd(y, s);
  }

  /** Adding two different blocks of the same length to one state gives different states. */
  lemma BlocksTold(order: Order, s: Abc, x: seq<byte>, y: seq<byte>)
    requires |x| == |y| <= 12 && x != y
    ensures Absorbed(order, s, x) != Absorbed(order, s, y)
  {
    hide Word, Add;
    if Absorbed(order, s, x) == Absorbed(order, s, y) {
      AddCancels(s.a, Word(order, x, 0), Word(order, y, 0));
      AddCancels(s.b, Word(order, x, 4), Word(order, y, 4));
      AddCancels(s.c, Word(order, x, 8), Word(order, y, 8));
      WordTells(order, x, y, 0);
      WordTells(order, x, y, 4);
      WordTells(order, x, y, 8);
      forall i | 0 <= i < |x| ensures x[i] == y[i] {
        assert At(x, i) == At(y, i);
      }
      assert false;
    }
  }

  /** Two keys of one length that differ in exactly one block end in different states (a, b, c). */
  lemma {:induction false} OneBlockTold(order: Order, s: Abc, before: seq<byte>, x: seq<byte>, y: seq<byte>,
        after: seq<byte>)
    requires |before| % 12 == 0 && |x| == |y| <= 12 && x != y
    requires after != [] ==> |x| == 12
    ensures Fold(order, s, before + x + after) != Fold(order, s, before + y + after)
    decreases |before|
  {
    hide Absorbed, Mixed, Finished, Unmixed, Unfinished;
    var kx, ky := before + x + after, before + y + after;
    if before != [] {
      assert kx[..12] == before[..12] && ky[..12] == before[..12];
      assert kx[12..] == before[12..] + x + after && ky[12..] == before[12..] + y + after;
      OneBlockTold(order, Mixed(Absorbed(order, s, before[..12])), before[12..], x, y, after);
    } else {
      BlocksTold(order, s, x, y);
      if after == [] {
        assert kx == x && ky == y;
        FinalReversible(Absorbed(order, s, x));
        FinalReversible(Absorbed(order, s, y));
      } else {
        assert kx[..12] == x && ky[..12] == y && kx[12..] == after && ky[12..] == after;
        MixReversible(Absorbed(order, s, x));
        MixReversible(Absorbed(order, s, y));
        StatesNeverMerge(order, Mixed(Absorbed(order, s, x)), Mixed(Absorbed(order, s, y)), after);
      }
    }
  }
}
