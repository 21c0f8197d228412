/**
 Fixed-width machine arithmetic, and the little-endian loads shared by the hashes and
 by the journal's on-disk integers.  Every C operator on uint32_t/uint64_t gets a named
 function, so that a chain of operations is compared operator by operator.
 */
module Word64 {
  function Add(x: bv64, y: bv64): bv64 { x + y }

  function Sub(x: bv64, y: bv64): bv64 { x - y }

  function Xor(x: bv64, y: bv64): bv64 { x ^ y }

  function Or(x: bv64, y: bv64): bv64 { x | y }

  function RotateLeft(x: bv64, b: bv64): bv64
    requires 0 < b < 64
  {
    (x << b) | (x >> (64 - b))
  }

  lemma SubUndoesAdd(x: bv64, y: bv64)
    ensures Sub(Add(x, y), y) == x
  {
    assert Sub(x + y, y) == x;
  }

  lemma XorUndoesXor(x: bv64, y: bv64)
    ensures Xor(Xor(x, y), y) == x
  {
    assert Xor(x ^ y, y) == x;
  }

  lemma Rotation13Undone(x: bv64)
    ensures RotateLeft(RotateLeft(x, 13), 51) == x
  {}

  lemma Rotation16Undone(x: bv64)
    ensures RotateLeft(RotateLeft(x, 16), 48) == x
  {}

  lemma Rotation17Undone(x: bv64)
    ensures RotateLeft(RotateLeft(x, 17), 47) == x
  {}

  lemma Rotation21Undone(x: bv64)
    ensures RotateLeft(RotateLeft(x, 21), 43) == x
  {}

  lemma Rotation32Undone(x: bv64)
    ensures RotateLeft(RotateLeft(x, 32), 32) == x
  {}

  lemma OrShuffle(x: bv64, y: bv64, z: bv64)
    ensures Or(Or(x, y), z) == Or(x, Or(z, y))
    ensures Or(x, 0) == Or(0, x) == x
  {}
}

/** A size_t or uint64_t counter: the number it counts, modulo 2 to the 64. */
module Counters {
  const U64_LIMIT: nat := 0x1_0000_0000_0000_0000

  function U64(n: nat): nat { n % U64_LIMIT }

  lemma U64OfMultiple(q: nat, r: nat)
    ensures U64(U64_LIMIT * q + r) == U64(r)
  {
    assert U64_LIMIT * q + r == U64_LIMIT * (q + r / U64_LIMIT) + r % U64_LIMIT;
  }

  lemma U64Add(n: nat, m: nat)
    ensures U64(U64(n) + m) == U64(n + m)
  {
    U64OfMultiple(n / U64_LIMIT, U64(n) + m);
  }

  /** The byte that a counter keeps when it is shifted left by 56 bits. */
  function LowByte(n: nat): bv8 { (n % 256) as bv8 }

  lemma Mod8OfMultiple(q: int, r: int)
    ensures (8 * q + r) % 8 == r % 8
  {
    assert 8 * q + r == 8 * (q + r / 8) + r % 8;
  }

  lemma Mod256OfMultiple(q: int, r: int)
    ensures (256 * q + r) % 256 == r % 256
  {
    assert 256 * q + r == 256 * (q + r / 256) + r % 256;
  }

  /** The low bits of a wrapped counter are those of the count itself. */
  lemma U64LowBits(n: nat)
    ensures U64(n) % 8 == n % 8 && LowByte(U64(n)) == LowByte(n)
  {
    var q := n / U64_LIMIT;
    Mod8OfMultiple(0x2000_0000_0000_0000 * q, U64(n));
    Mod256OfMultiple(0x100_0000_0000_0000 * q, U64(n));
  }
}

module Bytes {
  import opened Word64

  type byte = bv8

  lemma SliceOfSlice(s: seq<byte>, lo: nat, hi: nat, from: nat, to: nat)
    requires lo <= hi <= |s| && from <= to <= hi - lo
    ensures s[lo..hi][from..to] == s[lo + from..lo + to]
  {
    var inner := s[lo..hi];
    assert forall i :: 0 <= i < hi - lo ==> inner[i] == s[lo + i];
    assert forall i :: 0 <= i < to - from ==> inner[from..to][i] == inner[from + i];
  }

  /** Byte b moved to byte position i of a 64-bit word, as (uint64_t)b << (8 * i). */
  function Place(b: byte, i: nat): bv64
    requires i < 8
  {
    match i
    case 0 => b as bv64
    case 1 => (b as bv64) << 8
    case 2 => (b as bv64) << 16
    case 3 => (b as bv64) << 24
    case 4 => (b as bv64) << 32
    case 5 => (b as bv64) << 40
    case 6 => (b as bv64) << 48
    case 7 => (b as bv64) << 56
  }

  /** The little-endian value of up to eight bytes, absent high bytes reading as zero. */
  function LoadLE(s: seq<byte>): (w: bv64)
    requires |s| <= 8
    ensures s == [] ==> w == 0
  {
    if s == [] then 0 else Or(LoadLE(s[..|s| - 1]), Place(s[|s| - 1], |s| - 1))
  }

  lemma PlacedZero(i: nat)
    requires i < 8
    ensures Place(0, i) == 0
  {}

  lemma LoadLEPrefix(s: seq<byte>, k: nat)
    requires k < |s| <= 8
    ensures LoadLE(s[..k + 1]) == Or(LoadLE(s[..k]), Place(s[k], k))
  {
    assert s[..k + 1][..k] == s[..k];
  }

  /** Trailing zero bytes do not change a little-endian value. */
  lemma {:induction false} LoadLEPadded(s: seq<byte>, n: nat)
    requires |s| + n <= 8
    ensures LoadLE(s + seq(n, _ => 0 as byte)) == LoadLE(s)
  {
    hide Place, Or;
    var zeros := seq(n, _ => 0 as byte);
    if n == 0 {
      assert s + zeros == s;
    } else {
      var shorter := seq(n - 1, _ => 0 as byte);
      assert (s + zeros)[..|s| + n - 1] == s + shorter;
      LoadLEPadded(s, n - 1);
      PlacedZero(|s| + n - 1);
      OrShuffle(LoadLE(s), 0, 0);
    }
  }
}
