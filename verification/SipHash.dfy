/**
 SipHash-2-4 as src/upstream/siphash24.c computes it, in pieces that carry a partial word
 from one call to the next, against the definition in section 2 of the SipHash paper
 (Aumasson and Bernstein, "SipHash: a fast short-input PRF", 2012).
 */
module SipHash {
  import opened Word64
  import opened Bytes
  import opened Counters

  /** The internal state v0..v3. */
  datatype Lanes = Lanes(v0: bv64, v1: bv64, v2: bv64, v3: bv64)

  // ----- The definition of the paper -----

  /** One SipRound, in the order of the paper's network: two half-rounds side by side. */
  function SipRound(s: Lanes): Lanes {
    var a0 := Add(s.v0, s.v1);
    var a2 := Add(s.v2, s.v3);
    var b1 := Xor(RotateLeft(s.v1, 13), a0);
    var b3 := Xor(RotateLeft(s.v3, 16), a2);
    var b0 := RotateLeft(a0, 32);
    var c2 := Add(a2, b1);
    var c0 := Add(b0, b3);
    Lanes(c0, Xor(RotateLeft(b1, 17), c2), RotateLeft(c2, 32), Xor(RotateLeft(b3, 21), c0))
  }

  function Initialized(key: seq<byte>): Lanes
    requires |key| == 16
  {
    var k0 := LoadLE(key[..8]);
    var k1 := LoadLE(key[8..]);
    Lanes(Xor(0x736f6d6570736575, k0), Xor(0x646f72616e646f6d, k1),
          Xor(0x6c7967656e657261, k0), Xor(0x7465646279746573, k1))
  }

  /** Compression of one message word, c = 2. */
  function Absorb(s: Lanes, m: bv64): Lanes {
    var t := SipRound(SipRound(s.(v3 := Xor(s.v3, m))));
    t.(v0 := Xor(t.v0, m))
  }

  /** Compression of every whole word of a message, in order. */
  function AbsorbWords(s: Lanes, message: seq<byte>): Lanes
    decreases |message|
  {
    if |message| < 8 then s else AbsorbWords(Absorb(s, LoadLE(message[..8])), message[8..])
  }

  /** Finalization, d = 4. */
  function Finalized(s: Lanes): bv64 {
    var t := SipRound(SipRound(SipRound(SipRound(s.(v2 := Xor(s.v2, 0xff))))));
    Xor(Xor(Xor(t.v0, t.v1), t.v2), t.v3)
  }

  /** The message followed by null bytes and, as the last byte of the last word, its length mod 256. */
  function Padded(message: seq<byte>): seq<byte> {
    message + seq(7 - |message| % 8, _ => 0 as byte) + [LowByte(|message|)]
  }

  function SipHash24(key: seq<byte>, message: seq<byte>): bv64
    requires |key| == 16
  {
    Finalized(AbsorbWords(Initialized(key), Padded(message)))
  }

  // ----- Facts about absorbing words -----

  /** Only the whole words of a message are absorbed. */
  lemma {:induction false} OnlyWholeWords(s: Lanes, message: seq<byte>)
    ensures AbsorbWords(s, message) == AbsorbWords(s, message[..|message| / 8 * 8])
    decreases |message|
  {
    hide Absorb, LoadLE;
    if |message| >= 8 {
      var whole := message[..|message| / 8 * 8];
      assert whole[..8] == message[..8];
      assert whole[8..] == message[8..][..|message[8..]| / 8 * 8];
      OnlyWholeWords(Absorb(s, LoadLE(message[..8])), message[8..]);
    }
  }

  /** A message may be absorbed in two pieces, cut after any whole word. */
  lemma {:induction false} AbsorbSplit(s: Lanes, a: seq<byte>, b: seq<byte>)
    requires |a| % 8 == 0
    ensures AbsorbWords(s, a + b) == AbsorbWords(AbsorbWords(s, a), b)
    decreases |a|
  {
    hide Absorb, LoadLE;
    if a == [] {
      assert a + b == b;
    } else {
      assert (a + b)[..8] == a[..8] && (a + b)[8..] == a[8..] + b;
      AbsorbSplit(Absorb(s, LoadLE(a[..8])), a[8..], b);
    }
  }

  lemma AbsorbOne(s: Lanes, a: seq<byte>, w: seq<byte>)
    requires |a| % 8 == 0 && |w| == 8
    ensures AbsorbWords(s, a + w) == Absorb(AbsorbWords(s, a), LoadLE(w))
  {
    hide Absorb, LoadLE;
    AbsorbSplit(s, a, w);
    assert w[..8] == w && w[8..] == [];
  }

  // ----- The streaming implementation -----

  /** The bytes of a message after its last whole word. */
  function Partial(message: seq<byte>): (rest: seq<byte>)
    ensures |rest| == |message| % 8
  {
    message[|message| / 8 * 8..]
  }

  class Streaming {
    var v0: bv64
    var v1: bv64
    var v2: bv64
    var v3: bv64
    var padding: bv64
    var inlen: nat  // a 64-bit counter

    ghost var key: seq<byte>
    ghost var absorbed: seq<byte>  // every byte compressed so far

    function State(): Lanes
      reads this
    {
      Lanes(v0, v1, v2, v3)
    }

    ghost predicate Valid()
      reads this
    {
      && |key| == 16
      && State() == AbsorbWords(Initialized(key), absorbed)
      && padding == LoadLE(Partial(absorbed))
      && inlen == U64(|absorbed|)
    }

    constructor (k: seq<byte>)
      requires |k| == 16
      ensures Valid() && key == k && absorbed == []
      ensures State() == Initialized(k) && padding == 0 && inlen == 0
    {
      var k0, k1 := LoadLE(k[..8]), LoadLE(k[8..]);
      v0 := Xor(0x736f6d6570736575, k0);
      v1 := Xor(0x646f72616e646f6d, k1);
      v2 := Xor(0x6c7967656e657261, k0);
      v3 := Xor(0x7465646279746573, k1);
      padding, inlen := 0, 0;
      key, absorbed := k, [];
    }

    method Round()
      modifies `v0, `v1, `v2, `v3
      ensures State() == SipRound(old(State()))
    {
      v0 := Add(v0, v1);
      v1 := RotateLeft(v1, 13);
      v1 := Xor(v1, v0);
      v0 := RotateLeft(v0, 32);
      v2 := Add(v2, v3);
      v3 := RotateLeft(v3, 16);
      v3 := Xor(v3, v2);
      v0 := Add(v0, v3);
      v3 := RotateLeft(v3, 21);
      v3 := Xor(v3, v0);
      v2 := Add(v2, v1);
      v1 := RotateLeft(v1, 17);
      v1 := Xor(v1, v2);
      v2 := RotateLeft(v2, 32);
    }

    /** The four lines that mix one word into the state, wherever they occur. */
    method Mix(m: bv64)
      modifies `v0, `v1, `v2, `v3
      ensures State() == Absorb(old(State()), m)
    {
      hide SipRound;
      v3 := Xor(v3, m);
      Round();
      Round();
      v0 := Xor(v0, m);
    }

    /** The switch at the end of a compression: the cases fall through from the highest byte. */
    method Store(input: seq<byte>, left: nat)
      requires left < 8 && left <= |input|
      requires padding == 0
      modifies `padding
      ensures padding == LoadLE(input[..left])
    {
      hide Place, Or, LoadLE, Stored;
      StoredFrom(input, left, left);
      if left >= 7 { StoredFrom(input, left, 7); padding := Or(padding, Place(input[6], 6)); }
      if left >= 6 { StoredFrom(input, left, 6); padding := Or(padding, Place(input[5], 5)); }
      if left >= 5 { StoredFrom(input, left, 5); padding := Or(padding, Place(input[4], 4)); }
      if left >= 4 { StoredFrom(input, left, 4); padding := Or(padding, Place(input[3], 3)); }
      if left >= 3 { StoredFrom(input, left, 3); padding := Or(padding, Place(input[2], 2)); }
      if left >= 2 { StoredFrom(input, left, 2); padding := Or(padding, Place(input[1], 1)); }
      if left >= 1 { StoredFrom(input, left, 1); padding := Or(padding, Place(input[0], 0)); }
      AllStored(input, left);
    }

    /** The loop that completes the word carried in padding, as far as the input reaches. */
    method FillCarry(input: seq<byte>) returns (i: nat)
      requires Valid() && |absorbed| % 8 > 0
      modifies `padding
      ensures i == if |input| < 8 - |absorbed| % 8 then |input| else 8 - |absorbed| % 8
      ensures padding == LoadLE(Partial(absorbed) + input[..i])
    {
      hide Place, Or, LoadLE, AbsorbWords, Initialized, U64, LowByte;
      i := 0;
      var left := inlen % 8;
      U64LowBits(|absorbed|);
      assert Partial(absorbed) + input[..0] == Partial(absorbed);
      while i < |input| && left < 8
        invariant 0 <= i <= |input| && left == |absorbed| % 8 + i <= 8
        invariant padding == LoadLE(Partial(absorbed) + input[..i])
      {
        CarryByte(absorbed, input, i);
        padding := Or(padding, Place(input[i], left));
        i, left := i + 1, left + 1;
      }
    }

    /** The loop over the whole words of input[i..end]. */
    method AbsorbWhole(input: seq<byte>, from: nat, end: nat)
      requires from <= end <= |input| && (end - from) % 8 == 0
      modifies `v0, `v1, `v2, `v3
      ensures State() == AbsorbWords(old(State()), input[from..end])
    {
      hide Absorb, LoadLE;
      var i := from;
      while i < end
        invariant from <= i <= end && (i - from) % 8 == 0
        invariant State() == AbsorbWords(old(State()), input[from..i])
      {
        assert input[from..i + 8] == input[from..i] + input[i..i + 8];
        AbsorbOne(old(State()), input[from..i], input[i..i + 8]);
        Mix(LoadLE(input[i..i + 8]));
        i := i + 8;
      }
    }

    /** The end of a compression: the whole words of input[from..], then the bytes left over. */
    method AbsorbRest(input: seq<byte>, from: nat, ghost done: seq<byte>)
      requires from <= |input| && |done| % 8 == 0 && absorbed == done + input[from..]
      requires |key| == 16 && State() == AbsorbWords(Initialized(key), done)
      requires padding == 0 && inlen == U64(|absorbed|)
      modifies `v0, `v1, `v2, `v3, `padding
      ensures Valid()
    {
      hide Absorb, Place, Or, LoadLE, AbsorbWords, Initialized, U64, LowByte, Partial;
      U64LowBits(|absorbed|);
      LeftOver(done, input[from..]);
      var left := inlen % 8;
      var end := |input| - left;
      AbsorbWhole(input, from, end);
      Store(input[end..], left);
      CutAtWord(done, input, from, end);
      AbsorbSplit(Initialized(key), done, input[from..end]);
      OnlyWholeWords(Initialized(key), absorbed);
    }

    method Compress(input: seq<byte>)
      requires Valid()
      modifies this
      ensures Valid()
      ensures key == old(key) && absorbed == old(absorbed) + input
    {
      hide Absorb, Place, Or, LoadLE, AbsorbWords, Initialized, U64, LowByte;
      ghost var before := absorbed;
      U64Add(|before|, |input|);
      U64LowBits(|before|);
      var i, left := 0, inlen % 8;
      if left > 0 {
        i := FillCarry(input);
        if i == |input| && left + i < 8 {
          assert input[..i] == input;
          CarryGrows(Initialized(key), before, input);
          inlen, absorbed := U64(inlen + |input|), before + input;
          return;
        }
        Mix(padding);
        padding := 0;
      }
      inlen, absorbed := U64(inlen + |input|), before + input;
      CarryFills(Initialized(key), before, input, i);
      AbsorbRest(input, i, before + input[..i]);
    }

    /** The last word, with the low byte of inlen in front of what is carried, and the four rounds. */
    method Finish() returns (hash: bv64)
      modifies `v0, `v1, `v2, `v3
      ensures hash == Finalized(Absorb(old(State()), Or(padding, Place(LowByte(inlen), 7))))
    {
      hide SipRound, Absorb, Place, Or, LowByte;
      Mix(Or(padding, Place(LowByte(inlen), 7)));
      v2 := Xor(v2, 0xff);
      Round();
      Round();
      Round();
      Round();
      hash := Xor(Xor(Xor(v0, v1), v2), v3);
    }

    /** The length byte completes the last word: (uint64_t)inlen << 56 keeps the low byte of inlen. */
    method Finalize() returns (hash: bv64)
      requires Valid()
      modifies `v0, `v1, `v2, `v3
      ensures hash == SipHash24(key, absorbed)
    {
      hide SipRound, Absorb, Place, Or, LoadLE, AbsorbWords, Initialized, U64, LowByte, Finalized;
      U64LowBits(|absorbed|);
      LastWord(Initialized(key), absorbed, LowByte(|absorbed|));
      hash := Finish();
    }
  }

  /** siphash24(): the whole message in one piece. */
  method OneShot(input: seq<byte>, key: seq<byte>) returns (hash: bv64)
    requires |key| == 16
    ensures hash == SipHash24(key, input)
  {
    hide SipHash24;
    var state := new Streaming(key);
    state.Compress(input);
    assert [] + input == input;
    hash := state.Finalize();
  }

  // ----- A length that does not fit the memory -----

  /** Where the loop over whole words ends: in + inlen - inlen % 8, as a pointer. */
  function EndPointer(address: nat, n: nat): nat {
    ((address + n) % U64_LIMIT + U64_LIMIT - n % 8) % U64_LIMIT
  }

  /** The hash when no word is absorbed: a few carried bytes and the low byte of the length. */
  function CutShort(key: seq<byte>, carried: seq<byte>, n: nat): bv64
    requires |key| == 16 && |carried| < 8
  {
    Finalized(Absorb(Initialized(key), Or(LoadLE(carried), Place(LowByte(n), 7))))
  }

  datatype Outcome = Inside(hash: bv64) | PastEnd

  /** siphash24() of n bytes at the start of some memory at an address, which need not reach that far. */
  function HashAt(key: seq<byte>, memory: seq<byte>, address: nat, n: nat): Outcome
    requires |key| == 16
  {
    if n <= |memory| then Inside(SipHash24(key, memory[..n]))
    else if address < EndPointer(address, n) || |memory| < n % 8 then PastEnd
    else Inside(CutShort(key, memory[..n % 8], n))
  }

  /**
   siphash24() as its pointers go.  A length that reaches past the memory makes the loop over the words read past it,
   unless the end pointer has wrapped around to the start or before: then only the switch reads, and only a few bytes.
   */
  method OneShotAt(memory: seq<byte>, address: nat, n: nat, key: seq<byte>) returns (r: Outcome)
    requires |key| == 16 && address + |memory| < U64_LIMIT && n < U64_LIMIT
    ensures r == HashAt(key, memory, address, n)
  {
    hide SipHash24, Finalized, Absorb, AbsorbWords, Place, Or, LoadLE, Initialized, LowByte, U64, EndPointer;
    hide Streaming.Valid, CutShort;
    if n <= |memory| {
      var hash := OneShot(memory[..n], key);
      return Inside(hash);
    }
    var state := new Streaming(key);
    SmallCount(n);
    state.inlen := U64(state.inlen + n);
    if address < EndPointer(address, state.inlen) {
      return PastEnd;
    }
    var left := state.inlen % 8;
    if |memory| < left {
      return PastEnd;
    }
    state.Store(memory, left);
    CutShortIs(key, memory[..left], n);
    var hash := state.Finish();
    return Inside(hash);
  }

  lemma SmallCount(n: nat)
    requires n < U64_LIMIT
    ensures U64(n) == n
  {}

  lemma CutShortIs(key: seq<byte>, carried: seq<byte>, n: nat)
    requires |key| == 16 && |carried| < 8
    ensures CutShort(key, carried, n) == Finalized(Absorb(Initialized(key), Or(LoadLE(carried), Place(LowByte(n), 7))))
  {}

  /** Of a message shorter than a word, it is the hash. */
  lemma CutShortIsHash(key: seq<byte>, message: seq<byte>)
    requires |key| == 16 && |message| < 8
    ensures CutShort(key, message, |message|) == SipHash24(key, message)
  {
    hide Absorb, Place, Or, LoadLE, Initialized, Finalized, LowByte;
    LastWord(Initialized(key), message, LowByte(|message|));
    assert Partial(message) == message;
  }

  /** Where nothing wraps around, the loop ends behind the last whole word. */
  lemma EndOfWords(address: nat, n: nat)
    requires address + n < U64_LIMIT
    ensures EndPointer(address, n) == address + n / 8 * 8
  {
    var end := address + n - n % 8;
    assert (end + U64_LIMIT) % U64_LIMIT == end;
  }

  /** A length just below 2^64, by no more than the start of the memory lies above 0, reads no word. */
  lemma WrappedReadsNoWord(address: nat, d: nat)
    requires 0 < d && d + 7 <= address < U64_LIMIT
    ensures EndPointer(address, U64_LIMIT - d) <= address
  {
    assert (address + (U64_LIMIT - d)) % U64_LIMIT == address - d;
  }

  function Concat(pieces: seq<seq<byte>>): seq<byte> {
    if pieces == [] then [] else Concat(pieces[..|pieces| - 1]) + pieces[|pieces| - 1]
  }

  /** However a message is cut into pieces, empty ones included, the hash is that of the whole message. */
  method Piecewise(pieces: seq<seq<byte>>, key: seq<byte>) returns (hash: bv64)
    requires |key| == 16
    ensures hash == SipHash24(key, Concat(pieces))
  {
    hide SipHash24, Streaming.Valid;
    var state := new Streaming(key);
    for i := 0 to |pieces|
      invariant fresh(state) && state.Valid() && state.key == key
      invariant state.absorbed == Concat(pieces[..i])
    {
      assert pieces[..i + 1][..i] == pieces[..i];
      state.Compress(pieces[i]);
    }
    assert pieces[..|pieces|] == pieces;
    hash := state.Finalize();
  }

  /** The bytes from k on, in place. */
  function Stored(input: seq<byte>, left: nat, k: nat): bv64
    requires k <= left < 8 && left <= |input|
    decreases left - k
  {
    if k == left then 0 else Or(Stored(input, left, k + 1), Place(input[k], k))
  }

  /** The switch adds byte k - 1 to the bytes already stored above it. */
  lemma StoredFrom(input: seq<byte>, left: nat, k: nat)
    requires k <= left < 8 && left <= |input|
    ensures k > 0 ==> Stored(input, left, k - 1) == Or(Stored(input, left, k), Place(input[k - 1], k - 1))
    ensures Stored(input, left, left) == 0
  {}

  /** Bytes stored from the highest down are the bytes loaded from the lowest up. */
  lemma {:induction false} StoredAbove(input: seq<byte>, left: nat, k: nat)
    requires k <= left < 8 && left <= |input|
    ensures Or(Stored(input, left, k), LoadLE(input[..k])) == LoadLE(input[..left])
    decreases left - k
  {
    hide Place, Or, LoadLE;
    if k == left {
      OrShuffle(LoadLE(input[..left]), 0, 0);
    } else {
      StoredAbove(input, left, k + 1);
      FillBelow(Stored(input, left, k + 1), input, k);
    }
  }

  lemma AllStored(input: seq<byte>, left: nat)
    requires left < 8 && left <= |input|
    ensures Stored(input, left, 0) == LoadLE(input[..left])
  {
    hide Place, Or, Stored;
    StoredAbove(input, left, 0);
    OrShuffle(Stored(input, left, 0), 0, 0);
  }

  /** Byte k fits between the bytes stored above it and those below. */
  lemma FillBelow(padding: bv64, input: seq<byte>, k: nat)
    requires k < |input| && k < 8
    ensures Or(Or(padding, Place(input[k], k)), LoadLE(input[..k])) == Or(padding, LoadLE(input[..k + 1]))
  {
    hide Place, Or;
    assert input[..k + 1][..k] == input[..k];
    OrShuffle(padding, Place(input[k], k), LoadLE(input[..k]));
  }

  lemma CarryByte(before: seq<byte>, input: seq<byte>, i: nat)
    requires i < |input| && |before| % 8 + i < 8
    ensures LoadLE(Partial(before) + input[..i + 1])
         == Or(LoadLE(Partial(before) + input[..i]), Place(input[i], |before| % 8 + i))
  {
    hide Place, Or;
    assert (Partial(before) + input[..i + 1])[..|before| % 8 + i] == Partial(before) + input[..i];
  }

  lemma LeftOver(done: seq<byte>, rest: seq<byte>)
    requires |done| % 8 == 0
    ensures |done + rest| % 8 == |rest| % 8
  {}

  /** What follows whole words, cut at its last word. */
  lemma CutAtWord(done: seq<byte>, input: seq<byte>, from: nat, end: nat)
    requires |done| % 8 == 0 && from <= end <= |input| && (end - from) % 8 == 0 && |input| - end < 8
    ensures
      var all := done + input[from..];
      && |input| - end == |all| % 8
      && input[end..][..|input| - end] == Partial(all) && all[..|all| / 8 * 8] == done + input[from..end]
  {
    var all := done + input[from..];
    assert |all| / 8 * 8 == |done| + (end - from);
  }

  /** A piece too short to complete the carried word leaves the lanes as they were. */
  lemma CarryGrows(start: Lanes, before: seq<byte>, input: seq<byte>)
    requires |before| % 8 + |input| < 8
    ensures AbsorbWords(start, before + input) == AbsorbWords(start, before)
    ensures Partial(before) + input == Partial(before + input)
  {
    hide Absorb, LoadLE;
    OnlyWholeWords(start, before);
    OnlyWholeWords(start, before + input);
    assert (before + input)[..|before + input| / 8 * 8] == before[..|before| / 8 * 8];
  }

  /** A longer piece: its first i bytes complete the carried word, if there is one. */
  lemma CarryFills(start: Lanes, before: seq<byte>, input: seq<byte>, i: nat)
    requires i <= |input| && i == (if |before| % 8 == 0 then 0 else 8 - |before| % 8)
    ensures |before + input[..i]| % 8 == 0 && before + input == before + input[..i] + input[i..]
    ensures |before| % 8 == 0 ==> before + input[..i] == before && Partial(before) == []
    ensures |before| % 8 != 0 ==> AbsorbWords(start, before + input[..i]) ==
                                  Absorb(AbsorbWords(start, before), LoadLE(Partial(before) + input[..i]))
  {
    hide Absorb, LoadLE;
    var whole := before[..|before| / 8 * 8];
    assert before + input[..i] == whole + (Partial(before) + input[..i]);
    if |before| % 8 != 0 {
      OnlyWholeWords(start, before);
      AbsorbOne(start, whole, Partial(before) + input[..i]);
    }
  }

  /** A message padded with zeros and a last byte has one more word: the carried bytes and that byte. */
  lemma LastWord(start: Lanes, message: seq<byte>, length: byte)
    ensures AbsorbWords(start, message + seq(7 - |message| % 8, _ => 0 as byte) + [length]) ==
            Absorb(AbsorbWords(start, message), Or(LoadLE(Partial(message)), Place(length, 7)))
  {
    hide Absorb, Place, Or, LoadLE;
    var whole := message[..|message| / 8 * 8];
    var zeros := seq(7 - |message| % 8, _ => 0 as byte);
    var last := Partial(message) + zeros + [length];
    assert message + zeros + [length] == whole + last;
    AbsorbOne(start, whole, last);
    OnlyWholeWords(start, message);
    assert last[..7] == Partial(message) + zeros && last[..8] == last;
    LoadLEPrefix(last, 7);
    LoadLEPadded(Partial(message), 7 - |message| % 8);
  }

  // ----- No two states merge -----

  function Unround(t: Lanes): Lanes {
    var c2 := RotateLeft(t.v2, 32);
    var b1 := RotateLeft(Xor(t.v1, c2), 47);
    var b3 := RotateLeft(Xor(t.v3, t.v0), 43);
    var a2 := Sub(c2, b1);
    var a0 := RotateLeft(Sub(t.v0, b3), 32);
    var v1 := RotateLeft(Xor(b1, a0), 51);
    var v3 := RotateLeft(Xor(b3, a2), 48);
    Lanes(Sub(a0, v1), v1, Sub(a2, v3), v3)
  }

  lemma RoundUndone(s: Lanes)
    ensures Unround(SipRound(s)) == s
  {
    hide Add, Sub, Xor, RotateLeft;
    var a0, a2 := Add(s.v0, s.v1), Add(s.v2, s.v3);
    var r1, r3 := RotateLeft(s.v1, 13), RotateLeft(s.v3, 16);
    var b1, b3, b0 := Xor(r1, a0), Xor(r3, a2), RotateLeft(a0, 32);
    var c2, c0 := Add(a2, b1), Add(b0, b3);
    Rotation32Undone(c2);
    XorUndoesXor(RotateLeft(b1, 17), c2);
    XorUndoesXor(RotateLeft(b3, 21), c0);
    Rotation17Undone(b1);
    Rotation21Undone(b3);
    SubUndoesAdd(a2, b1);
    SubUndoesAdd(b0, b3);
    Rotation32Undone(a0);
    XorUndoesXor(r1, a0);
    XorUndoesXor(r3, a2);
    Rotation13Undone(s.v1);
    Rotation16Undone(s.v3);
    SubUndoesAdd(s.v0, s.v1);
    SubUndoesAdd(s.v2, s.v3);
  }

  function Unabsorb(s: Lanes, m: bv64): Lanes {
    var t := Unround(Unround(s.(v0 := Xor(s.v0, m))));
    t.(v3 := Xor(t.v3, m))
  }

  lemma AbsorbUndone(s: Lanes, m: bv64)
    ensures Unabsorb(Absorb(s, m), m) == s
  {
    hide SipRound, Unround, Xor;
    var mixed := s.(v3 := Xor(s.v3, m));
    RoundUndone(mixed);
    RoundUndone(SipRound(mixed));
    XorUndoesXor(SipRound(SipRound(mixed)).v0, m);
    XorUndoesXor(s.v3, m);
  }

  /** Two different states never merge while they absorb the same words. */
  lemma {:induction false} StatesNeverMerge(s: Lanes, t: Lanes, message: seq<byte>)
    requires s != t
    ensures AbsorbWords(s, message) != AbsorbWords(t, message)
    decreases |message|
  {
    hide Absorb, Unabsorb, LoadLE;
    if |message| >= 8 {
      var m := LoadLE(message[..8]);
      AbsorbUndone(s, m);
      AbsorbUndone(t, m);
      StatesNeverMerge(Absorb(s, m), Absorb(t, m), message[8..]);
    }
  }
}
