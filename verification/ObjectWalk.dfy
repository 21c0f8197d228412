/**
 journal_iter_next_object and journal_iter_objects (src/journals.c:416-511): a walk over
 the objects of a journal whose whole state is *iter_offset, 0 standing for both the start
 and the end, and the object header loaded last.
 */
module ObjectWalk {
  import opened Bytes
  import opened Counters
  import opened JournalFile
  import opened JournalSample

  /** *iter_offset and *iter_object_header */
  datatype Iter = Iter(offset: nat, header: ObjectHeader)

  /** A journal's walk: its file and header, and what its object header holds before the walk. */
  datatype Walk = Walk(file: seq<byte>, h: Header, before: ObjectHeader)

  /** What a step leads to: a dispatch with an object, the dispatch at the end, or a failed read. */
  datatype Event = Object(offset: nat, header: ObjectHeader) | End | Unreadable(offset: nat)

  /** Where journal_iter_next_object looks next, in 64-bit arithmetic. */
  function NextOffset(h: Header, it: Iter): nat {
    if it.offset == 0 then h.headerSize
    else if it.header.size != 0 then (it.offset + Align64(it.header.size)) % U64_LIMIT
    else (h.tailObjectOffset + 1) % U64_LIMIT
  }

  /** One step against a file that can always be read as far as it goes. */
  function Step(file: seq<byte>, h: Header, it: Iter): (Iter, Event) {
    var offset := NextOffset(h, it);
    if offset > h.tailObjectOffset then (it.(offset := 0), End)
    else if HasObject(file, offset) then (Iter(offset, ObjectAt(file, offset)), Object(offset, ObjectAt(file, offset)))
    else (it.(offset := offset), Unreadable(offset))
  }

  function After(file: seq<byte>, h: Header, it: Iter, n: nat): Iter
    decreases n
  {
    if n == 0 then it else After(file, h, Step(file, h, it).0, n - 1)
  }

  function Events(file: seq<byte>, h: Header, it: Iter, n: nat): (es: seq<Event>)
    ensures |es| == n
    decreases n
  {
    if n == 0 then []
    else
      var (next, e) := Step(file, h, it);
      [e] + Events(file, h, next, n - 1)
  }

  // ----- The objects of a file -----

  datatype Ending = Finished | Truncated | Wrapping

  /** The size at offset leads past the 64-bit range. */
  predicate Wraps(file: seq<byte>, offset: nat)
    requires HasObject(file, offset)
  {
    offset + Aligned(ObjectAt(file, offset).size) >= U64_LIMIT
  }

  /** The offsets of the objects from one offset up to the tail object, or up to a zero-sized object. */
  function Offsets(file: seq<byte>, h: Header, offset: nat): seq<nat>
    decreases h.tailObjectOffset + 1 - offset
  {
    if offset > h.tailObjectOffset || !HasObject(file, offset) then []
    else if ObjectAt(file, offset).size == 0 || Wraps(file, offset) then [offset]
    else [offset] + Offsets(file, h, offset + Aligned(ObjectAt(file, offset).size))
  }

  function EndOf(file: seq<byte>, h: Header, offset: nat): Ending
    decreases h.tailObjectOffset + 1 - offset
  {
    if offset > h.tailObjectOffset then Finished
    else if !HasObject(file, offset) then Truncated
    else if ObjectAt(file, offset).size == 0 then Finished
    else if Wraps(file, offset) then Wrapping
    else EndOf(file, h, offset + Aligned(ObjectAt(file, offset).size))
  }

  /** What the source takes for granted of a header: a first object behind it, and a last offset that can be passed. */
  ghost predicate Sane(h: Header) {
    0 < h.headerSize < U64_LIMIT && h.tailObjectOffset + 1 < U64_LIMIT
  }

  /** The file's own words for a walk: increasing offsets, each the end of the object before, none past the tail. */
  ghost predicate Chain(file: seq<byte>, h: Header, from: nat, s: seq<nat>) {
    && (s != [] ==> s[0] == from)
    && (forall i :: 0 <= i < |s| ==> s[i] <= h.tailObjectOffset && HasObject(file, s[i]))
    && (forall i :: 0 <= i < |s| - 1 ==>
          ObjectAt(file, s[i]).size > 0 && s[i + 1] == s[i] + Aligned(ObjectAt(file, s[i]).size))
    && (forall i, j :: 0 <= i < j < |s| ==> s[i] < s[j])
  }

  /** One object of the walk, and the rest of it. */
  lemma Unfold(file: seq<byte>, h: Header, offset: nat)
    requires offset <= h.tailObjectOffset && HasObject(file, offset)
    ensures
      var size := ObjectAt(file, offset).size;
      if size == 0 then Offsets(file, h, offset) == [offset] && EndOf(file, h, offset) == Finished
      else if Wraps(file, offset) then Offsets(file, h, offset) == [offset] && EndOf(file, h, offset) == Wrapping
      else Offsets(file, h, offset) == [offset] + Offsets(file, h, offset + Aligned(size))
           && EndOf(file, h, offset) == EndOf(file, h, offset + Aligned(size))
  {}

  lemma ChainCons(file: seq<byte>, h: Header, from: nat, rest: seq<nat>)
    requires from <= h.tailObjectOffset && HasObject(file, from) && ObjectAt(file, from).size > 0
    requires Chain(file, h, from + Aligned(ObjectAt(file, from).size), rest)
    ensures Chain(file, h, from, [from] + rest)
  {
    hide ObjectAt, Aligned, HasObject;
    var s := [from] + rest;
    assert forall i :: 1 <= i < |s| ==> s[i] == rest[i - 1];
    forall i, j | 0 <= i < j < |s| ensures s[i] < s[j] {
      if i > 0 { assert rest[i - 1] < rest[j - 1]; } else if j > 1 { assert rest[0] < rest[j - 1]; }
    }
    forall i | 0 <= i < |s| - 1
      ensures ObjectAt(file, s[i]).size > 0 && s[i + 1] == s[i] + Aligned(ObjectAt(file, s[i]).size)
    {
      if i > 0 { assert rest[i - 1] == s[i] && rest[i] == s[i + 1]; }
    }
  }

  lemma {:induction false} OffsetsAreChain(file: seq<byte>, h: Header, from: nat)
    ensures Chain(file, h, from, Offsets(file, h, from))
    decreases h.tailObjectOffset + 1 - from
  {
    hide ObjectAt, HasObject;
    if from <= h.tailObjectOffset && HasObject(file, from) && ObjectAt(file, from).size > 0 && !Wraps(file, from) {
      var next := from + Aligned(ObjectAt(file, from).size);
      OffsetsAreChain(file, h, next);
      ChainCons(file, h, from, Offsets(file, h, next));
    }
  }

  ghost predicate Readable(file: seq<byte>, s: seq<nat>) {
    forall i :: 0 <= i < |s| ==> HasObject(file, s[i])
  }

  lemma OffsetsReadable(file: seq<byte>, h: Header, from: nat)
    ensures Readable(file, Offsets(file, h, from))
  {
    OffsetsAreChain(file, h, from);
  }

  /** A finished walk stopped because nothing is left before the tail, or at a zero-sized object. */
  lemma {:induction false} FinishedAtTail(file: seq<byte>, h: Header, from: nat)
    requires EndOf(file, h, from) == Finished
    ensures
      var s := Offsets(file, h, from);
      if s == [] then from > h.tailObjectOffset
      else
        var last := s[|s| - 1];
        HasObject(file, last) &&
        (ObjectAt(file, last).size == 0 || last + Aligned(ObjectAt(file, last).size) > h.tailObjectOffset)
    decreases h.tailObjectOffset + 1 - from
  {
    hide ObjectAt, Aligned;
    if from <= h.tailObjectOffset && ObjectAt(file, from).size > 0 {
      var next := from + Aligned(ObjectAt(file, from).size);
      FinishedAtTail(file, h, next);
      assert Offsets(file, h, from) == [from] + Offsets(file, h, next);
    }
  }

  /** The dispatches of a walk over these offsets. */
  function Objects(file: seq<byte>, s: seq<nat>): (es: seq<Event>)
    requires Readable(file, s)
    ensures |es| == |s|
  {
    seq(|s|, i requires 0 <= i < |s| => Object(s[i], ObjectAt(file, s[i])))
  }

  /** Where no wrap threatens, the 64-bit step is the plain one; otherwise it does not move forward. */
  lemma StepForward(offset: nat, size: nat)
    requires 0 < offset < U64_LIMIT && 0 < size < U64_LIMIT
    ensures
      var next := (offset + Align64(size)) % U64_LIMIT;
      if offset + Aligned(size) < U64_LIMIT then next == offset + Aligned(size) > offset else next <= offset
  {
    AlignWraps(size);
  }

  lemma OneEvent(file: seq<byte>, h: Header, it: Iter, n: nat)
    ensures
      var (next, e) := Step(file, h, it);
      && Events(file, h, it, n + 1) == [e] + Events(file, h, next, n)
      && After(file, h, it, n + 1) == After(file, h, next, n)
  {
    hide Step;
  }

  /** After dispatching an object of a walk that does not wrap, the iterator is on the way to the rest of the walk. */
  lemma NextStop(file: seq<byte>, h: Header, it: Iter) returns (next: Iter)
    requires Sane(h) && 0 < NextOffset(h, it) <= h.tailObjectOffset
    requires HasObject(file, NextOffset(h, it)) && EndOf(file, h, NextOffset(h, it)) != Wrapping
    ensures
      var offset := NextOffset(h, it);
      var s := Offsets(file, h, offset);
      && Step(file, h, it) == (next, Object(offset, ObjectAt(file, offset)))
      && NextOffset(h, next) > offset
      && s == [offset] + Offsets(file, h, NextOffset(h, next))
      && EndOf(file, h, NextOffset(h, next)) == EndOf(file, h, offset)
  {
    hide ObjectAt, Aligned, Align64, HasObject;
    var offset := NextOffset(h, it);
    next := Step(file, h, it).0;
    Unfold(file, h, offset);
    NothingAfterTail(file, h, h.tailObjectOffset + 1);
    if next.header.size > 0 { StepForward(offset, next.header.size); }
  }

  /** On the way to an object, the iterator dispatches the rest of the walk, and then the end if the walk finishes. */
  lemma {:induction false} WalkFrom(file: seq<byte>, h: Header, it: Iter)
    requires Sane(h) && NextOffset(h, it) > 0
    ensures
      var offset := NextOffset(h, it);
      var s := Offsets(file, h, offset);
      var last := After(file, h, it, |s|);
      && Readable(file, s) && Events(file, h, it, |s|) == Objects(file, s)
      && (s != [] ==> last == Iter(s[|s| - 1], ObjectAt(file, s[|s| - 1])))
      && (Step(file, h, last).1 == End <==> EndOf(file, h, offset).Finished?)
      && (EndOf(file, h, offset).Wrapping? ==> s != [] && NextOffset(h, last) <= s[|s| - 1])
    decreases h.tailObjectOffset + 1 - NextOffset(h, it)
  {
    hide ObjectAt, NextOffset, HasObject, Offsets, EndOf, Aligned, Align64;
    var offset := NextOffset(h, it);
    OffsetsReadable(file, h, offset);
    if offset > h.tailObjectOffset {
      NothingAfterTail(file, h, offset);
    } else if !HasObject(file, offset) {
      NothingUnreadable(file, h, offset);
    } else {
      Unfold(file, h, offset);
      var s, next := Offsets(file, h, offset), Step(file, h, it).0;
      NextIs(h, next);
      if next.header.size > 0 && !Wraps(file, offset) {
        WalkFrom(file, h, next);
        OneEvent(file, h, it, |s| - 1);
        assert Objects(file, s) == [Object(offset, ObjectAt(file, offset))] + Objects(file, s[1..]);
      } else {
        OneEvent(file, h, it, 0);
        assert Objects(file, s) == [Object(offset, ObjectAt(file, offset))];
      }
    }
  }

  lemma NothingUnreadable(file: seq<byte>, h: Header, offset: nat)
    requires offset <= h.tailObjectOffset && !HasObject(file, offset)
    ensures Offsets(file, h, offset) == [] && EndOf(file, h, offset).Truncated?
  {}

  /** Where the iterator looks from an object: past the tail from a zero-sized one, else by its size, or back. */
  lemma NextIs(h: Header, it: Iter)
    requires Sane(h) && 0 < it.offset <= h.tailObjectOffset && it.header.size < U64_LIMIT
    ensures it.header.size == 0 ==> NextOffset(h, it) > h.tailObjectOffset
    ensures
      it.header.size > 0 ==>
        var next := it.offset + Aligned(it.header.size);
        if next < U64_LIMIT then NextOffset(h, it) == next > it.offset else NextOffset(h, it) <= it.offset
  {
    hide Aligned, Align64;
    if it.header.size > 0 { StepForward(it.offset, it.header.size); }
  }

  /** A walk that has yielded k of its objects and ends well has the next one wherever it looks before the tail. */
  lemma StillThere(file: seq<byte>, h: Header, offset: nat, s: seq<nat>, k: nat)
    requires k <= |s| && s[k..] == Offsets(file, h, offset)
    requires EndOf(file, h, offset) != Wrapping && offset <= h.tailObjectOffset
    ensures HasObject(file, offset) ==> k < |s| && s[k] == offset
    ensures EndOf(file, h, offset).Finished? ==> HasObject(file, offset)
  {
    OffsetsAreChain(file, h, offset);
    if k < |s| { assert s[k..][0] == s[k]; }
  }

  lemma NothingAfterTail(file: seq<byte>, h: Header, offset: nat)
    requires offset > h.tailObjectOffset
    ensures Offsets(file, h, offset) == [] && EndOf(file, h, offset) == Finished
  {}

  /** From 0, the iterator dispatches every object once and in order, and then the end, iff the walk finishes. */
  lemma WalkDispatchesExactly(file: seq<byte>, h: Header, any: ObjectHeader)
    requires Sane(h)
    ensures
      var s := Offsets(file, h, h.headerSize);
      && Chain(file, h, h.headerSize, s)
      && (Events(file, h, Iter(0, any), |s| + 1) == Objects(file, s) + [End] <==>
            EndOf(file, h, h.headerSize).Finished?)
      && (EndOf(file, h, h.headerSize).Finished? ==> After(file, h, Iter(0, any), |s| + 1).offset == 0)
  {
    hide Step, Offsets, EndOf, Events, After;
    var s, start := Offsets(file, h, h.headerSize), Iter(0, any);
    OffsetsAreChain(file, h, h.headerSize);
    WalkFrom(file, h, start);
    EventsSplit(file, h, start, |s|, 1);
    OneMore(file, h, After(file, h, start, |s|));
    var e := Step(file, h, After(file, h, start, |s|)).1;
    assert (Objects(file, s) + [e])[|s|] == e && (Objects(file, s) + [End])[|s|] == End;
  }

  /** Where an object leads past 64 bits, the walk steps back, or stays where it is. */
  lemma WrapStepsBack(file: seq<byte>, h: Header, any: ObjectHeader)
    requires Sane(h) && EndOf(file, h, h.headerSize).Wrapping?
    ensures
      var s := Offsets(file, h, h.headerSize);
      && s != [] && Readable(file, s)
      && (var es := Events(file, h, Iter(0, any), |s| + 1);
          && es[..|s|] == Objects(file, s)
          && !es[|s|].End? && es[|s|].offset <= s[|s| - 1])
  {
    hide Offsets, EndOf, Events, After, HasObject, ObjectAt, NextOffset;
    var s, start := Offsets(file, h, h.headerSize), Iter(0, any);
    StartsAtHeader(h, start);
    OffsetsAreChain(file, h, h.headerSize);
    WalkFrom(file, h, start);
    EventsSplit(file, h, start, |s|, 1);
    OneMore(file, h, After(file, h, start, |s|));
  }

  lemma StartsAtHeader(h: Header, it: Iter)
    requires it.offset == 0
    ensures NextOffset(h, it) == h.headerSize
  {}

  lemma OneMore(file: seq<byte>, h: Header, it: Iter)
    ensures Events(file, h, it, 1) == [Step(file, h, it).1] && After(file, h, it, 1) == Step(file, h, it).0
    ensures Step(file, h, it).1 == End ==> Step(file, h, it).0.offset == 0
  {
    OneEvent(file, h, it, 0);
  }

  lemma {:induction false} EventsSplit(file: seq<byte>, h: Header, it: Iter, m: nat, n: nat)
    ensures Events(file, h, it, m + n) == Events(file, h, it, m) + Events(file, h, After(file, h, it, m), n)
    ensures After(file, h, it, m + n) == After(file, h, After(file, h, it, m), n)
    decreases m
  {
    hide Step;
    if m > 0 {
      EventsSplit(file, h, Step(file, h, it).0, m - 1, n);
    }
  }

  /** Stepped again after the end, the iterator replays the same walk. */
  lemma WalkReplays(file: seq<byte>, h: Header, any: ObjectHeader)
    requires Sane(h) && EndOf(file, h, h.headerSize) == Finished
    ensures
      var s := Offsets(file, h, h.headerSize);
      && Chain(file, h, h.headerSize, s)
      && Events(file, h, Iter(0, any), 2 * (|s| + 1)) == Objects(file, s) + [End] + Objects(file, s) + [End]
  {
    hide Step, Chain, Offsets, EndOf;
    var n := |Offsets(file, h, h.headerSize)| + 1;
    WalkDispatchesExactly(file, h, any);
    EventsSplit(file, h, Iter(0, any), n, n);
    WalkDispatchesExactly(file, h, After(file, h, Iter(0, any), n).header);
  }

  lemma StaysPut(file: seq<byte>, h: Header, offset: nat)
    requires 0 < offset <= h.tailObjectOffset && offset < U64_LIMIT && HasObject(file, offset)
    requires ObjectAt(file, offset).size + 7 >= U64_LIMIT
    ensures
      var here := Iter(offset, ObjectAt(file, offset));
      Step(file, h, here) == (here, Object(offset, ObjectAt(file, offset)))
  {
    hide ObjectAt, HasObject, Align64;
    AlignWraps(ObjectAt(file, offset).size);
  }

  lemma {:induction false} FixedPointRepeats(file: seq<byte>, h: Header, here: Iter, e: Event, n: nat)
    requires Step(file, h, here) == (here, e)
    ensures After(file, h, here, n) == here && Events(file, h, here, n) == seq(n, _ => e)
    decreases n
  {
    hide Step;
    if n > 0 {
      FixedPointRepeats(file, h, here, e, n - 1);
    }
  }

  /** An object whose size rounds up past 64 bits is dispatched over and over: a walk that gets there never ends. */
  lemma HugeObjectRepeats(file: seq<byte>, h: Header, any: ObjectHeader, n: nat)
    requires Sane(h) && Offsets(file, h, h.headerSize) != []
    requires
      var s := Offsets(file, h, h.headerSize);
      Readable(file, s) && ObjectAt(file, s[|s| - 1]).size + 7 >= U64_LIMIT
    ensures
      var s := Offsets(file, h, h.headerSize);
      var last := s[|s| - 1];
      Events(file, h, Iter(0, any), |s| + n) == Objects(file, s) + seq(n, _ => Object(last, ObjectAt(file, last)))
  {
    hide Step, Events, After, ObjectAt, HasObject, Offsets, EndOf, NextOffset;
    var s, start := Offsets(file, h, h.headerSize), Iter(0, any);
    var last := s[|s| - 1];
    StartsAtHeader(h, start);
    OffsetsAreChain(file, h, h.headerSize);
    WalkFrom(file, h, start);
    EventsSplit(file, h, start, |s|, n);
    StaysPut(file, h, last);
    FixedPointRepeats(file, h, Iter(last, ObjectAt(file, last)), Object(last, ObjectAt(file, last)), n);
  }

  /** A file whose one object claims 2^64 - 1 bytes. */
  function HugeFile(): seq<byte> {
    HeaderBytes(0, 0, Zeros(16), 256, 256) + ObjectBytes(1, 0, 0xffff_ffff_ffff_ffff)
  }

  /** The walk of that file dispatches its object for ever. */
  lemma HugeFileNeverEnds(any: ObjectHeader, n: nat)
    ensures HasObject(HugeFile(), 256)
    ensures
      Events(HugeFile(), ParseHeader(HugeFile()), Iter(0, any), 1 + n) ==
        seq(1 + n, _ => Object(256, ObjectAt(HugeFile(), 256)))
  {
    hide HeaderBytes, ObjectBytes, ParseHeader, ObjectAt, HasObject, Events;
    var file, h := HugeFile(), ParseHeader(HugeFile());
    HeaderIs(0, 0, Zeros(16), 256, 256, ObjectBytes(1, 0, 0xffff_ffff_ffff_ffff));
    ObjectIs(HeaderBytes(0, 0, Zeros(16), 256, 256), 1, 0, 0xffff_ffff_ffff_ffff, []);
    assert HeaderBytes(0, 0, Zeros(16), 256, 256) + ObjectBytes(1, 0, 0xffff_ffff_ffff_ffff) + [] == file;
    Unfold(file, h, 256);
    HugeObjectRepeats(file, h, any, n);
  }

  // ----- What the walk covers -----

  function TotalSize(file: seq<byte>, s: seq<nat>): nat
    requires Readable(file, s)
  {
    if s == [] then 0 else ObjectAt(file, s[0]).size + TotalSize(file, s[1..])
  }

  function TotalPadding(file: seq<byte>, s: seq<nat>): nat
    requires Readable(file, s)
  {
    if s == [] then 0
    else Aligned(ObjectAt(file, s[0]).size) - ObjectAt(file, s[0]).size + TotalPadding(file, s[1..])
  }

  /** Where the tail object ends, padding included: `tail` in the tail-waste reports. */
  function TailEnd(file: seq<byte>, h: Header): nat
    requires HasObject(file, h.tailObjectOffset)
  {
    h.tailObjectOffset + Aligned(ObjectAt(file, h.tailObjectOffset).size)
  }

  /** The objects of a chain and their padding lie end to end, from its start to the end of its last object. */
  lemma {:induction false} ChainTiles(file: seq<byte>, h: Header, from: nat, s: seq<nat>)
    requires Chain(file, h, from, s) && s != []
    ensures
      var last := s[|s| - 1];
      from + TotalSize(file, s) + TotalPadding(file, s) == last + Aligned(ObjectAt(file, last).size)
    decreases |s|
  {
    hide ObjectAt, Aligned, HasObject;
    if |s| > 1 {
      assert forall i :: 0 <= i < |s| - 1 ==> s[1..][i] == s[i + 1];
      ChainTiles(file, h, s[1], s[1..]);
    } else {
      assert s[1..] == [];
    }
  }

  /** On a walk that lands on the tail object, the file is header, objects, padding and tail waste, nothing else. */
  lemma ArenaTiles(file: seq<byte>, h: Header)
    requires h.tailObjectOffset in Offsets(file, h, h.headerSize)
    requires HasObject(file, h.tailObjectOffset) && TailEnd(file, h) <= |file|
    ensures
      var s := Offsets(file, h, h.headerSize);
      && Chain(file, h, h.headerSize, s)
      && |file| == h.headerSize + TotalSize(file, s) + TotalPadding(file, s) + (|file| - TailEnd(file, h))
  {
    hide ObjectAt, HasObject, Offsets;
    var s := Offsets(file, h, h.headerSize);
    OffsetsAreChain(file, h, h.headerSize);
    var k :| 0 <= k < |s| && s[k] == h.tailObjectOffset;
    assert s[|s| - 1] <= h.tailObjectOffset && k == |s| - 1;
    ChainTiles(file, h, h.headerSize, s);
  }

  // ----- Cutting a file at its tail -----

  lemma CutKeepsObject(file: seq<byte>, cut: nat, offset: nat)
    requires offset + OBJECT_HEADER_BYTES <= cut <= |file|
    ensures HasObject(file, offset) && HasObject(file[..cut], offset)
    ensures ObjectAt(file[..cut], offset) == ObjectAt(file, offset)
  {
    assert file[..cut][offset..offset + OBJECT_HEADER_BYTES] == file[offset..offset + OBJECT_HEADER_BYTES];
  }

  /** A file cut anywhere behind the header of its tail object is walked exactly as before. */
  lemma {:induction false} CutKeepsWalk(file: seq<byte>, h: Header, cut: nat, from: nat)
    requires h.tailObjectOffset + OBJECT_HEADER_BYTES <= cut <= |file|
    ensures Offsets(file[..cut], h, from) == Offsets(file, h, from)
    ensures EndOf(file[..cut], h, from) == EndOf(file, h, from)
    decreases h.tailObjectOffset + 1 - from
  {
    hide ObjectAt, HasObject;
    if from <= h.tailObjectOffset {
      CutKeepsObject(file, cut, from);
      Unfold(file, h, from);
      Unfold(file[..cut], h, from);
      if ObjectAt(file, from).size > 0 && !Wraps(file, from) {
        CutKeepsWalk(file, h, cut, from + Aligned(ObjectAt(file, from).size));
      }
    } else {
      NothingAfterTail(file, h, from);
      NothingAfterTail(file[..cut], h, from);
    }
  }

  /** Every byte of every object that lies before the end of the tail object survives a cut at TailEnd. */
  lemma CutKeepsBytes(file: seq<byte>, h: Header, offset: nat)
    requires h.tailObjectOffset in Offsets(file, h, h.headerSize) && HasObject(file, h.tailObjectOffset)
    requires TailEnd(file, h) <= |file|
    requires offset in Offsets(file, h, h.headerSize)
    ensures HasObject(file, offset) && offset + ObjectAt(file, offset).size <= TailEnd(file, h)
    ensures
      var end := offset + ObjectAt(file, offset).size;
      file[..TailEnd(file, h)][offset..end] == file[offset..end]
  {
    hide ObjectAt, HasObject, Offsets;
    var s := Offsets(file, h, h.headerSize);
    OffsetsAreChain(file, h, h.headerSize);
    var i :| 0 <= i < |s| && s[i] == offset;
    var k :| 0 <= k < |s| && s[k] == h.tailObjectOffset;
    if i < |s| - 1 { assert s[i + 1] <= h.tailObjectOffset; }
    assert s[|s| - 1] <= h.tailObjectOffset && k == |s| - 1;
  }
}
