/**
 The object iterator in place (src/journals.c:416-511), reading every object header through
 the buffers of its journal.
 */
module ObjectIterator {
  import CacheProtocol
  import opened Bytes
  import opened Counters
  import opened JournalCache
  import opened JournalFile
  import opened ObjectWalk

  /** What the environment answers to the n-th read of a run, by offset and length. */
  type Replies = (nat, nat, nat) -> Reply

  ghost predicate AllHonest(file: seq<byte>, replies: Replies) {
    forall n: nat, offset: nat, length: nat :: length > 0 ==> Honest(file, offset, length, replies(n, offset, length))
  }

  ghost predicate AllWilling(file: seq<byte>, replies: Replies) {
    forall n: nat, offset: nat, length: nat :: length > 0 ==> Willing(file, offset, length, replies(n, offset, length))
  }

  /** fstat: the size of the file, or an error. */
  datatype Stat = Size(size: nat) | StatError

  /** A journal that is open, idle, and in step with its file. */
  ghost predicate Idle(journal: Journal, file: seq<byte>)
    reads journal, journal.bufs, journal.datas, journal.Dests()
  {
    journal.Valid() && journal.queued == map[] && CacheProtocol.Inv(file, journal.state)
  }

  /** journal_read of an object header, and got_iter_object_header. */
  method LoadObjectHeader(journal: Journal, offset: nat, reply: Reply, ghost file: seq<byte>)
    returns (answer: Answer, header: ObjectHeader)
    requires Idle(journal, file) && Honest(file, offset, OBJECT_HEADER_BYTES, reply)
    modifies journal, journal.bufs, journal.datas
    ensures Idle(journal, file) && !answer.Pending?
    ensures answer == Done ==> HasObject(file, offset) && header == ObjectAt(file, offset)
    ensures Willing(file, offset, OBJECT_HEADER_BYTES, reply) ==> (answer == Done <==> HasObject(file, offset))
  {
    hide CacheProtocol.Inv, Willing, Honest, Journal.Valid, U64At;
    var dest := new byte[OBJECT_HEADER_BYTES];
    assert dest !in journal.datas && dest !in journal.Dests();
    answer := journal.ReadThrough(offset, OBJECT_HEADER_BYTES, dest, reply, file);
    assert dest[..] == dest[..OBJECT_HEADER_BYTES];
    header := ParseObjectHeader(dest[..]);
  }

  /** journal_get_header, and got_header as far as the header is modelled. */
  method LoadHeader(journal: Journal, reply: Reply, ghost file: seq<byte>) returns (answer: Answer, h: Header)
    requires Idle(journal, file) && Honest(file, 0, HEADER_BYTES, reply)
    modifies journal, journal.bufs, journal.datas
    ensures Idle(journal, file) && !answer.Pending? && |h.fileId| == 16
    ensures answer == Done ==> |file| >= HEADER_BYTES && h == ParseHeader(file)
    ensures Willing(file, 0, HEADER_BYTES, reply) ==> (answer == Done <==> |file| >= HEADER_BYTES)
  {
    hide CacheProtocol.Inv, Willing, Honest, Journal.Valid, ParseHeader;
    var dest := new byte[HEADER_BYTES];
    assert dest !in journal.datas && dest !in journal.Dests();
    answer := journal.ReadThrough(0, HEADER_BYTES, dest, reply, file);
    h := ParseHeader(dest[..]);
    if answer == Done {
      assert dest[..] == dest[..HEADER_BYTES] == file[..HEADER_BYTES];
      CutKeepsHeader(file, HEADER_BYTES);
    }
  }

  class ObjectIterator {
    var iterOffset: nat
    var iterHeader: ObjectHeader

    function State(): Iter
      reads this
    {
      Iter(iterOffset, iterHeader)
    }

    constructor (header: ObjectHeader)
      ensures State() == Iter(0, header)
    {
      iterOffset, iterHeader := 0, header;
    }

    /** journal_iter_next_object, with the read and got_iter_object_header that follow. */
    method Next(journal: Journal, h: Header, reply: Reply, ghost file: seq<byte>) returns (e: Event)
      requires Idle(journal, file)
      requires Honest(file, NextOffset(h, State()), OBJECT_HEADER_BYTES, reply)
      modifies this, journal, journal.bufs, journal.datas
      ensures Idle(journal, file)
      ensures (State(), e) == Step(file, h, old(State())) || (e.Unreadable? && e.offset == iterOffset)
      ensures Willing(file, NextOffset(h, old(State())), OBJECT_HEADER_BYTES, reply) ==>
                (State(), e) == Step(file, h, old(State()))
    {
      hide CacheProtocol.Inv, Willing, Honest, Align64, Journal.Valid, ObjectAt, HasObject;
      assert forall o: object :: o in journal.datas || o in journal.Dests() ==> o != this;
      if iterOffset == 0 {
        iterOffset := h.headerSize;
      } else if iterHeader.size != 0 {
        iterOffset := (iterOffset + Align64(iterHeader.size)) % U64_LIMIT;
      } else {
        iterOffset := (h.tailObjectOffset + 1) % U64_LIMIT;
      }
      if iterOffset > h.tailObjectOffset {
        iterOffset := 0;
        return End;
      }
      var answer, header := LoadObjectHeader(journal, iterOffset, reply, file);
      if answer != Done {
        return Unreadable(iterOffset);
      }
      iterHeader := header;
      return Object(iterOffset, iterHeader);
    }

    /**
     journal_iter_objects: dispatches for every object until the end, until a read fails, or until the closure returns
     an error.
     */
    method ForEach(journal: Journal, h: Header, closure: nat -> int, replies: Replies, ghost file: seq<byte>)
      returns (events: seq<Event>)
      requires Idle(journal, file) && AllHonest(file, replies)
      requires Sane(h) && EndOf(file, h, h.headerSize) != Wrapping
      modifies this, journal, journal.bufs, journal.datas
      ensures Idle(journal, file)
      ensures
        var s := Offsets(file, h, h.headerSize);
        && Chain(file, h, h.headerSize, s)
        && 0 < |events| <= |s| + 1
        && (var n := |events| - 1;
            && events[..n] == Objects(file, s)[..n]
            && (forall i :: 0 <= i < n ==> closure(i) >= 0)
            && StopsWith(file, s, n, events[n], closure)
            && (events[n].End? ==> EndOf(file, h, h.headerSize) == Finished && iterOffset == 0)
            && (AllWilling(file, replies) && EndOf(file, h, h.headerSize) == Finished ==> !events[n].Unreadable?))
    {
      hide CacheProtocol.Inv, Willing, Honest, NextOffset, Journal.Valid, HasObject, ObjectAt, Offsets, EndOf, Step;
      hide StopsWith;
      assert forall o: object :: o in journal.datas || o in journal.Dests() ==> o != this;
      iterOffset := 0;
      ghost var s := Offsets(file, h, h.headerSize);
      OffsetsAreChain(file, h, h.headerSize);
      FirstOffset(h, State());
      events := [];
      while true
        invariant Idle(journal, file)
        invariant NextOffset(h, State()) > 0
        invariant |events| <= |s| && events == Objects(file, s)[..|events|]
        invariant forall i :: 0 <= i < |events| ==> closure(i) >= 0
        invariant s[|events|..] == Offsets(file, h, NextOffset(h, State()))
        invariant EndOf(file, h, NextOffset(h, State())) == EndOf(file, h, h.headerSize)
        decreases |s| - |events|
      {
        var n, it := |events|, State();
        var e := Next(journal, h, replies(n, NextOffset(h, it), OBJECT_HEADER_BYTES), file);
        events := events + [e];
        StepIs(file, h, it);
        LastEvent(file, s, n, e, closure);
        if e.Unreadable? {
          return;
        }
        if e.Object? {
          ghost var next := NextStop(file, h, it);
          assert s[n..][0] == s[n] && s[n..][1..] == s[n + 1..];
        }
        var r := closure(n);
        if r < 0 || iterOffset == 0 {
          return;
        }
      }
    }
  }

  /** Why a walk stops at what it yields n-th. */
  ghost predicate StopsWith(file: seq<byte>, s: seq<nat>, n: nat, e: Event, closure: nat -> int)
    requires Readable(file, s)
  {
    match e
    case End => n == |s|
    case Unreadable(_) => true
    case Object(offset, header) => n < |s| && offset == s[n] && header == ObjectAt(file, s[n]) && closure(n) < 0
  }

  lemma LastEvent(file: seq<byte>, s: seq<nat>, n: nat, e: Event, closure: nat -> int)
    requires Readable(file, s) && n <= |s|
    ensures
      match e
      case End => n == |s| ==> StopsWith(file, s, n, e, closure)
      case Unreadable(_) => StopsWith(file, s, n, e, closure)
      case Object(_, _) =>
        n < |s| && e == Object(s[n], ObjectAt(file, s[n])) && closure(n) < 0 ==> StopsWith(file, s, n, e, closure)
  {
    hide ObjectAt, HasObject;
  }

  lemma FirstOffset(h: Header, it: Iter)
    requires it.offset == 0
    ensures NextOffset(h, it) == h.headerSize
  {}

  lemma StartsBehindHeader(h: Header)
    requires Sane(h)
    ensures h.headerSize > 0
  {}

  /** The three outcomes of a step, by where it looks. */
  lemma StepIs(file: seq<byte>, h: Header, it: Iter)
    ensures
      var offset := NextOffset(h, it);
      var (next, e) := Step(file, h, it);
      if offset > h.tailObjectOffset then
        e == End && next.offset == 0 && Offsets(file, h, offset) == [] && EndOf(file, h, offset) == Finished
      else if HasObject(file, offset) then
        e == Object(offset, ObjectAt(file, offset)) && next.offset == offset && Offsets(file, h, offset) != []
      else e == Unreadable(offset) && EndOf(file, h, offset) == Truncated
  {
    hide NextOffset, ObjectAt, HasObject;
  }
}
