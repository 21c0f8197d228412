/**
 The hash table iterator in place (src/journals.c:584-660), loading every object through
 the buffers of its journal.
 */
module HashIterator {
  import CacheProtocol
  import opened Bytes
  import opened JournalCache
  import opened JournalFile
  import opened HashWalk
  import opened ObjectIterator

  class HashIterator {
    var iterBucket: nat
    var iterOffset: nat
    var iterNext: nat  // next_hash_offset of *iter_object_header

    function State(): Iter
      reads this
    {
      Iter(iterBucket, iterOffset, iterNext)
    }

    constructor (bucket: nat, next: nat)
      ensures State() == Iter(bucket, 0, next)
    {
      iterBucket, iterOffset, iterNext := bucket, 0, next;
    }

    /** The part of journal_hash_table_iter_next_object that moves {iter_bucket, iter_offset}. */
    method Advance(table: seq<HashItem>) returns (end: bool)
      requires iterBucket < |table|
      modifies `iterBucket, `iterOffset
      ensures end <==> Target(table, old(State())).0 == |table|
      ensures (iterBucket, iterOffset) == Target(table, old(State()))
    {
      if iterOffset == 0 {
        iterBucket := 0;
      }
      if iterOffset != 0 && iterOffset != table[iterBucket].tail {
        iterOffset := iterNext;
        return false;
      }
      ghost var from := iterBucket + 1;
      var again := true;
      while again
        invariant from - 1 <= iterBucket <= |table|
        invariant again ==> iterBucket < |table| && Occupied(table, iterBucket + 1) == Occupied(table, from)
        invariant !again ==> iterBucket == Occupied(table, from) < |table| && iterOffset == table[iterBucket].head
        decreases again, |table| - iterBucket
      {
        iterBucket := iterBucket + 1;
        if iterBucket >= |table| {
          iterOffset := 0;
          return true;
        }
        iterOffset := table[iterBucket].head;
        again := iterOffset == 0;
      }
      return false;
    }

    /** journal_hash_table_iter_next_object, which asserts on entry that *iter_bucket is a bucket. */
    method Next(journal: Journal, table: seq<HashItem>, size: nat, reply: Reply,
          ghost file: seq<byte>) returns (e: Event)
      requires Idle(journal, file) && iterBucket < |table| && size >= HASHED_HEADER_BYTES
      requires Honest(file, Target(table, State()).1, size, reply)
      modifies this, journal, journal.bufs, journal.datas
      ensures Idle(journal, file)
      ensures (State(), e) == Step(file, table, size, old(State())) || (e.Unreadable? && e.offset == iterOffset)
      ensures e.Object? ==> iterOffset == e.offset
      ensures e.End? <==> Step(file, table, size, old(State())).1.End?
      ensures Willing(file, Target(table, old(State())).1, size, reply) ==>
                (State(), e) == Step(file, table, size, old(State()))
    {
      hide CacheProtocol.Inv, Willing, Honest, Journal.Valid, Target;
      assert forall o: object :: o in journal.datas || o in journal.Dests() ==> o != this;
      var end := Advance(table);
      if end {
        EndTarget(table, old(State()));
        return End;
      }
      var answer, next, admitted := LoadHashed(journal, iterOffset, size, reply, file);
      if answer != Done {
        return Unreadable(iterOffset);
      }
      iterNext := next;
      return if admitted then Object(iterOffset) else Aborted;
    }

    /**
     journal_hash_table_for_each: dispatches for every object until the end, until a read or an assertion fails, or
     until the closure returns an error.
     */
    method ForEach(journal: Journal, table: seq<HashItem>, ghost chains: seq<seq<nat>>, size: nat,
          closure: nat -> int, replies: Replies, ghost file: seq<byte>)
      returns (events: seq<Event>)
      requires Idle(journal, file) && AllHonest(file, replies)
      requires WellFormed(file, size, table, chains) && iterBucket < |table| && size >= HASHED_HEADER_BYTES
      modifies this, journal, journal.bufs, journal.datas
      ensures Idle(journal, file)
      ensures
        var s := Concat(chains[1..]);
        && 0 < |events| <= |s| + 1
        && (var n := |events| - 1;
            && events[..n] == Objects(s)[..n] && AllAdmitted(file, size, s[..n])
            && (forall i :: 0 <= i < n ==> closure(i) >= 0)
            && EndsTableWalk(file, size, s, n, events[n], closure)
            && (events[n].End? ==> iterOffset == 0)
            && (AllWilling(file, replies) ==> !events[n].Unreadable?))
    {
      hide CacheProtocol.Inv, Willing, Honest, Journal.Valid, Target, Step, Remaining, WellFormed, Admitted;
      hide AllAdmitted, EndsTableWalk, Concat, Dispatch, ChainOf, Objects;
      Shape(file, size, table, chains);
      ghost var s := Concat(chains[1..]);
      assert forall o: object :: o in journal.datas || o in journal.Dests() ==> o != this;
      iterOffset := 0;
      events := [];
      assert s[0..] == s;
      NoneYet(file, size, s);
      while true
        invariant Idle(journal, file)
        invariant |events| <= |s| && events == Objects(s)[..|events|] && AllAdmitted(file, size, s[..|events|])
        invariant forall i :: 0 <= i < |events| ==> closure(i) >= 0
        invariant Remaining(file, size, table, chains, State(), s[|events|..])
        decreases |s| - |events|
      {
        var n, it := |events|, State();
        RemainingStep(file, size, table, chains, it, s[n..]);
        NextOf(s, n);
        var (_, offset) := Target(table, it);
        var e := Next(journal, table, size, replies(n, offset, size), file);
        events := events + [e];
        LastYield(file, size, s, n, e, closure);
        if e.Unreadable? || e.Aborted? {
          return;
        }
        var r := closure(n);
        if r < 0 || iterOffset == 0 {
          return;
        }
      }
    }
  }

  lemma NextOf(s: seq<nat>, n: nat)
    requires n <= |s|
    ensures n < |s| ==> s[n..] != [] && s[n..][0] == s[n] && s[n..][1..] == s[n + 1..]
    ensures n == |s| ==> s[n..] == []
    ensures n < |s| ==> Objects(s)[..n + 1] == Objects(s)[..n] + [Object(s[n])]
  {}

  lemma NoneYet(file: seq<byte>, size: nat, s: seq<nat>)
    ensures AllAdmitted(file, size, s[..0])
  {}

  /** Why a walk stops at what it yields n-th. */
  ghost predicate EndsTableWalk(file: seq<byte>, size: nat, s: seq<nat>, n: nat, e: Event, closure: nat -> int) {
    match e
    case End => n == |s|
    case Unreadable(_) => n < |s|
    case Aborted => n < |s| && !Admitted(file, size, s[n])
    case Object(offset) => n < |s| && offset == s[n] && closure(n) < 0
  }

  lemma LastYield(file: seq<byte>, size: nat, s: seq<nat>, n: nat, e: Event, closure: nat -> int)
    requires n <= |s| && AllAdmitted(file, size, s[..n])
    requires e.Unreadable? || (if n == |s| then e == End else e == Dispatch(file, size, s[n]))
    ensures
      (e.Object? ==> closure(n) < 0) && (e.Unreadable? ==> n < |s|) ==>
        EndsTableWalk(file, size, s, n, e, closure)
    ensures e.End? ==> n == |s|
    ensures e.Object? ==> n < |s| && e == Object(s[n]) && AllAdmitted(file, size, s[..n + 1])
  {
    hide Admitted;
    if n < |s| { assert s[..n + 1] == s[..n] + [s[n]]; }
  }

  lemma Shape(file: seq<byte>, size: nat, table: seq<HashItem>, chains: seq<seq<nat>>)
    requires WellFormed(file, size, table, chains)
    ensures |chains| == |table| >= 1
    ensures
      forall it: Iter :: it.offset == 0 && it.bucket < |table| ==>
        Remaining(file, size, table, chains, it, Concat(chains[1..]))
  {}

  lemma EndTarget(table: seq<HashItem>, it: Iter)
    requires it.bucket < |table| && Target(table, it).0 == |table|
    ensures Target(table, it).1 == 0
  {}

  /** journal_read of an object's first size bytes, the swap of next_hash_offset, and the assertions on the type. */
  method LoadHashed(journal: Journal, offset: nat, size: nat, reply: Reply, ghost file: seq<byte>)
    returns (answer: Answer, next: nat, admitted: bool)
    requires Idle(journal, file) && size >= HASHED_HEADER_BYTES && Honest(file, offset, size, reply)
    modifies journal, journal.bufs, journal.datas
    ensures Idle(journal, file) && !answer.Pending?
    ensures answer == Done ==> Loadable(file, size, offset) && next == NextHashOffset(file, size, offset)
    ensures answer == Done ==> (admitted <==> Admitted(file, size, offset))
    ensures Willing(file, offset, size, reply) ==> (answer == Done <==> Loadable(file, size, offset))
  {
    hide CacheProtocol.Inv, Willing, Honest, Journal.Valid, LoadLE, Admits;
    var dest := new byte[size];
    assert dest !in journal.datas && dest !in journal.Dests();
    answer := journal.ReadThrough(offset, size, dest, reply, file);
    next := U64At(dest[..], 24);
    if answer == Done {
      SliceOfSlice(file, offset, offset + size, 24, 32);
      assert dest[..] == dest[..size];
      assert dest[0] == dest[..size][0] == file[offset];
    }
    admitted := size <= HASHED_HEADER_BYTES || Admits(size, dest[0]);
  }
}
