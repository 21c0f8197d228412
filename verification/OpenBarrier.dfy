/**
 The barrier over the opens of all journals (src/journals.c:188-279): the last completion,
 whatever the order, registers files and buffers and dispatches the continuation; and the
 loop over the journals that were opened (src/journals.c:913-939).
 */
module OpenBarrier {
  import opened Bytes
  import CacheProtocol
  import opened JournalCache
  import opened Lru
  import ObjectIterator

  const EPERM := 1
  const EACCES := 13

  /** What opened_journal comes to: 0, the dispatch of its closure, or an error. */
  datatype Arrival = Waiting | Dispatched | Failed(code: int)

  /** The environment at the last completion: malloc twice, and the results of the two registrations. */
  datatype Registration = Registration(fdsFit: bool, files: int, bufsFit: bool, buffers: int)

  /** -EPERM and -EACCES */
  predicate Denied(result: int) {
    result == -1 || result == -13
  }

  /** The slot of buffer j of journal i. */
  function Slot(perJournal: nat, i: nat, j: nat): nat {
    i * perJournal + j
  }

  lemma SmallMultiple(p: nat, d: int)
    requires p > 0 && 0 - p < d * p < p
    ensures d == 0
  {}

  /** No two buffers have the same slot. */
  lemma SlotsOneToOne(perJournal: nat, i: nat, j: nat, k: nat, l: nat)
    requires j < perJournal && l < perJournal && Slot(perJournal, i, j) == Slot(perJournal, k, l)
    ensures i == k && j == l
  {
    assert (i - k) * perJournal == l - j;
    SmallMultiple(perJournal, i - k);
  }

  lemma QuotientBelow(n: nat, p: nat, slot: nat)
    requires p > 0 && slot < n * p
    ensures slot / p < n
  {}

  /** Every slot is the slot of a buffer. */
  lemma SlotsOnto(n: nat, perJournal: nat, slot: nat)
    requires perJournal > 0 && slot < n * perJournal
    ensures slot / perJournal < n && slot % perJournal < perJournal
    ensures Slot(perJournal, slot / perJournal, slot % perJournal) == slot
  {
    QuotientBelow(n, perJournal, slot);
  }

  /** A journal and the memory it owns. */
  ghost function Parts(j: Journal): set<object> {
    (set o: object | o in j.bufs) + (set o: object | o in j.datas) + {j}
  }

  /** A journal as calloc left it. */
  ghost predicate Zeroed(j: Journal)
    reads j`queued, j.bufs`lruPrev, j.bufs`lruNext, j.bufs`valid, j.bufs`offset, j.bufs`length, j.datas
  {
    && j.Separate() && j.queued == map[]
    && (forall b :: b in j.bufs ==> b.lruPrev == null && b.lruNext == null && !b.valid && b.offset == b.length == 0)
    && (forall b :: b in j.bufs ==> b.data in j.datas && b.data[..] == seq(CacheProtocol.BUF_SIZE, _ => 0 as byte))
  }

  /** A journal that can be read: its list is threaded and its cache is empty. */
  ghost predicate Open(j: Journal)
    reads j`state, j`queued, j`lruHead, j`lruTail
    reads j.bufs`lruPrev, j.bufs`lruNext, j.bufs`valid, j.bufs`offset, j.bufs`length, j.datas, j.Dests()
  {
    j.Valid() && j.queued == map[] && j.state == CacheProtocol.Opened(|j.bufs|)
  }

  /** An opened journal is ready for any walk over its file, whatever the file holds. */
  lemma OpenIsIdle(j: Journal, file: seq<byte>)
    requires Open(j)
    ensures ObjectIterator.Idle(j, file)
  {
    CacheProtocol.OpenedInv(file, |j.bufs|);
    hide CacheProtocol.Inv, CacheProtocol.Opened, CacheProtocol.WellFormed;
  }

  /** journals_t */
  class Journals {
    const journals: seq<Journal>
    const perJournal: nat  // JOURNAL_BUF_CNT
    var nOpened: nat
    var files: seq<int>  // what io_uring_register_files was given
    var buffers: seq<array<byte>>  // what io_uring_register_buffers was given

    ghost var results: map<nat, int>  // the opens that have completed

    /** The zeroed array of journals that get_journals allocates. */
    constructor (n: nat, perJournal: nat)
      requires perJournal >= 1
      ensures Counted() && |journals| == n && nOpened == 0 && results == map[]
      ensures forall k :: 0 <= k < |journals| ==> Settled(k) && fresh(journals[k])
    {
      var s: seq<Journal> := [];
      while |s| < n
        invariant |s| <= n
        invariant forall k :: 0 <= k < |s| ==> Zeroed(s[k]) && |s[k].bufs| == perJournal && fresh(Parts(s[k]))
        invariant forall i, k :: 0 <= i < k < |s| ==> Parts(s[i]) !! Parts(s[k])
      {
        var j := NewJournal(perJournal);
        s := s + [j];
      }
      journals, this.perJournal, nOpened, files, buffers, results := s, perJournal, 0, [], [], map[];
    }

    ghost predicate Apart() {
      && perJournal >= 1
      && (forall i :: 0 <= i < |journals| ==>
            |journals[i].bufs| == perJournal && (this as object) !in Parts(journals[i]))
      && (forall i, k :: 0 <= i < |journals| && 0 <= k < |journals| && i != k ==>
            Parts(journals[i]) !! Parts(journals[k]))
    }

    /** The state of one journal, by what became of its open. */
    ghost predicate Settled(i: nat)
      requires i < |journals|
      reads this`results, {journals[i]}`state, {journals[i]}`queued, {journals[i]}`lruHead, {journals[i]}`lruTail
      reads {journals[i]}`fd
      reads journals[i].bufs`lruPrev, journals[i].bufs`lruNext, journals[i].bufs`valid, journals[i].bufs`offset
      reads journals[i].bufs`length, journals[i].datas, journals[i].Dests()
    {
      && journals[i].queued == map[]
      && if i !in results then Zeroed(journals[i])
      else if results[i] < 0 then Denied(results[i]) && journals[i].fd == -1 && Zeroed(journals[i])
      else Open(journals[i]) && journals[i].fd == results[i]
    }

    /** What is done to the one journal whose open has completed. */
    method Settle(i: nat, result: int)
      requires Apart() && i < |journals| && i !in results && (result >= 0 || Denied(result))
      requires forall k :: 0 <= k < |journals| ==> Settled(k)
      modifies this`results, Parts(journals[i])
      ensures results == old(results)[i := result]
      ensures forall k :: 0 <= k < |journals| ==> Settled(k)
    {
      hide Open, Zeroed;
      assert Settled(i);
      if result < 0 {
        Deny(journals[i]);
      } else {
        ThreadUp(journals[i], result);
      }
      NothingPending(journals[i]);
      results := results[i := result];
      assert Settled(i);
      forall k | 0 <= k < |journals| ensures Settled(k) {
        if k != i {
          assert old(Settled(k)) && old(journals[k].Dests()) == {};
          assert Parts(journals[k]) !! Parts(journals[i]) && (this as object) !in Parts(journals[k]);
          PartOfItself(journals[k]);
          assert forall o: object :: o in Parts(journals[k]) ==> o !in Parts(journals[i]) && o != this;
          assert forall o: object :: o in Parts(journals[k]) ==> old(allocated(o));
        }
      }
    }

    lemma JournalsDiffer(i: nat, k: nat)
      requires Apart() && i < |journals| && k < |journals| && i != k
      ensures journals[i] != journals[k]
    {
      assert journals[i] in Parts(journals[i]) && Parts(journals[i]) !! Parts(journals[k]);
    }

    lemma BuffersApart(i: nat, k: nat, j: nat)
      requires Apart() && i < |journals| && k < |journals| && i != k && j < |journals[k].bufs|
      ensures journals[k].bufs[j] !in journals[i].bufs
    {
      assert Parts(journals[i]) !! Parts(journals[k]) && (journals[k].bufs[j] as object) in Parts(journals[k]);
    }

    /** The loop that gathers the file descriptors and numbers the journals. */
    method NumberJournals() returns (fds: seq<int>)
      requires Apart() && forall k :: 0 <= k < |journals| ==> Settled(k)
      modifies journals`idx
      ensures forall k :: 0 <= k < |journals| ==> Settled(k)
      ensures |fds| == |journals|
      ensures forall k :: 0 <= k < |journals| ==> fds[k] == journals[k].fd && journals[k].idx == k
    {
      hide Open, Zeroed, Denied;
      fds := [];
      for i := 0 to |journals|
        invariant |fds| == i
        invariant forall k :: 0 <= k < i ==> fds[k] == journals[k].fd
        invariant forall k :: 0 <= k < i ==> journals[k].idx == k
        invariant forall k :: 0 <= k < |journals| ==> Settled(k)
      {
        forall k | 0 <= k < i ensures journals[k] != journals[i] { JournalsDiffer(k, i); }
        label before:
        fds := fds + [journals[i].fd];
        journals[i].idx := i;
        forall k | 0 <= k < |journals| ensures Settled(k) {
          assert old@before(Settled(k)) && old@before(journals[k].Dests()) == {};
          assert forall o: object :: o in journals[k].datas ==> o != journals[i];
        }
      }
    }

    /** Buffer j of journal i knows its slot, and the slot holds its memory. */
    predicate Registered(slots: seq<array<byte>>, i: nat, j: nat)
      requires i < |journals| && j < |journals[i].bufs|
      reads journals[i].bufs`idx
    {
      var slot := Slot(perJournal, i, j);
      journals[i].bufs[j].idx == slot && slot < |slots| && slots[slot] == journals[i].bufs[j].data
    }

    ghost function AllBufs(): set<JournalBuf> {
      set k, b | 0 <= k < |journals| && b in journals[k].bufs :: b
    }

    /** One turn of the loop that gives every buffer of every journal a slot. */
    method NumberBuffersOf(i: nat, slots: seq<array<byte>>) returns (r: seq<array<byte>>)
      requires Apart() && i < |journals| && journals[i].Separate()
      requires forall k :: 0 <= k < |journals| ==> Settled(k)
      requires |slots| == Slot(perJournal, i, 0)
      requires forall k, j :: 0 <= k < i && 0 <= j < perJournal ==> Registered(slots, k, j)
      modifies journals[i].bufs`idx
      ensures forall k :: 0 <= k < |journals| ==> Settled(k)
      ensures |r| == Slot(perJournal, i + 1, 0)
      ensures forall k, j :: 0 <= k < i + 1 && 0 <= j < perJournal ==> Registered(r, k, j)
    {
      hide Open, Zeroed, Denied, Slot;
      var more := NumberOne(journals[i], |slots|);
      r := slots + more;
      SlotStep(perJournal, i, perJournal);
      forall k, j | 0 <= k < i + 1 && 0 <= j < perJournal ensures Registered(r, k, j) {
        if k < i {
          assert old(Registered(slots, k, j));
          BuffersApart(i, k, j);
        } else {
          SlotStep(perJournal, i, j);
        }
      }
      forall k | 0 <= k < |journals| ensures Settled(k) {
        assert old(Settled(k)) && old(journals[k].Dests()) == {};
        assert forall o: object :: o in journals[k].datas ==> o !in journals[i].bufs;
      }
    }

    method NumberBuffers() returns (slots: seq<array<byte>>)
      requires Apart() && forall k :: 0 <= k < |journals| ==> Settled(k) && journals[k].Separate()
      modifies AllBufs()`idx
      ensures forall k :: 0 <= k < |journals| ==> Settled(k)
      ensures |slots| == |journals| * perJournal
      ensures forall i, j :: 0 <= i < |journals| && 0 <= j < perJournal ==> Registered(slots, i, j)
    {
      hide Settled, Slot, Registered;
      slots := [];
      SlotStep(perJournal, 0, 0);
      for i := 0 to |journals|
        invariant |slots| == Slot(perJournal, i, 0)
        invariant forall k :: 0 <= k < |journals| ==> Settled(k)
        invariant forall k, j :: 0 <= k < i && 0 <= j < perJournal ==> Registered(slots, k, j)
      {
        assert forall b :: b in journals[i].bufs ==> b in AllBufs();
        slots := NumberBuffersOf(i, slots);
      }
      SlotStep(perJournal, |journals|, 0);
    }

    /** Every buffer of every journal has its own slot, and there are no other slots. */
    ghost predicate BuffersRegistered()
      reads this`buffers, AllBufs()`idx
    {
      && |buffers| == |journals| * perJournal
      && (forall k :: 0 <= k < |journals| ==> |journals[k].bufs| == perJournal)
      && (forall k, b :: 0 <= k < |journals| && b in journals[k].bufs ==> b in AllBufs())
      && (forall k, j :: 0 <= k < |journals| && 0 <= j < perJournal ==> Registered(buffers, k, j))
    }

    /** What the last completion comes to, by the environment's answers; a malloc that fails is -ENOMEM. */
    function Registering(env: Registration): (answer: Arrival)
      ensures answer == Dispatched <==> env.fdsFit && env.files >= 0 && env.bufsFit && env.buffers >= 0
      ensures answer.Failed? ==> answer.code < 0
    {
      if !env.fdsFit then Failed(-12)
      else if env.files < 0 then Failed(env.files)
      else if !env.bufsFit then Failed(-12)
      else if env.buffers < 0 then Failed(env.buffers)
      else Dispatched
    }

    /** Journal k is registered file k. */
    ghost predicate FilesRegistered()
      reads this`files, journals`fd, journals`idx
    {
      |files| == |journals| && forall k :: 0 <= k < |journals| ==> files[k] == journals[k].fd && journals[k].idx == k
    }

    lemma AllSeparate()
      requires forall k :: 0 <= k < |journals| ==> Settled(k)
      ensures forall k :: 0 <= k < |journals| ==> journals[k].Separate()
    {
      forall k | 0 <= k < |journals| ensures journals[k].Separate() { assert Settled(k); }
    }

    method Publish(fds: seq<int>, slots: seq<array<byte>>)
      requires Apart() && forall k :: 0 <= k < |journals| ==> Settled(k)
      modifies this`files, this`buffers
      ensures files == fds && buffers == slots && forall k :: 0 <= k < |journals| ==> Settled(k)
    {
      hide Open, Zeroed, Denied;
      files, buffers := fds, slots;
      forall k | 0 <= k < |journals| ensures Settled(k) {
        assert old(Settled(k)) && old(journals[k].Dests()) == {};
        assert forall o: object :: o in journals[k].datas ==> o in Parts(journals[k]) && o != this;
      }
    }

    /** The part of opened_journal that only the last completion reaches. */
    method Register(env: Registration) returns (answer: Arrival)
      requires Apart() && forall k :: 0 <= k < |journals| ==> Settled(k)
      modifies this`files, this`buffers, journals`idx, AllBufs()`idx
      ensures forall k :: 0 <= k < |journals| ==> Settled(k)
      ensures answer == Registering(env)
      ensures !env.fdsFit || (env.files >= 0 && !env.bufsFit) ==> answer == Failed(-12)
      ensures answer == Dispatched ==> FilesRegistered() && BuffersRegistered()
    {
      hide Settled, Registered;
      if !env.fdsFit {
        return Failed(-ENOMEM);
      }
      AllSeparate();
      var fds := NumberJournals();
      if env.files < 0 {
        return Failed(env.files);
      }
      if !env.bufsFit {
        return Failed(-ENOMEM);
      }
      AllSeparate();
      var slots := NumberBuffers();
      if env.buffers < 0 {
        return Failed(env.buffers);
      }
      Publish(fds, slots);
      return Dispatched;
    }

    ghost function AllParts(): set<object> {
      set k, o: object | 0 <= k < |journals| && o in Parts(journals[k]) :: o
    }

    /** Everything that holds between completions. */
    ghost predicate Counted()
      reads this`results, this`nOpened
    {
      Apart() && nOpened == |results| && forall k :: k in results ==> k < |journals|
    }

    lemma PartsAreParts()
      ensures forall k :: 0 <= k < |journals| ==> Parts(journals[k]) <= AllParts()
      ensures forall j :: j in journals ==> j in AllParts()
      ensures forall b :: b in AllBufs() ==> b in AllParts()
    {
      forall j | j in journals ensures j in AllParts() {
        var k :| 0 <= k < |journals| && journals[k] == j;
        assert j in Parts(journals[k]);
      }
      forall b | b in AllBufs() ensures b in AllParts() {
        var k :| 0 <= k < |journals| && b in journals[k].bufs;
        assert (b as object) in Parts(journals[k]);
      }
    }

    /** As many completions as journals: every open has completed. */
    lemma AllCompleted()
      requires Counted() && nOpened == |journals|
      ensures forall k :: 0 <= k < |journals| ==> k in results
    {
      hide Apart;
      forall k | 0 <= k < |journals| ensures k in results {
        if k !in results {
          CountBelow(results.Keys + {k}, |journals|);
          assert false;
        }
      }
    }

    method CountOpen()
      requires Apart() && forall k :: 0 <= k < |journals| ==> Settled(k)
      modifies this`nOpened
      ensures nOpened == old(nOpened) + 1 && forall k :: 0 <= k < |journals| ==> Settled(k)
    {
      hide Open, Zeroed, Denied;
      nOpened := nOpened + 1;
      forall k | 0 <= k < |journals| ensures Settled(k) {
        assert old(Settled(k)) && old(journals[k].Dests()) == {};
        assert forall o: object :: o in journals[k].datas ==> o in Parts(journals[k]) && o != this;
      }
    }

    /** opened_journal: the completion of the open of journal i. */
    method OpenedJournal(i: nat, result: int, env: Registration) returns (answer: Arrival)
      requires Counted() && i < |journals| && i !in results
      requires forall k :: 0 <= k < |journals| ==> Settled(k)
      modifies this`nOpened, this`results, this`files, this`buffers, AllParts()
      ensures Counted() && nOpened == old(nOpened) + 1 && results == old(results)[i := result]
      ensures result < 0 && result != -1 && result != -13 ==> answer == Failed(result)
      ensures result >= 0 || Denied(result) ==>
                && (forall k :: 0 <= k < |journals| ==> Settled(k))
                && answer == if nOpened == |journals| then Registering(env) else Waiting
      ensures answer == Dispatched ==>
                && (forall k :: 0 <= k < |journals| ==> k in results)
                && FilesRegistered() && BuffersRegistered()
    {
      hide Settled, FilesRegistered, BuffersRegistered, AllParts, AllBufs, Parts;
      PartsAreParts();
      CountOpen();
      if result < 0 && result != -EPERM && result != -EACCES {
        results := results[i := result];
        return Failed(result);
      }
      Settle(i, result);
      if nOpened == |journals| {
        AllCompleted();
        answer := Register(env);
      } else {
        answer := Waiting;
      }
    }

    /** All opens complete, in some order: how often the continuation is dispatched, and what ends the run. */
    method OpenAll(order: seq<nat>, result: nat -> int, env: Registration) returns (dispatched: nat, error: int)
      requires Counted() && nOpened == 0 && results == map[] && Permutation(order, |journals|)
      requires forall k :: 0 <= k < |journals| ==> Settled(k)
      modifies this`nOpened, this`results, this`files, this`buffers, AllParts()
      ensures
        var p := FirstFatal(order, result);
        && (p < |order| ==> dispatched == 0 && error == result(order[p]) && nOpened == p + 1)
        && (p == |order| ==>
              && nOpened == |journals|
              && dispatched == (if |journals| > 0 && Registering(env) == Dispatched then 1 else 0)
              && error == (if |journals| > 0 && Registering(env).Failed? then Registering(env).code else 0)
              && (forall k :: 0 <= k < |journals| ==> Settled(k) && k in results && results[k] == result(k)))
      ensures dispatched == 1 ==> FilesRegistered() && BuffersRegistered()
    {
      hide Settled, AllParts, FilesRegistered, BuffersRegistered, Counted, FirstFatal;
      dispatched, error := 0, 0;
      for m := 0 to |order|
        invariant Counted() && nOpened == m <= FirstFatal(order, result)
        invariant forall k :: 0 <= k < |journals| ==> Settled(k)
        invariant forall q :: m <= q < |order| ==> order[q] !in results
        invariant forall k :: k in results ==> results[k] == result(k)
        invariant error == 0 && dispatched == if 0 < m == |order| then 1 else 0
        invariant 0 < m == |order| ==> Registering(env) == Dispatched
        invariant dispatched == 1 ==> FilesRegistered() && BuffersRegistered()
      {
        var answer := OpenedJournal(order[m], result(order[m]), env);
        if nOpened == |journals| { AllCompleted(); }
        if answer.Failed? {
          return 0, answer.code;
        }
        if answer.Dispatched? {
          dispatched := dispatched + 1;
        }
      }
      AllCompleted();
    }
  }

  /** The first open to fail for another reason than permission, or the number of opens. */
  function FirstFatal(order: seq<nat>, result: nat -> int): (p: nat)
    ensures p <= |order|
    ensures p < |order| ==> result(order[p]) < 0 && !Denied(result(order[p]))
    ensures forall m :: 0 <= m < p ==> result(order[m]) >= 0 || Denied(result(order[m]))
  {
    if order == [] then 0
    else if result(order[0]) < 0 && !Denied(result(order[0])) then 0
    else 1 + FirstFatal(order[1..], result)
  }

  lemma {:induction false} CountBelow(s: set<nat>, n: nat)
    requires forall x :: x in s ==> x < n
    ensures |s| <= n
  {
    if n > 0 {
      CountBelow(s - {n - 1}, n - 1);
    } else {
      assert s == {};
    }
  }

  lemma SlotStep(perJournal: nat, i: nat, j: nat)
    requires j <= perJournal
    ensures Slot(perJournal, i, 0) == i * perJournal && Slot(perJournal, i, j) == Slot(perJournal, i, 0) + j
    ensures j == perJournal ==> Slot(perJournal, i + 1, 0) == Slot(perJournal, i, j)
  {}

  /** The inner of the two loops. */
  method NumberOne(journal: Journal, first: nat) returns (slots: seq<array<byte>>)
    requires journal.Separate()
    modifies journal.bufs`idx
    ensures |slots| == |journal.bufs|
    ensures forall j :: 0 <= j < |journal.bufs| ==> journal.bufs[j].idx == first + j && slots[j] == journal.bufs[j].data
  {
    slots := [];
    for j := 0 to |journal.bufs|
      invariant |slots| == j
      invariant forall k :: 0 <= k < j ==> journal.bufs[k].idx == first + k && slots[k] == journal.bufs[k].data
    {
      slots := slots + [journal.bufs[j].data];
      journal.bufs[j].idx := first + j;
    }
  }

  /** One zeroed element of the array of journals. */
  method NewJournal(perJournal: nat) returns (j: Journal)
    requires perJournal >= 1
    ensures Zeroed(j) && |j.bufs| == perJournal && fresh(Parts(j)) && j.queued == map[]
  {
    j := new Journal(perJournal);
  }

  lemma PartOfItself(j: Journal)
    ensures j in Parts(j)
  {}

  lemma NothingPending(j: Journal)
    requires j.queued == map[]
    ensures j.Dests() == {}
  {}

  method Deny(j: Journal)
    requires Zeroed(j)
    modifies Parts(j)
    ensures Zeroed(j) && j.fd == -1 && j.queued == map[]
  {
    j.fd := -1;
  }

  method ThreadUp(j: Journal, fd: int)
    requires Zeroed(j)
    modifies Parts(j)
    ensures Open(j) && j.fd == fd && j.queued == map[]
  {
    hide Journal.Valid;
    j.SetUp();
    assert forall o: object :: o in j.datas || o in j.Dests() || o in j.bufs ==> o != j;
    j.fd := fd;
  }

  /** What journals_for_each visits, up to the first visit that returns an error. */
  function Visits(fds: seq<int>, closure: nat -> int, from: nat): (visits: seq<nat>)
    requires from <= |fds|
    ensures forall v :: v in visits ==> from <= v < |fds| && fds[v] >= 0
    decreases |fds| - from
  {
    if from == |fds| then []
    else if fds[from] < 0 then Visits(fds, closure, from + 1)
    else if closure(from) < 0 then [from]
    else [from] + Visits(fds, closure, from + 1)
  }

  /** In order, each at most once; only the last can have failed. */
  ghost predicate Orderly(visits: seq<nat>, closure: nat -> int) {
    && (forall a, b :: 0 <= a < b < |visits| ==> visits[a] < visits[b])
    && (forall a :: 0 <= a < |visits| - 1 ==> closure(visits[a]) >= 0)
  }

  lemma OrderlyCons(from: nat, rest: seq<nat>, closure: nat -> int)
    requires Orderly(rest, closure) && closure(from) >= 0 && forall v :: v in rest ==> from < v
    ensures Orderly([from] + rest, closure)
  {
    var visits := [from] + rest;
    forall a, b | 0 <= a < b < |visits| ensures visits[a] < visits[b] {
      assert visits[b] in rest;
      if a > 0 { assert visits[a] == rest[a - 1]; }
    }
    forall a | 0 <= a < |visits| - 1 ensures closure(visits[a]) >= 0 {
      if a > 0 { assert visits[a] == rest[a - 1]; }
    }
  }

  lemma {:induction false} VisitsInOrder(fds: seq<int>, closure: nat -> int, from: nat)
    requires from <= |fds|
    ensures Orderly(Visits(fds, closure, from), closure)
    decreases |fds| - from
  {
    hide Orderly;
    if from == |fds| {
      Single([], closure);
    } else {
      VisitsInOrder(fds, closure, from + 1);
      Single([from], closure);
      if closure(from) >= 0 { OrderlyCons(from, Visits(fds, closure, from + 1), closure); }
    }
  }

  lemma Single(visits: seq<nat>, closure: nat -> int)
    requires |visits| <= 1
    ensures Orderly(visits, closure)
  {}

  /** Every open journal is visited, unless a visit before it failed. */
  lemma {:induction false} VisitsCover(fds: seq<int>, closure: nat -> int, from: nat, v: nat)
    requires from <= v < |fds| && fds[v] >= 0
    ensures
      var visits := Visits(fds, closure, from);
      v in visits || (visits != [] && visits[|visits| - 1] < v && closure(visits[|visits| - 1]) < 0)
    decreases |fds| - from
  {
    if from < v {
      VisitsCover(fds, closure, from + 1, v);
      var rest := Visits(fds, closure, from + 1);
      assert v in rest ==> v in [from] + rest;
    }
  }

  /** journals_for_each over the file descriptors of the journals. */
  method ForEach(fds: seq<int>, closure: nat -> int) returns (visits: seq<nat>, r: int)
    ensures visits == Visits(fds, closure, 0)
    ensures r == if visits != [] && closure(visits[|visits| - 1]) < 0 then closure(visits[|visits| - 1]) else 0
  {
    visits := [];
    for i := 0 to |fds|
      invariant visits + Visits(fds, closure, i) == Visits(fds, closure, 0)
      invariant forall v :: v in visits ==> closure(v) >= 0
    {
      if fds[i] < 0 {
        continue;
      }
      visits := visits + [i];
      if closure(i) < 0 {
        return visits, closure(i);
      }
    }
    return visits, 0;
  }
}
