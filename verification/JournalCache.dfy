/**
 The buffers of one journal as src/journals.c keeps them: structs linked by
 lru_prev/lru_next, arrays that the kernel fills, and reads queued with the arguments
 of their continuation.  Every method is proved to take the step of CacheProtocol.
 */
module JournalCache {
  import opened Bytes
  import opened Lru
  import opened CacheProtocol

  const ENOMEM := 12
  const EINVAL := 22

  class JournalBuf {
    var lruPrev: JournalBuf?
    var lruNext: JournalBuf?
    var offset: nat
    var length: nat
    var valid: bool
    var idx: int
    const data: array<byte>

    ghost function Value(): Buf
      reads this`valid, this`offset, this`length, data
    {
      Buf(valid, offset, length, data[..])
    }

    /** A zeroed struct. */
    constructor ()
      ensures lruPrev == null && lruNext == null && !valid && offset == length == 0
      ensures fresh(data) && data[..] == seq(BUF_SIZE, _ => 0 as byte)
    {
      lruPrev, lruNext, offset, length, valid, idx := null, null, 0, 0, false, 0;
      data := new byte[BUF_SIZE](_ => 0);
    }
  }

  /** A read handed to the kernel, with the arguments of buf_got_read; buf is null for a direct read into dest. */
  datatype QueuedRead = QueuedRead(offset: nat, length: nat, dest: array<byte>, buf: JournalBuf?, status: Status)

  /** What a call comes to: the closure dispatched, the read left in flight, or a negative error number. */
  datatype Answer = Done | Pending | Error(code: int)

  /** What the environment answers to one request: whether an op can be had, and what the kernel then does. */
  datatype Reply = Reply(opAvailable: bool, result: int, memory: seq<byte>)

  ghost predicate Honest(file: seq<byte>, offset: nat, length: nat, reply: Reply) {
    var target := if length <= BUF_SIZE then Buffer(0) else Direct;
    KernelMay(file, Op(offset, length, target, Submitted, []), reply.result, reply.memory)
  }

  /** Nothing goes wrong: the kernel reads all that it is asked for and the file has. */
  ghost predicate Willing(file: seq<byte>, offset: nat, length: nat, reply: Reply) {
    var asked := if length <= BUF_SIZE then BUF_SIZE else length;
    && reply.opAvailable
    && reply.result == if offset >= |file| then 0 else if offset + asked <= |file| then asked else |file| - offset
  }

  ghost function DestsOf(queue: map<nat, QueuedRead>): set<array<byte>> {
    set id | id in queue :: queue[id].dest
  }

  /** No destination is a buffer's memory, and a direct read has its destination to itself. */
  ghost predicate Apart(queue: map<nat, QueuedRead>, datas: set<array<byte>>) {
    && (forall a :: a in queue ==> queue[a].dest !in datas)
    && (forall a, b :: a in queue && b in queue && a != b && queue[a].buf == null ==> queue[a].dest != queue[b].dest)
  }

  lemma ApartUpdated(was: map<nat, QueuedRead>, id: nat, q: QueuedRead, datas: set<array<byte>>)
    requires Apart(was, datas) && id in was && q.dest == was[id].dest && q.buf == was[id].buf
    ensures Apart(was[id := q], datas)
  {
    var now := was[id := q];
    assert forall k :: k in now ==> now[k].dest == was[k].dest && now[k].buf == was[k].buf;
  }

  /** What a completion leaves as it was. */
  lemma CompletionKeeps(c: Cache, id: nat, result: int, memory: seq<byte>)
    requires WellFormed(c) && id in c.ops
    ensures
      var c' := Complete(c, id, result, memory);
      c'.ops.Keys == c.ops.Keys && c'.order == c.order && |c'.bufs| == |c.bufs|
  {
    assert Complete(c, id, result, memory).ops.Keys == c.ops.Keys;
  }

  lemma ApartGrows(was: map<nat, QueuedRead>, id: nat, q: QueuedRead, datas: set<array<byte>>)
    requires Apart(was, datas) && id !in was && q.dest !in datas && q.dest !in DestsOf(was)
    ensures Apart(was[id := q], datas)
  {}

  lemma ApartWithout(was: map<nat, QueuedRead>, id: nat, datas: set<array<byte>>)
    requires Apart(was, datas)
    ensures Apart(was - {id}, datas)
  {}

  lemma SubmitWellFormed(c: Cache, id: nat, op: Op)
    requires WellFormed(c) && WellFormedOp(c, op)
    ensures WellFormed(c.(ops := c.ops[id := op]))
  {
    hide Permutation;
    var c' := c.(ops := c.ops[id := op]);
    forall k | k in c'.ops ensures WellFormedOp(c', c'.ops[k]) {
      if k != id { assert WellFormedOp(c, c.ops[k]); }
    }
  }

  lemma OnlyRead(queue: map<nat, QueuedRead>, q: QueuedRead)
    requires queue.Keys == {0}
    ensures queue[0 := q].Keys == {0} && queue[0 := q] - {0} == map[]
  {}

  lemma Unshared(queue: map<nat, QueuedRead>, a: nat, b: nat, datas: set<array<byte>>)
    requires Apart(queue, datas) && a in queue && b in queue && a != b && queue[a].buf == null
    ensures queue[a].dest != queue[b].dest
  {}

  lemma DestElsewhere(queue: map<nat, QueuedRead>, a: nat, datas: set<array<byte>>)
    requires Apart(queue, datas) && a in queue
    ensures queue[a].dest !in datas && queue[a].dest in DestsOf(queue)
  {}

  /** memcpy, and what the kernel does with the memory a read is to fill. */
  method Transfer(memory: seq<byte>, target: array<byte>)
    requires |memory| <= target.Length
    modifies target
    ensures target[..|memory|] == memory && target[|memory|..] == old(target[|memory|..])
  {
    forall j | 0 <= j < |memory| {
      target[j] := memory[j];
    }
  }

  class Journal {
    const bufs: seq<JournalBuf>
    ghost const datas: set<array<byte>>  // the memory of the buffers
    var lruHead: JournalBuf?
    var lruTail: JournalBuf?
    var queued: map<nat, QueuedRead>
    var fd: int
    var idx: int

    ghost var state: Cache  // the value that the structs represent

    /** The buffers of the array are different structs. */
    ghost predicate Separate() {
      && |bufs| >= 1
      && (forall i, j :: 0 <= i < |bufs| && 0 <= j < |bufs| && i != j ==>
            bufs[i] != bufs[j] && bufs[i].data != bufs[j].data)
      && (forall i :: 0 <= i < |bufs| ==> bufs[i].data.Length == BUF_SIZE && bufs[i].data in datas)
    }

    /** Following lru_next from lru_head gives these nodes, and following lru_prev from lru_tail gives them back. */
    ghost predicate Threaded(nodes: seq<JournalBuf>)
      reads this`lruHead, this`lruTail, (set b | b in nodes)`lruPrev, (set b | b in nodes)`lruNext
    {
      && |nodes| >= 1
      && (forall i, j :: 0 <= i < j < |nodes| ==> nodes[i] != nodes[j])
      && lruHead == nodes[0] && nodes[0].lruPrev == null
      && lruTail == nodes[|nodes| - 1] && nodes[|nodes| - 1].lruNext == null
      && (forall k {:trigger nodes[k].lruNext} :: 0 <= k < |nodes| - 1 ==> nodes[k].lruNext == nodes[k + 1])
      && (forall k {:trigger nodes[k].lruPrev} :: 1 <= k < |nodes| ==> nodes[k].lruPrev == nodes[k - 1])
    }

    ghost function Nodes(order: seq<nat>): (nodes: seq<JournalBuf>)
      requires Permutation(order, |bufs|)
      ensures |nodes| == |order| && forall b :: b in nodes ==> b in bufs
    {
      seq(|order|, k requires 0 <= k < |order| => bufs[order[k]])
    }

    /** The pointers form the doubly linked list of all the buffers, in this order. */
    ghost predicate Linked(order: seq<nat>)
      reads this`lruHead, this`lruTail, bufs`lruPrev, bufs`lruNext
    {
      Permutation(order, |bufs|) && Threaded(Nodes(order))
    }

    constructor (n: nat)
      requires n >= 1
      ensures Separate() && |bufs| == n && (forall b :: b in bufs ==> fresh(b))
      ensures forall b :: b in bufs ==> fresh(b.data) && !b.valid && b.data[..] == seq(BUF_SIZE, _ => 0 as byte)
      ensures forall b :: b in bufs ==> b.lruPrev == null && b.lruNext == null && b.offset == b.length == 0
      ensures lruHead == null && lruTail == null && queued == map[] && forall d :: d in datas ==> fresh(d)
    {
      var s: seq<JournalBuf> := [];
      while |s| < n
        invariant |s| <= n
        invariant forall b :: b in s ==> fresh(b) && fresh(b.data) && b.data.Length == BUF_SIZE
        invariant forall b :: b in s ==> !b.valid && b.data[..] == seq(BUF_SIZE, _ => 0 as byte)
        invariant forall b :: b in s ==> b.lruPrev == null && b.lruNext == null && b.offset == b.length == 0
        invariant forall i, j :: 0 <= i < j < |s| ==> s[i] != s[j] && s[i].data != s[j].data
      {
        var b := new JournalBuf();
        s := s + [b];
      }
      bufs, lruHead, lruTail, queued, fd, idx := s, null, null, map[], 0, 0;
      datas := set b | b in s :: b.data;
    }

    /** buf_used: buf goes to the tail of the list. */
    method BufUsed(buf: JournalBuf, ghost order: seq<nat>, ghost i: nat)
      requires Separate() && Linked(order)
      requires i < |bufs| && bufs[i] == buf && i in order
      modifies this`lruHead, this`lruTail, bufs`lruPrev, bufs`lruNext
      ensures Linked(MoveToBack(order, i))
    {
      ghost var k := IndexOf(order, i);
      NodesMoved(order, i);
      MoveNode(buf, Nodes(order), k);
    }

    lemma NodesMoved(order: seq<nat>, i: nat)
      requires Permutation(order, |bufs|) && i in order
      ensures Permutation(MoveToBack(order, i), |bufs|)
      ensures
        var k := IndexOf(order, i);
        && Nodes(order)[k] == bufs[i]
        && Nodes(MoveToBack(order, i)) == Nodes(order)[..k] + Nodes(order)[k + 1..] + [bufs[i]]
    {
      hide MoveToBack, IndexOf;
      MoveKeepsPermutation(order, |bufs|, i);
      var moved, k := MoveToBack(order, i), IndexOf(order, i);
      var nodes := Nodes(order)[..k] + Nodes(order)[k + 1..] + [bufs[i]];
      MovedAt(order, i, 0);
      assert k < |order| && |nodes| == |moved|;
      forall j | 0 <= j < |moved| ensures Nodes(moved)[j] == nodes[j] {
        MovedAt(order, i, j);
      }
    }

    /** The pointer assignments of buf_used, on the k-th node of the list. */
    method MoveNode(buf: JournalBuf, ghost nodes: seq<JournalBuf>, ghost k: nat)
      requires Threaded(nodes) && k < |nodes| && nodes[k] == buf
      modifies this`lruHead, this`lruTail, (set b | b in nodes)`lruPrev, (set b | b in nodes)`lruNext
      ensures Threaded(nodes[..k] + nodes[k + 1..] + [buf])
    {
      ghost var n := |nodes|;
      if lruTail == buf {
        assert k == n - 1 && nodes[..k] + nodes[k + 1..] + [buf] == nodes;
        return;
      }
      assert k < n - 1;
      assert buf.lruNext == nodes[k + 1] && (if k > 0 then buf.lruPrev == nodes[k - 1] else buf.lruPrev == null);

      if buf.lruPrev != null {
        buf.lruPrev.lruNext := buf.lruNext;
      } else {
        lruHead := buf.lruNext;
      }
      buf.lruNext.lruPrev := buf.lruPrev;
      buf.lruNext := null;

      lruTail.lruNext := buf;
      buf.lruPrev := lruTail;
      lruTail := buf;
    }

    // ----- What the structs represent -----

    ghost function Dests(): set<array<byte>>
      reads this`queued
    {
      DestsOf(queued)
    }

    ghost predicate SameBuf(i: nat)
      requires i < |bufs| && i < |state.bufs|
      reads this`state, {bufs[i]}`valid, {bufs[i]}`offset, {bufs[i]}`length, bufs[i].data
    {
      state.bufs[i] == bufs[i].Value()
    }

    ghost predicate Matches(q: QueuedRead, op: Op)
      reads q.dest
    {
      && q.offset == op.offset && q.length == op.length && q.status == op.status
      && q.length <= q.dest.Length
      && (op.target.Buffer? ==> op.target.index < |bufs| && q.buf == bufs[op.target.index])
      && (op.target.Direct? ==> q.buf == null && q.dest[..q.length] == op.dest)
    }

    ghost predicate SameOp(id: nat)
      requires id in queued && id in state.ops
      reads this`state, this`queued, Dests()
    {
      Matches(queued[id], state.ops[id])
    }

    ghost predicate Represented()
      requires Separate()
      reads this`state, this`queued, bufs`valid, bufs`offset, bufs`length, datas, Dests()
    {
      && |state.bufs| == |bufs|
      && (forall i :: 0 <= i < |bufs| ==> SameBuf(i))
      && queued.Keys == state.ops.Keys
      && (forall id :: id in queued ==> SameOp(id))
    }

    ghost predicate Valid()
      reads this`state, this`queued, this`lruHead, this`lruTail
      reads bufs`lruPrev, bufs`lruNext, bufs`valid, bufs`offset, bufs`length, datas, Dests()
    {
      Separate() && WellFormed(state) && Represented() && Linked(state.order) && Apart(queued, datas)
    }

    // ----- The steps -----

    /** The loop of opened_journal that threads the buffers in array order. */
    method LinkAll()
      requires Separate()
      requires forall b :: b in bufs ==> b.lruPrev == null && b.lruNext == null
      modifies this`lruHead, this`lruTail, bufs`lruPrev, bufs`lruNext
      ensures Linked(seq(|bufs|, k => k))
    {
      lruHead, lruTail := bufs[0], bufs[0];
      var i := 1;
      while i < |bufs|
        invariant 1 <= i <= |bufs|
        invariant lruHead == bufs[0] && lruTail == bufs[i - 1]
        invariant forall k :: 0 <= k < i - 1 ==> bufs[k].lruNext == bufs[k + 1]
        invariant forall k :: i - 1 <= k < |bufs| ==> bufs[k].lruNext == null
        invariant forall k :: 1 <= k < i ==> bufs[k].lruPrev == bufs[k - 1]
        invariant bufs[0].lruPrev == null
      {
        var buf := bufs[i];
        lruTail.lruNext := buf;
        buf.lruPrev := lruTail;
        lruTail := buf;
        i := i + 1;
      }
      assert Nodes(seq(|bufs|, k => k)) == bufs;
    }

    /** What a successful open does to a journal that was allocated zeroed. */
    method SetUp()
      requires Separate() && queued == map[]
      requires forall b :: b in bufs ==> b.lruPrev == null && b.lruNext == null && !b.valid && b.offset == b.length == 0
      requires forall b :: b in bufs ==> b.data[..] == seq(BUF_SIZE, _ => 0 as byte)
      modifies this`lruHead, this`lruTail, this`state, bufs`lruPrev, bufs`lruNext
      ensures Valid() && state == Opened(|bufs|)
    {
      LinkAll();
      hide Linked;
      state := Opened(|bufs|);
      forall k | 0 <= k < |bufs| ensures SameBuf(k) {
        assert bufs[k] in bufs;
      }
    }

    /** journal_read; id names the read if it has to be queued, opAvailable says whether iou_op_new succeeds. */
    method Read(id: nat, offset: nat, length: nat, dest: array<byte>, opAvailable: bool) returns (answer: Answer)
      requires Valid() && id !in queued && 0 < length <= dest.Length
      requires dest !in datas && dest !in Dests()
      modifies this, bufs, dest
      ensures Valid()
      ensures
        var (next, out) := CacheProtocol.Read(old(state), id, offset, length, opAvailable, old(dest[..length]));
        && state == next
        && (out.Dispatched? <==> answer == Done) && (out.Queued? <==> answer == Pending)
        && (out.Failed? <==> answer == Error(-12))
        && (out.Dispatched? ==> dest[..length] == out.data && dest[length..] == old(dest[length..]))
        && (!out.Dispatched? ==> dest[..] == old(dest[..]))
      ensures queued == if answer == Pending then old(queued)[id := queued[id]] else old(queued)
      ensures answer == Pending ==> id in queued && queued[id].dest == dest
      // answered at once exactly if a valid buffer has all that is asked for
      ensures
        answer == Done <==>
          length <= 8192 &&
          exists i :: 0 <= i < |bufs| && old(bufs[i].valid) && old(bufs[i].offset) <= offset
                      && offset + length <= old(bufs[i].offset) + old(bufs[i].length)
    {
      hide Lookup, MoveToBack, Permutation, Linked, WellFormed;
      ShapeOf();
      AnsweredExactly(state, id, offset, length, opAvailable, dest[..length]);
      FieldsSay(offset, length);
      if length <= BUF_SIZE {
        var i := 0;
        while i < |bufs|
          invariant 0 <= i <= |bufs|
          invariant forall j :: 0 <= j < i ==> !Covers(state.bufs[j], offset, length)
        {
          var buf := bufs[i];
          assert SameBuf(i);
          if buf.valid && offset >= buf.offset && offset + length <= buf.offset + buf.length {
            LookupIs(state.bufs, offset, length, i);
            answer := Hit(id, offset, length, dest, opAvailable, buf, i);
            return;
          }
          i := i + 1;
        }
        LookupIs(state.bufs, offset, length, |bufs|);
        answer := Miss(id, offset, length, dest, opAvailable);
      } else {
        if !opAvailable {
          return Error(-ENOMEM);
        }
        Enqueue(
          id, QueuedRead(offset, length, dest, null, Submitted), Op(offset, length, Direct, Submitted, dest[..length]));
        return Pending;
      }
    }

    lemma ShapeOf()
      requires Valid()
      ensures WellFormed(state) && |state.bufs| == |bufs|
    {
      hide Linked, Permutation;
    }

    /** The structs say what their values say. */
    lemma FieldsSay(offset: nat, length: nat)
      requires Valid()
      ensures |state.bufs| == |bufs|
      ensures
        (exists i :: 0 <= i < |state.bufs| && state.bufs[i].valid && state.bufs[i].offset <= offset
                     && offset + length <= state.bufs[i].offset + state.bufs[i].length) <==>
        (exists i :: 0 <= i < |bufs| && bufs[i].valid && bufs[i].offset <= offset
                     && offset + length <= bufs[i].offset + bufs[i].length)
    {
      hide Linked, WellFormed, Permutation;
      forall i | 0 <= i < |bufs|
        ensures state.bufs[i].valid == bufs[i].valid
        ensures state.bufs[i].offset == bufs[i].offset && state.bufs[i].length == bufs[i].length
      {
        assert SameBuf(i);
      }
    }

    /** The body of the loop over the buffers, when buf holds what is wanted. */
    method Hit(ghost id: nat, offset: nat, length: nat, dest: array<byte>, ghost opAvailable: bool,
          buf: JournalBuf, ghost i: nat)
      returns (answer: Answer)
      requires Valid() && 0 < length <= dest.Length && length <= BUF_SIZE
      requires dest !in datas && dest !in Dests()
      requires i < |bufs| && buf == bufs[i] && Lookup(state.bufs, offset, length) == i
      modifies this`lruHead, this`lruTail, this`state, bufs`lruPrev, bufs`lruNext, dest
      ensures Valid() && answer == Done
      ensures
        var (next, out) := CacheProtocol.Read(old(state), id, offset, length, opAvailable, old(dest[..length]));
        state == next && out.Dispatched? && dest[..length] == out.data && dest[length..] == old(dest[length..])
    {
      hide MoveToBack, Permutation, CacheProtocol.Read, Linked, Lookup, WellFormed, Apart;
      ghost var before := state;
      HitStep(before, id, offset, length, opAvailable, dest[..length], i);
      assert SameBuf(i);
      BufUsed(buf, before.order, i);
      var from := offset - buf.offset;
      Transfer(buf.data[from..from + length], dest);
      state := before.(order := MoveToBack(before.order, i));
      forall k | 0 <= k < |bufs| ensures SameBuf(k) {
        assert old(SameBuf(k)) && bufs[k].data in datas;
      }
      forall k | k in queued ensures SameOp(k) {
        assert old(SameOp(k)) && queued[k].dest in Dests();
      }
      return Done;
    }

    /** Refilling the buffer at the head of the list. */
    method Miss(id: nat, offset: nat, length: nat, dest: array<byte>, opAvailable: bool) returns (answer: Answer)
      requires Valid() && id !in queued && 0 < length <= dest.Length && length <= BUF_SIZE
      requires dest !in datas && dest !in Dests()
      requires Lookup(state.bufs, offset, length) == |bufs|
      modifies this, bufs
      ensures Valid()
      ensures
        var (next, out) := CacheProtocol.Read(old(state), id, offset, length, opAvailable, []);
        && state == next
        && (out.Queued? <==> answer == Pending) && (out.Failed? <==> answer == Error(-12)) && !out.Dispatched?
      ensures queued == if answer == Pending then old(queued)[id := queued[id]] else old(queued)
      ensures answer == Pending ==> id in queued && queued[id].dest == dest
    {
      hide MoveToBack, Permutation, CacheProtocol.Read, Linked, Lookup, WellFormed, Apart, DestsOf;
      ghost var before := state;
      ghost var i := MissStep(before, id, offset, length, false, []);
      i := MissStep(before, id, offset, length, true, []);
      assert lruHead == bufs[i] by { HeadIsFirst(before.order); }
      var buf := lruHead;
      BufUsed(buf, before.order, i);
      buf.valid := false;
      state := CacheProtocol.Read(before, id, offset, length, false, []).0;
      forall k | 0 <= k < |bufs| ensures SameBuf(k) {
        assert old(SameBuf(k));
      }
      forall k | k in queued ensures SameOp(k) {
        assert old(SameOp(k));
      }
      if !opAvailable {
        return Error(-ENOMEM);
      }
      Enqueue(id, QueuedRead(offset, length, dest, buf, Submitted), Op(offset, length, Buffer(i), Submitted, []));
      return Pending;
    }

    /** op_queue: the read is the kernel's from here on. */
    method Enqueue(id: nat, q: QueuedRead, ghost op: Op)
      requires Valid() && id !in queued && q.dest !in datas && q.dest !in Dests()
      requires WellFormedOp(state, op) && Matches(q, op)
      modifies this`queued, this`state
      ensures Valid()
      ensures queued == old(queued)[id := q] && state == old(state).(ops := old(state).ops[id := op])
    {
      hide Linked, WellFormed, WellFormedOp, Apart, Separate;
      SubmitWellFormed(state, id, op);
      ApartGrows(queued, id, q, datas);
      forall k | 0 <= k < |bufs| ensures bufs[k].Value() == state.bufs[k] {
        assert SameBuf(k);
      }
      forall k | k in queued ensures Matches(queued[k], state.ops[k]) {
        assert SameOp(k);
      }
      Restate(queued[id := q], state.(ops := state.ops[id := op]));
    }

    /** A new queue of reads, and the value that the structs represent with it. */
    method Restate(queue: map<nat, QueuedRead>, ghost next: Cache)
      requires Separate() && Apart(queue, datas) && queue.Keys == next.ops.Keys
      requires WellFormed(next) && |next.bufs| == |bufs| && Linked(next.order)
      requires forall k :: 0 <= k < |bufs| ==> bufs[k].Value() == next.bufs[k]
      requires forall k :: k in queue ==> Matches(queue[k], next.ops[k])
      modifies this`queued, this`state
      ensures Valid() && queued == queue && state == next
    {
      hide Linked, WellFormed, WellFormedOp, Separate, Apart;
      queued := queue;
      state := next;
      forall k | 0 <= k < |bufs| ensures SameBuf(k) {
        assert bufs[k].Value() == old(bufs[k].Value());
      }
      forall k | k in queued ensures SameOp(k) {
        assert Matches(queue[k], next.ops[k]);
      }
    }

    /** What the kernel does to a queued read: fill its target, set op->result. */
    method KernelDone(id: nat, result: int, memory: seq<byte>, ghost file: seq<byte>)
      requires Valid() && id in queued && KernelMay(file, state.ops[id], result, memory)
      modifies this`queued, this`state, datas, Dests()
      ensures Valid()
      ensures state == Complete(old(state), id, result, memory)
      ensures queued == old(queued)[id := old(queued)[id].(status := Completed(result))]
      ensures
        var q := old(queued)[id];
        q.length <= q.dest.Length && q.dest[q.length..] == old(q.dest[q.length..])
    {
      hide Linked, Permutation, Separate, Complete, KernelMay, Apart;
      assert SameOp(id);
      if queued[id].buf != null {
        DoneInBuffer(id, result, memory, file);
      } else {
        DoneInDest(id, result, memory, file);
      }
    }

    /** IORING_OP_READ_FIXED into a buffer. */
    method DoneInBuffer(id: nat, result: int, memory: seq<byte>, ghost file: seq<byte>)
      requires Valid() && id in queued && KernelMay(file, state.ops[id], result, memory)
      requires state.ops[id].target.Buffer?
      modifies this`queued, this`state, datas
      ensures Valid()
      ensures state == Complete(old(state), id, result, memory)
      ensures queued == old(queued)[id := old(queued)[id].(status := Completed(result))]
      ensures
        var q := old(queued)[id];
        q.length <= q.dest.Length && q.dest[q.length..] == old(q.dest[q.length..])
    {
      hide Linked, Permutation, Apart, WellFormed, Separate, KernelMay;
      ghost var before := state;
      ghost var i := before.ops[id].target.index;
      assert SameOp(id);
      OpFits(before, id, file, result, memory);
      StepKeepsShape(file, before, Event.KernelDone(id, result, memory));
      CompletionKeeps(before, id, result, memory);
      DestElsewhere(queued, id, datas);
      var buf := queued[id].buf;
      Sized(i);
      Transfer(memory, buf.data);
      assert buf.data[..] == memory;
      ghost var next := Complete(before, id, result, memory);
      var queue := queued[id := queued[id].(status := Completed(result))];
      ApartUpdated(queued, id, queue[id], datas);
      forall k | 0 <= k < |bufs| ensures bufs[k].Value() == next.bufs[k] {
        assert old(SameBuf(k));
        if k != i { Different(i, k); }
      }
      forall k | k in queue ensures Matches(queue[k], next.ops[k]) {
        assert old(SameOp(k));
        DestElsewhere(queued, k, datas);
      }
      Restate(queue, next);
    }

    /** IORING_OP_READ straight into the caller's memory. */
    method DoneInDest(id: nat, result: int, memory: seq<byte>, ghost file: seq<byte>)
      requires Valid() && id in queued && KernelMay(file, state.ops[id], result, memory)
      requires state.ops[id].target.Direct?
      modifies this`queued, this`state, Dests()
      ensures Valid()
      ensures state == Complete(old(state), id, result, memory)
      ensures queued == old(queued)[id := old(queued)[id].(status := Completed(result))]
      ensures
        var q := old(queued)[id];
        q.length <= q.dest.Length && q.dest[q.length..] == old(q.dest[q.length..])
    {
      hide Linked, Permutation, Apart, WellFormed, Separate, KernelMay, Complete, DestsOf;
      ghost var before := state;
      assert SameOp(id);
      OpFits(before, id, file, result, memory);
      StepKeepsShape(file, before, Event.KernelDone(id, result, memory));
      CompletionKeeps(before, id, result, memory);
      DirectCompletion(before, id, result, memory);
      var q := queued[id];
      DestElsewhere(queued, id, datas);
      Transfer(memory, q.dest);
      ghost var next := Complete(before, id, result, memory);
      var queue := queued[id := q.(status := Completed(result))];
      ApartUpdated(queued, id, queue[id], datas);
      forall k | 0 <= k < |bufs| ensures bufs[k].Value() == next.bufs[k] {
        Sized(k);
        assert old(SameBuf(k)) && bufs[k].data in datas;
      }
      forall k | k in queue ensures Matches(queue[k], next.ops[k]) {
        assert old(SameOp(k));
        if k != id { Unshared(queued, id, k, datas); }
      }
      Restate(queue, next);
    }

    /** Distinct buffers are distinct structs. */
    lemma Different(i: nat, k: nat)
      requires Separate() && i < |bufs| && k < |bufs| && i != k
      ensures bufs[i] != bufs[k] && bufs[i].data != bufs[k].data
    {}

    lemma Sized(i: nat)
      requires Separate() && i < |bufs|
      ensures bufs[i].data.Length == BUF_SIZE && bufs[i].data in datas
    {}

    /** buf_got_read, dispatched when the kernel has completed the read. */
    method BufGotRead(id: nat) returns (answer: Answer)
      requires Valid() && id in queued && queued[id].status.Completed?
      modifies this`queued, this`state, bufs`valid, bufs`offset, bufs`length, queued[id].dest
      ensures Valid() && queued == old(queued) - {id}
      ensures
        var (next, out) := GotRead(old(state), id);
        var q := old(queued)[id];
        && state == next && !out.Queued?
        && (out.Dispatched? <==> answer == Done)
        && (out.Dispatched? ==> q.length <= q.dest.Length && q.dest[..q.length] == out.data)
        && (out.Failed? ==> answer == Error(if q.status.result < 0 then q.status.result else -22))
        && q.length <= q.dest.Length && q.dest[q.length..] == old(q.dest[q.length..])
    {
      hide Linked, Separate, Apart;
      assert SameOp(id);
      var q := queued[id];
      var result := q.status.result;
      if result < 0 {
        Dequeue(id);
        return Error(result);
      }
      if result < q.length {
        Dequeue(id);
        return Error(-EINVAL);
      }
      if q.buf != null {
        CopyOut(id);
        Publish(id);
      } else {
        Dequeue(id);
      }
      return Done;
    }

    /** The read is answered, without touching a buffer. */
    method Dequeue(id: nat)
      requires Valid() && id in queued && queued[id].status.Completed?
      requires state.ops[id].status.result < state.ops[id].length || state.ops[id].target.Direct?
      modifies this`queued, this`state
      ensures Valid() && queued == old(queued) - {id} && state == GotRead(old(state), id).0
    {
      hide Linked, Permutation, WellFormed, WellFormedOp, Separate, Apart, GotRead;
      StepKeepsShape([], state, Callback(id));
      AnswerOnly(state, id);
      ApartWithout(queued, id, datas);
      forall k | 0 <= k < |bufs| ensures bufs[k].Value() == state.bufs[k] {
        assert SameBuf(k);
      }
      forall k | k in queued ensures Matches(queued[k], state.ops[k]) {
        assert SameOp(k);
      }
      Restate(queued - {id}, state.(ops := state.ops - {id}));
    }

    /** memcpy(dest, buf->data, length) for a read that was completed into a buffer. */
    method CopyOut(id: nat)
      requires Valid() && id in queued && queued[id].status.Completed?
      requires state.ops[id].status.result >= state.ops[id].length && state.ops[id].target.Buffer?
      modifies queued[id].dest
      ensures Valid()
      ensures
        var q := queued[id];
        && q.length <= q.dest.Length && GotRead(state, id).1 == Dispatched(q.dest[..q.length])
        && q.dest[q.length..] == old(q.dest[q.length..])
    {
      hide Linked, Permutation, WellFormed, WellFormedOp, Separate, Apart, GotRead, DestsOf;
      ghost var i := state.ops[id].target.index;
      FillStep(state, id);
      DestElsewhere(queued, id, datas);
      assert SameOp(id) && SameBuf(i);
      Sized(i);
      var q := queued[id];
      var buf := q.buf;
      Transfer(buf.data[..q.length], q.dest);
      forall k | 0 <= k < |bufs| ensures SameBuf(k) {
        Sized(k);
        assert old(SameBuf(k)) && bufs[k].data in datas;
      }
      assert q.dest[..q.length] == state.bufs[i].data[..q.length];
      forall k | k in queued ensures SameOp(k) {
        assert old(SameOp(k));
        if queued[k].buf == null { Unshared(queued, k, id, datas); }
      }
    }

    /** The filled buffer answers other requests from now on. */
    method Publish(id: nat)
      requires Valid() && id in queued && queued[id].status.Completed?
      requires state.ops[id].status.result >= state.ops[id].length && state.ops[id].target.Buffer?
      modifies this`queued, this`state, bufs`valid, bufs`offset, bufs`length
      ensures Valid() && queued == old(queued) - {id} && state == GotRead(old(state), id).0
    {
      hide Linked, Permutation, WellFormed, WellFormedOp, Separate, Apart, GotRead, DestsOf;
      ghost var before, i := state, state.ops[id].target.index;
      FillStep(before, id);
      ApartWithout(queued, id, datas);
      assert SameOp(id) && SameBuf(i);
      var q := queued[id];
      var buf := q.buf;
      buf.length := q.status.result;
      buf.offset := q.offset;
      buf.valid := true;
      ghost var filled := before.bufs[i := Buf(true, q.offset, q.status.result, before.bufs[i].data)];
      forall k | 0 <= k < |bufs| ensures bufs[k].Value() == filled[k] {
        assert old(SameBuf(k));
        if k != i { Different(i, k); }
      }
      forall k | k in queued ensures Matches(queued[k], before.ops[k]) {
        assert old(SameOp(k));
      }
      Restate(queued - {id}, before.(bufs := filled, ops := before.ops - {id}));
    }

    /** One whole read under the callers' protocol: asked when nothing is in flight, and answered before the next. */
    method ReadThrough(offset: nat, length: nat, dest: array<byte>, reply: Reply, ghost file: seq<byte>)
      returns (answer: Answer)
      requires Valid() && queued == map[] && Inv(file, state)
      requires 0 < length <= dest.Length && dest !in datas
      requires Honest(file, offset, length, reply)
      modifies this, bufs, datas, dest
      ensures Valid() && queued == map[] && Inv(file, state)
      ensures !answer.Pending?
      ensures answer == Done ==> offset + length <= |file| && dest[..length] == file[offset..offset + length]
      ensures dest[length..] == old(dest[length..])
      ensures Willing(file, offset, length, reply) ==> (answer == Done <==> offset + length <= |file|)
    {
      ghost var before := state;
      RequestAlone(file, before, offset, length, reply, dest[..length]);
      hide Inv, Linked, CacheProtocol.Read, GotRead, Complete, Represented, Apart, Separate, WellFormed;
      hide KernelMay, Willing, Honest, Covers, DestsOf;
      answer := Read(0, offset, length, dest, reply.opAvailable);
      if answer == Pending {
        answer := Await(offset, length, dest, reply, file);
      }
    }

    /** The kernel's part of a read that was queued alone, and its continuation. */
    method Await(offset: nat, length: nat, dest: array<byte>, reply: Reply, ghost file: seq<byte>)
      returns (answer: Answer)
      requires Valid() && queued.Keys == {0} && queued[0].dest == dest
      requires Inv(file, state) && state.ops.Keys == {0}
      requires state.ops[0].offset == offset && state.ops[0].length == length > 0
      requires state.ops[0].target.Buffer? == (length <= BUF_SIZE)
      requires KernelMay(file, state.ops[0], reply.result, reply.memory)
      modifies this, bufs, datas, dest
      ensures Valid() && queued == map[] && Inv(file, state)
      ensures !answer.Pending?
      ensures answer == Done ==> length <= dest.Length && Correct(file, offset, length, Dispatched(dest[..length]))
      ensures length <= dest.Length && dest[length..] == old(dest[length..])
      ensures Willing(file, offset, length, reply) ==> (answer == Done <==> offset + length <= |file|)
    {
      assert queued[0].length == length by { assert SameOp(0); }
      CompletionAlone(file, state, offset, length, reply);
      hide Valid, Inv, GotRead, Complete, KernelMay, Willing, WellFormed, Correct;
      ghost var was := queued;
      KernelDone(0, reply.result, reply.memory, file);
      ghost var completed := state;
      OnlyRead(was, was[0].(status := Completed(reply.result)));
      ghost var q, out := queued[0], GotRead(completed, 0).1;
      assert queued.Keys == {0} && q.dest == dest && q.length == length;
      assert Correct(file, offset, length, out);
      answer := BufGotRead(0);
      assert state == GotRead(completed, 0).0;
      if answer == Done {
        assert out == Dispatched(dest[..length]);
      }
    }

    lemma HeadIsFirst(order: seq<nat>)
      requires Linked(order)
      ensures |order| >= 1 && order[0] < |bufs| && lruHead == bufs[order[0]]
    {
      assert Nodes(order)[0] == bufs[order[0]];
    }
  }

  /** What a completion finds: the room for it, and a buffer that exists. */
  lemma OpFits(c: Cache, id: nat, file: seq<byte>, result: int, memory: seq<byte>)
    requires WellFormed(c) && id in c.ops && KernelMay(file, c.ops[id], result, memory)
    ensures WellFormedOp(c, c.ops[id]) && |memory| == Asked(c.ops[id]) && c.ops[id].status.Submitted?
  {
    hide Permutation;
  }

  lemma DirectCompletion(c: Cache, id: nat, result: int, memory: seq<byte>)
    requires WellFormed(c) && id in c.ops && c.ops[id].target.Direct?
    ensures
      Complete(c, id, result, memory) ==
        c.(ops := c.ops[id := c.ops[id].(status := Completed(result), dest := memory)])
  {}

  /** buf_got_read when it does not fill a buffer. */
  lemma AnswerOnly(c: Cache, id: nat)
    requires WellFormed(c) && id in c.ops && c.ops[id].status.Completed?
    requires c.ops[id].status.result < c.ops[id].length || c.ops[id].target.Direct?
    ensures GotRead(c, id).0 == c.(ops := c.ops - {id})
  {}

  /** buf_got_read when it fills a buffer, spelled out. */
  lemma FillStep(c: Cache, id: nat)
    requires WellFormed(c) && id in c.ops && c.ops[id].status.Completed?
    requires c.ops[id].status.result >= c.ops[id].length && c.ops[id].target.Buffer?
    ensures
      var op := c.ops[id];
      var i := op.target.index;
      && i < |c.bufs| && 0 < op.length <= |c.bufs[i].data|
      && GotRead(c, id) ==
           (c.(bufs := c.bufs[i := Buf(true, op.offset, op.status.result, c.bufs[i].data)], ops := c.ops - {id}),
            Dispatched(c.bufs[i].data[..op.length]))
    ensures WellFormed(GotRead(c, id).0)
  {
    StepKeepsShape([], c, Callback(id));
    assert WellFormedOp(c, c.ops[id]);
  }

  /** A request made while nothing is in flight. */
  lemma RequestAlone(file: seq<byte>, c: Cache, offset: nat, length: nat, reply: Reply, memory: seq<byte>)
    requires Inv(file, c) && c.ops == map[] && length > 0 && |memory| == length
    requires Honest(file, offset, length, reply)
    ensures
      var (next, out) := CacheProtocol.Read(c, 0, offset, length, reply.opAvailable, memory);
      && Inv(file, next) && Correct(file, offset, length, out)
      && (out.Queued? <==> next.ops != map[])
      && (out.Queued? ==> next.ops.Keys == {0} && next.ops[0].offset == offset && next.ops[0].length == length
                          && next.ops[0].target.Buffer? == (length <= BUF_SIZE)
                          && KernelMay(file, next.ops[0], reply.result, reply.memory))
      && (out.Failed? ==> !reply.opAvailable)
  {
    hide MoveToBack, Permutation, Lookup, Coherent, Delivered;
    ReadKeepsInv(file, c, 0, offset, length, reply.opAvailable, memory);
  }

  /** The completion of a read that was made alone, and its answer. */
  lemma CompletionAlone(file: seq<byte>, c1: Cache, offset: nat, length: nat, reply: Reply)
    requires Inv(file, c1) && c1.ops.Keys == {0} && c1.ops[0].offset == offset && c1.ops[0].length == length > 0
    requires c1.ops[0].target.Buffer? == (length <= BUF_SIZE)
    requires KernelMay(file, c1.ops[0], reply.result, reply.memory)
    ensures
      var c2 := Complete(c1, 0, reply.result, reply.memory);
      && WellFormed(c2) && 0 in c2.ops && c2.ops[0].status.Completed?
      && (var (c3, out) := GotRead(c2, 0);
          && Inv(file, c3) && c3.ops == map[] && Correct(file, offset, length, out)
          && (Willing(file, offset, length, reply) ==> (out.Dispatched? <==> offset + length <= |file|)))
  {
    hide Permutation, Coherent, Delivered;
    CompleteKeepsInv(file, c1, 0, reply.result, reply.memory);
    GotReadKeepsInv(file, Complete(c1, 0, reply.result, reply.memory), 0);
  }

  /** journal_read on a hit, spelled out. */
  lemma HitStep(c: Cache, id: nat, offset: nat, length: nat, opAvailable: bool, memory: seq<byte>, i: nat)
    requires WellFormed(c) && 0 < length <= BUF_SIZE && i < |c.bufs| && Lookup(c.bufs, offset, length) == i
    ensures i in c.order && Covers(c.bufs[i], offset, length) && c.bufs[i].length <= |c.bufs[i].data|
    ensures
      var from := offset - c.bufs[i].offset;
      CacheProtocol.Read(c, id, offset, length, opAvailable, memory) ==
        (c.(order := MoveToBack(c.order, i)), Dispatched(c.bufs[i].data[from..from + length]))
    ensures WellFormed(c.(order := MoveToBack(c.order, i)))
  {
    hide MoveToBack;
    PermutationComplete(c.order, |c.bufs|, i);
    MoveKeepsPermutation(c.order, |c.bufs|, i);
    forall k | k in c.ops ensures WellFormedOp(c.(order := MoveToBack(c.order, i)), c.ops[k]) {
      assert WellFormedOp(c, c.ops[k]);
    }
  }

  /** journal_read on a miss, spelled out. */
  lemma MissStep(c: Cache, id: nat, offset: nat, length: nat, opAvailable: bool, memory: seq<byte>) returns (i: nat)
    requires WellFormed(c) && 0 < length <= BUF_SIZE && Lookup(c.bufs, offset, length) == |c.bufs| && id !in c.ops
    ensures |c.order| >= 1 && i == c.order[0] && i < |c.bufs| && i in c.order
    ensures
      CacheProtocol.Read(c, id, offset, length, opAvailable, memory) ==
        (c.(order := MoveToBack(c.order, i), bufs := c.bufs[i := c.bufs[i].(valid := false)],
            ops := if opAvailable then c.ops[id := Op(offset, length, Buffer(i), Submitted, [])] else c.ops),
         if opAvailable then Queued else Failed)
    ensures WellFormed(CacheProtocol.Read(c, id, offset, length, opAvailable, memory).0)
  {
    hide MoveToBack, Lookup;
    i := c.order[0];
    StepKeepsShape([], c, Request(id, offset, length, opAvailable, memory));
  }

  lemma {:induction false} LookupIs(bs: seq<Buf>, offset: nat, length: nat, i: nat)
    requires i <= |bs| && (i < |bs| ==> Covers(bs[i], offset, length))
    requires forall j :: 0 <= j < i ==> !Covers(bs[j], offset, length)
    ensures Lookup(bs, offset, length) == i
  {
    var k := Lookup(bs, offset, length);
    if k < i { assert false; }
    if k > i { assert false; }
  }
}
