/**
 The protocol between journal_read, the kernel and buf_got_read (src/journals.c:97-182),
 as steps on values.  A journal has a fixed set of buffers and any number of reads in
 flight.  The kernel may complete them in any order, short or with an error, and may
 have left anything beyond the bytes it reports.
 */
module CacheProtocol {
  import opened Bytes
  import opened Lru

  /** JOURNAL_BUF_SIZE */
  const BUF_SIZE: nat := 8192

  datatype Buf = Buf(valid: bool, offset: nat, length: nat, data: seq<byte>)

  /** Where the kernel puts what it reads: a buffer, or straight into the caller's memory. */
  datatype Target = Buffer(index: nat) | Direct

  /** Submitted to the kernel, or finished with op->result. */
  datatype Status = Submitted | Completed(result: int)

  /** A queued read of the caller's [offset, offset + length), and the caller's memory for a direct one. */
  datatype Op = Op(offset: nat, length: nat, target: Target, status: Status, dest: seq<byte>)

  datatype Cache = Cache(bufs: seq<Buf>, order: seq<nat>, ops: map<nat, Op>)

  /** What a call does for its closure: dispatches it with dest filled, leaves it for later, or fails. */
  datatype Outcome = Dispatched(data: seq<byte>) | Queued | Failed

  // ----- The three steps -----

  predicate Covers(b: Buf, offset: nat, length: nat) {
    b.valid && offset >= b.offset && offset + length <= b.offset + b.length
  }

  /** The index of the first buffer that covers a request, or the number of buffers. */
  function Lookup(bufs: seq<Buf>, offset: nat, length: nat): (i: nat)
    ensures i <= |bufs|
    ensures i < |bufs| ==> Covers(bufs[i], offset, length)
    ensures forall j :: 0 <= j < i ==> !Covers(bufs[j], offset, length)
  {
    if bufs == [] then 0
    else if Covers(bufs[0], offset, length) then 0
    else 1 + Lookup(bufs[1..], offset, length)
  }

  /** How much the kernel is asked for: a whole buffer, or exactly what the caller wants. */
  function Asked(op: Op): nat {
    if op.target.Buffer? then BUF_SIZE else op.length
  }

  /** The shape that needs no file: sizes, indices and the order. */
  ghost predicate WellFormed(c: Cache) {
    && |c.bufs| >= 1
    && Permutation(c.order, |c.bufs|)
    && (forall i :: 0 <= i < |c.bufs| ==>
          |c.bufs[i].data| == BUF_SIZE && (c.bufs[i].valid ==> c.bufs[i].length <= BUF_SIZE))
    && (forall id :: id in c.ops ==> WellFormedOp(c, c.ops[id]))
  }

  ghost predicate WellFormedOp(c: Cache, op: Op) {
    && op.length > 0
    && (op.target.Buffer? ==> op.target.index < |c.bufs| && op.length <= BUF_SIZE)
    && (op.target.Direct? ==> |op.dest| == op.length)
    && (op.status.Completed? ==> op.status.result <= Asked(op))
  }

  /** The buffer that a request uses: the one it hits, else the least recently used one. */
  ghost function UsedBy(c: Cache, offset: nat, length: nat): (i: nat)
    requires WellFormed(c)
    ensures i < |c.bufs| && i in c.order
  {
    var hit := Lookup(c.bufs, offset, length);
    var i := if hit < |c.bufs| then hit else c.order[0];
    PermutationComplete(c.order, |c.bufs|, i);
    i
  }

  /** journal_read: opAvailable is whether iou_op_new succeeds, memory what a direct dest held before. */
  ghost function Read(c: Cache, id: nat, offset: nat, length: nat, opAvailable: bool, memory: seq<byte>): (Cache,
        Outcome)
    requires WellFormed(c)
  {
    if length <= BUF_SIZE then
      var hit := Lookup(c.bufs, offset, length);
      var used := UsedBy(c, offset, length);
      var order := MoveToBack(c.order, used);
      if hit < |c.bufs| then
        var from := offset - c.bufs[hit].offset;
        (c.(order := order), Dispatched(c.bufs[hit].data[from..from + length]))
      else
        var bufs := c.bufs[used := c.bufs[used].(valid := false)];
        if opAvailable
        then
          var op := Op(offset, length, Buffer(used), Submitted, []);
          (c.(order := order, bufs := bufs, ops := c.ops[id := op]), Queued)
        else (c.(order := order, bufs := bufs), Failed)
    else if opAvailable then (c.(ops := c.ops[id := Op(offset, length, Direct, Submitted, memory)]), Queued)
    else (c, Failed)
  }

  /** What the kernel may report and leave in the target: an error, or a count of bytes of the file. */
  ghost predicate KernelMay(file: seq<byte>, op: Op, result: int, memory: seq<byte>) {
    && op.status.Submitted?
    && |memory| == Asked(op)
    && result <= |memory|
    && (result > 0 ==> op.offset + result <= |file| && memory[..result] == file[op.offset..op.offset + result])
  }

  ghost function Complete(c: Cache, id: nat, result: int, memory: seq<byte>): Cache
    requires WellFormed(c) && id in c.ops
  {
    var op := c.ops[id];
    var ops := c.ops[id := op.(status := Completed(result), dest := if op.target.Direct? then memory else [])];
    match op.target
    case Buffer(i) => c.(bufs := c.bufs[i := c.bufs[i].(data := memory)], ops := ops)
    case Direct => c.(ops := ops)
  }

  /** buf_got_read */
  ghost function GotRead(c: Cache, id: nat): (Cache, Outcome)
    requires WellFormed(c) && id in c.ops && c.ops[id].status.Completed?
  {
    var op := c.ops[id];
    var done := c.(ops := c.ops - {id});
    if op.status.result < 0 then (done, Failed)
    else if op.status.result < op.length then (done, Failed)
    else match op.target
      case Buffer(i) =>
        var filled := Buf(true, op.offset, op.status.result, c.bufs[i].data);
        (done.(bufs := c.bufs[i := filled]), Dispatched(c.bufs[i].data[..op.length]))
      case Direct => (done, Dispatched(op.dest))
  }

  // ----- The invariant -----

  /** A valid buffer holds the bytes of the file at its offset. */
  ghost predicate Coherent(file: seq<byte>, b: Buf) {
    b.valid ==>
      && b.length <= |b.data|
      && b.offset + b.length <= |file|
      && b.data[..b.length] == file[b.offset..b.offset + b.length]
  }

  /** What a completed read holds is what it reports. */
  ghost predicate Delivered(file: seq<byte>, op: Op, data: seq<byte>) {
    op.status.Completed? && op.status.result > 0 ==>
      && op.status.result <= |data|
      && op.offset + op.status.result <= |file|
      && data[..op.status.result] == file[op.offset..op.offset + op.status.result]
  }

  ghost function Contents(c: Cache, op: Op): seq<byte>
    requires WellFormedOp(c, op)
  {
    if op.target.Buffer? then c.bufs[op.target.index].data else op.dest
  }

  /** A buffer in flight is invalid, so that no request is answered from it, and no two reads share it. */
  ghost predicate Exclusive(c: Cache) {
    && (forall id :: id in c.ops && c.ops[id].target.Buffer? && c.ops[id].target.index < |c.bufs|
          ==> !c.bufs[c.ops[id].target.index].valid)
    && (forall i, j :: i in c.ops && j in c.ops && i != j && c.ops[i].target.Buffer?
          ==> c.ops[i].target != c.ops[j].target)
  }

  ghost predicate Inv(file: seq<byte>, c: Cache) {
    && WellFormed(c)
    && Exclusive(c)
    && (forall i :: 0 <= i < |c.bufs| ==> Coherent(file, c.bufs[i]))
    && (forall id :: id in c.ops ==> Delivered(file, c.ops[id], Contents(c, c.ops[id])))
  }

  ghost predicate InFlight(c: Cache, i: nat) {
    exists id :: id in c.ops && c.ops[id].target == Buffer(i)
  }

  /** A request is safe unless it must refill a buffer that a read in flight is still using. */
  ghost predicate Safe(c: Cache, offset: nat, length: nat)
    requires WellFormed(c)
  {
    length <= BUF_SIZE && Lookup(c.bufs, offset, length) == |c.bufs| ==> !InFlight(c, c.order[0])
  }

  // ----- Each step keeps the invariant, and delivers what the file holds -----

  ghost predicate Correct(file: seq<byte>, offset: nat, length: nat, out: Outcome) {
    out.Dispatched? ==> offset + length <= |file| && out.data == file[offset..offset + length]
  }

  lemma HitIsCorrect(file: seq<byte>, b: Buf, offset: nat, length: nat)
    requires Coherent(file, b) && Covers(b, offset, length)
    ensures offset + length <= |file|
    ensures b.data[offset - b.offset..offset - b.offset + length] == file[offset..offset + length]
  {
    var from := offset - b.offset;
    SliceOfSlice(b.data, 0, b.length, from, from + length);
    SliceOfSlice(file, b.offset, b.offset + b.length, from, from + length);
  }

  /** Taking a buffer that no read is using out of service. */
  ghost function Retired(c: Cache, i: nat): Cache
    requires i < |c.bufs|
  {
    c.(bufs := c.bufs[i := c.bufs[i].(valid := false)])
  }

  lemma RetireKeepsInv(file: seq<byte>, c: Cache, i: nat)
    requires Inv(file, c) && i < |c.bufs|
    ensures Inv(file, Retired(c, i))
  {
    hide Permutation;
    var c' := Retired(c, i);
    forall id | id in c.ops
      ensures WellFormedOp(c', c.ops[id]) && Delivered(file, c.ops[id], Contents(c', c.ops[id]))
    {
      assert Contents(c', c.ops[id]) == Contents(c, c.ops[id]);
    }
  }

  lemma ReorderKeepsInv(file: seq<byte>, c: Cache, order: seq<nat>)
    requires Inv(file, c) && Permutation(order, |c.bufs|)
    ensures Inv(file, c.(order := order))
  {
    hide Permutation;
    var c' := c.(order := order);
    forall id | id in c.ops
      ensures WellFormedOp(c', c.ops[id]) && Delivered(file, c.ops[id], Contents(c', c.ops[id]))
    {
      assert Contents(c', c.ops[id]) == Contents(c, c.ops[id]);
    }
  }

  lemma SubmitKeepsShape(c: Cache, id: nat, op: Op)
    requires WellFormed(c) && Exclusive(c) && id !in c.ops && WellFormedOp(c, op) && op.status.Submitted?
    requires op.target.Buffer? ==> !c.bufs[op.target.index].valid && !InFlight(c, op.target.index)
    ensures WellFormed(c.(ops := c.ops[id := op])) && Exclusive(c.(ops := c.ops[id := op]))
  {
    hide Permutation;
  }

  lemma SubmitKeepsInv(file: seq<byte>, c: Cache, id: nat, op: Op)
    requires Inv(file, c) && id !in c.ops && WellFormedOp(c, op) && op.status.Submitted?
    requires op.target.Buffer? ==> !c.bufs[op.target.index].valid && !InFlight(c, op.target.index)
    ensures Inv(file, c.(ops := c.ops[id := op]))
  {
    hide WellFormed, Exclusive, Coherent, InFlight;
    var c' := c.(ops := c.ops[id := op]);
    SubmitKeepsShape(c, id, op);
    forall i | i in c'.ops
      ensures WellFormedOp(c', c'.ops[i]) && Delivered(file, c'.ops[i], Contents(c', c'.ops[i]))
    {
      OpWellFormed(c', i);
      if i in c.ops {
        OpWellFormed(c, i);
        assert Contents(c', c.ops[i]) == Contents(c, c.ops[i]);
      }
    }
  }

  lemma OpWellFormed(c: Cache, id: nat)
    requires WellFormed(c) && id in c.ops
    ensures WellFormedOp(c, c.ops[id])
  {}

  lemma ReadKeepsInv(file: seq<byte>, c: Cache, id: nat, offset: nat, length: nat, opAvailable: bool,
        memory: seq<byte>)
    requires Inv(file, c) && id !in c.ops && length > 0 && Safe(c, offset, length)
    requires length > BUF_SIZE ==> |memory| == length
    ensures
      var (c', out) := Read(c, id, offset, length, opAvailable, memory);
      Inv(file, c') && Correct(file, offset, length, out)
  {
    hide Permutation, MoveToBack, Exclusive, Coherent, Delivered;
    if length <= BUF_SIZE {
      var used := UsedBy(c, offset, length);
      MoveKeepsPermutation(c.order, |c.bufs|, used);
      var moved := c.(order := MoveToBack(c.order, used));
      ReorderKeepsInv(file, c, moved.order);
      if Lookup(c.bufs, offset, length) < |c.bufs| {
        HitIsCorrect(file, c.bufs[used], offset, length);
      } else {
        RetireKeepsInv(file, moved, used);
        assert !InFlight(Retired(moved, used), used) by { assert !InFlight(c, used); }
        SubmitKeepsInv(file, Retired(moved, used), id, Op(offset, length, Buffer(used), Submitted, []));
      }
    } else {
      SubmitKeepsInv(file, c, id, Op(offset, length, Direct, Submitted, memory));
    }
  }

  lemma CompleteKeepsShape(file: seq<byte>, c: Cache, id: nat, result: int, memory: seq<byte>)
    requires WellFormed(c) && Exclusive(c) && id in c.ops && KernelMay(file, c.ops[id], result, memory)
    ensures WellFormed(Complete(c, id, result, memory)) && Exclusive(Complete(c, id, result, memory))
  {
    hide Permutation;
    OpWellFormed(c, id);
  }

  lemma CompleteKeepsInv(file: seq<byte>, c: Cache, id: nat, result: int, memory: seq<byte>)
    requires Inv(file, c) && id in c.ops && KernelMay(file, c.ops[id], result, memory)
    ensures Inv(file, Complete(c, id, result, memory))
  {
    hide WellFormed, Permutation;
    var c' := Complete(c, id, result, memory);
    CompleteKeepsShape(file, c, id, result, memory);
    OpWellFormed(c, id);
    forall i | i in c.ops
      ensures WellFormedOp(c', c'.ops[i]) && Delivered(file, c'.ops[i], Contents(c', c'.ops[i]))
    {
      OpWellFormed(c, i);
      OpWellFormed(c', i);
      assert Delivered(file, c.ops[i], Contents(c, c.ops[i]));
      if i != id { assert Contents(c', c.ops[i]) == Contents(c, c.ops[i]); }
    }
  }

  lemma CompletedIsCorrect(file: seq<byte>, op: Op, data: seq<byte>)
    requires Delivered(file, op, data) && op.status.Completed? && 0 < op.length <= op.status.result
    ensures op.offset + op.length <= |file| && data[..op.length] == file[op.offset..op.offset + op.length]
  {
    var result := op.status.result;
    SliceOfSlice(data, 0, result, 0, op.length);
    SliceOfSlice(file, op.offset, op.offset + result, 0, op.length);
  }

  lemma GotReadKeepsShape(c: Cache, id: nat)
    requires WellFormed(c) && Exclusive(c) && id in c.ops && c.ops[id].status.Completed?
    ensures WellFormed(GotRead(c, id).0) && Exclusive(GotRead(c, id).0)
  {
    hide Permutation;
    OpWellFormed(c, id);
  }

  lemma GotReadKeepsInv(file: seq<byte>, c: Cache, id: nat)
    requires Inv(file, c) && id in c.ops && c.ops[id].status.Completed?
    ensures
      var (c', out) := GotRead(c, id);
      Inv(file, c') && Correct(file, c.ops[id].offset, c.ops[id].length, out)
  {
    hide WellFormed, Permutation;
    var (c', out) := GotRead(c, id);
    var op := c.ops[id];
    OpWellFormed(c, id);
    GotReadKeepsShape(c, id);
    assert Delivered(file, op, Contents(c, op));
    forall i | i in c'.ops
      ensures WellFormedOp(c', c'.ops[i]) && Delivered(file, c'.ops[i], Contents(c', c'.ops[i]))
    {
      OpWellFormed(c, i);
      OpWellFormed(c', i);
      assert Delivered(file, c.ops[i], Contents(c, c.ops[i]));
      assert Contents(c', c.ops[i]) == Contents(c, c.ops[i]);
    }
    if out.Dispatched? { CompletedIsCorrect(file, op, Contents(c, op)); }
  }

  // ----- Whole runs -----

  datatype Event =
    | Request(id: nat, offset: nat, length: nat, opAvailable: bool, memory: seq<byte>)
    | KernelDone(id: nat, result: int, memory: seq<byte>)
    | Callback(id: nat)

  ghost predicate Enabled(file: seq<byte>, c: Cache, e: Event) {
    match e
    case Request(id, _, length, _, memory) => id !in c.ops && length > 0 && (length > BUF_SIZE ==> |memory| == length)
    case KernelDone(id, result, memory) => id in c.ops && KernelMay(file, c.ops[id], result, memory)
    case Callback(id) => id in c.ops && c.ops[id].status.Completed?
  }

  ghost function Step(c: Cache, e: Event): (Cache, Outcome)
    requires WellFormed(c)
    requires e.KernelDone? ==> e.id in c.ops
    requires e.Callback? ==> e.id in c.ops && c.ops[e.id].status.Completed?
  {
    match e
    case Request(id, offset, length, opAvailable, memory) => Read(c, id, offset, length, opAvailable, memory)
    case KernelDone(id, result, memory) => (Complete(c, id, result, memory), Queued)
    case Callback(id) => GotRead(c, id)
  }

  /** The bytes the caller behind an event asked for, as (offset, length). */
  function Wanted(c: Cache, e: Event): (nat, nat)
    requires e.Callback? ==> e.id in c.ops
  {
    match e
    case Request(_, offset, length, _, _) => (offset, length)
    case KernelDone(_, _, _) => (0, 0)
    case Callback(id) => (c.ops[id].offset, c.ops[id].length)
  }

  ghost predicate SafeStep(c: Cache, e: Event)
    requires WellFormed(c)
  {
    e.Request? ==> Safe(c, e.offset, e.length)
  }

  lemma StepKeepsInv(file: seq<byte>, c: Cache, e: Event)
    requires Inv(file, c) && Enabled(file, c, e) && SafeStep(c, e)
    ensures
      var (c', out) := Step(c, e);
      var (offset, length) := Wanted(c, e);
      Inv(file, c') && Correct(file, offset, length, out)
  {
    hide WellFormed, Exclusive, Read, Complete, GotRead, Safe, KernelMay;
    match e
    case Request(id, offset, length, opAvailable, memory) =>
      ReadKeepsInv(file, c, id, offset, length, opAvailable, memory);
    case KernelDone(id, result, memory) => CompleteKeepsInv(file, c, id, result, memory);
    case Callback(id) => GotReadKeepsInv(file, c, id);
  }

  /** A run: every event is one that the journal, the kernel or the caller can make happen next. */
  ghost predicate Run(file: seq<byte>, c: Cache, es: seq<Event>)
    decreases es
  {
    es == [] || (WellFormed(c) && Enabled(file, c, es[0]) && Run(file, Step(c, es[0]).0, es[1..]))
  }

  ghost function Final(file: seq<byte>, c: Cache, es: seq<Event>): Cache
    requires Run(file, c, es)
    decreases es
  {
    if es == [] then c else Final(file, Step(c, es[0]).0, es[1..])
  }

  ghost predicate SafeRun(file: seq<byte>, c: Cache, es: seq<Event>)
    requires Run(file, c, es)
    decreases es
  {
    es == [] || (SafeStep(c, es[0]) && SafeRun(file, Step(c, es[0]).0, es[1..]))
  }

  /** A closure dispatched for the bytes [offset, offset + length), with data in dest. */
  datatype Delivery = Delivery(offset: nat, length: nat, data: seq<byte>)

  ghost function Deliveries(file: seq<byte>, c: Cache, es: seq<Event>): seq<Delivery>
    requires Run(file, c, es)
    decreases es
  {
    if es == [] then []
    else
      var (c', out) := Step(c, es[0]);
      var (offset, length) := Wanted(c, es[0]);
      (if out.Dispatched? then [Delivery(offset, length, out.data)] else []) + Deliveries(file, c', es[1..])
  }

  /** What reading the file directly would have put in dest. */
  ghost predicate FromFile(file: seq<byte>, d: Delivery) {
    d.offset + d.length <= |file| && d.data == file[d.offset..d.offset + d.length]
  }

  /** However hits, misses, short reads, errors and completions interleave, every delivery is from the file. */
  lemma {:induction false} SafeRunsDeliverTheFile(file: seq<byte>, c: Cache, es: seq<Event>)
    requires Inv(file, c) && Run(file, c, es) && SafeRun(file, c, es)
    ensures Inv(file, Final(file, c, es))
    ensures forall d :: d in Deliveries(file, c, es) ==> FromFile(file, d)
    decreases es
  {
    hide Step, Inv, SafeStep, Wanted;
    if es != [] {
      StepKeepsInv(file, c, es[0]);
      SafeRunsDeliverTheFile(file, Step(c, es[0]).0, es[1..]);
    }
  }

  // ----- When a request is answered at once -----

  /** Exactly the requests that lie within what a valid buffer has are answered without the kernel, from any buffer. */
  lemma AnsweredExactly(c: Cache, id: nat, offset: nat, length: nat, opAvailable: bool, memory: seq<byte>)
    requires WellFormed(c)
    ensures
      Read(c, id, offset, length, opAvailable, memory).1.Dispatched? <==>
        length <= 8192 &&
        exists i :: 0 <= i < |c.bufs| && c.bufs[i].valid
                    && c.bufs[i].offset <= offset && offset + length <= c.bufs[i].offset + c.bufs[i].length
    ensures
      var (c', out) := Read(c, id, offset, length, opAvailable, memory);
      out.Dispatched? ==> c'.bufs == c.bufs && c'.ops == c.ops
  {
    hide Permutation, MoveToBack;
  }

  /** A buffer has a range of the file, and no read in flight is about to change that. */
  ghost predicate Holds(c: Cache, i: nat, offset: nat, length: nat) {
    && i < |c.bufs| && c.bufs[i].valid && c.bufs[i].offset == offset && c.bufs[i].length == length
    && !InFlight(c, i)
  }

  /** What a read has brought is there from its answer on. */
  lemma AnswerHolds(c: Cache, id: nat)
    requires WellFormed(c) && Exclusive(c) && id in c.ops && c.ops[id].target.Buffer?
    requires c.ops[id].status.Completed? && c.ops[id].status.result >= c.ops[id].length
    ensures
      var op := c.ops[id];
      Holds(GotRead(c, id).0, op.target.index, op.offset, op.status.result)
  {
    hide Permutation;
    OpWellFormed(c, id);
  }

  /** An event that takes a buffer for something else: a request that no buffer has, and this one is the oldest. */
  ghost predicate Refills(c: Cache, e: Event, i: nat)
    requires WellFormed(c)
  {
    && e.Request? && e.length <= 8192 && c.order[0] == i
    && forall j :: 0 <= j < |c.bufs| && c.bufs[j].valid ==>
         !(c.bufs[j].offset <= e.offset && e.offset + e.length <= c.bufs[j].offset + c.bufs[j].length)
  }

  ghost predicate NeverRefilled(file: seq<byte>, c: Cache, es: seq<Event>, i: nat)
    requires Run(file, c, es)
    decreases es
  {
    es == [] || (!Refills(c, es[0], i) && NeverRefilled(file, Step(c, es[0]).0, es[1..], i))
  }

  lemma StepHolds(file: seq<byte>, c: Cache, e: Event, i: nat, offset: nat, length: nat)
    requires WellFormed(c) && Enabled(file, c, e) && Holds(c, i, offset, length)
    ensures Refills(c, e, i) ==> !Step(c, e).0.bufs[i].valid
    ensures !Refills(c, e, i) ==> Holds(Step(c, e).0, i, offset, length)
  {
    hide Permutation, MoveToBack, KernelMay;
    if e.KernelDone? || e.Callback? { OpWellFormed(c, e.id); }
  }

  /** Until the buffer is refilled, every request within that range is answered at once, whatever else happens. */
  lemma {:induction false} StaysAnswered(file: seq<byte>, c: Cache, es: seq<Event>, i: nat, offset: nat, length: nat)
    requires WellFormed(c) && Run(file, c, es) && Holds(c, i, offset, length) && NeverRefilled(file, c, es, i)
    ensures WellFormed(Final(file, c, es)) && Holds(Final(file, c, es), i, offset, length)
    ensures
      forall x: nat, n: nat, id: nat, memory: seq<byte> {:trigger Read(Final(file, c, es), id, x, n, false, memory)} ::
        n <= 8192 && offset <= x && x + n <= offset + length ==>
          Read(Final(file, c, es), id, x, n, false, memory).1.Dispatched?
    decreases es
  {
    hide Step, Read, Refills, WellFormed, KernelMay;
    if es != [] {
      StepKeepsShape(file, c, es[0]);
      StepHolds(file, c, es[0], i, offset, length);
      StaysAnswered(file, Step(c, es[0]).0, es[1..], i, offset, length);
    } else {
      forall x: nat, n: nat, id: nat, memory: seq<byte> | n <= 8192 && offset <= x && x + n <= offset + length
        ensures Read(c, id, x, n, false, memory).1.Dispatched?
      {
        AnsweredExactly(c, id, x, n, false, memory);
      }
    }
  }

  /**
    * A completed buffered read answers, without the kernel and from the file, every request inside what it read until
    * its buffer is refilled.
    */
  lemma ReadAnswersLater(file: seq<byte>, c: Cache, id: nat, es: seq<Event>, later: nat, x: nat, n: nat)
    requires Inv(file, c) && id in c.ops && c.ops[id].target.Buffer? && c.ops[id].status.Completed?
    requires c.ops[id].status.result >= c.ops[id].length
    requires
      var op, after := c.ops[id], GotRead(c, id).0;
      && Run(file, after, es) && SafeRun(file, after, es) && NeverRefilled(file, after, es, op.target.index)
      && 0 < n <= 8192 && op.offset <= x && x + n <= op.offset + op.status.result
    ensures WellFormed(Final(file, GotRead(c, id).0, es))
    ensures
      var out := Read(Final(file, GotRead(c, id).0, es), later, x, n, false, []).1;
      out.Dispatched? && x + n <= |file| && out.data == file[x..x + n]
  {
    hide GotRead, Read, WellFormed, Exclusive, Coherent, Delivered, NeverRefilled, SafeRun, Holds, Run, Final;
    AnswerHolds(c, id);
    GotReadKeepsInv(file, c, id);
    var after, op := GotRead(c, id).0, c.ops[id];
    StaysAnswered(file, after, es, op.target.index, op.offset, op.status.result);
    SafeRunsDeliverTheFile(file, after, es);
    HitFromFile(file, Final(file, after, es), later, x, n);
  }

  /** A request that is answered at once is answered from the file. */
  lemma HitFromFile(file: seq<byte>, c: Cache, id: nat, x: nat, n: nat)
    requires Inv(file, c)
    ensures
      var out := Read(c, id, x, n, false, []).1;
      out.Dispatched? ==> x + n <= |file| && out.data == file[x..x + n]
  {
    hide Permutation, MoveToBack, Coherent, Delivered, Exclusive;
    var hit := Lookup(c.bufs, x, n);
    if n <= BUF_SIZE && hit < |c.bufs| { HitIsCorrect(file, c.bufs[hit], x, n); }
  }

  /** The callers' protocol: a journal is asked only when its last read has been answered. */
  ghost predicate Chained(file: seq<byte>, c: Cache, es: seq<Event>)
    requires Run(file, c, es)
    decreases es
  {
    es == [] || ((es[0].Request? ==> c.ops == map[]) && Chained(file, Step(c, es[0]).0, es[1..]))
  }

  lemma {:induction false} ChainedRunsAreSafe(file: seq<byte>, c: Cache, es: seq<Event>)
    requires Run(file, c, es) && Chained(file, c, es)
    ensures SafeRun(file, c, es)
    decreases es
  {
    hide Step, WellFormed;
    if es != [] {
      ChainedRunsAreSafe(file, Step(c, es[0]).0, es[1..]);
    }
  }

  /** A journal as opened_journal leaves it: n invalid buffers in array order, nothing in flight. */
  ghost function Opened(n: nat): Cache {
    Cache(seq(n, _ => Buf(false, 0, 0, seq(BUF_SIZE, _ => 0 as byte))), seq(n, i => i), map[])
  }

  lemma OpenedInv(file: seq<byte>, n: nat)
    requires n >= 1
    ensures Inv(file, Opened(n))
  {}

  /** The cached reader refines a direct file reader, for every chained run from the open on. */
  lemma CachedReaderRefinesFile(file: seq<byte>, n: nat, es: seq<Event>)
    requires n >= 1 && Run(file, Opened(n), es) && Chained(file, Opened(n), es)
    ensures Inv(file, Final(file, Opened(n), es))
    ensures forall d :: d in Deliveries(file, Opened(n), es) ==> FromFile(file, d)
  {
    hide Step, Chained, SafeRun, Deliveries;
    OpenedInv(file, n);
    ChainedRunsAreSafe(file, Opened(n), es);
    SafeRunsDeliverTheFile(file, Opened(n), es);
  }

  ghost function Requests(es: seq<Event>): nat {
    if es == [] then 0 else (if es[0].Request? then 1 else 0) + Requests(es[1..])
  }

  /** How many requests were answered, by a dispatch or by a failure. */
  ghost function Answers(file: seq<byte>, c: Cache, es: seq<Event>): nat
    requires Run(file, c, es)
    decreases es
  {
    if es == [] then 0
    else
      var (c', out) := Step(c, es[0]);
      (if out.Queued? then 0 else 1) + Answers(file, c', es[1..])
  }

  lemma OpsCount(ops: map<nat, Op>, id: nat, op: Op)
    ensures |ops[id := op]| == if id in ops then |ops| else |ops| + 1
    ensures id in ops ==> |ops - {id}| == |ops| - 1
  {
    assert ops[id := op].Keys == ops.Keys + {id};
    assert (ops - {id}).Keys == ops.Keys - {id};
  }

  lemma ReadAccounts(c: Cache, id: nat, offset: nat, length: nat, opAvailable: bool, memory: seq<byte>)
    requires WellFormed(c) && id !in c.ops
    ensures
      var (c', out) := Read(c, id, offset, length, opAvailable, memory);
      |c'.ops| == if out.Queued? then |c.ops| + 1 else |c.ops|
  {
    hide WellFormed, UsedBy, MoveToBack, Lookup;
    var (c', out) := Read(c, id, offset, length, opAvailable, memory);
    if out.Queued? { OpsCount(c.ops, id, c'.ops[id]); }
  }

  lemma CompletionAccounts(c: Cache, id: nat, result: int, memory: seq<byte>)
    requires WellFormed(c) && id in c.ops
    ensures |Complete(c, id, result, memory).ops| == |c.ops|
  {
    hide WellFormed;
    OpsCount(c.ops, id, Complete(c, id, result, memory).ops[id]);
  }

  lemma CallbackAccounts(c: Cache, id: nat)
    requires WellFormed(c) && id in c.ops && c.ops[id].status.Completed?
    ensures |GotRead(c, id).0.ops| == |c.ops| - 1 && !GotRead(c, id).1.Queued?
  {
    hide WellFormed;
    OpsCount(c.ops, id, c.ops[id]);
  }

  /** No request is lost and none is answered twice. */
  lemma {:induction false} EveryRequestAccounted(file: seq<byte>, c: Cache, es: seq<Event>)
    requires Run(file, c, es)
    ensures |Final(file, c, es).ops| + Answers(file, c, es) == |c.ops| + Requests(es)
    decreases es
  {
    hide WellFormed, KernelMay, Read, Complete, GotRead;
    if es != [] {
      match es[0] {
        case Request(id, offset, length, opAvailable, memory) =>
          ReadAccounts(c, id, offset, length, opAvailable, memory);
        case KernelDone(id, result, memory) => CompletionAccounts(c, id, result, memory);
        case Callback(id) => CallbackAccounts(c, id);
      }
      EveryRequestAccounted(file, Step(c, es[0]).0, es[1..]);
    }
  }

  // ----- Eviction on whole runs -----

  /** The buffers that a run uses, in order: one for each request that fits in a buffer. */
  ghost function Uses(file: seq<byte>, c: Cache, es: seq<Event>): seq<nat>
    requires Run(file, c, es)
    decreases es
  {
    if es == [] then []
    else
      var used := if es[0].Request? && es[0].length <= BUF_SIZE then [UsedBy(c, es[0].offset, es[0].length)] else [];
      used + Uses(file, Step(c, es[0]).0, es[1..])
  }

  lemma {:induction false} AfterFirst(order: seq<nat>, x: nat, uses: seq<nat>)
    requires Permutation(order, |order|) && x in order && UsesOf(order, uses)
    ensures Permutation(MoveToBack(order, x), |order|) && |MoveToBack(order, x)| == |order| && UsesOf(order, [x] + uses)
    ensures After(order, [x] + uses) == After(MoveToBack(order, x), uses)
    decreases |uses|
  {
    hide MoveToBack;
    MoveKeepsPermutation(order, |order|, x);
    if uses == [] {
      assert [x] + uses == [x] && [x][..0] == [];
    } else {
      var n := |uses| - 1;
      AfterFirst(order, x, uses[..n]);
      assert ([x] + uses)[..n + 1] == [x] + uses[..n];
    }
  }

  /** The order of a run is the order of its uses. */
  lemma {:induction false} RunFollowsLru(file: seq<byte>, c: Cache, es: seq<Event>)
    requires WellFormed(c) && Run(file, c, es)
    ensures UsesOf(c.order, Uses(file, c, es))
    ensures WellFormed(Final(file, c, es)) && |Final(file, c, es).bufs| == |c.bufs|
    ensures Final(file, c, es).order == After(c.order, Uses(file, c, es))
    decreases es
  {
    hide Step, MoveToBack, Lookup, KernelMay;
    if es != [] {
      StepKeepsShape(file, c, es[0]);
      var c' := Step(c, es[0]).0;
      var rest := Uses(file, c', es[1..]);
      RunFollowsLru(file, c', es[1..]);
      if es[0].Request? && es[0].length <= BUF_SIZE {
        var used := UsedBy(c, es[0].offset, es[0].length);
        AfterFirst(c.order, used, rest);
      } else {
        assert [] + rest == rest;
      }
    }
  }

  lemma StepKeepsShape(file: seq<byte>, c: Cache, e: Event)
    requires WellFormed(c) && Enabled(file, c, e)
    ensures WellFormed(Step(c, e).0) && |Step(c, e).0.bufs| == |c.bufs|
    ensures
      Step(c, e).0.order == if e.Request? && e.length <= BUF_SIZE
                            then MoveToBack(c.order, UsedBy(c, e.offset, e.length)) else c.order
  {
    hide MoveToBack, Permutation, Lookup;
    if e.Request? && e.length <= BUF_SIZE {
      MoveKeepsPermutation(c.order, |c.bufs|, UsedBy(c, e.offset, e.length));
    }
    var c' := Step(c, e).0;
    forall id | id in c'.ops ensures WellFormedOp(c', c'.ops[id]) {
      if id in c.ops { assert WellFormedOp(c, c.ops[id]); }
    }
  }

  /** On every run, the buffer that a miss refills is the one whose last use is the oldest. */
  lemma VictimIsOldest(file: seq<byte>, c: Cache, es: seq<Event>, offset: nat, length: nat)
    requires WellFormed(c) && Run(file, c, es)
    requires WellFormed(Final(file, c, es)) && Lookup(Final(file, c, es).bufs, offset, length) == |c.bufs|
    ensures |Final(file, c, es).bufs| == |c.bufs|
    ensures
      var victim := UsedBy(Final(file, c, es), offset, length);
      victim in c.order && forall y :: y in c.order && y != victim ==> Older(c.order, Uses(file, c, es), victim, y)
  {
    hide Uses, Final, After, Older, Run;
    RunFollowsLru(file, c, es);
    var victim := UsedBy(Final(file, c, es), offset, length);
    PermutationComplete(c.order, |c.bufs|, victim);
    HeadIsOldest(c.order, Uses(file, c, es), victim);
  }

  /** A buffer in flight was used by the request that put it in flight. */
  lemma {:induction false} InFlightWasUsed(file: seq<byte>, c: Cache, es: seq<Event>, i: nat)
    requires WellFormed(c) && Run(file, c, es) && InFlight(Final(file, c, es), i)
    ensures InFlight(c, i) || i in Uses(file, c, es)
    decreases es
  {
    hide MoveToBack, Permutation, Lookup, KernelMay;
    if es != [] {
      var c' := Step(c, es[0]).0;
      StepKeepsShape(file, c, es[0]);
      InFlightWasUsed(file, c', es[1..], i);
      if InFlight(c', i) && !InFlight(c, i) {
        var id :| id in c'.ops && c'.ops[id].target == Buffer(i);
        assert es[0].Request? && es[0].length <= BUF_SIZE && UsedBy(c, es[0].offset, es[0].length) == i;
      }
    }
  }

  /**
    * Exactly when a request is unsafe: it is small enough for a buffer, no valid buffer has what it asks for, and
    * some buffer in flight has seen every other buffer used since its own last use.
    */
  lemma UnsafeExactly(file: seq<byte>, c: Cache, es: seq<Event>, offset: nat, length: nat)
    requires WellFormed(c) && c.ops == map[] && Run(file, c, es) && WellFormed(Final(file, c, es))
    ensures
      var uses, now := Uses(file, c, es), Final(file, c, es);
      !Safe(now, offset, length) <==>
        && length <= 8192
        && (forall k :: 0 <= k < |now.bufs| && now.bufs[k].valid && now.bufs[k].offset <= offset ==>
              offset + length > now.bufs[k].offset + now.bufs[k].length)
        && exists i :: i in c.order && InFlight(now, i)
                       && forall y :: y in c.order && y != i ==> y in uses[LastUse(uses, i) + 1..]
  {
    hide Uses, Final, After, LastUse, Run;
    var uses, c' := Uses(file, c, es), Final(file, c, es);
    RunFollowsLru(file, c, es);
    forall i | i in c.order && InFlight(c', i)
      ensures i == c'.order[0] <==> forall y :: y in c.order && y != i ==> y in uses[LastUse(uses, i) + 1..]
    {
      InFlightWasUsed(file, c, es, i);
      NotRecycledEarly(c.order, uses, i);
    }
    PermutationComplete(c.order, |c.bufs|, c'.order[0]);
  }

  /** So any number of reads may be in flight while fewer than n - 1 different buffers were used since each. */
  lemma FewReadsAreSafe(file: seq<byte>, c: Cache, es: seq<Event>, offset: nat, length: nat)
    requires WellFormed(c) && c.ops == map[] && Run(file, c, es) && WellFormed(Final(file, c, es))
    requires
      var uses := Uses(file, c, es);
      forall i :: InFlight(Final(file, c, es), i) ==>
        |Elements(uses[LastUse(uses, i) + 1..])| < |c.bufs| - 1
    ensures Safe(Final(file, c, es), offset, length)
  {
    hide Uses, Final, After, LastUse, Run, Lookup, Elements;
    var uses, c' := Uses(file, c, es), Final(file, c, es);
    RunFollowsLru(file, c, es);
    var head := c'.order[0];
    PermutationComplete(c.order, |c.bufs|, head);
    if InFlight(c', head) {
      InFlightWasUsed(file, c, es, head);
      SafeForAWhile(c.order, uses, head);
    }
  }

  // ----- What an unsafe miss can lead to -----

  ghost function Padded(data: seq<byte>): (memory: seq<byte>)
    ensures |data| <= BUF_SIZE ==> |memory| == BUF_SIZE && memory[..|data|] == data
  {
    data + seq(if |data| <= BUF_SIZE then BUF_SIZE - |data| else 0, _ => 0 as byte)
  }

  /** As many bytes of the file as a buffer has room for. */
  ghost function BufferFull(file: seq<byte>, offset: nat): (data: seq<byte>)
    requires offset <= |file|
    ensures |data| <= BUF_SIZE && offset + |data| <= |file| && data == file[offset..offset + |data|]
    ensures |data| == BUF_SIZE || offset + |data| == |file|
  {
    if offset + BUF_SIZE <= |file| then file[offset..offset + BUF_SIZE] else file[offset..]
  }

  /** The second read succeeds as far as the file goes, and the first is answered after that. */
  ghost function Reuse(file: seq<byte>, x: nat, id: nat, offset: nat): seq<Event>
    requires offset <= |file|
  {
    [KernelDone(id, |BufferFull(file, offset)|, Padded(BufferFull(file, offset))), Callback(x)]
  }

  /** A request takes the buffer of a read in flight, which has succeeded or then succeeds. */
  ghost function Overwritten(file: seq<byte>, c: Cache, x: nat, id: nat, offset: nat, length: nat): seq<Event>
    requires x in c.ops && c.ops[x].offset + c.ops[x].length <= |file| && offset <= |file|
  {
    var first := c.ops[x];
    [Request(id, offset, length, true, [])] +
    (if first.status.Submitted?
     then [KernelDone(x, first.length, Padded(file[first.offset..first.offset + first.length]))] else []) +
    Reuse(file, x, id, offset)
  }

  /** A read in flight that the caller will get an answer with data from, if nothing goes wrong. */
  ghost predicate Succeeding(file: seq<byte>, op: Op) {
    op.offset + op.length <= |file| && (op.status.Completed? ==> op.status.result >= op.length)
  }

  /** Without the guard the claim is false: if the two reads differ anywhere, a wrong answer can be delivered. */
  lemma UnsafeReadsMisdeliver(file: seq<byte>, c: Cache, x: nat, id: nat, offset: nat, length: nat, k: nat)
    requires WellFormed(c) && 0 < length <= BUF_SIZE && id !in c.ops
    requires Lookup(c.bufs, offset, length) == |c.bufs|
    requires x in c.ops && c.ops[x].target == Buffer(c.order[0]) && Succeeding(file, c.ops[x])
    requires k < c.ops[x].length && offset + k < |file| && file[c.ops[x].offset + k] != file[offset + k]
    ensures
      var es := Overwritten(file, c, x, id, offset, length);
      Run(file, c, es) && exists d :: d in Deliveries(file, c, es) && !FromFile(file, d)
  {
    hide MoveToBack, Lookup, UsedBy, Padded, Run, Deliveries, Step, KernelMay, Wanted, Reuse, FromFile;
    assert WellFormedOp(c, c.ops[x]);
    var es, e, rest := Overwritten(file, c, x, id, offset, length), Request(id, offset, length, true, []),
      Reuse(file, x, id, offset);
    var c1 := Step(c, e).0;
    SubmittedNext(file, c, e);
    assert WellFormedOp(c1, c1.ops[id]);
    if c.ops[x].status.Submitted? {
      var first := c.ops[x];
      var done := KernelDone(x, first.length, Padded(file[first.offset..first.offset + first.length]));
      KernelReads(file, c1.ops[x]);
      CompletedNext(file, c1, done);
      ReusedMisdelivers(file, Step(c1, done).0, x, id, offset, k);
      RunCons(file, c1, done, rest);
      RunCons(file, c, e, [done] + rest);
      assert es == [e] + ([done] + rest);
    } else {
      ReusedMisdelivers(file, c1, x, id, offset, k);
      RunCons(file, c, e, rest);
      assert es == [e] + rest;
    }
  }

  /** Two reads share a buffer, and the one that has been completed is answered from what the other one leaves there. */
  lemma ReusedMisdelivers(file: seq<byte>, c: Cache, x: nat, id: nat, offset: nat, k: nat)
    requires WellFormed(c) && x in c.ops && id in c.ops && x != id && offset <= |file|
    requires c.ops[x].target.Buffer? && c.ops[id].target == c.ops[x].target
    requires c.ops[x].offset + c.ops[x].length <= |file|
    requires c.ops[x].status.Completed? && c.ops[x].status.result >= c.ops[x].length
    requires c.ops[id].status.Submitted? && c.ops[id].offset == offset
    requires k < c.ops[x].length && offset + k < |file| && file[c.ops[x].offset + k] != file[offset + k]
    ensures
      var es := Reuse(file, x, id, offset);
      Run(file, c, es) && exists d :: d in Deliveries(file, c, es) && !FromFile(file, d)
  {
    hide MoveToBack, Lookup, UsedBy, Padded, Run, Deliveries, Step, KernelMay, Wanted, WellFormed, BufferFull;
    hide FromFile;
    var es, first := Reuse(file, x, id, offset), c.ops[x];
    KernelFills(file, c.ops[id]);
    CompletedNext(file, c, es[0]);
    var c1 := Step(c, es[0]).0;
    AnsweredNext(file, c1, es[1]);
    RunNothing(file, Step(c1, es[1]).0);
    RunCons(file, c1, es[1], []);
    RunCons(file, c, es[0], [es[1]] + []);
    assert es == [es[0]] + ([es[1]] + []);
    var d := Delivery(first.offset, first.length, es[0].memory[..first.length]);
    FirstBytes(file, c, x, k);
    PaddedHas(BufferFull(file, offset), k);
    assert d.data[k] == BufferFull(file, offset)[k] == file[offset + k];
    NotFromFile(file, d, k);
  }

  lemma NotFromFile(file: seq<byte>, d: Delivery, k: nat)
    requires d.offset + d.length <= |file| && k < d.length == |d.data| && d.data[k] != file[d.offset + k]
    ensures !FromFile(file, d)
  {
    assert file[d.offset..d.offset + d.length][k] == file[d.offset + k];
  }

  lemma FirstBytes(file: seq<byte>, c: Cache, x: nat, k: nat)
    requires WellFormed(c) && x in c.ops && c.ops[x].target.Buffer? && k < c.ops[x].length
    ensures k < BUF_SIZE && c.ops[x].length <= BUF_SIZE
  {
    assert WellFormedOp(c, c.ops[x]);
  }

  lemma PaddedHas(data: seq<byte>, k: nat)
    requires k < |data| <= BUF_SIZE
    ensures Padded(data)[k] == data[k]
  {}

  /** The kernel may read as much as a buffer has room for. */
  lemma KernelFills(file: seq<byte>, op: Op)
    requires op.status.Submitted? && op.target.Buffer? && op.offset <= |file|
    ensures
      var data := BufferFull(file, op.offset);
      KernelMay(file, op, |data|, Padded(data)) && |Padded(data)| == BUF_SIZE
  {
    hide BufferFull;
  }

  /** The kernel may read all that a request for a buffer wants. */
  lemma KernelReads(file: seq<byte>, op: Op)
    requires op.status.Submitted? && op.target.Buffer? && op.length <= BUF_SIZE && op.offset + op.length <= |file|
    ensures KernelMay(file, op, op.length, Padded(file[op.offset..op.offset + op.length]))
  {}

  /** The answer to a read that was completed into a buffer. */
  lemma AnsweredNext(file: seq<byte>, c: Cache, e: Event)
    requires WellFormed(c) && e.Callback? && e.id in c.ops && c.ops[e.id].target.Buffer?
    requires c.ops[e.id].status.Completed? && c.ops[e.id].status.result >= c.ops[e.id].length
    ensures Enabled(file, c, e) && Wanted(c, e) == (c.ops[e.id].offset, c.ops[e.id].length)
    ensures
      var op := c.ops[e.id];
      && op.target.index < |c.bufs| && op.length <= |c.bufs[op.target.index].data|
      && Step(c, e).1 == Dispatched(c.bufs[op.target.index].data[..op.length])
  {
    hide Permutation;
    assert WellFormedOp(c, c.ops[e.id]);
  }

  lemma RunNothing(file: seq<byte>, c: Cache)
    ensures Run(file, c, [])
  {}

  /** A miss puts the head buffer in flight, and leaves the reads in flight alone. */
  lemma SubmittedNext(file: seq<byte>, c: Cache, e: Event)
    requires WellFormed(c) && e.Request? && Enabled(file, c, e) && e.length <= BUF_SIZE && e.opAvailable
    requires Lookup(c.bufs, e.offset, e.length) == |c.bufs|
    ensures
      var c' := Step(c, e).0;
      && WellFormed(c') && |c'.bufs| == |c.bufs|
      && c'.ops == c.ops[e.id := Op(e.offset, e.length, Buffer(c.order[0]), Submitted, [])]
  {
    hide MoveToBack, Lookup;
    StepKeepsShape(file, c, e);
  }

  lemma CompletedNext(file: seq<byte>, c: Cache, e: Event)
    requires WellFormed(c) && e.KernelDone? && Enabled(file, c, e)
    requires e.id in c.ops && c.ops[e.id].target.Buffer?
    ensures
      var c' := Step(c, e).0;
      && WellFormed(c') && |c'.bufs| == |c.bufs|
      && c'.ops == c.ops[e.id := c.ops[e.id].(status := Completed(e.result), dest := [])]
      && c'.bufs[c.ops[e.id].target.index].data == e.memory
  {
    hide MoveToBack, Lookup, Permutation;
    StepKeepsShape(file, c, e);
  }

  /** One more event in front of a run. */
  lemma RunCons(file: seq<byte>, c: Cache, e: Event, rest: seq<Event>)
    requires WellFormed(c) && Enabled(file, c, e) && Run(file, Step(c, e).0, rest)
    ensures Run(file, c, [e] + rest)
    ensures forall d :: d in Deliveries(file, Step(c, e).0, rest) ==> d in Deliveries(file, c, [e] + rest)
    ensures
      var (offset, length) := Wanted(c, e);
      Step(c, e).1.Dispatched? ==> Delivery(offset, length, Step(c, e).1.data) in Deliveries(file, c, [e] + rest)
  {
    hide Step, WellFormed, Wanted;
    assert ([e] + rest)[1..] == rest;
  }

  // ----- Such a state is reached with any number of buffers -----

  /** The first m of n buffers are in flight, each with a read of one byte at a, and none is valid. */
  ghost predicate Filled(c: Cache, n: nat, m: nat, a: nat) {
    && WellFormed(c) && |c.bufs| == n && m <= n
    && (forall i :: 0 <= i < n ==> !c.bufs[i].valid)
    && (forall i :: 0 <= i < n ==> c.order[i] == if i + m < n then i + m else i + m - n)
    && (forall id: nat :: id in c.ops <==> id < m)
    && (forall id :: id in c.ops ==> c.ops[id] == Op(a, 1, Buffer(id), Submitted, []))
  }

  lemma {:induction false} NothingCovers(bufs: seq<Buf>, offset: nat, length: nat)
    requires forall i :: 0 <= i < |bufs| ==> !bufs[i].valid
    ensures Lookup(bufs, offset, length) == |bufs|
  {
    if bufs != [] { NothingCovers(bufs[1..], offset, length); }
  }

  lemma FillOne(file: seq<byte>, c: Cache, n: nat, m: nat, a: nat)
    requires Filled(c, n, m, a) && m < n
    ensures
      var e := Request(m, a, 1, true, []);
      Enabled(file, c, e) && Filled(Step(c, e).0, n, m + 1, a)
  {
    hide Lookup, MoveToBack;
    var e := Request(m, a, 1, true, []);
    NothingCovers(c.bufs, a, 1);
    assert UsedBy(c, a, 1) == c.order[0] == m;
    StepKeepsShape(file, c, e);
    HeadMoved(c.order);
    assert Step(c, e).0.order == c.order[1..] + [m];
  }

  lemma HeadMoved(order: seq<nat>)
    requires order != []
    ensures MoveToBack(order, order[0]) == order[1..] + [order[0]]
  {
    assert IndexOf(order, order[0]) == 0;
  }

  /** From there on: the other buffers are put in flight, too, and then one more byte is asked for. */
  lemma {:induction false} FilledMisdelivers(file: seq<byte>, c: Cache, n: nat, m: nat, a: nat, b: nat)
    returns (es: seq<Event>)
    requires n >= 1 && Filled(c, n, m, a) && a < |file| && b < |file| && file[a] != file[b]
    ensures Run(file, c, es) && exists d :: d in Deliveries(file, c, es) && !FromFile(file, d)
    decreases n - m
  {
    hide Step, Run, Deliveries, FromFile, Overwritten, Lookup;
    if m == n {
      NothingCovers(c.bufs, b, 1);
      UnsafeReadsMisdeliver(file, c, 0, n, b, 1, 0);
      es := Overwritten(file, c, 0, n, b, 1);
    } else {
      var e := Request(m, a, 1, true, []);
      FillOne(file, c, n, m, a);
      var rest := FilledMisdelivers(file, Step(c, e).0, n, m + 1, a, b);
      RunCons(file, c, e, rest);
      es := [e] + rest;
    }
  }

  lemma OpenedFilled(n: nat, a: nat)
    requires n >= 1
    ensures Filled(Opened(n), n, 0, a)
  {
    OpenedInv([], n);
    var c := Opened(n);
    assert forall i :: 0 <= i < n ==> !c.bufs[i].valid && c.order[i] == i;
    assert forall id: nat :: id !in c.ops;
  }

  /** Opened with any number of buffers, a journal can be made to deliver what is not in the file, unless all bytes of
      the file are the same: chaining the reads is not only sufficient for the refinement. */
  lemma UnchainedRunsMisdeliver(file: seq<byte>, n: nat, a: nat, b: nat) returns (es: seq<Event>)
    requires n >= 1 && a < |file| && b < |file| && file[a] != file[b]
    ensures Run(file, Opened(n), es) && exists d :: d in Deliveries(file, Opened(n), es) && !FromFile(file, d)
  {
    hide Run, Deliveries, FromFile;
    OpenedFilled(n, a);
    es := FilledMisdelivers(file, Opened(n), n, 0, a, b);
  }
}
