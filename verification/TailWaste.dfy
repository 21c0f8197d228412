/**
 The tail-waste report (src/report-tail-waste.c:34-74): how much of each file lies behind
 its tail object, by journal state and in total.
 */
module TailWaste {
  import CacheProtocol
  import opened Bytes
  import opened Counters
  import opened JournalCache
  import opened JournalFile
  import opened JournalSample
  import opened Lru
  import opened ObjectIterator
  import opened ObjectWalk
  import opened Schedules

  /** What print_tail_waste is dispatched with: the file's size, its header, and the header of its tail object. */
  datatype Visit = Visit(size: nat, header: Header, tailObject: ObjectHeader)

  /** tail_object_offset + ALIGN64(size), in 64 bits */
  function Tail(v: Visit): nat {
    (v.header.tailObjectOffset + Align64(v.tailObject.size)) % U64_LIMIT
  }

  /** sz - tail, in 64 bits */
  function Waste(v: Visit): nat {
    (v.size + U64_LIMIT - Tail(v)) % U64_LIMIT
  }

  /** Where the tail object ends, padding included, without any wrap-around. */
  function EndOfTail(v: Visit): nat {
    v.header.tailObjectOffset + Aligned(v.tailObject.size)
  }

  /** The size of a file, the offset and the size of its tail object are 64-bit numbers. */
  predicate Fits(v: Visit) {
    v.size < U64_LIMIT && v.header.tailObjectOffset < U64_LIMIT && v.tailObject.size < U64_LIMIT
  }

  /** A file that ends before its tail object does, where 64 bits can say where that is. */
  predicate Short(v: Visit) {
    v.size < EndOfTail(v) < U64_LIMIT
  }

  lemma TailWraps(v: Visit)
    requires Fits(v)
    ensures Tail(v) == if EndOfTail(v) < U64_LIMIT then EndOfTail(v) else EndOfTail(v) - U64_LIMIT
    ensures EndOfTail(v) >= U64_LIMIT ==> Tail(v) <= v.header.tailObjectOffset
  {
    hide Aligned, Align64;
    AlignWraps(v.tailObject.size);
  }

  lemma WasteIs(v: Visit)
    requires v.size < U64_LIMIT
    ensures Waste(v) == if Tail(v) <= v.size then v.size - Tail(v) else v.size + U64_LIMIT - Tail(v)
  {
    hide Align64;
  }

  /**
   sz - tail is the waste if and only if the file reaches to the end of its tail object.  Where it does not, the
   subtraction wraps around, or, if that end is past 64 bits, some of what lies behind the start of the tail object
   counts as waste.
   */
  lemma WasteExactly(v: Visit)
    requires Fits(v)
    ensures Waste(v) == v.size - EndOfTail(v) <==> EndOfTail(v) <= v.size
    ensures Short(v) ==> Waste(v) == U64_LIMIT - (EndOfTail(v) - v.size)
    ensures
      EndOfTail(v) >= U64_LIMIT && v.header.tailObjectOffset <= v.size ==>
        Waste(v) == v.size - (EndOfTail(v) - U64_LIMIT) >= v.size - v.header.tailObjectOffset
  {
    hide Tail, Waste, Aligned;
    TailWraps(v);
    WasteIs(v);
  }

  /** A truncated archived journal: the one object it has says 1000 bytes, and the file ends behind its header. */
  function ShortFile(): (file: seq<byte>)
    ensures |file| == 272
  {
    HeaderBytes(0, 2, Zeros(16), 256, 256) + ObjectBytes(1, 0, 1000)
  }

  /** Its waste is reported as just below 2^64 bytes. */
  lemma ShortFileWastes()
    ensures Readily(ShortFile()) && ParseHeader(ShortFile()).state == STATE_ARCHIVED
    ensures Tail(VisitOf(ShortFile())) == 1256 && Waste(VisitOf(ShortFile())) == U64_LIMIT - 984
  {
    hide HeaderBytes, ObjectBytes, ParseHeader, ObjectAt;
    var start, o := HeaderBytes(0, 2, Zeros(16), 256, 256), ObjectBytes(1, 0, 1000);
    HeaderIs(0, 2, Zeros(16), 256, 256, o);
    ObjectIs(start, 1, 0, 1000, []);
    assert start + o + [] == ShortFile();
  }

  /** An archived journal whose one object says 2^64 - 1 bytes. */
  function LostFile(): (file: seq<byte>)
    ensures |file| == 272
  {
    HeaderBytes(0, 2, Zeros(16), 256, 256) + ObjectBytes(1, 0, 0xffff_ffff_ffff_ffff)
  }

  /** The header of that object is reported as waste, although it does not end within the file. */
  lemma LostFileWastes()
    ensures Readily(LostFile()) && ParseHeader(LostFile()).state == STATE_ARCHIVED
    ensures ParseHeader(LostFile()).tailObjectOffset == 256
    ensures EndOfTail(VisitOf(LostFile())) > |LostFile()|
    ensures Tail(VisitOf(LostFile())) == 256 && Waste(VisitOf(LostFile())) == 16
  {
    hide HeaderBytes, ObjectBytes, ParseHeader, ObjectAt;
    var start, o := HeaderBytes(0, 2, Zeros(16), 256, 256), ObjectBytes(1, 0, 0xffff_ffff_ffff_ffff);
    HeaderIs(0, 2, Zeros(16), 256, 256, o);
    ObjectIs(start, 1, 0, 0xffff_ffff_ffff_ffff, []);
    assert start + o + [] == LostFile();
  }

  /** The header and the header of the tail object can be read. */
  predicate Readily(file: seq<byte>) {
    |file| >= HEADER_BYTES && HasObject(file, ParseHeader(file).tailObjectOffset)
  }

  /** What is visited of a file whose tail object can be read. */
  function VisitOf(file: seq<byte>): Visit
    requires Readily(file)
  {
    Visit(|file|, ParseHeader(file), ObjectAt(file, ParseHeader(file).tailObjectOffset))
  }

  lemma VisitFits(file: seq<byte>)
    requires Readily(file) && |file| < U64_LIMIT
    ensures Fits(VisitOf(file)) && EndOfTail(VisitOf(file)) == TailEnd(file, ParseHeader(file))
    ensures VisitOf(file).header.tailObjectOffset < |file|
  {
    hide U64At, Aligned;
  }

  lemma TailIsTailEnd(file: seq<byte>)
    requires Readily(file) && TailEnd(file, ParseHeader(file)) <= |file| < U64_LIMIT
    ensures Tail(VisitOf(file)) == TailEnd(file, ParseHeader(file))
  {
    hide Readily, VisitOf, ParseHeader, Tail, TailEnd, EndOfTail;
    VisitFits(file);
    TailWraps(VisitOf(file));
  }

  /** On a walk that lands on the tail object, the waste is all that header, objects and padding leave over. */
  lemma WasteIsTheRest(file: seq<byte>)
    requires Readily(file)
    requires TailEnd(file, ParseHeader(file)) <= |file| < U64_LIMIT
    requires ParseHeader(file).tailObjectOffset in Offsets(file, ParseHeader(file), ParseHeader(file).headerSize)
    ensures
      var h := ParseHeader(file);
      var s := Offsets(file, h, h.headerSize);
      && Chain(file, h, h.headerSize, s)
      && |file| == h.headerSize + TotalSize(file, s) + TotalPadding(file, s) + Waste(VisitOf(file))
  {
    hide ParseHeader, ObjectAt, HasObject, Align64, Offsets, TotalSize, TotalPadding, Waste, Tail, EndOfTail;
    VisitFits(file);
    WasteExactly(VisitOf(file));
    ArenaTiles(file, ParseHeader(file));
  }

  // ----- The totals -----

  datatype Totals = Totals(counts: seq<nat>, bytes: seq<nat>, total: nat, fileSize: nat, journals: nat)

  ghost predicate Stated(visits: seq<Visit>) {
    forall i :: 0 <= i < |visits| ==> visits[i].header.state as nat < STATE_MAX
  }

  /** Whether a visit is to a journal in this state. */
  function InState(visits: seq<Visit>, state: nat): nat -> nat {
    (i: nat) => if i < |visits| && visits[i].header.state as nat == state then 1 else 0
  }

  function WasteInState(visits: seq<Visit>, state: nat): nat -> nat {
    (i: nat) => if i < |visits| && visits[i].header.state as nat == state then Waste(visits[i]) else 0
  }

  function Wastes(visits: seq<Visit>): nat -> nat {
    (i: nat) => if i < |visits| then Waste(visits[i]) else 0
  }

  function Sizes(visits: seq<Visit>): nat -> nat {
    (i: nat) => if i < |visits| then visits[i].size else 0
  }

  /** What the totals are after these journals, in this order. */
  ghost function TotalsOf(visits: seq<Visit>, order: seq<nat>): Totals {
    Totals(seq(STATE_MAX, state requires 0 <= state => SumInOrder(InState(visits, state), order)),
           seq(STATE_MAX, state requires 0 <= state => SumInOrder(WasteInState(visits, state), order)),
           SumInOrder(Wastes(visits), order), SumInOrder(Sizes(visits), order), |order|)
  }

  /** tail_waste_t */
  class Report {
    const perStateCounts: array<nat>
    const perStateBytes: array<nat>
    var total: nat
    var totalFileSize: nat
    var nJournals: nat

    ghost predicate Valid() {
      perStateCounts.Length == perStateBytes.Length == STATE_MAX && perStateCounts != perStateBytes
    }

    ghost function Value(): Totals
      reads this, perStateCounts, perStateBytes
    {
      Totals(perStateCounts[..], perStateBytes[..], total, totalFileSize, nJournals)
    }

    constructor ()
      ensures Valid() && forall visits :: Value() == TotalsOf(visits, [])
      ensures fresh(perStateCounts) && fresh(perStateBytes)
    {
      perStateCounts := new nat[STATE_MAX](_ => 0);
      perStateBytes := new nat[STATE_MAX](_ => 0);
      total, totalFileSize, nJournals := 0, 0, 0;
    }

    /**
     print_tail_waste, for the j-th of the journals of a run.  It counts by the state in the header unchecked: a state
     there is no counter for makes it write past its counters, and nothing is said of the rest.
     */
    method PrintTailWaste(v: Visit, ghost visits: seq<Visit>, ghost order: seq<nat>, ghost j: nat)
      returns (inBounds: bool)
      requires Valid() && Value() == TotalsOf(visits, order) && j < |visits| && v == visits[j]
      modifies this, perStateCounts, perStateBytes
      ensures inBounds <==> v.header.state as nat < STATE_MAX
      ensures Value() == TotalsOf(visits, if inBounds then order + [j] else order)
    {
      hide TotalsOf, Align64;
      var tail := (v.header.tailObjectOffset + Align64(v.tailObject.size)) % U64_LIMIT;
      var waste := (v.size + U64_LIMIT - tail) % U64_LIMIT;
      var state := v.header.state as nat;
      if state >= STATE_MAX {
        return false;
      }
      TotalsNext(visits, order, j);
      perStateBytes[state] := perStateBytes[state] + waste;
      total := total + waste;
      totalFileSize := totalFileSize + v.size;
      perStateCounts[state] := perStateCounts[state] + 1;
      nJournals := nJournals + 1;
      return true;
    }

    /** All journals of a run, in some order. */
    method VisitAll(visits: seq<Visit>, order: seq<nat>) returns (inBounds: bool)
      requires Valid() && Value() == TotalsOf(visits, [])
      requires forall i :: 0 <= i < |order| ==> order[i] < |visits|
      modifies this, perStateCounts, perStateBytes
      ensures inBounds <==> forall i :: 0 <= i < |order| ==> visits[order[i]].header.state as nat < STATE_MAX
      ensures inBounds ==> Value() == TotalsOf(visits, order)
    {
      hide TotalsOf;
      for i := 0 to |order|
        invariant Value() == TotalsOf(visits, order[..i])
        invariant forall k :: 0 <= k < i ==> visits[order[k]].header.state as nat < STATE_MAX
      {
        inBounds := PrintTailWaste(visits[order[i]], visits, order[..i], order[i]);
        if !inBounds {
          return false;
        }
        assert order[..i + 1] == order[..i] + [order[i]];
      }
      assert order[..|order|] == order;
      return true;
    }
  }

  // ----- One journal -----

  datatype Outcome = Printed | Failed | PastCounters

  /** The report is not part of the journal. */
  ghost predicate Apart(report: Report, journal: Journal) {
    var ours: set<object> := {report, report.perStateCounts, report.perStateBytes};
    var theirs: set<object> := (set o: object | o in journal.bufs) + (set o: object | o in journal.datas) + {journal};
    ours !! theirs
  }

  /** Both reads are answered with what the file holds. */
  ghost predicate Served(file: seq<byte>, first: Reply, second: Reply) {
    && Readily(file) && Willing(file, 0, HEADER_BYTES, first)
    && Willing(file, ParseHeader(file).tailObjectOffset, OBJECT_HEADER_BYTES, second)
  }

  /** journal_get_header and journal_get_object_header at its tail_object_offset. */
  method LoadVisit(journal: Journal, first: Reply, second: Reply, ghost file: seq<byte>)
    returns (loaded: bool, header: Header, tailObject: ObjectHeader)
    requires Idle(journal, file) && Honest(file, 0, HEADER_BYTES, first)
    requires
      |file| >= HEADER_BYTES ==> Honest(file, ParseHeader(file).tailObjectOffset, OBJECT_HEADER_BYTES, second)
    modifies journal, journal.bufs, journal.datas
    ensures Idle(journal, file)
    ensures loaded ==> Readily(file) && VisitOf(file) == Visit(|file|, header, tailObject)
    ensures Served(file, first, second) ==> loaded
  {
    hide CacheProtocol.Inv, Journal.Valid, Willing, Honest, ParseHeader, ObjectAt, HasObject;
    tailObject := ObjectHeader(0, 0, 0);
    var answer;
    answer, header := LoadHeader(journal, first, file);
    if answer != Done {
      return false, header, tailObject;
    }
    answer, tailObject := LoadObjectHeader(journal, header.tailObjectOffset, second, file);
    return answer == Done, header, tailObject;
  }

  /** per_journal_tail_waste and print_tail_waste, for the j-th of the journals of a run. */
  method PerJournal(journal: Journal, report: Report, first: Reply, second: Reply, stat: Stat,
        ghost visits: seq<Visit>, ghost order: seq<nat>, ghost j: nat, ghost file: seq<byte>)
    returns (outcome: Outcome)
    requires Idle(journal, file) && Honest(file, 0, HEADER_BYTES, first)
    requires
      |file| >= HEADER_BYTES ==> Honest(file, ParseHeader(file).tailObjectOffset, OBJECT_HEADER_BYTES, second)
    requires stat.Size? ==> stat.size == |file|
    requires report.Valid() && Apart(report, journal) && report.Value() == TotalsOf(visits, order)
    requires j < |visits| && (Readily(file) ==> visits[j] == VisitOf(file))
    modifies journal, journal.bufs, journal.datas, report, report.perStateCounts, report.perStateBytes
    ensures Idle(journal, file)
    ensures report.Value() == TotalsOf(visits, if outcome.Printed? then order + [j] else order)
    ensures outcome.Printed? ==> Readily(file) && stat.Size? && ParseHeader(file).state as nat < STATE_MAX
    ensures
      Served(file, first, second) ==>
        outcome ==
          if stat.StatError? then Failed
          else if ParseHeader(file).state as nat < STATE_MAX then Printed else PastCounters
  {
    hide CacheProtocol.Inv, Journal.Valid, Willing, Honest, ParseHeader, Readily, VisitOf, TotalsOf;
    var loaded, header, tailObject := LoadVisit(journal, first, second, file);
    assert report.Value() == TotalsOf(visits, order);
    if !loaded || stat.StatError? {
      return Failed;
    }
    VisitHas(file);
    assert journal.Dests() == {};
    var inBounds := report.PrintTailWaste(Visit(stat.size, header, tailObject), visits, order, j);
    assert journal.Dests() == {};
    assert forall o: object :: o in journal.datas || o in journal.bufs ==>
      o != report && o != report.perStateCounts && o != report.perStateBytes;
    return if inBounds then Printed else PastCounters;
  }

  lemma VisitHas(file: seq<byte>)
    requires Readily(file)
    ensures VisitOf(file).header == ParseHeader(file) && VisitOf(file).size == |file|
  {}

  lemma SumNext(f: nat -> nat, order: seq<nat>, j: nat)
    ensures SumInOrder(f, order + [j]) == SumInOrder(f, order) + f(j)
  {
    assert (order + [j])[..|order|] == order;
  }

  lemma TotalsNext(visits: seq<Visit>, order: seq<nat>, j: nat)
    requires j < |visits| && visits[j].header.state as nat < STATE_MAX
    ensures
      var (t, v) := (TotalsOf(visits, order), visits[j]);
      var state := v.header.state as nat;
      TotalsOf(visits, order + [j]) ==
        Totals(t.counts[state := t.counts[state] + 1], t.bytes[state := t.bytes[state] + Waste(v)],
               t.total + Waste(v), t.fileSize + v.size, t.journals + 1)
  {
    hide Waste, SumInOrder;
    forall state: nat
      ensures
        SumInOrder(InState(visits, state), order + [j]) ==
          SumInOrder(InState(visits, state), order) + InState(visits, state)(j)
      ensures
        SumInOrder(WasteInState(visits, state), order + [j]) ==
          SumInOrder(WasteInState(visits, state), order) + WasteInState(visits, state)(j)
    {
      SumNext(InState(visits, state), order, j);
      SumNext(WasteInState(visits, state), order, j);
    }
    SumNext(Wastes(visits), order, j);
    SumNext(Sizes(visits), order, j);
  }

  /** The bytes of the states add up to the total, and their counts to the number of journals. */
  lemma {:induction false} StatesAddUp(visits: seq<Visit>, order: seq<nat>)
    requires Stated(visits) && forall i :: 0 <= i < |order| ==> order[i] < |visits|
    ensures
      var t := TotalsOf(visits, order);
      && t.bytes[0] + t.bytes[1] + t.bytes[2] == t.total
      && t.counts[0] + t.counts[1] + t.counts[2] == t.journals
  {
    if order != [] {
      var n := |order| - 1;
      StatesAddUp(visits, order[..n]);
      assert order == order[..n] + [order[n]];
      TotalsNext(visits, order[..n], order[n]);
    }
  }

  /** Where the tail objects of these journals end. */
  function Ends(visits: seq<Visit>): nat -> nat {
    (i: nat) => if i < |visits| then EndOfTail(visits[i]) else 0
  }

  /**
    * Where no file ends before its tail object does, total size and total waste differ by where the
    * tail objects end.
    */
  lemma {:induction false} TotalsBalance(visits: seq<Visit>, order: seq<nat>)
    requires forall i :: 0 <= i < |order| ==>
               order[i] < |visits| && Fits(visits[order[i]]) && EndOfTail(visits[order[i]]) <= visits[order[i]].size
    ensures TotalsOf(visits, order).fileSize == TotalsOf(visits, order).total + SumInOrder(Ends(visits), order)
  {
    hide Waste, EndOfTail, Fits;
    if order != [] {
      var n := |order| - 1;
      TotalsBalance(visits, order[..n]);
      WasteExactly(visits[order[n]]);
    }
  }

  /** The totals do not depend on the order of the journals. */
  lemma OrderIsIrrelevant(visits: seq<Visit>, order: seq<nat>, other: seq<nat>)
    requires Permutation(order, |visits|) && Permutation(other, |visits|)
    ensures TotalsOf(visits, order) == TotalsOf(visits, other)
  {
    hide Permutation, Waste;
    forall f: nat -> nat ensures SumInOrder(f, order) == SumInOrder(f, other) {
      SumAnyOrder(f, order, |visits|);
      SumAnyOrder(f, other, |visits|);
    }
    OrderLength(order, other, |visits|);
  }

  lemma OrderLength(order: seq<nat>, other: seq<nat>, n: nat)
    requires Permutation(order, n) && Permutation(other, n)
    ensures |order| == |other| == n
  {}
}
