/**
 Reclaiming tail waste (src/reclaim-tail-waste.c:38-99): an archived journal is cut at the
 end of its tail object, and every journal visited is accounted for.
 */
module Reclaim {
  import CacheProtocol
  import opened Bytes
  import opened Counters
  import opened JournalCache
  import opened JournalFile
  import opened ObjectIterator
  import opened ObjectWalk
  import opened TailWaste

  /** What happens to a journal. */
  datatype Fate = Mule | Ignored | Errored | Reclaimed

  function FateOf(v: Visit, truncates: bool): Fate {
    if v.size == Tail(v) then Mule
    else if v.header.state != STATE_ARCHIVED then Ignored
    else if !truncates then Errored
    else Reclaimed
  }

  /** The fates, by the waste, by the state 2 of archived journals, and by ftruncate. */
  lemma FateExactly(v: Visit, truncates: bool)
    requires v.size < U64_LIMIT
    ensures FateOf(v, truncates).Mule? <==> Waste(v) == 0
    ensures FateOf(v, truncates).Ignored? <==> Waste(v) > 0 && v.header.state != 2
    ensures FateOf(v, truncates).Errored? <==> Waste(v) > 0 && v.header.state == 2 && !truncates
    ensures FateOf(v, truncates).Reclaimed? <==> Waste(v) > 0 && v.header.state == 2 && truncates
  {
    hide Tail, Waste;
    MuleWastesNothing(v);
  }

  /** ftruncate: a shorter file is cut, a longer one filled up with zeros. */
  function Resized(file: seq<byte>, length: nat): (r: seq<byte>)
    ensures |r| == length
  {
    if length <= |file| then file[..length] else file + seq(length - |file|, _ => 0 as byte)
  }

  // ----- The accounts -----

  datatype Accounts = Accounts(journals: nat, reclaimed: nat, ignored: nat, errored: nat, mules: nat,
                               reclaimedBytes: nat, ignoredBytes: nat, erroredBytes: nat)

  /** A visit with what became of it. */
  type Log = seq<(Visit, Fate)>

  function Number(log: Log, fate: Fate): nat {
    if log == [] then 0 else Number(log[..|log| - 1], fate) + if log[|log| - 1].1 == fate then 1 else 0
  }

  function BytesOf(log: Log, fate: Fate): nat {
    if log == [] then 0
    else BytesOf(log[..|log| - 1], fate) + if log[|log| - 1].1 == fate then Waste(log[|log| - 1].0) else 0
  }

  function AllWaste(log: Log): nat {
    if log == [] then 0 else AllWaste(log[..|log| - 1]) + Waste(log[|log| - 1].0)
  }

  ghost function AccountsOf(log: Log): Accounts {
    Accounts(|log|, Number(log, Reclaimed), Number(log, Ignored), Number(log, Errored), Number(log, Mule),
             BytesOf(log, Reclaimed), BytesOf(log, Ignored), BytesOf(log, Errored))
  }

  /** Every journal visited is in one account, and the three sums of bytes are all the waste there was. */
  lemma {:induction false} AccountsBalance(log: Log)
    requires forall i :: 0 <= i < |log| ==>
               log[i].0.size < U64_LIMIT && (log[i].1.Mule? ==> log[i].0.size == Tail(log[i].0))
    ensures
      var a := AccountsOf(log);
      && a.journals == a.reclaimed + a.ignored + a.errored + a.mules
      && a.reclaimedBytes + a.ignoredBytes + a.erroredBytes == AllWaste(log)
  {
    hide Waste, Tail;
    if log != [] {
      var n := |log| - 1;
      AccountsBalance(log[..n]);
      MuleWastesNothing(log[n].0);
    }
  }

  lemma MuleWastesNothing(v: Visit)
    requires v.size < U64_LIMIT
    ensures v.size == Tail(v) <==> Waste(v) == 0
  {
    hide Tail, Waste;
    WasteIs(v);
    TailBelow(v);
  }

  lemma TailBelow(v: Visit)
    ensures Tail(v) < U64_LIMIT
  {}

  function SizeBefore(log: Log): nat {
    if log == [] then 0 else SizeBefore(log[..|log| - 1]) + log[|log| - 1].0.size
  }

  function SizeAfter(log: Log): nat {
    if log == [] then 0
    else
      var (v, fate) := log[|log| - 1];
      SizeAfter(log[..|log| - 1]) + if fate.Reclaimed? then Tail(v) else v.size
  }

  /** The reclaimed files of a log that ended before their tail objects did. */
  function Grown(log: Log): nat {
    if log == [] then 0
    else Grown(log[..|log| - 1]) + if log[|log| - 1].1.Reclaimed? && Short(log[|log| - 1].0) then 1 else 0
  }

  /** The tail object of a visited file starts within the file. */
  predicate Visited(v: Visit) {
    Fits(v) && v.header.tailObjectOffset < v.size
  }

  /** The reclaimed bytes are what all files together have shrunk by, plus 2^64 for every file that has grown. */
  lemma {:induction false} ReclaimedIsFreed(log: Log)
    requires forall i :: 0 <= i < |log| ==> Visited(log[i].0)
    ensures SizeAfter(log) + AccountsOf(log).reclaimedBytes == SizeBefore(log) + U64_LIMIT * Grown(log)
  {
    hide Tail, Waste, EndOfTail, Fits;
    if log != [] {
      var v := log[|log| - 1].0;
      ReclaimedIsFreed(log[..|log| - 1]);
      TailWraps(v);
      FitsSize(v);
      WasteIs(v);
    }
  }

  lemma FitsSize(v: Visit)
    requires Fits(v)
    ensures v.size < U64_LIMIT
  {}

  // ----- In place -----

  /** tail_waste_t */
  class TailWasteTally {
    var nJournals: nat
    var nReclaimed: nat
    var nIgnored: nat
    var nErrored: nat
    var nMules: nat
    var reclaimedBytes: nat
    var ignoredBytes: nat
    var erroredBytes: nat

    ghost function Value(): Accounts
      reads this
    {
      Accounts(nJournals, nReclaimed, nIgnored, nErrored, nMules, reclaimedBytes, ignoredBytes, erroredBytes)
    }

    constructor ()
      ensures Value() == AccountsOf([])
    {
      nJournals, nReclaimed, nIgnored, nErrored, nMules := 0, 0, 0, 0, 0;
      reclaimedBytes, ignoredBytes, erroredBytes := 0, 0, 0;
    }

    /** reclaim_tail_waste; stats and truncates say whether fstat and ftruncate succeed. */
    method ReclaimTailWaste(file: seq<byte>, header: Header, tailObject: ObjectHeader, stats: bool, truncates: bool,
          ghost log: Log)
      returns (counted: bool, after: seq<byte>)
      requires Value() == AccountsOf(log)
      modifies this
      ensures counted <==> stats
      ensures
        var v := Visit(|file|, header, tailObject);
        var fate := FateOf(v, truncates);
        && Value() == AccountsOf(if counted then log + [(v, fate)] else log)
        && after == if counted && fate == Reclaimed then Resized(file, Tail(v)) else file
    {
      hide Align64, AccountsOf, Resized;
      if !stats {
        return false, file;
      }
      ghost var v := Visit(|file|, header, tailObject);
      AccountsNext(log, v, FateOf(v, truncates));
      nJournals := nJournals + 1;
      var sz := |file|;
      var tail := (header.tailObjectOffset + Align64(tailObject.size)) % U64_LIMIT;
      var waste := (sz + U64_LIMIT - tail) % U64_LIMIT;
      if sz == tail {
        nMules := nMules + 1;
        return true, file;
      }
      if header.state != STATE_ARCHIVED {
        nIgnored := nIgnored + 1;
        ignoredBytes := ignoredBytes + waste;
        return true, file;
      }
      if !truncates {
        nErrored := nErrored + 1;
        erroredBytes := erroredBytes + waste;
        return true, file;
      }
      nReclaimed := nReclaimed + 1;
      reclaimedBytes := reclaimedBytes + waste;
      return true, Resized(file, tail);
    }
  }

  /** per_journal_tail_waste and reclaim_tail_waste: the headers, then what becomes of the file. */
  method PerJournal(journal: Journal, tally: TailWasteTally, first: Reply, second: Reply, stats: bool, truncates: bool,
        file: seq<byte>, ghost log: Log)
    returns (counted: bool, after: seq<byte>)
    requires Idle(journal, file) && Honest(file, 0, HEADER_BYTES, first)
    requires
      |file| >= HEADER_BYTES ==> Honest(file, ParseHeader(file).tailObjectOffset, OBJECT_HEADER_BYTES, second)
    requires tally.Value() == AccountsOf(log)
    modifies journal, journal.bufs, journal.datas, tally
    ensures Idle(journal, file)
    ensures counted ==> Readily(file) && stats
    ensures Served(file, first, second) ==> (counted <==> stats)
    ensures !counted ==> after == file && tally.Value() == AccountsOf(log)
    ensures
      counted ==>
        var v := VisitOf(file);
        && tally.Value() == AccountsOf(log + [(v, FateOf(v, truncates))])
        && after == if FateOf(v, truncates) == Reclaimed then Resized(file, Tail(v)) else file
  {
    hide CacheProtocol.Inv, Journal.Valid, Willing, Honest, ParseHeader, Readily, VisitOf, AccountsOf, Tail, FateOf;
    var loaded, header, tailObject := LoadVisit(journal, first, second, file);
    assert tally.Value() == AccountsOf(log);
    if !loaded {
      return false, file;
    }
    assert journal.Dests() == {};
    counted, after := tally.ReclaimTailWaste(file, header, tailObject, stats, truncates, log);
    assert journal.Dests() == {};
    assert forall o: object :: o in journal.datas || o in journal.bufs ==> o != tally;
  }

  lemma AccountsNext(log: Log, v: Visit, fate: Fate)
    ensures
      var (a, w) := (AccountsOf(log), Waste(v));
      AccountsOf(log + [(v, fate)]) ==
        match fate
        case Mule => a.(journals := a.journals + 1, mules := a.mules + 1)
        case Ignored => a.(journals := a.journals + 1, ignored := a.ignored + 1, ignoredBytes := a.ignoredBytes + w)
        case Errored => a.(journals := a.journals + 1, errored := a.errored + 1, erroredBytes := a.erroredBytes + w)
        case Reclaimed =>
          a.(journals := a.journals + 1, reclaimed := a.reclaimed + 1, reclaimedBytes := a.reclaimedBytes + w)
  {
    hide Waste;
    assert (log + [(v, fate)])[..|log|] == log;
  }

  // ----- What the cut does -----

  /**
   Cut at tail, the file ends where its tail object does, and the bytes accounted for are those behind, if and only if
   the file reaches that far.  Otherwise it grows to that end, or, if the end is past 64 bits, is cut at the start of
   the tail object or before.
   */
  lemma ReclaimExactly(file: seq<byte>, header: Header, tailObject: ObjectHeader)
    requires Fits(Visit(|file|, header, tailObject)) && header.tailObjectOffset < |file|
    ensures
      var v := Visit(|file|, header, tailObject);
      var after := Resized(file, Tail(v));
      && (|after| == EndOfTail(v) && Waste(v) == |file| - |after| <==> EndOfTail(v) <= |file|)
      && (|after| > |file| <==> Short(v)) && (Short(v) ==> |after| == EndOfTail(v))
      && (EndOfTail(v) >= U64_LIMIT ==>
            |after| <= header.tailObjectOffset && after == file[..|after|] && Waste(v) == |file| - |after|)
  {
    hide Tail, Waste, EndOfTail, Fits;
    var v := Visit(|file|, header, tailObject);
    TailWraps(v);
    FitsSize(v);
    WasteIs(v);
  }

  /** An archived journal whose tail object claims 2^64 - 1 bytes loses the header of that object. */
  lemma LostFileIsCut()
    ensures Readily(LostFile())
    ensures
      var v := VisitOf(LostFile());
      var after := Resized(LostFile(), Tail(v));
      && FateOf(v, true) == Reclaimed && after == LostFile()[..256]
      && HasObject(LostFile(), ParseHeader(LostFile()).tailObjectOffset)
      && !HasObject(after, ParseHeader(LostFile()).tailObjectOffset)
  {
    hide LostFile, Tail, Waste, ParseHeader, ObjectAt, EndOfTail;
    LostFileWastes();
    VisitHas(LostFile());
  }

  /** A truncated archived journal is not cut but filled up with zeros, and counted as having lost almost 2^64 bytes. */
  lemma ShortFileGrows()
    ensures Readily(ShortFile())
    ensures
      var v := VisitOf(ShortFile());
      && FateOf(v, true) == Reclaimed && |Resized(ShortFile(), Tail(v))| == |ShortFile()| + 984
      && AccountsOf([(v, Reclaimed)]).reclaimedBytes == U64_LIMIT - 984
  {
    hide ShortFile, Tail, Waste, ParseHeader, ObjectAt;
    ShortFileWastes();
    var v := VisitOf(ShortFile());
    assert [(v, Reclaimed)][..0] == [];
    VisitHas(ShortFile());
  }

  /** A file with a whole tail object on its walk, behind the header. */
  ghost predicate Sound(file: seq<byte>) {
    && |file| >= HEADER_BYTES
    && (var h := ParseHeader(file);
        && HEADER_BYTES <= h.headerSize <= h.tailObjectOffset && HasObject(file, h.tailObjectOffset)
        && TailEnd(file, h) <= |file| < U64_LIMIT)
  }

  /** The objects of a file by its own header. */
  function Walk(file: seq<byte>): seq<nat>
    requires |file| >= HEADER_BYTES
  {
    Offsets(file, ParseHeader(file), ParseHeader(file).headerSize)
  }

  function CutAtTail(file: seq<byte>): seq<byte>
    requires Sound(file)
  {
    Resized(file, Tail(VisitOf(file)))
  }

  lemma CutIsPrefix(file: seq<byte>)
    requires Sound(file)
    ensures CutAtTail(file) == file[..TailEnd(file, ParseHeader(file))]
    ensures HEADER_BYTES <= TailEnd(file, ParseHeader(file))
  {
    hide ParseHeader, ObjectAt, HasObject, Align64, Tail;
    TailIsTailEnd(file);
  }

  /** Cutting at the tail leaves header and walk as they were exactly when the tail object is larger than 8 bytes. */
  lemma CutKeepsWalkExactly(file: seq<byte>)
    requires Sound(file)
    requires EndOf(file, ParseHeader(file), ParseHeader(file).headerSize).Finished?
    requires ParseHeader(file).tailObjectOffset in Offsets(file, ParseHeader(file), ParseHeader(file).headerSize)
    ensures
      var (h, after) := (ParseHeader(file), CutAtTail(file));
      && |after| >= HEADER_BYTES && ParseHeader(after) == h
      && (Offsets(after, h, h.headerSize) == Offsets(file, h, h.headerSize) && EndOf(after, h, h.headerSize).Finished?
          <==> ObjectAt(file, h.tailObjectOffset).size > 8)
  {
    hide ParseHeader, ObjectAt, Offsets, EndOf, CutAtTail, Align64, Tail;
    var h, after := ParseHeader(file), CutAtTail(file);
    CutIsPrefix(file);
    CutKeepsHeader(file, TailEnd(file, h));
    if ObjectAt(file, h.tailObjectOffset).size > 8 {
      CutKeepsWalk(file, h, TailEnd(file, h), h.headerSize);
    } else {
      OffsetsReadable(after, h, h.headerSize);
      if Offsets(after, h, h.headerSize) == Offsets(file, h, h.headerSize) {
        assert false;
      }
    }
  }

  predicate SameBytes(file: seq<byte>, other: seq<byte>, offset: nat, size: nat) {
    offset + size <= |file| && offset + size <= |other| && file[offset..offset + size] == other[offset..offset + size]
  }

  /** Every byte of every object of the walk survives the cut. */
  lemma CutKeepsObjects(file: seq<byte>, offset: nat)
    requires Sound(file) && ParseHeader(file).tailObjectOffset in Walk(file) && offset in Walk(file)
    ensures HasObject(file, offset) && SameBytes(file, CutAtTail(file), offset, ObjectAt(file, offset).size)
  {
    hide ParseHeader, ObjectAt, Offsets, HasObject, Align64, Tail;
    CutIsPrefix(file);
    CutKeepsBytes(file, ParseHeader(file), offset);
  }

  /** Nothing is left for a second pass, in whatever state the journal is and whatever ftruncate would do. */
  lemma SecondPassIsMule(file: seq<byte>, truncates: bool)
    requires Sound(file) && ObjectAt(file, ParseHeader(file).tailObjectOffset).size > 8
    ensures
      var after := CutAtTail(file);
      && |after| >= HEADER_BYTES && HasObject(after, ParseHeader(after).tailObjectOffset)
      && FateOf(VisitOf(after), truncates) == Mule
  {
    hide ParseHeader, ObjectAt, Align64;
    var (h, after) := (ParseHeader(file), CutAtTail(file));
    CutIsPrefix(file);
    CutKeepsHeader(file, TailEnd(file, h));
    CutKeepsObject(file, TailEnd(file, h), h.tailObjectOffset);
  }
}
