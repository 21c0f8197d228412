/**
 The usage report (src/report-usage.c:34-57): private tallies per journal and a total over
 all journals, both bumped at every dispatch of journal_iter_objects.
 */
module Usage {
  import CacheProtocol
  import opened Bytes
  import opened JournalCache
  import opened JournalFile
  import opened JournalSample
  import opened ObjectIterator
  import opened ObjectWalk
  import opened Schedules

  datatype Tally = Tally(counts: seq<nat>, uses: seq<nat>, total: nat)

  // ----- What a series of dispatches comes to -----

  function CountOf(hs: seq<ObjectHeader>, kind: nat): nat {
    if hs == [] then 0 else CountOf(hs[..|hs| - 1], kind) + if hs[|hs| - 1].kind as nat == kind then 1 else 0
  }

  function UseOf(hs: seq<ObjectHeader>, kind: nat): nat {
    if hs == [] then 0
    else UseOf(hs[..|hs| - 1], kind) + if hs[|hs| - 1].kind as nat == kind then hs[|hs| - 1].size else 0
  }

  function SizeOf(hs: seq<ObjectHeader>): nat {
    if hs == [] then 0 else SizeOf(hs[..|hs| - 1]) + hs[|hs| - 1].size
  }

  ghost function TallyOf(hs: seq<ObjectHeader>): Tally {
    Tally(seq(OBJECT_TYPE_MAX, kind requires 0 <= kind => CountOf(hs, kind)),
          seq(OBJECT_TYPE_MAX, kind requires 0 <= kind => UseOf(hs, kind)),
          SizeOf(hs))
  }

  function Counts(hs: seq<ObjectHeader>): nat -> nat { kind => CountOf(hs, kind) }

  function Uses(hs: seq<ObjectHeader>): nat -> nat { kind => UseOf(hs, kind) }

  /** Per-type counts and bytes add up to all dispatches and all bytes. */
  lemma {:induction false} TypesAddUp(hs: seq<ObjectHeader>, types: nat)
    requires forall i :: 0 <= i < |hs| ==> hs[i].kind as nat < types
    ensures SumBelow(Counts(hs), types) == |hs|
    ensures SumBelow(Uses(hs), types) == SizeOf(hs)
  {
    hide SumBelow;
    if hs == [] {
      SumZero(Counts(hs), types);
      SumZero(Uses(hs), types);
    } else {
      var n := |hs| - 1;
      TypesAddUp(hs[..n], types);
      SumOneMore(Counts(hs), Counts(hs[..n]), types, hs[n].kind as nat, 1);
      SumOneMore(Uses(hs), Uses(hs[..n]), types, hs[n].kind as nat, hs[n].size);
    }
  }

  lemma TallyNext(hs: seq<ObjectHeader>, header: ObjectHeader)
    requires header.kind as nat < OBJECT_TYPE_MAX
    ensures
      var (t, kind) := (TallyOf(hs), header.kind as nat);
      TallyOf(hs + [header]) ==
        Tally(t.counts[kind := t.counts[kind] + 1], t.uses[kind := t.uses[kind] + header.size], t.total + header.size)
  {
    assert (hs + [header])[..|hs|] == hs;
  }

  // ----- The tallies in place -----

  /** usage_t, as far as dispatches change it */
  class Tallies {
    const countPerType: array<nat>
    const usePerType: array<nat>
    var useTotal: nat
    var fileSize: nat

    ghost predicate Valid() {
      countPerType.Length == usePerType.Length == OBJECT_TYPE_MAX && countPerType != usePerType
    }

    ghost function Value(): Tally
      reads this, countPerType, usePerType
    {
      Tally(countPerType[..], usePerType[..], useTotal)
    }

    ghost function Parts(): set<object> {
      {this, countPerType, usePerType}
    }

    constructor ()
      ensures Valid() && Value() == TallyOf([]) && fileSize == 0 && fresh(Parts())
    {
      countPerType := new nat[OBJECT_TYPE_MAX](_ => 0);
      usePerType := new nat[OBJECT_TYPE_MAX](_ => 0);
      useTotal, fileSize := 0, 0;
    }

    /** Counts by the type unchecked: a type there is no counter for makes it write past its counters. */
    method Bump(header: ObjectHeader, ghost hs: seq<ObjectHeader>) returns (inBounds: bool)
      requires Valid() && Value() == TallyOf(hs)
      modifies `useTotal, countPerType, usePerType
      ensures inBounds <==> header.kind as nat < OBJECT_TYPE_MAX
      ensures Value() == TallyOf(if inBounds then hs + [header] else hs)
    {
      hide TallyOf;
      var kind := header.kind as nat;
      if kind >= OBJECT_TYPE_MAX {
        return false;
      }
      TallyNext(hs, header);
      countPerType[kind] := countPerType[kind] + 1;
      usePerType[kind] := usePerType[kind] + header.size;
      useTotal := useTotal + header.size;
      return true;
    }
  }

  /** per_data_object: the private tally and the total are bumped alike. */
  method PerDataObject(header: ObjectHeader, usage: Tallies, totals: Tallies, ghost own: seq<ObjectHeader>,
        ghost all: seq<ObjectHeader>)
    returns (inBounds: bool)
    requires usage.Valid() && totals.Valid() && usage.Parts() !! totals.Parts()
    requires usage.Value() == TallyOf(own) && totals.Value() == TallyOf(all)
    modifies usage`useTotal, usage.countPerType, usage.usePerType
    modifies totals`useTotal, totals.countPerType, totals.usePerType
    ensures inBounds <==> header.kind as nat < OBJECT_TYPE_MAX
    ensures
      var counted := if inBounds then [header] else [];
      usage.Value() == TallyOf(own + counted) && totals.Value() == TallyOf(all + counted)
  {
    hide TallyOf;
    assert own + [] == own && all + [] == all;
    inBounds := usage.Bump(header, own);
    inBounds := totals.Bump(header, all);
  }

  // ----- One journal -----

  /** The headers of the objects at these offsets. */
  function Headers(file: seq<byte>, s: seq<nat>): (hs: seq<ObjectHeader>)
    requires Readable(file, s)
    ensures |hs| == |s|
  {
    seq(|s|, i requires 0 <= i < |s| => ObjectAt(file, s[i]))
  }

  /** The header that each dispatch counts: at the end, the iterator still holds the header of the object before. */
  function Dispatched(es: seq<Event>, before: ObjectHeader): seq<ObjectHeader> {
    if es == [] then []
    else match es[0]
      case Object(_, header) => [header] + Dispatched(es[1..], header)
      case End => [before] + Dispatched(es[1..], before)
      case Unreadable(_) => []
  }

  function LastOr(hs: seq<ObjectHeader>, before: ObjectHeader): ObjectHeader {
    if hs == [] then before else hs[|hs| - 1]
  }

  /** A finished walk counts every object, and then the last one again. */
  lemma {:induction false} LastCountsTwice(file: seq<byte>, s: seq<nat>, before: ObjectHeader)
    requires Readable(file, s)
    ensures
      Dispatched(Objects(file, s) + [End], before) == Headers(file, s) + [LastOr(Headers(file, s), before)]
    decreases |s|
  {
    hide HasObject, ObjectAt;
    if s == [] {
      assert Objects(file, s) + [End] == [End];
      assert [End][1..] == [] && Headers(file, s) == [];
    } else {
      var es := Objects(file, s) + [End];
      assert forall i :: 0 <= i < |s| - 1 ==> s[1..][i] == s[i + 1];
      assert es[1..] == Objects(file, s[1..]) + [End];
      assert Headers(file, s) == [ObjectAt(file, s[0])] + Headers(file, s[1..]);
      LastCountsTwice(file, s[1..], ObjectAt(file, s[0]));
    }
  }

  lemma {:induction false} SizeAppend(a: seq<ObjectHeader>, b: seq<ObjectHeader>)
    ensures SizeOf(a + b) == SizeOf(a) + SizeOf(b)
    decreases |b|
  {
    if b == [] {
      assert a + b == a;
    } else {
      var n := |b| - 1;
      assert (a + b)[..|a + b| - 1] == a + b[..n];
      SizeAppend(a, b[..n]);
    }
  }

  lemma {:induction false} HeadersSize(file: seq<byte>, s: seq<nat>)
    requires Readable(file, s)
    ensures SizeOf(Headers(file, s)) == TotalSize(file, s)
    decreases |s|
  {
    hide HasObject, ObjectAt;
    if s != [] {
      assert forall i :: 0 <= i < |s| - 1 ==> s[1..][i] == s[i + 1];
      HeadersSize(file, s[1..]);
      var first := [ObjectAt(file, s[0])];
      assert Headers(file, s) == first + Headers(file, s[1..]);
      SizeAppend(first, Headers(file, s[1..]));
      assert first[..0] == [];
    }
  }

  /** use_total is the bytes of all objects exactly when the last header counted has size 0. */
  lemma UseTotalExactly(file: seq<byte>, h: Header, before: ObjectHeader)
    requires Sane(h) && EndOf(file, h, h.headerSize).Finished?
    ensures
      var s := Offsets(file, h, h.headerSize);
      && Chain(file, h, h.headerSize, s)
      && (var counted := Dispatched(Events(file, h, Iter(0, before), |s| + 1), before);
          && |counted| == |s| + 1
          && SizeOf(counted) == TotalSize(file, s) + LastOr(Headers(file, s), before).size
          && (SizeOf(counted) == TotalSize(file, s) <==> LastOr(Headers(file, s), before).size == 0))
  {
    hide HasObject, ObjectAt, Events, Offsets, EndOf, TotalSize;
    var s := Offsets(file, h, h.headerSize);
    WalkDispatchesExactly(file, h, before);
    LastCountsTwice(file, s, before);
    HeadersSize(file, s);
    var last := [LastOr(Headers(file, s), before)];
    SizeAppend(Headers(file, s), last);
    assert last[..0] == [];
  }

  /** A journal with one object, of 16 bytes. */
  function OneObjectFile(): (file: seq<byte>)
    ensures |file| == 272
  {
    HeaderBytes(0, 0, Zeros(16), 256, 256) + ObjectBytes(1, 0, 16)
  }

  /** It is reported to use 32 bytes. */
  lemma OneObjectCountsTwice(before: ObjectHeader)
    ensures
      var file := OneObjectFile();
      var h := ParseHeader(file);
      && Sane(h) && EndOf(file, h, h.headerSize).Finished? && Offsets(file, h, h.headerSize) == [256]
      && HasObject(file, 256) && TotalSize(file, [256]) == 16
      && SizeOf(Dispatched(Events(file, h, Iter(0, before), 2), before)) == 32
  {
    hide HeaderBytes, ObjectBytes, ParseHeader, ObjectAt, Events, Dispatched, SizeOf, OneObjectFile;
    var file := OneObjectFile();
    OneObjectIs();
    var h := ParseHeader(file);
    Unfold(file, h, 256);
    NothingAfterTail(file, h, 272);
    UseTotalExactly(file, h, before);
    assert TotalSize(file, [256][1..]) == 0;
    assert Headers(file, [256])[0] == ObjectAt(file, 256);
  }

  lemma OneObjectIs()
    ensures ParseHeader(OneObjectFile()) == Header(0, 0, Zeros(16), 256, 256)
    ensures HasObject(OneObjectFile(), 256) && ObjectAt(OneObjectFile(), 256) == ObjectHeader(OBJECT_DATA, 0, 16)
  {
    hide HeaderBytes, ObjectBytes, ParseHeader, ObjectAt;
    var start, o := HeaderBytes(0, 0, Zeros(16), 256, 256), ObjectBytes(1, 0, 16);
    HeaderIs(0, 0, Zeros(16), 256, 256, o);
    ObjectIs(start, 1, 0, 16, []);
    assert start + o + [] == OneObjectFile();
  }

  // ----- All journals -----

  /** The dispatches of a run: which journal, and the header it counts. */
  type Schedule = seq<(nat, ObjectHeader)>

  function All(schedule: Schedule): seq<ObjectHeader> {
    if schedule == [] then [] else All(schedule[..|schedule| - 1]) + [schedule[|schedule| - 1].1]
  }

  function Own(schedule: Schedule, j: nat): seq<ObjectHeader> {
    if schedule == [] then []
    else
      var last := schedule[|schedule| - 1];
      Own(schedule[..|schedule| - 1], j) + if last.0 == j then [last.1] else []
  }

  ghost predicate Typed(schedule: Schedule) {
    forall i :: 0 <= i < |schedule| ==> schedule[i].1.kind as nat < OBJECT_TYPE_MAX
  }

  /** per_data_object dispatched for many journals in some interleaving. */
  method Interleave(schedule: Schedule, usages: seq<Tallies>, totals: Tallies) returns (inBounds: bool)
    requires totals.Valid() && forall i :: 0 <= i < |schedule| ==> schedule[i].0 < |usages|
    requires forall j :: 0 <= j < |usages| ==> usages[j].Valid() && usages[j].Parts() !! totals.Parts()
    requires forall i, j :: 0 <= i < |usages| && 0 <= j < |usages| && i != j ==> usages[i].Parts() !! usages[j].Parts()
    requires totals.Value() == TallyOf([]) && forall j :: 0 <= j < |usages| ==> usages[j].Value() == TallyOf([])
    modifies totals.Parts(), set j, o | 0 <= j < |usages| && o in usages[j].Parts() :: o
    ensures inBounds <==> Typed(schedule)
    ensures inBounds ==> totals.Value() == TallyOf(All(schedule))
    ensures inBounds ==> forall j :: 0 <= j < |usages| ==> usages[j].Value() == TallyOf(Own(schedule, j))
  {
    hide TallyOf, Own, All;
    NoneMade();
    for i := 0 to |schedule|
      invariant Typed(schedule[..i])
      invariant totals.Value() == TallyOf(All(schedule[..i]))
      invariant forall j :: 0 <= j < |usages| ==> usages[j].Value() == TallyOf(Own(schedule[..i], j))
    {
      var (j, header) := schedule[i];
      label before:
      inBounds := PerDataObject(header, usages[j], totals, Own(schedule[..i], j), All(schedule[..i]));
      if !inBounds {
        return false;
      }
      assert schedule[..i + 1] == schedule[..i] + [(j, header)];
      forall k | 0 <= k < |usages| ensures usages[k].Value() == TallyOf(Own(schedule[..i + 1], k)) {
        OwnSnoc(schedule[..i], j, header, k);
        if k != j {
          assert old@before(usages[k].Value()) == TallyOf(Own(schedule[..i], k));
          assert usages[k].Parts() !! usages[j].Parts();
          assert Own(schedule[..i], k) + [] == Own(schedule[..i], k);
        }
      }
      OwnSnoc(schedule[..i], j, header, j);
    }
    assert schedule[..|schedule|] == schedule;
    return true;
  }

  lemma NoneMade()
    ensures All([]) == [] && forall j :: Own([], j) == []
  {}

  function OwnCounts(schedule: Schedule, kind: nat): nat -> nat { j => CountOf(Own(schedule, j), kind) }

  function OwnUses(schedule: Schedule, kind: nat): nat -> nat { j => UseOf(Own(schedule, j), kind) }

  function OwnSizes(schedule: Schedule): nat -> nat { j => SizeOf(Own(schedule, j)) }

  lemma TallyAppend(hs: seq<ObjectHeader>, header: ObjectHeader, kind: nat)
    ensures CountOf(hs + [header], kind) == CountOf(hs, kind) + if header.kind as nat == kind then 1 else 0
    ensures UseOf(hs + [header], kind) == UseOf(hs, kind) + if header.kind as nat == kind then header.size else 0
    ensures SizeOf(hs + [header]) == SizeOf(hs) + header.size
  {
    assert (hs + [header])[..|hs|] == hs;
  }

  /** After any number of dispatches in any interleaving, the totals are the sums of the private tallies. */
  lemma {:induction false} TotalsAreSums(schedule: Schedule, n: nat, kind: nat)
    requires forall i :: 0 <= i < |schedule| ==> schedule[i].0 < n
    ensures CountOf(All(schedule), kind) == SumBelow(OwnCounts(schedule, kind), n)
    ensures UseOf(All(schedule), kind) == SumBelow(OwnUses(schedule, kind), n)
    ensures SizeOf(All(schedule)) == SumBelow(OwnSizes(schedule), n)
  {
    hide SumBelow;
    if schedule == [] {
      SumZero(OwnCounts(schedule, kind), n);
      SumZero(OwnUses(schedule, kind), n);
      SumZero(OwnSizes(schedule), n);
    } else {
      var m := |schedule| - 1;
      var (j, header) := schedule[m];
      var earlier := schedule[..m];
      TotalsAreSums(earlier, n, kind);
      OwnNext(schedule, j, header, kind);
      TallyAppend(All(earlier), header, kind);
      var same := header.kind as nat == kind;
      SumOneMore(OwnCounts(schedule, kind), OwnCounts(earlier, kind), n, j, if same then 1 else 0);
      SumOneMore(OwnUses(schedule, kind), OwnUses(earlier, kind), n, j, if same then header.size else 0);
      SumOneMore(OwnSizes(schedule), OwnSizes(earlier), n, j, header.size);
    }
  }

  /** A dispatch changes the tally of its own journal only. */
  lemma OwnNext(schedule: Schedule, j: nat, header: ObjectHeader, kind: nat)
    requires schedule != [] && schedule[|schedule| - 1] == (j, header)
    ensures
      var earlier := schedule[..|schedule| - 1];
      forall k: nat {:trigger Own(schedule, k)} ::
        && CountOf(Own(schedule, k), kind) ==
             CountOf(Own(earlier, k), kind) + (if k == j && header.kind as nat == kind then 1 else 0)
        && UseOf(Own(schedule, k), kind) ==
             UseOf(Own(earlier, k), kind) + (if k == j && header.kind as nat == kind then header.size else 0)
        && SizeOf(Own(schedule, k)) == SizeOf(Own(earlier, k)) + (if k == j then header.size else 0)
  {
    hide CountOf, UseOf, SizeOf;
    var earlier := schedule[..|schedule| - 1];
    TallyAppend(Own(earlier, j), header, kind);
    forall k: nat | k != j ensures Own(schedule, k) == Own(earlier, k) {
      assert Own(earlier, k) + [] == Own(earlier, k);
    }
  }

  /** Two interleavings in which each journal does the same end in the same totals. */
  lemma SchedulesAgree(a: Schedule, b: Schedule, n: nat)
    requires forall i :: 0 <= i < |a| ==> a[i].0 < n
    requires forall i :: 0 <= i < |b| ==> b[i].0 < n
    requires forall j :: 0 <= j < n ==> Own(a, j) == Own(b, j)
    ensures TallyOf(All(a)) == TallyOf(All(b))
  {
    hide CountOf, UseOf, SizeOf, All, Own;
    KindAgrees(a, b, n, 0);
    forall kind: nat
      ensures CountOf(All(a), kind) == CountOf(All(b), kind) && UseOf(All(a), kind) == UseOf(All(b), kind)
    {
      KindAgrees(a, b, n, kind);
    }
    assert TallyOf(All(a)).counts == TallyOf(All(b)).counts && TallyOf(All(a)).uses == TallyOf(All(b)).uses;
  }

  lemma KindAgrees(a: Schedule, b: Schedule, n: nat, kind: nat)
    requires forall i :: 0 <= i < |a| ==> a[i].0 < n
    requires forall i :: 0 <= i < |b| ==> b[i].0 < n
    requires forall j :: 0 <= j < n ==> Own(a, j) == Own(b, j)
    ensures CountOf(All(a), kind) == CountOf(All(b), kind)
    ensures UseOf(All(a), kind) == UseOf(All(b), kind)
    ensures SizeOf(All(a)) == SizeOf(All(b))
  {
    hide CountOf, UseOf, SizeOf, All, Own;
    TotalsAreSums(a, n, kind);
    TotalsAreSums(b, n, kind);
    SumSame(OwnCounts(a, kind), OwnCounts(b, kind), n);
    SumSame(OwnUses(a, kind), OwnUses(b, kind), n);
    SumSame(OwnSizes(a), OwnSizes(b), n);
  }

  // ----- A run that only says which journal steps next -----

  /** Where a walk is, and whether its iterator has been left for good. */
  datatype Stand = Stand(it: Iter, ended: bool)

  /** The closure's dispatch in a step counts whatever header the iterator holds then. */
  function Counted(e: Event, next: Iter): seq<ObjectHeader> {
    if e.Unreadable? then [] else [next.header]
  }

  function StandAfter(walks: seq<Walk>, steps: seq<nat>, j: nat): Stand
    requires j < |walks|
  {
    if steps == [] then Stand(Iter(0, walks[j].before), false)
    else
      var stand := StandAfter(walks, steps[..|steps| - 1], j);
      if steps[|steps| - 1] != j then stand
      else
        var (next, e) := Step(walks[j].file, walks[j].h, stand.it);
        Stand(next, !e.Object?)
  }

  /** No journal is stepped after its end. */
  ghost predicate Legal(walks: seq<Walk>, steps: seq<nat>) {
    steps == [] ||
    (var n := |steps| - 1;
     Legal(walks, steps[..n]) && steps[n] < |walks| && !StandAfter(walks, steps[..n], steps[n]).ended)
  }

  ghost predicate AllEnded(walks: seq<Walk>, steps: seq<nat>) {
    forall j :: 0 <= j < |walks| ==> StandAfter(walks, steps, j).ended
  }

  function Times(steps: seq<nat>, j: nat): nat {
    if steps == [] then 0 else Times(steps[..|steps| - 1], j) + if steps[|steps| - 1] == j then 1 else 0
  }

  /** What the dispatches of a run count, in the order of the steps. */
  function Made(walks: seq<Walk>, steps: seq<nat>): (schedule: Schedule)
    requires forall i :: 0 <= i < |steps| ==> steps[i] < |walks|
    ensures forall i :: 0 <= i < |schedule| ==> schedule[i].0 < |walks|
  {
    if steps == [] then []
    else
      var j, earlier := steps[|steps| - 1], steps[..|steps| - 1];
      var (next, e) := Step(walks[j].file, walks[j].h, StandAfter(walks, earlier, j).it);
      Made(walks, earlier) + if e.Unreadable? then [] else [(j, next.header)]
  }

  lemma {:induction false} LegalNames(walks: seq<Walk>, steps: seq<nat>)
    requires Legal(walks, steps)
    ensures forall i :: 0 <= i < |steps| ==> steps[i] < |walks|
  {
    if steps != [] { LegalNames(walks, steps[..|steps| - 1]); }
  }

  /** The events of one walk. */
  function EventsOf(w: Walk, n: nat): (es: seq<Event>)
    ensures |es| == n
  {
    Events(w.file, w.h, Iter(0, w.before), n)
  }

  /** A walk that has dispatched objects only holds the header of the last one. */
  ghost predicate Going(w: Walk, n: nat) {
    && (forall i :: 0 <= i < n ==> EventsOf(w, n)[i].Object?)
    && After(w.file, w.h, Iter(0, w.before), n).header == LastOr(Dispatched(EventsOf(w, n), w.before), w.before)
  }

  lemma {:induction false} DispatchedSnoc(es: seq<Event>, e: Event, before: ObjectHeader)
    requires forall i :: 0 <= i < |es| ==> es[i].Object?
    ensures
      Dispatched(es + [e], before) ==
        Dispatched(es, before) +
        match e
        case Object(_, header) => [header]
        case End => [LastOr(Dispatched(es, before), before)]
        case Unreadable(_) => []
    decreases |es|
  {
    if es == [] {
      assert es + [e] == [e] && [e][1..] == [];
    } else {
      assert (es + [e])[1..] == es[1..] + [e];
      DispatchedSnoc(es[1..], e, es[0].header);
    }
  }

  lemma EventsNext(w: Walk, n: nat)
    ensures
      var it := After(w.file, w.h, Iter(0, w.before), n);
      && EventsOf(w, n + 1) == EventsOf(w, n) + [Step(w.file, w.h, it).1]
      && After(w.file, w.h, Iter(0, w.before), n + 1) == Step(w.file, w.h, it).0
  {
    hide Step;
    EventsSplit(w.file, w.h, Iter(0, w.before), n, 1);
    OneMore(w.file, w.h, After(w.file, w.h, Iter(0, w.before), n));
  }

  /** One more step of a walk that is going on. */
  lemma StepCounts(w: Walk, n: nat)
    requires Going(w, n)
    ensures
      var (next, e) := Step(w.file, w.h, After(w.file, w.h, Iter(0, w.before), n));
      && Dispatched(EventsOf(w, n + 1), w.before) == Dispatched(EventsOf(w, n), w.before) + Counted(e, next)
      && EventsOf(w, n + 1)[..n] == EventsOf(w, n) && EventsOf(w, n + 1)[n] == e
      && (e.Object? ==> Going(w, n + 1))
  {
    hide EventsOf, After, NextOffset, HasObject, ObjectAt;
    var it := After(w.file, w.h, Iter(0, w.before), n);
    EventsNext(w, n);
    DispatchedSnoc(EventsOf(w, n), Step(w.file, w.h, it).1, w.before);
  }

  /** Whatever the others do: a journal of a legal run does what its own walk does in as many steps. */
  lemma {:induction false} OwnIsWalk(walks: seq<Walk>, steps: seq<nat>, j: nat)
    requires Legal(walks, steps) && j < |walks|
    ensures forall i :: 0 <= i < |steps| ==> steps[i] < |walks|
    ensures
      var (w, n, stand) := (walks[j], Times(steps, j), StandAfter(walks, steps, j));
      && stand.it == After(w.file, w.h, Iter(0, w.before), n)
      && Own(Made(walks, steps), j) == Dispatched(EventsOf(w, n), w.before)
      && (if stand.ended then n > 0 && Going(w, n - 1) && !EventsOf(w, n)[n - 1].Object? else Going(w, n))
    decreases |steps|
  {
    hide Step, After, Dispatched, EventsOf, Going, Made, Own, StandAfter, Times, Legal;
    LegalNames(walks, steps);
    if steps == [] {
      NoSteps(walks, j);
      WalkStarts(walks[j]);
    } else {
      OneStep(walks, steps, j);
      var m := |steps| - 1;
      var earlier := steps[..m];
      OwnIsWalk(walks, earlier, j);
      if steps[m] == j {
        StepCounts(walks[j], Times(earlier, j));
        EventsNext(walks[j], Times(earlier, j));
      }
    }
  }

  lemma NoSteps(walks: seq<Walk>, j: nat)
    requires j < |walks|
    ensures Own(Made(walks, []), j) == [] && Times([], j) == 0
    ensures StandAfter(walks, [], j) == Stand(Iter(0, walks[j].before), false)
  {}

  /** What the last step of a run changes for one of its journals. */
  lemma OneStep(walks: seq<Walk>, steps: seq<nat>, j: nat)
    requires Legal(walks, steps) && steps != [] && j < |walks|
    ensures forall i :: 0 <= i < |steps| ==> steps[i] < |walks|
    ensures
      var m := |steps| - 1;
      var stand, after := StandAfter(walks, steps[..m], j), StandAfter(walks, steps, j);
      var own, n := Own(Made(walks, steps[..m]), j), Times(steps[..m], j);
      && Legal(walks, steps[..m])
      && if steps[m] != j then after == stand && Times(steps, j) == n && Own(Made(walks, steps), j) == own
         else
           var (next, e) := Step(walks[j].file, walks[j].h, stand.it);
           && !stand.ended && after == Stand(next, !e.Object?) && Times(steps, j) == n + 1
           && Own(Made(walks, steps), j) == own + Counted(e, next)
  {
    hide Step, Made, Own;
    LegalNames(walks, steps);
    OwnLast(Made(walks, steps[..|steps| - 1]), walks, steps, j);
    var own := Own(Made(walks, steps[..|steps| - 1]), j);
    assert own + [] == own;
  }

  lemma WalkStarts(w: Walk)
    ensures Going(w, 0) && Dispatched(EventsOf(w, 0), w.before) == []
    ensures After(w.file, w.h, Iter(0, w.before), 0) == Iter(0, w.before)
  {}

  lemma OwnLast(earlier: Schedule, walks: seq<Walk>, steps: seq<nat>, j: nat)
    requires steps != [] && (forall i :: 0 <= i < |steps| ==> steps[i] < |walks|) && j < |walks|
    requires earlier == Made(walks, steps[..|steps| - 1])
    ensures
      var m := |steps| - 1;
      var (next, e) := Step(walks[j].file, walks[j].h, StandAfter(walks, steps[..m], j).it);
      Own(Made(walks, steps), j) == Own(earlier, j) + if steps[m] == j then Counted(e, next) else []
  {
    hide Step, StandAfter, Own;
    var m := |steps| - 1;
    var (next, e) := Step(walks[steps[m]].file, walks[steps[m]].h, StandAfter(walks, steps[..m], steps[m]).it);
    if e.Unreadable? {
      assert Made(walks, steps) == earlier;
      assert Own(earlier, j) + [] == Own(earlier, j);
    } else {
      OwnSnoc(earlier, steps[m], next.header, j);
    }
  }

  lemma OwnSnoc(schedule: Schedule, j: nat, header: ObjectHeader, k: nat)
    ensures Own(schedule + [(j, header)], k) == Own(schedule, k) + if k == j then [header] else []
    ensures All(schedule + [(j, header)]) == All(schedule) + [header]
  {
    assert (schedule + [(j, header)])[..|schedule|] == schedule;
  }

  ghost predicate AllFinish(walks: seq<Walk>) {
    forall j {:trigger walks[j]} :: 0 <= j < |walks| ==>
      Sane(walks[j].h) && EndOf(walks[j].file, walks[j].h, walks[j].h.headerSize).Finished?
  }

  /** What a whole walk counts: its objects, and the last header again. */
  ghost function WholeWalk(w: Walk): seq<ObjectHeader> {
    OffsetsReadable(w.file, w.h, w.h.headerSize);
    var hs := Headers(w.file, Offsets(w.file, w.h, w.h.headerSize));
    hs + [LastOr(hs, w.before)]
  }

  /** A walk that has ended has counted all of it. */
  lemma EndedIsWhole(w: Walk, n: nat)
    requires Sane(w.h) && EndOf(w.file, w.h, w.h.headerSize).Finished?
    requires n > 0 && Going(w, n - 1) && !EventsOf(w, n)[n - 1].Object?
    ensures Dispatched(EventsOf(w, n), w.before) == WholeWalk(w)
  {
    hide After, HasObject, ObjectAt, Offsets, EndOf, Dispatched;
    var s := Offsets(w.file, w.h, w.h.headerSize);
    WalkDispatchesExactly(w.file, w.h, w.before);
    LastCountsTwice(w.file, s, w.before);
    var whole := EventsOf(w, |s| + 1);
    assert whole == Objects(w.file, s) + [End];
    assert forall i :: 0 <= i < |s| ==> whole[i].Object?;
    EventsNext(w, n - 1);
    if n <= |s| {
      EventsPrefixOf(w, n, |s| + 1);
      assert false;
    } else if n > |s| + 1 {
      GoesOn(w, |s|, n - 1);
      assert false;
    }
  }

  lemma GoesOn(w: Walk, m: nat, n: nat)
    requires m < n && Going(w, n)
    ensures EventsOf(w, m + 1)[m].Object?
  {
    EventsPrefixOf(w, m + 1, n);
  }

  lemma EventsPrefixOf(w: Walk, m: nat, n: nat)
    requires m <= n
    ensures EventsOf(w, n)[..m] == EventsOf(w, m)
  {
    EventsSplit(w.file, w.h, Iter(0, w.before), m, n - m);
  }

  /** Once all walks of a run have ended, each journal has counted its own whole walk, whatever the schedule was. */
  lemma FinishedRun(walks: seq<Walk>, steps: seq<nat>, j: nat)
    requires Legal(walks, steps) && AllEnded(walks, steps) && AllFinish(walks) && j < |walks|
    ensures forall i :: 0 <= i < |steps| ==> steps[i] < |walks|
    ensures Own(Made(walks, steps), j) == WholeWalk(walks[j])
  {
    hide Going, Dispatched, EventsOf, WholeWalk, Made, Own, Legal, StandAfter, After;
    OwnIsWalk(walks, steps, j);
    EndedIsWhole(walks[j], Times(steps, j));
  }

  ghost function WalkCounts(walks: seq<Walk>, kind: nat): nat -> nat {
    (j: nat) => if j < |walks| then CountOf(WholeWalk(walks[j]), kind) else 0
  }

  ghost function WalkUses(walks: seq<Walk>, kind: nat): nat -> nat {
    (j: nat) => if j < |walks| then UseOf(WholeWalk(walks[j]), kind) else 0
  }

  ghost function WalkSizes(walks: seq<Walk>): nat -> nat {
    (j: nat) => if j < |walks| then SizeOf(WholeWalk(walks[j])) else 0
  }

  /** So the totals of a run are the sums over its journals of what their walks come to. */
  lemma RunTotals(walks: seq<Walk>, steps: seq<nat>, kind: nat)
    requires Legal(walks, steps) && AllEnded(walks, steps) && AllFinish(walks)
    ensures forall i :: 0 <= i < |steps| ==> steps[i] < |walks|
    ensures
      var all := All(Made(walks, steps));
      && CountOf(all, kind) == SumBelow(WalkCounts(walks, kind), |walks|)
      && UseOf(all, kind) == SumBelow(WalkUses(walks, kind), |walks|)
      && SizeOf(all) == SumBelow(WalkSizes(walks), |walks|)
  {
    hide Own, WholeWalk, Made, Legal, StandAfter, CountOf, UseOf, SizeOf, All, AllFinish, AllEnded;
    LegalNames(walks, steps);
    var schedule := Made(walks, steps);
    forall j | 0 <= j < |walks| ensures Own(schedule, j) == WholeWalk(walks[j]) { FinishedRun(walks, steps, j); }
    TotalsAreSums(schedule, |walks|, kind);
    SumSame(OwnCounts(schedule, kind), WalkCounts(walks, kind), |walks|);
    SumSame(OwnUses(schedule, kind), WalkUses(walks, kind), |walks|);
    SumSame(OwnSizes(schedule), WalkSizes(walks), |walks|);
  }

  /** Any two finished runs over the same journals end in the same totals. */
  lemma RunsAgree(walks: seq<Walk>, a: seq<nat>, b: seq<nat>)
    requires Legal(walks, a) && AllEnded(walks, a) && Legal(walks, b) && AllEnded(walks, b) && AllFinish(walks)
    ensures forall i :: 0 <= i < |a| ==> a[i] < |walks|
    ensures forall i :: 0 <= i < |b| ==> b[i] < |walks|
    ensures TallyOf(All(Made(walks, a))) == TallyOf(All(Made(walks, b)))
  {
    hide Own, WholeWalk, Made, Legal, StandAfter, TallyOf, All, AllFinish, AllEnded;
    LegalNames(walks, a);
    LegalNames(walks, b);
    forall j | 0 <= j < |walks| ensures Own(Made(walks, a), j) == Own(Made(walks, b), j) {
      FinishedRun(walks, a, j);
      FinishedRun(walks, b, j);
    }
    SchedulesAgree(Made(walks, a), Made(walks, b), |walks|);
  }

  /** The bytes of all objects of a walk. */
  ghost function ObjectBytesOf(w: Walk): nat {
    OffsetsReadable(w.file, w.h, w.h.headerSize);
    TotalSize(w.file, Offsets(w.file, w.h, w.h.headerSize))
  }

  ghost function WalkBytes(walks: seq<Walk>): nat -> nat {
    (j: nat) => if j < |walks| then ObjectBytesOf(walks[j]) else 0
  }

  /** The header that a walk counts again at its end. */
  ghost function LastOf(w: Walk): ObjectHeader {
    WholeWalk(w)[|WholeWalk(w)| - 1]
  }

  /** use_total of a whole run is the bytes of all objects exactly when every journal's last header has size 0. */
  lemma RunUseTotalExactly(walks: seq<Walk>, steps: seq<nat>)
    requires Legal(walks, steps) && AllEnded(walks, steps) && AllFinish(walks)
    ensures forall i :: 0 <= i < |steps| ==> steps[i] < |walks|
    ensures
      var useTotal := SizeOf(All(Made(walks, steps)));
      && useTotal >= SumBelow(WalkBytes(walks), |walks|)
      && (useTotal == SumBelow(WalkBytes(walks), |walks|) <==>
            forall j :: 0 <= j < |walks| ==> LastOf(walks[j]).size == 0)
  {
    hide WholeWalk, Made, Legal, StandAfter, SizeOf, All, AllFinish, AllEnded, ObjectBytesOf, SumBelow, LastOf;
    RunTotals(walks, steps, 0);
    forall j | 0 <= j < |walks|
      ensures WalkSizes(walks)(j) == WalkBytes(walks)(j) + LastOf(walks[j]).size
    {
      WholeSize(walks[j]);
    }
    SumsEqualExactly(WalkSizes(walks), WalkBytes(walks), |walks|);
  }

  lemma WholeSize(w: Walk)
    ensures SizeOf(WholeWalk(w)) == ObjectBytesOf(w) + LastOf(w).size
  {
    hide HasObject, ObjectAt, Offsets;
    var s := Offsets(w.file, w.h, w.h.headerSize);
    OffsetsReadable(w.file, w.h, w.h.headerSize);
    HeadersSize(w.file, s);
    var last := [LastOr(Headers(w.file, s), w.before)];
    SizeAppend(Headers(w.file, s), last);
    assert last[..0] == [];
  }

  /** Sums of numbers, each at least the other: equal exactly when all numbers are. */
  lemma {:induction false} SumsEqualExactly(f: nat -> nat, g: nat -> nat, n: nat)
    requires forall k: nat {:trigger f(k)} :: k < n ==> f(k) >= g(k)
    ensures SumBelow(f, n) >= SumBelow(g, n)
    ensures SumBelow(f, n) == SumBelow(g, n) <==> forall k: nat {:trigger f(k)} :: k < n ==> f(k) == g(k)
  {
    if n > 0 { SumsEqualExactly(f, g, n - 1); }
  }

  /** No dispatch of a run is out of bounds exactly when every header that is counted has a type with a counter. */
  lemma RunInBoundsExactly(walks: seq<Walk>, steps: seq<nat>)
    requires Legal(walks, steps) && AllEnded(walks, steps) && AllFinish(walks)
    ensures forall i :: 0 <= i < |steps| ==> steps[i] < |walks|
    ensures
      Typed(Made(walks, steps)) <==>
        forall j, header :: 0 <= j < |walks| && header in WholeWalk(walks[j]) ==> header.kind as nat < OBJECT_TYPE_MAX
  {
    hide Own, WholeWalk, Made, Legal, StandAfter, AllFinish, AllEnded;
    LegalNames(walks, steps);
    var schedule := Made(walks, steps);
    forall j | 0 <= j < |walks| ensures Own(schedule, j) == WholeWalk(walks[j]) { FinishedRun(walks, steps, j); }
    forall j: nat, header ensures header in Own(schedule, j) <==> (j, header) in schedule {
      OwnHas(schedule, j, header);
    }
  }

  lemma {:induction false} OwnHas(schedule: Schedule, j: nat, header: ObjectHeader)
    ensures header in Own(schedule, j) <==> (j, header) in schedule
  {
    if schedule != [] {
      var n := |schedule| - 1;
      OwnHas(schedule[..n], j, header);
      assert schedule == schedule[..n] + [schedule[n]];
    }
  }

  // ----- One journal, in place -----

  /** The dispatches of a walk that got past k objects. */
  ghost predicate CountedSo(file: seq<byte>, s: seq<nat>, k: nat, header: ObjectHeader, before: ObjectHeader,
        hs: seq<ObjectHeader>) {
    && k <= |s| && Readable(file, s)
    && hs == Headers(file, s)[..k] && header == LastOr(hs, before) && !Overflows(hs)
  }

  lemma CountedNext(file: seq<byte>, s: seq<nat>, k: nat, header: ObjectHeader, before: ObjectHeader,
        hs: seq<ObjectHeader>)
    requires CountedSo(file, s, k, header, before, hs) && k < |s|
    ensures HasObject(file, s[k])
    ensures
      ObjectAt(file, s[k]).kind as nat < OBJECT_TYPE_MAX ==>
        CountedSo(file, s, k + 1, ObjectAt(file, s[k]), before, hs + [ObjectAt(file, s[k])])
  {
    hide HasObject, ObjectAt;
    assert Headers(file, s)[..k + 1] == Headers(file, s)[..k] + [ObjectAt(file, s[k])];
  }

  /** The tallies are not parts of the journal or of the iterator. */
  ghost predicate TalliesApart(journal: Journal, it: ObjectIterator, usage: Tallies, totals: Tallies) {
    var theirs: set<object> :=
      (set o: object | o in journal.bufs) + (set o: object | o in journal.datas) + {journal, it};
    usage.Valid() && totals.Valid() && usage.Parts() !! totals.Parts() !! theirs
  }

  /** One step of the iterator, and the dispatch of the closure with whatever header it holds then. */
  method OneDispatch(journal: Journal, it: ObjectIterator, h: Header, reply: Reply, usage: Tallies,
        totals: Tallies, ghost own: seq<ObjectHeader>, ghost all: seq<ObjectHeader>, ghost file: seq<byte>)
    returns (e: Event, inBounds: bool)
    requires Idle(journal, file) && Honest(file, NextOffset(h, it.State()), OBJECT_HEADER_BYTES, reply)
    requires TalliesApart(journal, it, usage, totals)
    requires usage.Value() == TallyOf(own) && totals.Value() == TallyOf(all)
    modifies it, journal, journal.bufs, journal.datas
    modifies usage`useTotal, usage.countPerType, usage.usePerType
    modifies totals`useTotal, totals.countPerType, totals.usePerType
    ensures Idle(journal, file)
    ensures (it.State(), e) == Step(file, h, old(it.State())) || (e.Unreadable? && e.offset == it.State().offset)
    ensures Willing(file, NextOffset(h, old(it.State())), OBJECT_HEADER_BYTES, reply) ==>
              (it.State(), e) == Step(file, h, old(it.State()))
    ensures inBounds <==> e.Unreadable? || it.State().header.kind as nat < OBJECT_TYPE_MAX
    ensures
      var counted := if inBounds then Counted(e, it.State()) else [];
      usage.Value() == TallyOf(own + counted) && totals.Value() == TallyOf(all + counted)
  {
    hide CacheProtocol.Inv, Journal.Valid, Willing, Honest, HasObject, ObjectAt, NextOffset, TallyOf;
    ghost var before := it.State();
    Outcome(file, h, before);
    e := it.Next(journal, h, reply, file);
    assert usage.Value() == TallyOf(own) && totals.Value() == TallyOf(all);
    assert own + [] == own && all + [] == all;
    inBounds := true;
    if !e.Unreadable? {
      assert journal.Dests() == {};
      inBounds := PerDataObject(it.iterHeader, usage, totals, own, all);
      assert journal.Dests() == {};
      assert forall o: object :: o in journal.bufs || o in journal.datas ==>
        o !in usage.Parts() && o !in totals.Parts();
    }
  }

  lemma Outcome(file: seq<byte>, h: Header, it: Iter)
    ensures
      var offset := NextOffset(h, it);
      var (next, e) := Step(file, h, it);
      && (e.Object? <==> offset <= h.tailObjectOffset && HasObject(file, offset))
      && next.header == if e.Object? then ObjectAt(file, offset) else it.header
  {}

  /** How the walk of a journal ends: at its end, at a read that fails, or at a count out of bounds. */
  datatype WalkEnd = Finish | Unread | PastCounters

  /** journal_iter_objects with per_data_object as its closure. */
  method WalkObjects(journal: Journal, it: ObjectIterator, h: Header, reply: Replies, usage: Tallies,
        totals: Tallies, ghost all: seq<ObjectHeader>, ghost file: seq<byte>)
    returns (end: WalkEnd, ghost hs: seq<ObjectHeader>)
    requires Idle(journal, file) && AllHonest(file, reply)
    requires Sane(h) && EndOf(file, h, h.headerSize) != Wrapping && it.State().offset == 0
    requires TalliesApart(journal, it, usage, totals)
    requires usage.Value() == TallyOf([]) && totals.Value() == TallyOf(all)
    modifies it, journal, journal.bufs, journal.datas
    modifies usage`useTotal, usage.countPerType, usage.usePerType
    modifies totals`useTotal, totals.countPerType, totals.usePerType
    ensures Idle(journal, file)
    ensures usage.Value() == TallyOf(hs) && totals.Value() == TallyOf(all + hs)
    ensures
      var w := Walk(file, h, old(it.State()).header);
      && (end.Finish? ==> EndOf(file, h, h.headerSize).Finished? && hs == WholeWalk(w))
      && (end.PastCounters? ==> Overflows(WholeWalk(w)))
      && (AllWilling(file, reply) && EndOf(file, h, h.headerSize).Finished? ==>
            (end.Finish? <==> !Overflows(WholeWalk(w))))
  {
    hide Idle, Willing, Honest, HasObject, ObjectAt, NextOffset, TallyOf, Step, Offsets, EndOf, TalliesApart;
    hide Sane, CountedSo, LastOr, WholeWalk, Overflows;
    ghost var s, before := Offsets(file, h, h.headerSize), it.State().header;
    ghost var w := Walk(file, h, before);
    OffsetsReadable(file, h, h.headerSize);
    FirstOffset(h, it.State());
    StartsBehindHeader(h);
    CountedNothing(file, s, before);
    hs := [];
    var k := 0;
    assert s[0..] == s && all + [] == all;
    while true
      invariant Idle(journal, file)
      invariant NextOffset(h, it.State()) > 0
      invariant k <= |s| && s[k..] == Offsets(file, h, NextOffset(h, it.State()))
      invariant EndOf(file, h, NextOffset(h, it.State())) == EndOf(file, h, h.headerSize)
      invariant CountedSo(file, s, k, it.State().header, before, hs)
      invariant usage.Value() == TallyOf(hs) && totals.Value() == TallyOf(all + hs)
      decreases |s| - k
    {
      ghost var was := it.State();
      var offset := NextOffset(h, it.State());
      StepIs(file, h, was);
      Outcome(file, h, was);
      if k < |s| { HeadIs(file, h, offset, s, k); }
      var e, inBounds;
      e, inBounds :=
        OneDispatch(journal, it, h, reply(k, offset, OBJECT_HEADER_BYTES), usage, totals, hs, all + hs, file);
      if e.Unreadable? || !inBounds {
        assert hs + [] == hs && all + hs + [] == all + hs;
        if !inBounds { CountsPast(w, s, k, was.header, it.State().header, hs); }
        return if e.Unreadable? then Unread else PastCounters, hs;
      }
      assert all + hs + [it.State().header] == all + (hs + [it.State().header]);
      if e.End? {
        CountedAll(w, s, was.header, hs);
        return Finish, hs + [it.State().header];
      }
      ghost var next := NextStop(file, h, was);
      assert s[k..][0] == s[k] && s[k..][1..] == s[k + 1..];
      CountedNext(file, s, k, was.header, before, hs);
      hs := hs + [it.State().header];
      k := k + 1;
    }
  }

  /** Some header has a type without a counter. */
  ghost predicate Overflows(hs: seq<ObjectHeader>) {
    exists i :: 0 <= i < |hs| && hs[i].kind as nat >= OBJECT_TYPE_MAX
  }

  lemma HeadIs(file: seq<byte>, h: Header, offset: nat, s: seq<nat>, k: nat)
    requires k < |s| && s[k..] == Offsets(file, h, offset)
    ensures s[k] == offset && HasObject(file, offset)
  {
    OffsetsAreChain(file, h, offset);
    assert s[k..][0] == s[k];
  }

  lemma CountedNothing(file: seq<byte>, s: seq<nat>, before: ObjectHeader)
    requires Readable(file, s)
    ensures CountedSo(file, s, 0, before, before, [])
  {}

  lemma CountedAll(w: Walk, s: seq<nat>, header: ObjectHeader, hs: seq<ObjectHeader>)
    requires CountedSo(w.file, s, |s|, header, w.before, hs) && s == Offsets(w.file, w.h, w.h.headerSize)
    requires header.kind as nat < OBJECT_TYPE_MAX
    ensures WholeWalk(w) == hs + [header] && !Overflows(WholeWalk(w))
  {
    hide HasObject, ObjectAt, Offsets;
  }

  /** The header that overflows is one that the whole walk counts. */
  lemma CountsPast(w: Walk, s: seq<nat>, k: nat, last: ObjectHeader, header: ObjectHeader, hs: seq<ObjectHeader>)
    requires CountedSo(w.file, s, k, last, w.before, hs) && s == Offsets(w.file, w.h, w.h.headerSize)
    requires header == if k < |s| then ObjectAt(w.file, s[k]) else last
    requires header.kind as nat >= OBJECT_TYPE_MAX
    ensures Overflows(WholeWalk(w))
  {
    hide HasObject, ObjectAt, Offsets;
    assert WholeWalk(w)[k] == header;
  }

  /** Reads answer as far as the file goes, and the walk has an end. */
  ghost predicate Cooperative(file: seq<byte>, h: Header, first: Reply, reply: Replies) {
    Willing(file, 0, HEADER_BYTES, first) && AllWilling(file, reply) && EndOf(file, h, h.headerSize).Finished?
  }

  /** The sizes of the file, in the usage of the journal and in the totals, and an iterator. */
  method Begin(journal: Journal, totals: Tallies, before: ObjectHeader, size: nat, ghost file: seq<byte>)
    returns (usage: Tallies, it: ObjectIterator)
    requires Idle(journal, file) && totals.Valid() && TotalsApart(journal, totals)
    modifies totals`fileSize
    ensures Idle(journal, file) && usage.Valid() && fresh(usage.Parts()) && fresh(it)
    ensures it.State() == Iter(0, before) && TalliesApart(journal, it, usage, totals)
    ensures usage.Value() == TallyOf([]) && totals.Value() == old(totals.Value())
    ensures usage.fileSize == size && totals.fileSize == old(totals.fileSize) + size
  {
    hide CacheProtocol.Inv, Journal.Valid, TallyOf;
    assert journal.Dests() == {};
    usage := new Tallies();
    it := new ObjectIterator(before);
    usage.fileSize := size;
    totals.fileSize := totals.fileSize + size;
    assert forall o: object :: o in journal.datas || o in journal.bufs ==> o != totals && o != usage && o != it;
    assert journal.Dests() == {};
  }

  /** per_journal: the size of the file counts before anything is read of it. */
  method PerJournal(journal: Journal, totals: Tallies, nJournals: nat, before: ObjectHeader, stat: Stat, first: Reply,
        reply: Replies, ghost all: seq<ObjectHeader>, ghost file: seq<byte>)
    returns (end: WalkEnd, n: nat, usage: Tallies, ghost hs: seq<ObjectHeader>)
    requires Idle(journal, file) && AllHonest(file, reply) && Honest(file, 0, HEADER_BYTES, first)
    requires |file| >= HEADER_BYTES ==>
               Sane(ParseHeader(file)) && EndOf(file, ParseHeader(file), ParseHeader(file).headerSize) != Wrapping
    requires stat.Size? ==> stat.size == |file|
    requires totals.Valid() && TotalsApart(journal, totals) && totals.Value() == TallyOf(all)
    modifies journal, journal.bufs, journal.datas, totals.Parts()
    ensures Idle(journal, file)
    ensures stat.StatError? ==> end.Unread? && hs == [] && n == nJournals && totals.fileSize == old(totals.fileSize)
    ensures
      stat.Size? ==>
        n == nJournals + 1 && totals.fileSize == old(totals.fileSize) + |file| && usage.fileSize == |file|
    ensures usage.Value() == TallyOf(hs) && totals.Value() == TallyOf(all + hs)
    ensures end.Finish? ==> |file| >= HEADER_BYTES
    ensures |file| >= HEADER_BYTES ==>
              var h := ParseHeader(file);
              var w := Walk(file, h, before);
              && (end.Finish? ==> EndOf(file, h, h.headerSize).Finished? && hs == WholeWalk(w))
              && (end.PastCounters? ==> Overflows(WholeWalk(w)))
              && (stat.Size? && Cooperative(file, h, first, reply) ==> (end.Finish? <==> !Overflows(WholeWalk(w))))
  {
    hide CacheProtocol.Inv, Journal.Valid, Willing, Honest, AllWilling, AllHonest, Sane, Offsets, EndOf, ParseHeader;
    hide WholeWalk, Overflows, TallyOf;
    assert all + [] == all;
    if stat.StatError? {
      usage := new Tallies();
      assert journal.Dests() == {};
      return Unread, nJournals, usage, [];
    }
    var it;
    usage, it := Begin(journal, totals, before, stat.size, file);
    n := nJournals + 1;
    var answer, h := LoadHeader(journal, first, file);
    assert usage.Value() == TallyOf([]) && totals.Value() == TallyOf(all);
    if answer != Done {
      return Unread, n, usage, [];
    }
    end, hs := WalkObjects(journal, it, h, reply, usage, totals, all, file);
  }

  ghost predicate TotalsApart(journal: Journal, totals: Tallies) {
    var theirs: set<object> := (set o: object | o in journal.bufs) + (set o: object | o in journal.datas) + {journal};
    totals.Parts() !! theirs
  }
}
