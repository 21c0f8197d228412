/**
 The entry-array report over all journals (src/report-entry-arrays.c:215-296): the walks of a
 run proceed in any interleaving, and the totals grow at the end of each.
 */
module EntryRuns {
  import opened Bytes
  import opened EntryReport
  import opened EntryStats
  import opened EntryTable
  import opened EntryTotals
  import opened JournalFile
  import opened Lru
  import opened ObjectIterator
  import opened ObjectWalk

  /** A walk goes on, has come to its end, has failed to read a header or an array, or has failed an assertion. */
  datatype Stand = Going | AtEnd | Broken | Crashed

  /** The iterator and the profile of one journal. */
  datatype Job = Job(it: Iter, table: Table, count: nat, stand: Stand)

  /** The journals of a run, the totals, and which journals have come to their ends, in that order. */
  datatype World = World(jobs: seq<Job>, totals: Histogram, ends: seq<nat>)

  /** One step of the iterator, and per_object on what it finds, with memory at hand. */
  function JobStep(w: Walk, job: Job, sha: Sha): (after: Job)
    requires |job.table| == N_BUCKETS
    ensures |after.table| == N_BUCKETS
  {
    var (next, e) := Step(w.file, w.h, job.it);
    match e
    case End => job.(it := next, stand := AtEnd)
    case Unreadable(_) => job.(it := next, stand := Broken)
    case Object(offset, _) =>
      if !IsArray(w.file, offset) then job.(it := next)
      else if !Complete(w.file, offset) then
        // an array without items fails assert(length) in journal_read
        var stand := if ObjectAt(w.file, offset).size == ITEMS_OFFSET then Crashed else Broken;
        job.(it := next, count := job.count + 1, stand := stand)
      else Job(next, Visited(w.file, offset, job.table, sha), job.count + 1, Going)
  }

  ghost predicate WorldFits(walks: seq<Walk>, world: World) {
    && |world.jobs| == |walks| && Sized(world.totals)
    && forall j :: 0 <= j < |world.jobs| ==> |world.jobs[j].table| == N_BUCKETS
  }

  /** The report that a journal prints and adds to the totals at its end. */
  function ReportOfJob(job: Job): (h: Histogram)
    ensures Sized(h)
  {
    Tally(job.count, NodeCount(job.table), Flat(job.table))
  }

  ghost function Start(walks: seq<Walk>): (world: World)
    ensures WorldFits(walks, world)
  {
    var jobs := seq(|walks|, j requires 0 <= j < |walks| => Job(Iter(0, walks[j].before), Empty(), 0, Going));
    World(jobs, Blank(0, 0), [])
  }

  ghost function Advance(walks: seq<Walk>, world: World, j: nat, sha: Sha): (after: World)
    requires WorldFits(walks, world) && j < |walks|
    ensures WorldFits(walks, after)
  {
    var job := JobStep(walks[j], world.jobs[j], sha);
    if job.stand.AtEnd?
    then World(world.jobs[j := job], Plus(world.totals, ReportOfJob(job)), world.ends + [j])
    else world.(jobs := world.jobs[j := job])
  }

  ghost predicate Alive(world: World) {
    forall j :: 0 <= j < |world.jobs| ==> !world.jobs[j].stand.Crashed?
  }

  /** The steps name journals that are still going, as long as the program is. */
  ghost predicate Legal(walks: seq<Walk>, world: World, steps: seq<nat>, sha: Sha)
    requires WorldFits(walks, world)
    decreases |steps|
  {
    steps == [] ||
    (steps[0] < |walks| && world.jobs[steps[0]].stand.Going? && Alive(world)
     && Legal(walks, Advance(walks, world, steps[0], sha), steps[1..], sha))
  }

  ghost function Ran(walks: seq<Walk>, world: World, steps: seq<nat>, sha: Sha): (after: World)
    requires WorldFits(walks, world) && Legal(walks, world, steps, sha)
    ensures WorldFits(walks, after)
    decreases |steps|
  {
    if steps == [] then world else Ran(walks, Advance(walks, world, steps[0], sha), steps[1..], sha)
  }

  /** The event loop has nothing left to do. */
  ghost predicate AllStopped(world: World) {
    forall j :: 0 <= j < |world.jobs| ==> world.jobs[j].stand.AtEnd? || world.jobs[j].stand.Broken?
  }

  // ----- What each journal reports -----

  function OffsetsOf(w: Walk): seq<nat> {
    Offsets(w.file, w.h, w.h.headerSize)
  }

  /** The walk has an end, and every entry array on it can be loaded. */
  ghost predicate Finishes(w: Walk) {
    OffsetsReadable(w.file, w.h, w.h.headerSize);
    EndOf(w.file, w.h, w.h.headerSize).Finished? && ArraysComplete(w.file, OffsetsOf(w))
  }

  ghost function ReportOf(w: Walk, sha: Sha): (h: Histogram)
    ensures Sized(h)
  {
    OffsetsReadable(w.file, w.h, w.h.headerSize);
    if Finishes(w) then Report(Payloads(w.file, OffsetsOf(w)), sha) else Blank(0, 0)
  }

  ghost function ReportsOf(walks: seq<Walk>, sha: Sha): (reports: seq<Histogram>)
    ensures AllSized(reports) && |reports| == |walks|
  {
    seq(|walks|, j requires 0 <= j < |walks| => ReportOf(walks[j], sha))
  }

  /** What the source takes for granted of a journal. */
  ghost predicate Walkable(w: Walk) {
    Sane(w.h) && !EndOf(w.file, w.h, w.h.headerSize).Wrapping?
  }

  // ----- The invariant -----

  /** The iterator is on its way to the k-th object, and the profile holds the arrays before. */
  ghost predicate JobAt(w: Walk, k: nat, job: Job, sha: Sha) {
    var s, offset := OffsetsOf(w), NextOffset(w.h, job.it);
    && k <= |s| && offset > 0 && s[k..] == Offsets(w.file, w.h, offset)
    && EndOf(w.file, w.h, offset) == EndOf(w.file, w.h, w.h.headerSize)
    && Walked(w.file, s, k, sha, job.table, job.count)
  }

  ghost predicate JobOk(w: Walk, job: Job, sha: Sha) {
    match job.stand
    case Going => exists k: nat :: JobAt(w, k, job, sha)
    case AtEnd => Finishes(w) && ReportOfJob(job) == ReportOf(w, sha)
    case Broken | Crashed => !Finishes(w)
  }

  lemma StartAt(w: Walk, sha: Sha)
    requires Walkable(w)
    ensures JobAt(w, 0, Job(Iter(0, w.before), Empty(), 0, Going), sha)
  {
    hide Offsets, EndOf, Walked;
    StartsBehindHeader(w.h);
    FirstOffset(w.h, Iter(0, w.before));
    WalkedNothing(w.file, OffsetsOf(w), sha);
    assert OffsetsOf(w)[0..] == OffsetsOf(w);
  }

  /** A step of a journal that is going. */
  lemma StepKeeps(w: Walk, k: nat, job: Job, sha: Sha)
    requires Walkable(w) && job.stand.Going? && |job.table| == N_BUCKETS && JobAt(w, k, job, sha)
    ensures JobOk(w, JobStep(w, job, sha), sha)
  {
    hide Offsets, EndOf, Step, NextOffset, HasObject, ObjectAt, Walked, IsArray, Complete, Visited, ReportOfJob;
    hide Finishes, ReportOf, Sane;
    var s, offset := OffsetsOf(w), NextOffset(w.h, job.it);
    StepIs(w.file, w.h, job.it);
    var after := JobStep(w, job, sha);
    if offset > w.h.tailObjectOffset {
      assert |s| == k;
      EndReports(w, job, sha);
      SameReport(job, after);
    } else if !HasObject(w.file, offset) {
      NotFinished(w);
    } else {
      StillThere(w.file, w.h, offset, s, k);
      if IsArray(w.file, offset) && !Complete(w.file, offset) {
        NotComplete(w, k);
      } else {
        var next := NextStop(w.file, w.h, job.it);
        assert s[k..][0] == s[k] && s[k..][1..] == s[k + 1..];
        WalkedNext(w.file, s, k, sha, job.table, job.count);
        if !IsArray(w.file, offset) { SkipsOthers(w.file, offset, job.table, sha); }
        assert JobAt(w, k + 1, after, sha);
      }
    }
  }

  lemma SameReport(job: Job, after: Job)
    requires job.table == after.table && job.count == after.count
    ensures ReportOfJob(job) == ReportOfJob(after)
  {}

  lemma EndReports(w: Walk, job: Job, sha: Sha)
    requires Walked(w.file, OffsetsOf(w), |OffsetsOf(w)|, sha, job.table, job.count)
    requires EndOf(w.file, w.h, w.h.headerSize).Finished?
    ensures Finishes(w) && ReportOfJob(job) == ReportOf(w, sha)
  {
    hide Offsets, EndOf, Tally, AllAdded, NodeCount, Flat;
    WalkedAll(w.file, OffsetsOf(w), sha, job.table, job.count);
  }

  lemma NotFinished(w: Walk)
    requires EndOf(w.file, w.h, w.h.headerSize).Truncated?
    ensures !Finishes(w)
  {}

  lemma NotComplete(w: Walk, k: nat)
    requires k < |OffsetsOf(w)| && HasObject(w.file, OffsetsOf(w)[k])
    requires IsArray(w.file, OffsetsOf(w)[k]) && !Complete(w.file, OffsetsOf(w)[k])
    ensures !Finishes(w)
  {
    hide Offsets, EndOf, IsArray, Complete, HasObject;
    OffsetsReadable(w.file, w.h, w.h.headerSize);
    ArrayMissing(w.file, OffsetsOf(w), k);
  }

  lemma SkipsOthers(file: seq<byte>, offset: nat, table: Table, sha: Sha)
    requires HasObject(file, offset) && !IsArray(file, offset) && |table| == N_BUCKETS
    ensures Visited(file, offset, table, sha) == table
  {
    hide IsArray;
  }

  /** The journals are where their own walks are, and the totals are the reports of those that have ended. */
  ghost predicate RunOk(walks: seq<Walk>, world: World, sha: Sha) {
    && WorldFits(walks, world)
    && (forall j :: 0 <= j < |walks| ==> JobOk(walks[j], world.jobs[j], sha))
    && (forall i :: 0 <= i < |world.ends| ==> world.ends[i] < |walks|) && Distinct(world.ends)
    && (forall j :: 0 <= j < |walks| ==> (j in world.ends <==> world.jobs[j].stand.AtEnd?))
    && world.totals == Aggregate(ReportsOf(walks, sha), world.ends)
  }

  lemma StartOk(walks: seq<Walk>, sha: Sha)
    requires forall j :: 0 <= j < |walks| ==> Walkable(walks[j])
    ensures RunOk(walks, Start(walks), sha)
  {
    hide JobAt, Walkable, Empty;
    forall j | 0 <= j < |walks| ensures JobOk(walks[j], Start(walks).jobs[j], sha) { StartAt(walks[j], sha); }
  }

  lemma AdvanceKeeps(walks: seq<Walk>, world: World, j: nat, sha: Sha)
    requires RunOk(walks, world, sha) && j < |walks| && Walkable(walks[j]) && world.jobs[j].stand.Going?
    ensures RunOk(walks, Advance(walks, world, j, sha), sha)
  {
    hide JobStep, JobOk, Walkable, ReportOfJob, ReportOf, Aggregate;
    var job, after := JobStep(walks[j], world.jobs[j], sha), Advance(walks, world, j, sha);
    JobAdvances(walks[j], world.jobs[j], sha);
    if job.stand.AtEnd? {
      ReportIs(walks[j], job, sha);
      AggregateNext(ReportsOf(walks, sha), world.ends, j);
    }
  }

  lemma JobAdvances(w: Walk, job: Job, sha: Sha)
    requires Walkable(w) && job.stand.Going? && |job.table| == N_BUCKETS && JobOk(w, job, sha)
    ensures JobOk(w, JobStep(w, job, sha), sha)
  {
    hide JobStep, JobAt, Walkable;
    var k: nat :| JobAt(w, k, job, sha);
    StepKeeps(w, k, job, sha);
  }

  lemma ReportIs(w: Walk, job: Job, sha: Sha)
    requires JobOk(w, job, sha) && job.stand.AtEnd?
    ensures ReportOfJob(job) == ReportOf(w, sha)
  {}

  lemma AggregateNext(reports: seq<Histogram>, order: seq<nat>, j: nat)
    requires AllSized(reports) && j < |reports| && forall i :: 0 <= i < |order| ==> order[i] < |reports|
    ensures Aggregate(reports, order + [j]) == Plus(Aggregate(reports, order), reports[j])
  {
    hide Plus;
    assert (order + [j])[..|order|] == order;
  }

  lemma {:induction false} RunKeeps(walks: seq<Walk>, world: World, steps: seq<nat>, sha: Sha)
    requires RunOk(walks, world, sha) && Legal(walks, world, steps, sha)
    requires forall j :: 0 <= j < |walks| ==> Walkable(walks[j])
    ensures RunOk(walks, Ran(walks, world, steps, sha), sha)
    decreases |steps|
  {
    hide RunOk, Walkable, Advance;
    if steps != [] {
      Fits(walks, world, sha);
      AdvanceKeeps(walks, world, steps[0], sha);
      RunKeeps(walks, Advance(walks, world, steps[0], sha), steps[1..], sha);
    }
  }

  lemma Fits(walks: seq<Walk>, world: World, sha: Sha)
    requires RunOk(walks, world, sha)
    ensures WorldFits(walks, world)
  {}

  // ----- Whole runs -----

  /**
   At any time in any interleaving the totals are the reports of the journals that have ended, in the order of their
   ends; and once nothing moves any more, those are exactly the journals whose walks finish with all arrays complete.
   */
  lemma RunIsAggregate(walks: seq<Walk>, steps: seq<nat>, sha: Sha)
    requires forall j :: 0 <= j < |walks| ==> Walkable(walks[j])
    requires Legal(walks, Start(walks), steps, sha)
    ensures
      var world := Ran(walks, Start(walks), steps, sha);
      && Distinct(world.ends) && (forall i :: 0 <= i < |world.ends| ==> world.ends[i] < |walks|)
      && world.totals == Aggregate(ReportsOf(walks, sha), world.ends)
      && (AllStopped(world) ==> forall j :: 0 <= j < |walks| ==> (j in world.ends <==> Finishes(walks[j])))
  {
    hide Walkable, Legal, Ran, Aggregate, JobAt, ReportOf, ReportOfJob, Finishes;
    StartOk(walks, sha);
    RunKeeps(walks, Start(walks), steps, sha);
  }

  /** The journals below n that are not in an order. */
  function Missing(order: seq<nat>, n: nat): (rest: seq<nat>)
    ensures forall i :: 0 <= i < |rest| ==> rest[i] < n && rest[i] !in order
    ensures Distinct(rest)
  {
    if n == 0 then [] else Missing(order, n - 1) + if n - 1 in order then [] else [n - 1]
  }

  lemma {:induction false} NoneElse(order: seq<nat>, n: nat, x: nat)
    requires x < n
    ensures x in order || x in Missing(order, n)
  {
    if x < n - 1 { NoneElse(order, n - 1, x); }
  }

  /** Reports of nothing do not change the totals. */
  lemma {:induction false} BlankChangesNothing(reports: seq<Histogram>, order: seq<nat>, rest: seq<nat>)
    requires AllSized(reports) && (forall i :: 0 <= i < |order| ==> order[i] < |reports|)
    requires forall i :: 0 <= i < |rest| ==> rest[i] < |reports| && reports[rest[i]] == Blank(0, 0)
    ensures Aggregate(reports, order + rest) == Aggregate(reports, order)
    decreases |rest|
  {
    hide Plus, Blank;
    if rest == [] {
      assert order + rest == order;
    } else {
      var n := |rest| - 1;
      BlankChangesNothing(reports, order, rest[..n]);
      assert order + rest == order + rest[..n] + [rest[n]];
      AggregateNext(reports, order + rest[..n], rest[n]);
      PlusNothing(Aggregate(reports, order));
    }
  }

  lemma PlusNothing(h: Histogram)
    requires Sized(h)
    ensures Plus(h, Blank(0, 0)) == h
  {
    var r := Plus(h, Blank(0, 0));
    assert r.counts == h.counts && r.bytes == h.bytes && r.utilized == h.utilized;
  }

  lemma Completed(order: seq<nat>, n: nat)
    requires Distinct(order) && forall i :: 0 <= i < |order| ==> order[i] < n
    ensures Permutation(order + Missing(order, n), n)
  {
    hide Missing;
    var all := order + Missing(order, n);
    forall x: nat | x < n ensures x in all { NoneElse(order, n, x); }
    AllOnce(all, n);
  }

  lemma AllOnce(all: seq<nat>, n: nat)
    requires Distinct(all) && (forall i :: 0 <= i < |all| ==> all[i] < n) && forall x: nat | x < n :: x in all
    ensures Permutation(all, n)
  {
    SubsetCount(Elements(all), Below(n));
    SubsetCount(Below(n), Elements(all));
  }

  /** Any two runs over the same journals in which nothing moves any more end in the same totals. */
  lemma RunsAgree(walks: seq<Walk>, a: seq<nat>, b: seq<nat>, sha: Sha)
    requires forall j :: 0 <= j < |walks| ==> Walkable(walks[j])
    requires Legal(walks, Start(walks), a, sha) && AllStopped(Ran(walks, Start(walks), a, sha))
    requires Legal(walks, Start(walks), b, sha) && AllStopped(Ran(walks, Start(walks), b, sha))
    ensures Ran(walks, Start(walks), a, sha).totals == Ran(walks, Start(walks), b, sha).totals
  {
    hide Walkable, Legal, Ran, Aggregate, Finishes, ReportOf, Start, AllStopped;
    AllReports(walks, a, sha);
    AllReports(walks, b, sha);
    var ea, eb := Ran(walks, Start(walks), a, sha).ends, Ran(walks, Start(walks), b, sha).ends;
    TotalsAnyOrder(ReportsOf(walks, sha), ea + Missing(ea, |walks|), eb + Missing(eb, |walks|));
  }

  /** The totals of a run that has come to a halt are an aggregate over all journals. */
  lemma AllReports(walks: seq<Walk>, steps: seq<nat>, sha: Sha)
    requires forall j :: 0 <= j < |walks| ==> Walkable(walks[j])
    requires Legal(walks, Start(walks), steps, sha) && AllStopped(Ran(walks, Start(walks), steps, sha))
    ensures
      var world := Ran(walks, Start(walks), steps, sha);
      var order := world.ends + Missing(world.ends, |walks|);
      Permutation(order, |walks|) && world.totals == Aggregate(ReportsOf(walks, sha), order)
  {
    hide Walkable, Legal, Ran, Aggregate, Finishes, Start, AllStopped, Blank;
    RunIsAggregate(walks, steps, sha);
    var ends := Ran(walks, Start(walks), steps, sha).ends;
    Completed(ends, |walks|);
    BlankChangesNothing(ReportsOf(walks, sha), ends, Missing(ends, |walks|));
  }
}
