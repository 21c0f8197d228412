/**
 journal_hash_table_iter_next_object and journal_hash_table_for_each (src/journals.c:514-660):
 a walk over the chains of a hash table, resumed from *iter_bucket, *iter_offset and the
 object loaded last.
 */
module HashWalk {
  import opened Bytes
  import opened JournalFile
  import opened JournalSample

  /** One bucket: the offsets of the first and of the last object of its chain, 0 when it is empty. */
  datatype HashItem = HashItem(head: nat, tail: nat)

  /** *iter_bucket, *iter_offset, and next_hash_offset of the object loaded last. */
  datatype Iter = Iter(bucket: nat, offset: nat, next: nat)

  /** A step dispatches with an object or with the end, has its read fail, or fails an assertion. */
  datatype Event = Object(offset: nat) | End | Unreadable(offset: nat) | Aborted

  /** An object of which size bytes are loaded can be read at an offset. */
  predicate Loadable(file: seq<byte>, size: nat, offset: nat) {
    HASHED_HEADER_BYTES <= size && offset + size <= |file|
  }

  /** sizeof(DataObject) and sizeof(FieldObject) */
  const DATA_BYTES := 64
  const FIELD_BYTES := 40

  /** What got_hash_table_iter_object_header asserts when more than the common header has been loaded. */
  predicate Admitted(file: seq<byte>, size: nat, offset: nat) {
    || size <= HASHED_HEADER_BYTES
    || (offset < |file| && Admits(size, file[offset]))
  }

  predicate Admits(size: nat, kind: byte) {
    (kind == OBJECT_DATA && size >= DATA_BYTES) || (kind == OBJECT_FIELD && size >= FIELD_BYTES)
  }

  /** The dispatch with an object that has been loaded, unless an assertion fails before it. */
  function Dispatch(file: seq<byte>, size: nat, offset: nat): (e: Event)
    ensures e == Object(offset) || e == Aborted
  {
    if Admitted(file, size, offset) then Object(offset) else Aborted
  }

  function NextHashOffset(file: seq<byte>, size: nat, offset: nat): nat
    requires Loadable(file, size, offset)
  {
    U64At(file, offset + 24)
  }

  /** The first bucket from b on that is not empty, or the number of buckets. */
  function Occupied(table: seq<HashItem>, b: nat): (r: nat)
    requires b <= |table|
    ensures b <= r <= |table|
    ensures r < |table| ==> table[r].head != 0
    ensures forall j :: b <= j < r ==> table[j].head == 0
    decreases |table| - b
  {
    if b == |table| then b else if table[b].head != 0 then b else Occupied(table, b + 1)
  }

  /** Whether the step follows the chain of the current bucket. */
  predicate MidChain(table: seq<HashItem>, it: Iter)
    requires it.bucket < |table|
  {
    it.offset != 0 && it.offset != table[it.bucket].tail
  }

  /** The bucket and offset a step looks at; offset 0 is the end. */
  function Target(table: seq<HashItem>, it: Iter): (nat, nat)
    requires it.bucket < |table|
  {
    if MidChain(table, it) then (it.bucket, it.next)
    else
      var b := Occupied(table, (if it.offset == 0 then 0 else it.bucket) + 1);
      (b, if b == |table| then 0 else table[b].head)
  }

  function Step(file: seq<byte>, table: seq<HashItem>, size: nat, it: Iter): (Iter, Event) {
    if it.bucket >= |table| then (it, Aborted)
    else
      var (bucket, offset) := Target(table, it);
      if bucket == |table| then (Iter(bucket, 0, it.next), End)
      else if Loadable(file, size, offset) then
        (Iter(bucket, offset, NextHashOffset(file, size, offset)), Dispatch(file, size, offset))
      else (Iter(bucket, offset, it.next), Unreadable(offset))
  }

  function Events(file: seq<byte>, table: seq<HashItem>, size: nat, it: Iter, n: nat): (es: seq<Event>)
    ensures |es| == n
    decreases n
  {
    if n == 0 then []
    else
      var (next, e) := Step(file, table, size, it);
      [e] + Events(file, table, size, next, n - 1)
  }

  function After(file: seq<byte>, table: seq<HashItem>, size: nat, it: Iter, n: nat): Iter
    decreases n
  {
    if n == 0 then it else After(file, table, size, Step(file, table, size, it).0, n - 1)
  }

  // ----- Well-formed tables -----

  /** chain is what bucket item links together in the file, from head to tail. */
  ghost predicate ChainOf(file: seq<byte>, size: nat, item: HashItem, chain: seq<nat>) {
    if chain == [] then item.head == 0
    else
      && item.head == chain[0]
      && item.tail == chain[|chain| - 1]
      && (forall k :: 0 <= k < |chain| ==> chain[k] != 0 && Loadable(file, size, chain[k]))
      && (forall k :: 0 <= k < |chain| - 1 ==>
            chain[k] != item.tail && NextHashOffset(file, size, chain[k]) == chain[k + 1])
  }

  ghost predicate WellFormed(file: seq<byte>, size: nat, table: seq<HashItem>, chains: seq<seq<nat>>) {
    && |chains| == |table| >= 1
    && (forall b :: 0 <= b < |table| ==> ChainOf(file, size, table[b], chains[b]))
  }

  function Concat(chains: seq<seq<nat>>): seq<nat> {
    if chains == [] then [] else chains[0] + Concat(chains[1..])
  }

  function Objects(s: seq<nat>): (es: seq<Event>)
    ensures |es| == |s|
  {
    seq(|s|, i requires 0 <= i < |s| => Object(s[i]))
  }

  ghost predicate AllAdmitted(file: seq<byte>, size: nat, s: seq<nat>) {
    forall i :: 0 <= i < |s| ==> Admitted(file, size, s[i])
  }

  function Dispatches(file: seq<byte>, size: nat, s: seq<nat>): (es: seq<Event>)
    ensures |es| == |s|
  {
    seq(|s|, i requires 0 <= i < |s| => Dispatch(file, size, s[i]))
  }

  lemma DispatchesAdmitted(file: seq<byte>, size: nat, s: seq<nat>)
    ensures Dispatches(file, size, s) == Objects(s) <==> AllAdmitted(file, size, s)
  {
    hide Admitted;
    forall i | 0 <= i < |s| ensures Dispatches(file, size, s)[i] == Objects(s)[i] <==> Admitted(file, size, s[i]) {}
  }

  /** Skipping empty buckets skips nothing of the concatenation. */
  lemma {:induction false} ConcatSkips(file: seq<byte>, size: nat, table: seq<HashItem>, chains: seq<seq<nat>>,
        b: nat)
    requires WellFormed(file, size, table, chains) && b <= |table|
    ensures Concat(chains[b..]) == Concat(chains[Occupied(table, b)..])
    decreases |table| - b
  {
    if b < |table| && table[b].head == 0 {
      assert ChainOf(file, size, table[b], chains[b]);
      ConcatSkips(file, size, table, chains, b + 1);
      assert chains[b..][1..] == chains[b + 1..];
    }
  }

  lemma OneEvent(file: seq<byte>, table: seq<HashItem>, size: nat, it: Iter, n: nat)
    ensures
      var (next, e) := Step(file, table, size, it);
      && Events(file, table, size, it, n + 1) == [e] + Events(file, table, size, next, n)
      && After(file, table, size, it, n + 1) == After(file, table, size, next, n)
  {
    hide Step;
  }

  /** Standing on object k of bucket b: the state in which an object was dispatched. */
  ghost predicate At(file: seq<byte>, size: nat, chains: seq<seq<nat>>, it: Iter, b: nat, k: nat) {
    && b < |chains| && k < |chains[b]| && Loadable(file, size, chains[b][k])
    && it == Iter(b, chains[b][k], NextHashOffset(file, size, chains[b][k]))
  }

  /** From the end of a bucket's chain, the step goes to the next bucket that is not empty, or ends. */
  lemma NextBucket(file: seq<byte>, size: nat, table: seq<HashItem>, chains: seq<seq<nat>>, it: Iter)
    requires WellFormed(file, size, table, chains) && it.bucket < |table| && !MidChain(table, it)
    ensures
      var from := (if it.offset == 0 then 0 else it.bucket) + 1;
      var b := Occupied(table, from);
      var (next, e) := Step(file, table, size, it);
      if b == |table| then e == End && next.offset == 0 && next.bucket == |table|
      else
        && chains[b] != [] && chains[b][0] != 0
        && At(file, size, chains, next, b, 0) && e == Dispatch(file, size, chains[b][0])
  {
    hide NextHashOffset, Loadable, Dispatch;
    var b := Occupied(table, (if it.offset == 0 then 0 else it.bucket) + 1);
    if b < |table| { assert ChainOf(file, size, table[b], chains[b]); }
  }

  lemma NextInChain(file: seq<byte>, size: nat, table: seq<HashItem>, chains: seq<seq<nat>>, it: Iter, b: nat, k: nat)
    requires WellFormed(file, size, table, chains) && At(file, size, chains, it, b, k)
    ensures it.bucket == b && it.offset != 0 && (MidChain(table, it) <==> k < |chains[b]| - 1)
    ensures
      k < |chains[b]| - 1 ==>
        var (next, e) := Step(file, table, size, it);
        chains[b][k + 1] != 0 && At(file, size, chains, next, b, k + 1) && e == Dispatch(file, size, chains[b][k + 1])
  {
    hide NextHashOffset, Loadable, Dispatch;
    assert ChainOf(file, size, table[b], chains[b]);
  }

  /** The iterator has yet to yield these objects. */
  ghost predicate Remaining(file: seq<byte>, size: nat, table: seq<HashItem>, chains: seq<seq<nat>>, it: Iter,
        rest: seq<nat>)
    requires |chains| == |table| >= 1
  {
    || (it.bucket < |table| && it.offset == 0 && rest == Concat(chains[1..]))
    || exists b: nat, k: nat :: At(file, size, chains, it, b, k) && rest == chains[b][k + 1..] + Concat(chains[b + 1..])
  }

  /** A step yields the first of the objects that are pending, or the end if there is none. */
  lemma RemainingStep(file: seq<byte>, size: nat, table: seq<HashItem>, chains: seq<seq<nat>>, it: Iter,
        rest: seq<nat>)
    requires WellFormed(file, size, table, chains) && Remaining(file, size, table, chains, it, rest)
    ensures it.bucket < |table|
    ensures
      var (next, e) := Step(file, table, size, it);
      if rest == [] then e == End && next.offset == 0 && next.bucket == |table|
      else rest[0] != 0 && e == Dispatch(file, size, rest[0]) && Remaining(file, size, table, chains, next, rest[1..])
  {
    hide Step, NextHashOffset, Loadable, ChainOf, Target, Concat, Occupied, Dispatch;
    var next := Step(file, table, size, it).0;
    if it.offset == 0 && it.bucket < |table| && rest == Concat(chains[1..]) {
      BucketStep(file, size, table, chains, it, 1, rest);
    } else {
      var b: nat, k: nat :| At(file, size, chains, it, b, k) && rest == chains[b][k + 1..] + Concat(chains[b + 1..]);
      NextInChain(file, size, table, chains, it, b, k);
      if k < |chains[b]| - 1 {
        assert At(file, size, chains, next, b, k + 1);
        assert rest[0] == chains[b][k + 1] && rest[1..] == chains[b][k + 2..] + Concat(chains[b + 1..]);
      } else {
        assert chains[b][k + 1..] == [] && rest == Concat(chains[b + 1..]);
        BucketStep(file, size, table, chains, it, b + 1, rest);
      }
    }
  }

  lemma BucketStep(file: seq<byte>, size: nat, table: seq<HashItem>, chains: seq<seq<nat>>, it: Iter, from: nat,
        rest: seq<nat>)
    requires WellFormed(file, size, table, chains) && it.bucket < |table| && !MidChain(table, it)
    requires from == (if it.offset == 0 then 0 else it.bucket) + 1 && rest == Concat(chains[from..])
    ensures
      var (next, e) := Step(file, table, size, it);
      if rest == [] then e == End && next.offset == 0 && next.bucket == |table|
      else rest[0] != 0 && e == Dispatch(file, size, rest[0]) && Remaining(file, size, table, chains, next, rest[1..])
  {
    hide Step, NextHashOffset, Loadable, ChainOf, MidChain, Dispatch;
    var next := Step(file, table, size, it).0;
    var b := Occupied(table, from);
    NextBucket(file, size, table, chains, it);
    ConcatSkips(file, size, table, chains, from);
    if b < |table| {
      assert chains[b..][1..] == chains[b + 1..];
      assert At(file, size, chains, next, b, 0);
      assert rest[1..] == chains[b][0 + 1..] + Concat(chains[b + 1..]);
    }
  }

  /** What remains is dispatched object by object, and then the end. */
  lemma {:induction false} WalkFrom(file: seq<byte>, size: nat, table: seq<HashItem>, chains: seq<seq<nat>>,
        it: Iter, rest: seq<nat>)
    requires WellFormed(file, size, table, chains) && Remaining(file, size, table, chains, it, rest)
    ensures Events(file, table, size, it, |rest| + 1) == Dispatches(file, size, rest) + [End]
    ensures After(file, table, size, it, |rest| + 1).bucket == |table|
    ensures After(file, table, size, it, |rest| + 1).offset == 0
    decreases |rest|
  {
    hide Step, Remaining, WellFormed, Dispatch;
    RemainingStep(file, size, table, chains, it, rest);
    OneEvent(file, table, size, it, |rest|);
    if rest != [] {
      WalkFrom(file, size, table, chains, Step(file, table, size, it).0, rest[1..]);
      assert Dispatches(file, size, rest) == [Dispatch(file, size, rest[0])] + Dispatches(file, size, rest[1..]);
    }
  }

  // ----- What a whole walk yields -----

  /** Started with offset 0, the walk yields the chains of buckets 1, 2, ... in order, then the end, if and only if
      it is told to load no more than there is of the objects in them. */
  lemma WalkYieldsLaterBuckets(file: seq<byte>, size: nat, table: seq<HashItem>, chains: seq<seq<nat>>, it: Iter)
    requires WellFormed(file, size, table, chains) && it.bucket < |table| && it.offset == 0
    ensures
      var s := Concat(chains[1..]);
      && (Events(file, table, size, it, |s| + 1) == Objects(s) + [End] <==> AllAdmitted(file, size, s))
      && After(file, table, size, it, |s| + 1).bucket == |table|
      && After(file, table, size, it, |s| + 1).offset == 0
  {
    hide Events, After, AllAdmitted;
    var s := Concat(chains[1..]);
    WalkFrom(file, size, table, chains, it, s);
    DispatchesAdmitted(file, size, s);
    assert (Objects(s) + [End])[..|s|] == Objects(s);
    assert (Dispatches(file, size, s) + [End])[..|s|] == Dispatches(file, size, s);
  }

  /** Otherwise it yields the objects before the first that is not admitted, and fails an assertion there. */
  lemma WalkAborts(file: seq<byte>, size: nat, table: seq<HashItem>, chains: seq<seq<nat>>, it: Iter, k: nat)
    requires WellFormed(file, size, table, chains) && it.bucket < |table| && it.offset == 0
    requires k < |Concat(chains[1..])| && !Admitted(file, size, Concat(chains[1..])[k])
    requires AllAdmitted(file, size, Concat(chains[1..])[..k])
    ensures Events(file, table, size, it, k + 1) == Objects(Concat(chains[1..])[..k]) + [Aborted]
  {
    hide Events, After, Admitted, AllAdmitted, ChainOf, Concat, Dispatches, Objects;
    var s := Concat(chains[1..]);
    WalkFrom(file, size, table, chains, it, s);
    EventsPrefix(file, table, size, it, k + 1, |s| + 1);
    DispatchesUpTo(file, size, s, k);
    assert (Dispatches(file, size, s) + [End])[..k + 1] == Dispatches(file, size, s)[..k + 1];
  }

  lemma DispatchesUpTo(file: seq<byte>, size: nat, s: seq<nat>, k: nat)
    requires k < |s| && AllAdmitted(file, size, s[..k]) && !Admitted(file, size, s[k])
    ensures Dispatches(file, size, s)[..k + 1] == Objects(s[..k]) + [Aborted]
  {
    hide Admitted;
    forall i | 0 <= i < k ensures Dispatches(file, size, s)[i] == Objects(s[..k])[i] {
      assert Admitted(file, size, s[..k][i]);
    }
  }

  lemma {:induction false} EventsPrefix(file: seq<byte>, table: seq<HashItem>, size: nat, it: Iter, m: nat, n: nat)
    requires m <= n
    ensures Events(file, table, size, it, m) == Events(file, table, size, it, n)[..m]
    decreases m
  {
    hide Step;
    if m > 0 {
      EventsPrefix(file, table, size, Step(file, table, size, it).0, m - 1, n - 1);
    }
  }

  /** The documented restart fails: stepped again after the end, the walk trips over its assertion. */
  lemma RestartAborts(file: seq<byte>, size: nat, table: seq<HashItem>, chains: seq<seq<nat>>, it: Iter)
    requires WellFormed(file, size, table, chains) && it.bucket < |table| && it.offset == 0
    requires AllAdmitted(file, size, Concat(chains[1..]))
    ensures
      var s := Concat(chains[1..]);
      Events(file, table, size, it, |s| + 2) == Objects(s) + [End, Aborted]
  {
    hide Step, AllAdmitted, Events, After, Concat, ChainOf, Objects;
    var n := |Concat(chains[1..])| + 1;
    WalkYieldsLaterBuckets(file, size, table, chains, it);
    EventsSnoc(file, table, size, it, n);
    AbortedStep(file, table, size, After(file, table, size, it, n));
  }

  lemma AbortedStep(file: seq<byte>, table: seq<HashItem>, size: nat, it: Iter)
    requires it.bucket >= |table|
    ensures Step(file, table, size, it).1 == Aborted
  {}

  lemma {:induction false} EventsSnoc(file: seq<byte>, table: seq<HashItem>, size: nat, it: Iter, n: nat)
    ensures Events(file, table, size, it, n + 1)
         == Events(file, table, size, it, n) + [Step(file, table, size, After(file, table, size, it, n)).1]
    decreases n
  {
    hide Step;
    if n > 0 {
      EventsSnoc(file, table, size, Step(file, table, size, it).0, n - 1);
    }
  }

  /** No object is linked twice, within a chain or from two buckets. */
  ghost predicate Disjoint(chains: seq<seq<nat>>) {
    forall b, c, i, j |
      && 0 <= b < |chains| && 0 <= c < |chains| && 0 <= i < |chains[b]| && 0 <= j < |chains[c]|
      && chains[b][i] == chains[c][j] ::
      b == c && i == j
  }

  lemma {:induction false} ConcatHas(chains: seq<seq<nat>>, o: nat)
    ensures o in Concat(chains) <==> exists b :: 0 <= b < |chains| && o in chains[b]
  {
    if chains != [] {
      ConcatHas(chains[1..], o);
      FirstOrLater(chains, o);
    }
  }

  lemma FirstOrLater(chains: seq<seq<nat>>, o: nat)
    requires chains != []
    ensures
      (exists b :: 0 <= b < |chains| && o in chains[b]) <==>
        o in chains[0] || exists b :: 0 <= b < |chains[1..]| && o in chains[1..][b]
  {
    if b :| 0 <= b < |chains[1..]| && o in chains[1..][b] {
      assert chains[b + 1] == chains[1..][b];
    }
    if o !in chains[0] {
      if b :| 0 <= b < |chains| && o in chains[b] {
        assert chains[1..][b - 1] == chains[b];
      }
    }
  }

  /** "Every object in the hash table" is dispatched, and then the end, if and only if bucket 0 is empty and all
      objects are admitted. */
  lemma AllDispatchedExactly(file: seq<byte>, size: nat, table: seq<HashItem>, chains: seq<seq<nat>>, it: Iter)
    requires WellFormed(file, size, table, chains) && Disjoint(chains) && it.bucket < |table| && it.offset == 0
    ensures
      var s := Concat(chains[1..]);
      var es := Events(file, table, size, it, |s| + 1);
      es == Objects(s) + [End] && (forall o :: o in Concat(chains) ==> Object(o) in es) <==>
        table[0].head == 0 && AllAdmitted(file, size, s)
  {
    hide Events, After, Objects, ChainOf, Disjoint, AllAdmitted;
    var s := Concat(chains[1..]);
    WalkYieldsLaterBuckets(file, size, table, chains, it);
    FirstChain(file, size, table, chains);
    forall o: nat ensures Object(o) in Objects(s) + [End] <==> o in s { ObjectIn(s, o); }
    if table[0].head != 0 {
      HeadNotLater(chains);
      assert chains[0][0] in Concat(chains);
    }
  }

  /** A table of one bucket with one object in it, in a file of zeros: the walk ends without any dispatch before. */
  lemma OneBucketIsSkipped()
    ensures
      var file, table, chains := seq(64, _ => 0 as byte), [HashItem(8, 8)], [[8]];
      && WellFormed(file, HASHED_HEADER_BYTES, table, chains) && Disjoint(chains)
      && AllAdmitted(file, HASHED_HEADER_BYTES, Concat(chains))
      && Events(file, table, HASHED_HEADER_BYTES, Iter(0, 0, 0), 1) == [End] && Concat(chains) == [8]
  {
    var file, table, chains := seq(64, _ => 0 as byte), [HashItem(8, 8)], [[8]];
    assert chains[1..] == [];
    assert Concat(chains) == [8] + Concat([]);
    assert ChainOf(file, HASHED_HEADER_BYTES, table[0], chains[0]);
    WalkYieldsLaterBuckets(file, HASHED_HEADER_BYTES, table, chains, Iter(0, 0, 0));
  }

  /** Two objects of 32 bytes at 8 and 40; the last word of the first, 24 bytes behind its start, names the second. */
  function LinkedFile(hash: bv64): (file: seq<byte>)
    ensures |file| == 72
  {
    Ones(8) + (Ones(16) + StoreLE(hash) + StoreLE(40)) + (Ones(16) + StoreLE(hash) + StoreLE(0))
  }

  /** A table whose second bucket links them: both are dispatched. */
  lemma BothAreDispatched(hash: bv64)
    ensures
      var file, table := LinkedFile(hash), [HashItem(0, 0), HashItem(8, 40)];
      Events(file, table, 32, Iter(0, 0, 0), 3) == [Object(8), Object(40), End]
  {
    hide Events, After, LinkedFile;
    var file, table, chains := LinkedFile(hash), [HashItem(0, 0), HashItem(8, 40)], [[], [8, 40]];
    LinkedFileIs(hash);
    ChainOfTwo(file);
    assert WellFormed(file, 32, table, chains);
    assert chains[1..] == [[8, 40]] && [[8, 40]][1..] == [];
    assert Concat(chains[1..]) == [8, 40] + Concat([]) == [8, 40];
    WalkYieldsLaterBuckets(file, 32, table, chains, Iter(0, 0, 0));
    assert Objects([8, 40]) == [Object(8), Object(40)];
  }

  lemma ChainOfTwo(file: seq<byte>)
    requires |file| == 72 && NextHashOffset(file, 32, 8) == 40
    ensures ChainOf(file, 32, HashItem(0, 0), []) && ChainOf(file, 32, HashItem(8, 40), [8, 40])
  {
    hide NextHashOffset;
  }

  lemma LinkedFileIs(hash: bv64)
    ensures Loadable(LinkedFile(hash), 32, 8) && NextHashOffset(LinkedFile(hash), 32, 8) == 40
  {
    hide StoreLE, LoadLE, Ones;
    assert LinkedFile(hash)[32..40] == StoreLE(40);
    StoredIsLoaded(40);
  }

  /** What a size covers: 64 bytes of a data object, type 1, and 40 of a field object, type 2. */
  lemma AdmittedSizes(file: seq<byte>, size: nat, offset: nat)
    requires offset < |file|
    ensures
      Admitted(file, size, offset) <==>
        size <= 32 || (file[offset] == 1 && size >= 64) || (file[offset] == 2 && size >= 40)
  {}

  lemma ObjectIn(s: seq<nat>, o: nat)
    ensures Object(o) in Objects(s) <==> o in s
  {
    if o in s {
      var i :| 0 <= i < |s| && s[i] == o;
      assert Objects(s)[i] == Object(o);
    }
  }

  lemma FirstChain(file: seq<byte>, size: nat, table: seq<HashItem>, chains: seq<seq<nat>>)
    requires WellFormed(file, size, table, chains)
    ensures chains[0] == [] <==> table[0].head == 0
    ensures Concat(chains) == chains[0] + Concat(chains[1..])
  {
    hide Loadable, NextHashOffset;
    assert ChainOf(file, size, table[0], chains[0]);
  }

  lemma HeadNotLater(chains: seq<seq<nat>>)
    requires Disjoint(chains) && chains != [] && chains[0] != []
    ensures chains[0][0] !in Concat(chains[1..])
  {
    ConcatHas(chains[1..], chains[0][0]);
    forall b | 0 <= b < |chains[1..]| ensures chains[0][0] !in chains[1..][b] {
      assert chains[1..][b] == chains[b + 1];
    }
  }
}
