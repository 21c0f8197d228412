# jio, verified

A Dafny model of the core of jio, a tool that reads systemd journal files through an
asynchronous io_uring loop, and proofs about it.  `dafny verify dfyconfig.toml` checks
the whole project.

## What is modelled

**The buffer cache of a journal** (`src/journals.c`).  A few buffers, linked into a list by
recency of use, stand in front of each file.  `CacheProtocol.dfy` is the protocol as a
value: a request hits, misses or bypasses the buffers; the kernel completes queued reads in
any order, in full, short or with an error; a continuation copies, publishes or fails.  The
number of buffers is a parameter, and any number of reads may be in flight.
`JournalCache.dfy` is the same protocol in place: structs with `lru_prev` and `lru_next`,
arrays that the kernel fills, a queue of reads with the arguments of their continuations.
Every method there is proved to take the step of the protocol.  The main result: on every
run in which callers wait for an answer before they ask the journal again, a dispatched
read has put exactly the file's bytes into its destination.  Without that rule the result
holds as long as no miss takes a buffer that is in flight, which is characterised
in terms of the uses made since; otherwise a wrong answer can be delivered, and with any
number of buffers a run gets there from the open on.
`Lru.dfy` says what the list means: it is ordered by age of last use.

**The iterators** (`src/journals.c`).  `ObjectWalk.dfy` and `HashWalk.dfy` model the two
resumable walks, whose state lies in out-parameters with 0 for both start and end;
`ObjectIterator.dfy` and `HashIterator.dfy` are the same steps in place, reading through
the cache.  `OpenBarrier.dfy` models the completion of all opens, in any order, and the
loop over the opened journals.

**The hashes** (`src/upstream`).  `SipHash.dfy` proves the streaming form, with its carried
bytes, equal to the definition of SipHash-2-4 in section 2 of the SipHash paper (Aumasson
and Bernstein, 2012).  `Lookup3.dfy` proves the alignment-specific implementations of Bob
Jenkins' lookup3 equal to one fold over zero-padded blocks.  `HashVectors.dfy` takes both
definitions to published vectors: that of the SipHash paper's appendix A, and those that
lookup3 prints of itself.  `Words.dfy` holds the word arithmetic that both use.

**The reports.**  `EntryTable.dfy`, `EntryProfile.dfy`, `EntryStats.dfy`, `EntryTotals.dfy`
and `EntryReport.dfy` model the entry-array report: a table of chains that is a map from
digests, a histogram with conservation laws, totals that do not depend on the order in
which journals end; `EntryRuns.dfy` lets the walks of all journals proceed in any
interleaving.  `Usage.dfy`, `TailWaste.dfy`, `Reclaim.dfy` and `Layout.dfy` model the
other reports.  The verification of hashed objects puts everything together.
`VerifyHashed.dfy` says when an object is good, what the code finds of whatever its one
buffer holds, and how far the two agree; `HashVerifier.dfy` is the code in place, from the
header to the last object, through the cache.  A verification that reaches the end has
loaded and accepted every hashed object, and all of them are good if and only if none is
smaller than the fixed part of its type; and a good journal is verified, unless it is keyed
and its first compressed object is empty.  `HashSamples.dfy` and `JournalSample.dfy` build
files byte by byte: some for which a documented property fails, one that shows which bytes
of a header are the key.

Methods that walk a journal take the environment's answers as a parameter: for each read,
whether an operation is available and what the kernel then reports and leaves behind.  An
*honest* environment reports only bytes of the file; a *willing* one also reads all that is
asked for and there.  What a method promises of its results needs honesty only; that it
reaches the end needs willingness.

## Where the code differs from its documentation

- The hash-table walk resets the bucket to 0 and then increments it before looking
  (`src/journals.c:603-616`): the objects of bucket 0 are never dispatched
  (`HashWalk.AllDispatchedExactly`).
- That walk leaves `*iter_bucket` equal to the number of buckets, so that the documented
  restart fails the assertion at `src/journals.c:600` (`HashWalk.RestartAborts`).
- Told to load more than the common header of 32 bytes, that walk fails an assertion at the
  first object of a type that the size does not cover (`src/journals.c:528-558`,
  `HashWalk.WalkAborts`).
- The usage report has no check for the end of the walk (`src/report-usage.c:42-57`) and
  counts the last object twice (`Usage.UseTotalExactly`, `Usage.OneObjectCountsTwice`, and
  for a whole run `Usage.RunUseTotalExactly`).
- `log2_size_bytes` is assigned rather than accumulated
  (`src/report-entry-arrays.c:236-237`): a slot with two nodes shows the bytes of one
  (`EntryTotals.BytesExactly`, `EntryTotals.TwoOfOneSlot`).
- `sz - tail` is the waste if and only if the file reaches to the end of its tail object
  (`TailWaste.WasteExactly`, `Reclaim.ReclaimExactly`).  For a file that ends before that,
  the subtraction wraps around, and if it is archived, it grows (`TailWaste.ShortFileWastes`,
  `Reclaim.ShortFileGrows`).  Where the end of the tail object is past 64 bits, `tail` wraps
  around to the start of that object or before, and an archived file is cut there
  (`TailWaste.LostFileWastes`, `Reclaim.LostFileIsCut`).
- The object walk comes to its end if and only if every object header on it can be read
  and none leads past 64 bits (`ObjectWalk.WalkDispatchesExactly`).  Where one does, the
  walk goes back (`ObjectWalk.WrapStepsBack`), or stays at an object whose size rounds up
  past 64 bits for ever (`ObjectWalk.HugeObjectRepeats`, `ObjectWalk.HugeFileNeverEnds`).
- That the hashes of all hashed objects are verified against their contents
  (`src/verify-hashed-objects.c:39-40`) holds for objects that are at least as large as the
  fixed part of their type (`VerifyHashed.AllAcceptedExactly`).  The code has no check for
  the others.  It keeps the buffer of the object before (`src/verify-hashed-objects.c:239`)
  and takes size, hash and payload from there: an object of 8 bytes gets the verdict on the
  object before it (`VerifyHashed.StaleAccepted`, `HashSamples.StaleIsAccepted`).  Between
  the header and the fixed part the payload size wraps around
  (`src/verify-hashed-objects.c:139`, `145`): without a key the hash runs past the memory,
  with a key no word is hashed and one stored value is accepted
  (`VerifyHashed.ShortKeyedExactly`, `HashSamples.CutShortIsAccepted`).
- Content of no bytes needs no memory (`src/verify-hashed-objects.c:92`), and siphash24
  asserts that it is given some (`src/upstream/siphash24.c:195`).  In a keyed journal whose
  first compressed object decompresses to nothing, the verification of a good object aborts
  (`VerifyHashed.AllAcceptedExactly`, `HashSamples.EmptyIsRefused`).
- The bucket of a digest is a sum of twenty bytes, so that of 65536 buckets at most 5101
  are used (`EntryTable.FewBucketsUsed`).
- When there is no journal at all, no open completes and the continuation of the opens is
  not dispatched (`OpenBarrier.Journals.OpenAll`).

## Model

| member | source | states |
|---|---|---|
| SipHash.Streaming.constructor | src/upstream/siphash24.c:53-71 | the lanes are the four constants XORed with the two key words; nothing absorbed, nothing carried |
| SipHash.Streaming.Round | src/upstream/siphash24.c:34-51 | the fourteen reordered lines are one SipRound of the paper's network |
| SipHash.Streaming.Mix | src/upstream/siphash24.c:103-106 | v3 ^= m, two rounds, v0 ^= m is the compression of one word (c = 2) |
| SipHash.Streaming.Store | src/upstream/siphash24.c:128-153 | the fall-through switch leaves exactly the 0..7 left-over bytes in `padding`, little-endian |
| SipHash.Streaming.FillCarry | src/upstream/siphash24.c:86-93 | the loop adds input bytes to the carried word until it is full or the input ends |
| SipHash.Streaming.Compress | src/upstream/siphash24.c:73-154 | after any piece, of any length, the lanes have absorbed all whole words of everything so far and `padding` holds exactly its last inlen mod 8 bytes |
| SipHash.Streaming.Finalize | src/upstream/siphash24.c:156-190 | the result is SipHash-2-4 of everything absorbed, length byte included |
| SipHash.OneShot | src/upstream/siphash24.c:192-202 | siphash24() is the definition in section 2 of the SipHash paper, for every message and key; what the definition comes to is fixed by HashVectors.PaperVector |
| HashVectors.PaperVector | src/upstream/siphash24.c:34-202 | the vector of appendix A of the SipHash paper: with the key 00 .. 0f, the message 00 .. 0e hashes to a129ca6149be45e5 |
| SipHash.OneShotAt | src/upstream/siphash24.c:73-202 | with a length that the memory need not reach: the hash of that many bytes if they are there; else a read past the memory, unless the end pointer wraps to the start or before, where no word is hashed |
| SipHash.CutShortIsHash | src/upstream/siphash24.c:110-202 | what is hashed where no word is read is, for a message shorter than a word, SipHash-2-4 of it |
| SipHash.EndOfWords | src/upstream/siphash24.c:76-124 | without wrap-around, the loop ends behind the last whole word |
| SipHash.WrappedReadsNoWord | src/upstream/siphash24.c:76-124 | a length just below 2^64 makes the end pointer wrap, and the loop over the words does not run |
| SipHash.Piecewise | src/upstream/siphash24.c:73-190 | however a message is cut into pieces, empty ones included, the hash is that of the whole message |
| SipHash.OnlyWholeWords | src/upstream/siphash24.c:111-124 | bytes after the last whole word do not reach the lanes |
| SipHash.AbsorbSplit | src/upstream/siphash24.c:113-124 | absorbing may be interrupted after any whole word |
| SipHash.CarryGrows | src/upstream/siphash24.c:86-93 | a piece too short to complete the carried word leaves the lanes alone |
| SipHash.CarryFills | src/upstream/siphash24.c:86-109 | a longer piece completes the carried word first, then goes on as if cut there |
| SipHash.LastWord | src/upstream/siphash24.c:161 | carried bytes plus length byte are the last word of the padded message |
| Counters.U64LowBits | src/upstream/siphash24.c:77-84 | the low bits of a 64-bit inlen that wrapped are those of the true length |
| SipHash.RoundUndone | src/upstream/siphash24.c:34-51 | sipround is invertible, with an explicit inverse |
| SipHash.AbsorbUndone | src/upstream/siphash24.c:113-124 | absorbing a known word is invertible |
| SipHash.StatesNeverMerge | src/upstream/siphash24.c:113-124 | two different states never become equal while absorbing the same words |
| Lookup3.Mix | src/upstream/lookup3.c:123-131 | six lines of mix are six turns of one rotating step |
| Lookup3.Final | src/upstream/lookup3.c:158-167 | seven lines of final are seven steps of one rotating step |
| Lookup3.WordBlocks | src/upstream/lookup3.c:486-495 | aligned 32-bit reads fold the same blocks, and leave 1..12 bytes (0 only for the empty key) |
| Lookup3.HalfBlocks | src/upstream/lookup3.c:554-563 | 16-bit reads fold the same blocks |
| Lookup3.ByteBlocks | src/upstream/lookup3.c:600-618 | byte reads fold the same blocks |
| Lookup3.BigByteBlocks | src/upstream/lookup3.c:729-747 | byte reads of hashbig fold the same blocks in big-endian words |
| Lookup3.TailMasked | src/upstream/lookup3.c:497-524 | the masked tail equals the zero-padded block, whatever bytes lie past the end of the key |
| Lookup3.ReadPastEnd | src/upstream/lookup3.c:511-522 | each mask turns a word read past the end into the word padded with zeros |
| Lookup3.TailBytewise | src/upstream/lookup3.c:526-546 | the byte-wise tail of the aligned path equals the zero-padded block |
| Lookup3.TailHalves | src/upstream/lookup3.c:565-595 | the fall-through tail of the 16-bit path equals the zero-padded block |
| Lookup3.TailBytes | src/upstream/lookup3.c:620-637 | the fall-through tail of the byte path equals the zero-padded block |
| Lookup3.TailBigMasked | src/upstream/lookup3.c:683-700 | hashbig's masks, from the other end |
| Lookup3.TailBigBytewise | src/upstream/lookup3.c:702-722 | hashbig's byte-wise tail of the aligned path |
| Lookup3.TailBigBytes | src/upstream/lookup3.c:749-766 | hashbig's byte path |
| Lookup3.HashLittle2 | src/upstream/lookup3.c:469-642 | for every key, length, seeds, alignment and host, all paths give one fold over zero-padded 12-byte little-endian blocks |
| Lookup3.HashLittle | src/upstream/lookup3.c:289-457 | the primary output of hashlittle2 with seeds (initval, 0) |
| Lookup3.HashBig | src/upstream/lookup3.c:650-771 | the same fold over big-endian words, on both paths and both tails |
| Lookup3.JenkinsHash64 | src/upstream/lookup3.h:14-20 | of the key hashed with both seeds zero, the upper 32 bits are the primary value and the lower 32 bits the secondary one |
| Lookup3.Hash64Halves | src/upstream/lookup3.h:14-20 | the same of the definition, for every key |
| HashVectors.NoSeedVector | src/upstream/lookup3.c:974-993 | "Four score and seven years ago" hashes to 17770551 and ce7226e6 |
| HashVectors.SecondSeedVector | src/upstream/lookup3.c:974-993 | with the second seed 1, to e3607cae and bd371de4 |
| HashVectors.FirstSeedVector | src/upstream/lookup3.c:974-993 | with the first seed 1, to cd628161 and 6cbea4b3 |
| HashVectors.EmptyVectors | src/upstream/lookup3.c:974-993 | the three results for the empty key |
| HashVectors.Jenkins64Vectors | src/upstream/lookup3.h:14-20 | jenkins_hash64 of both keys: 17770551ce7226e6, and deadbeef twice |
| Lookup3.HashWord2 | src/upstream/lookup3.c:225-260 | on any word array: hashlittle2 of its little-endian bytes, with the same seeds |
| Lookup3.HashWord | src/upstream/lookup3.c:182-215 | on any word array: hashlittle of its little-endian bytes, hashbig of its big-endian bytes, and hashword2 with second seed 0 |
| Lookup3.FoldOfWords | src/upstream/lookup3.c:190-215 | hashing words is hashing their encoded bytes, in either byte order |
| Lookup3.ByteCount | src/upstream/lookup3.c:189-235 | (uint32_t)length << 2 and (uint32_t)(length << 2) are both the byte count in 32 bits |
| Lookup3.MixReversible | src/upstream/lookup3.c:83-131 | mix is a bijection on triples of words, with an explicit inverse |
| Lookup3.FinalReversible | src/upstream/lookup3.c:158-167 | final is a bijection on triples of words, with an explicit inverse |
| Lookup3.StatesNeverMerge | src/upstream/lookup3.c:486-495 | two different states stay different while folding the same bytes |
| Lookup3.BlocksTold | src/upstream/lookup3.c:486-524 | different blocks of one length, added to one state, give different states |
| Lookup3.OneBlockTold | src/upstream/lookup3.c:83-131 | equal length and seeds, exactly one differing block: the final (a, b, c) differ |
| Lru.MoveKeepsPermutation | src/journals.c:75-94 | a use keeps the order a permutation of all buffers |
| Lru.OrderedByAge | src/journals.c:75-94 | after any run of uses the list is exactly by age of last use |
| Lru.HeadIsOldest | src/journals.c:158-159 | the head is the least recently used buffer, and only the head is |
| Lru.NotRecycledEarly | src/journals.c:75-94 | a used buffer is at the head if and only if every other one has been used after it |
| Lru.SafeForAWhile | src/journals.c:75-94 | a used buffer is at the head if and only if n - 1 different buffers have been used since, and there are never more |
| CacheProtocol.ReadKeepsInv | src/journals.c:126-182 | journal_read keeps: valid buffers equal the file, buffers in flight are invalid and unshared; a hit delivers the file's bytes |
| CacheProtocol.AnsweredExactly | src/journals.c:138-160 | a request is answered without the kernel if and only if it asks for at most 8192 bytes and some valid buffer has them all; buffers and reads in flight are then as before |
| CacheProtocol.CompleteKeepsInv | src/journals.c:166-178 | a completion, short, failed or whole, keeps the invariant |
| CacheProtocol.GotReadKeepsInv | src/journals.c:97-118 | buf_got_read keeps the invariant and delivers the file's bytes or fails |
| CacheProtocol.StepKeepsInv | src/journals.c:97-182 | every enabled step of the protocol keeps the invariant, and delivers the file's bytes if it delivers |
| CacheProtocol.SafeRunsDeliverTheFile | src/journals.c:97-182 | on every run with any number of reads in flight in which no miss takes a buffer in flight, every dispatched read has file[offset..offset+length) in dest |
| CacheProtocol.ChainedRunsAreSafe | src/journals.c:475-476 | callers that ask again only when answered make only such runs |
| CacheProtocol.CachedReaderRefinesFile | src/journals.c:97-182 | from the open on, the cached reader refines a direct file reader on every chained run |
| CacheProtocol.EveryRequestAccounted | src/journals.c:97-182 | requests = answers + reads in flight: none is lost, none answered twice |
| CacheProtocol.StaysAnswered | src/journals.c:97-182 | on every run, while a buffer with a range of the file is not refilled, every request within that range is answered without the kernel |
| CacheProtocol.ReadAnswersLater | src/journals.c:97-182 | a completed buffered read answers, from the file and without the kernel, every later request inside what it read, until its buffer is refilled |
| CacheProtocol.RunFollowsLru | src/journals.c:138-160 | the list of a run is the list after its sequence of uses |
| CacheProtocol.VictimIsOldest | src/journals.c:158-160 | on every run the buffer a miss refills has the oldest last use |
| CacheProtocol.UnsafeExactly | src/journals.c:158-160 | a request takes a buffer in flight if and only if it asks for at most 8192 bytes, no valid buffer has them, and every buffer but one in flight was used since the last use of that one |
| CacheProtocol.FewReadsAreSafe | src/journals.c:158-160 | while fewer than n - 1 different buffers have been used since each read in flight, every request is safe |
| CacheProtocol.UnsafeReadsMisdeliver | src/journals.c:97-182 | without that guard the claim is false: a miss that takes the buffer of a read in flight, submitted or completed, has a run that delivers wrong bytes wherever the file differs at the two offsets |
| CacheProtocol.UnchainedRunsMisdeliver | src/journals.c:97-182 | such a run exists from the open on, for any number of buffers and any file whose bytes are not all the same |
| JournalCache.Journal.constructor | src/journals.c:48-62 | a zeroed journal with its own buffers |
| JournalCache.Journal.LinkAll | src/journals.c:211-219 | the loop threads all buffers into one doubly linked list in array order |
| JournalCache.Journal.SetUp | src/journals.c:208-219 | a successful open leaves the state in which runs start |
| JournalCache.Journal.MoveNode | src/journals.c:80-93 | the pointer assignments, node by node: head, tail, prev and next of the list with the node moved to its end |
| JournalCache.Journal.BufUsed | src/journals.c:75-94 | buf_used keeps the pointers a doubly linked permutation and moves the buffer to the back, the others keeping their order |
| JournalCache.Journal.Read | src/journals.c:126-182 | journal_read in place takes the protocol's step: hit, miss, bypass, or -ENOMEM with the buffer already invalidated; it succeeds at once if and only if one of the buffers, by its fields, has all that is asked for |
| JournalCache.Journal.Hit | src/journals.c:147-152 | a hit copies the covered bytes and touches nothing but the list and dest |
| JournalCache.Journal.Miss | src/journals.c:155-168 | a miss moves the head to the back, invalidates it, and queues a read into it or fails |
| JournalCache.Journal.Enqueue | src/journals.c:162-178 | a queued read carries the arguments of its continuation |
| JournalCache.Journal.KernelDone | src/journals.c:166-178 | a completion fills only its own target |
| JournalCache.Journal.BufGotRead | src/journals.c:97-118 | the continuation in place takes the protocol's step: error, -EINVAL on a short read, or copy and publish |
| JournalCache.Journal.CopyOut | src/journals.c:110-111 | dest gets what was asked for |
| JournalCache.Journal.Publish | src/journals.c:112-114 | the buffer becomes valid for exactly what was read, and from then on answers other requests with bytes of the file (that it does: CacheProtocol.ReadAnswersLater) |
| JournalCache.Journal.ReadThrough | src/journals.c:126-182 | one whole chained read: on success dest holds file[offset..offset+length); with a willing kernel it succeeds exactly when the file reaches that far |
| ObjectWalk.OffsetsAreChain | src/journals.c:449-477 | the walk's offsets start at header_size, each is the previous plus ALIGN64(size), strictly increasing, none past the tail object |
| ObjectWalk.FinishedAtTail | src/journals.c:461-473 | a finished walk ended past the tail object or at a zero-sized object |
| ObjectWalk.WalkDispatchesExactly | src/journals.c:449-511 | from offset 0: every object once, in order, then one end dispatch with 0, if and only if the walk finishes |
| ObjectWalk.WrapStepsBack | src/journals.c:461-473 | where an object leads past 64 bits, the iterator does not end there but looks at that object or before it |
| ObjectWalk.WalkReplays | src/journals.c:442-459 | entered again after the end, the iterator replays the same sequence |
| ObjectWalk.StepForward | src/journals.c:461-462 | in 64-bit arithmetic a step moves forward exactly when offset + ALIGN64(size) does not wrap |
| ObjectWalk.HugeObjectRepeats | src/journals.c:461-462 | started from 0, a walk that reaches an object whose size rounds up past 64 bits dispatches it for ever |
| ObjectWalk.HugeFileNeverEnds | src/journals.c:461-462 | a file of 272 bytes with such a walk |
| ObjectWalk.ChainTiles | src/journals.c:461-462 | objects and padding lie end to end |
| ObjectWalk.ArenaTiles | src/report-tail-waste.c:58-59 | file size = header + sizes + padding + tail waste, on a walk that lands on the tail object |
| ObjectWalk.CutKeepsWalk | src/reclaim-tail-waste.c:62-98 | a file cut anywhere behind the header of its tail object is walked as before |
| ObjectWalk.CutKeepsBytes | src/reclaim-tail-waste.c:62-98 | a cut at the tail keeps every byte of every object on the walk |
| ObjectIterator.LoadObjectHeader | src/journals.c:416-427 | the header loaded is the file's, size swapped to host order |
| ObjectIterator.LoadHeader | src/journals.c:705-753 | the header loaded is the file's |
| JournalSample.HeaderIs | src/upstream/journal-def.h:216-250 | the header fields that are used are where the format has them, the file id at byte 24 for every id, whatever the other bytes are |
| JournalSample.ObjectIs | src/upstream/journal-def.h:72-77 | type, flags and size of an object header likewise |
| ObjectIterator.ObjectIterator.Next | src/journals.c:449-477 | the in-place step, reading through the cache, is the step on the file; it can only fail in the read |
| ObjectIterator.ObjectIterator.ForEach | src/journals.c:480-511 | the loop dispatches the objects of the walk in order and stops at the end, at a failed read, or at the first error of its closure, and nowhere else |
| HashWalk.RemainingStep | src/journals.c:602-617 | a step yields the first object still to come, if the type and size assertions admit it, or the end |
| HashWalk.WalkYieldsLaterBuckets | src/journals.c:514-638 | the walk yields the chains of buckets 1..nbuckets-1, head to tail, each object once, then the end with offset 0, if and only if iter_object_size is 32 or covers DataObject or FieldObject for every object, by its type |
| HashWalk.WalkAborts | src/journals.c:528-562 | otherwise it yields the objects before the first that is not covered and fails the assertion on that one |
| HashWalk.AdmittedSizes | src/journals.c:528-558 | which objects a size covers, in bytes: 64 for data, 40 for field objects, 32 for any |
| HashWalk.RestartAborts | src/journals.c:600 | the documented restart after the end trips the assertion on *iter_bucket instead |
| HashWalk.AllDispatchedExactly | src/journals.c:528-616 | every object of the table is dispatched, and then the end, if and only if bucket 0 is empty and all others are covered |
| HashWalk.OneBucketIsSkipped | src/journals.c:603-616 | a table whose only object is in bucket 0: the walk ends at once |
| HashWalk.BothAreDispatched | src/journals.c:514-638 | a table built byte by byte whose bucket 1 links two objects: both are dispatched, then the end |
| HashIterator.HashIterator.Advance | src/journals.c:602-617 | the in-place movement of {iter_bucket, iter_offset} is the specified one |
| HashIterator.LoadHashed | src/journals.c:514-565 | the object loaded is the file's, next_hash_offset swapped to host order, and the assertions on type and size are decided |
| HashIterator.HashIterator.Next | src/journals.c:584-621 | the in-place step, reading through the cache, is the step on the file |
| HashIterator.HashIterator.ForEach | src/journals.c:624-660 | the loop dispatches the chains of buckets 1.. in order and stops at the end, at a failed read, at a failed assertion, or at the first error of its closure, and nowhere else |
| EntryTable.FindBucket | src/report-entry-arrays.c:95-99 | the running sum modulo N_BUCKETS is the byte sum modulo N_BUCKETS |
| EntryTable.FewBucketsUsed | src/report-entry-arrays.c:95-99 | no bucket behind 5100 is ever used |
| EntryTable.CountUtilized | src/report-entry-arrays.c:111-120 | eight times the number of 64-bit words of the payload that are not zero |
| EntryTable.UsedBytesCount | src/report-entry-arrays.c:111-120 | the specification counts the same: eight bytes for every word that is not zero |
| EntryTable.ItemsToldApart | src/report-entry-arrays.c:111-120 | an item with its lowest byte set is eight used bytes, one of zeros none |
| EntryTable.Utilized | src/report-entry-arrays.c:111-120 | used bytes never exceed the payload |
| EntryTable.AddedKeepsWellFormed | src/report-entry-arrays.c:101-129 | every digest stays in its own bucket, once |
| EntryTable.AddedGet | src/report-entry-arrays.c:101-129 | a payload changes what the table says of its own digest only |
| EntryTable.GetFindsAll | src/report-entry-arrays.c:101-104 | the chains represent a map: any node is found by its digest |
| EntryTable.TableIsMap | src/report-entry-arrays.c:80-134 | digest -> (occurrences, size and used bytes of the first payload), for every sequence of payloads |
| EntryTable.CountsAddUp | src/report-entry-arrays.c:129 | the counts of all nodes add up to the number of payloads |
| EntryTable.NodesAreDigests | src/report-entry-arrays.c:122-126 | there are as many nodes as different digests |
| EntryTable.AddedSum | src/report-entry-arrays.c:106-129 | what one payload adds to any sum over the nodes |
| EntryTable.WeightsAddUp | src/report-entry-arrays.c:233-240 | without digest collisions, sums over nodes weighted by count are sums over payloads |
| EntryTable.NodesArePayloads | src/report-entry-arrays.c:106-129 | every node stands for a payload that was walked |
| EntryProfile.Search | src/report-entry-arrays.c:101-104 | the loop finds the node of a digest exactly if there is one |
| EntryProfile.Profile.constructor | src/report-entry-arrays.c:63-66 | an empty profile |
| EntryProfile.Profile.AddPayload | src/report-entry-arrays.c:80-134 | the linked buckets after a payload are the table after it; only a new digest needs memory, and without it the profile stays as it is |
| EntryProfile.Profile.Insert | src/report-entry-arrays.c:106-129 | a new digest gets a node at the head of its bucket, counted once |
| EntryProfile.Profile.Bump | src/report-entry-arrays.c:129 | a known digest is counted once more, in its one node |
| EntryStats.Log2Fits | src/report-entry-arrays.c:138-144 | 2^l <= size < 2^(l+1) for l = u64log2(size), and l < 64 |
| EntryStats.Stats.TallyNode | src/report-entry-arrays.c:231-240 | one node's share: counts and utilization added, bytes assigned |
| EntryStats.Stats.TallyChain | src/report-entry-arrays.c:230-241 | the loop along a bucket tallies its nodes in order |
| EntryStats.Stats.TallyProfile | src/report-entry-arrays.c:224-242 | the loops over the buckets tally every node of the profile, and leave it as it is |
| EntryTotals.SlotHolds | src/report-entry-arrays.c:229-242 | slot l holds sums over exactly the nodes with u64log2(size) = l; its bytes are those of the last such node |
| EntryTotals.BytesExactly | src/report-entry-arrays.c:236-237 | both numbers of a slot's bytes are right if and only if at most one node has a size of the slot |
| EntryTotals.TwoOfOneSlot | src/report-entry-arrays.c:236-237 | two payloads of eight bytes that differ are reported as eight bytes |
| EntryTotals.SlotsAddUp | src/report-entry-arrays.c:229-242 | any weight summed slot by slot is the weight of all nodes |
| EntryTotals.CountsConserved | src/report-entry-arrays.c:224-235 | slot totals add up to `count` (objects walked), slot uniques to `unique` (different digests) |
| EntryTotals.UsedNeverExceeds | src/report-entry-arrays.c:239-240 | in no slot are more bytes used than allocated |
| EntryTotals.SlotTells | src/report-entry-arrays.c:229-242 | without collisions, slot l tells the number, the bytes and the used bytes of the payloads of its size class |
| EntryTotals.BytesConserved | src/report-entry-arrays.c:239-240 | without collisions, utilization totals are the bytes and used bytes of all payloads |
| EntryTotals.AddStats | src/report-entry-arrays.c:194-212 | pointwise sum; src stays as it is |
| EntryTotals.AggregateIsPointwise | src/report-entry-arrays.c:194-246 | every number of the totals is the sum of that number over all journals, in whatever order they end |
| EntryTotals.TotalsAnyOrder | src/report-entry-arrays.c:194-246 | the totals do not depend on the order in which journals reach their ends |
| EntryReport.ItemsArePayload | src/upstream/journal-def.h:138-142 | in a journal built byte by byte, what is profiled of an entry array is its items, from byte 24 of the object on |
| EntryReport.TakeArray | src/report-entry-arrays.c:255-271 | an entry array is loaded whole and added, or the walk stops and the profile stays as it is; a size not beyond the items' offset stops it too |
| EntryReport.WalkArrays | src/report-entry-arrays.c:215-272 | when the end is reached, the profile is the table of all entry arrays of the walk and `count` their number |
| EntryReport.EndOfJournal | src/report-entry-arrays.c:223-249 | the totals grow by exactly this journal's report |
| EntryReport.PerJournal | src/report-entry-arrays.c:215-296 | from the header to the totals, reading through the cache; given willing reads and memory it reports if and only if the walk finishes and every entry array is complete |
| EntryReport.EndInOrder | src/report-entry-arrays.c:223-249 | whatever the order in which the journals end, the totals are the aggregate of their reports |
| EntryRuns.RunIsAggregate | src/report-entry-arrays.c:215-296 | at any time in any interleaving of the walks, the totals are the aggregate of the reports of the journals that have ended, in the order of their ends; once nothing moves, these are exactly the journals whose walk finishes with all entry arrays complete |
| EntryRuns.RunsAgree | src/report-entry-arrays.c:215-296 | any two runs over the same journals that have come to a halt have the same totals |
| OpenBarrier.SlotsOneToOne | src/journals.c:251-262 | no two buffers of any journals share an iovec slot |
| OpenBarrier.SlotsOnto | src/journals.c:251-262 | every iovec slot is some buffer's |
| OpenBarrier.Journals.constructor | src/journals.c:64-68 | journals_t as allocated: n zeroed journals that share nothing |
| OpenBarrier.Journals.Settle | src/journals.c:203-222 | an open threads its journal or, denied, sets fd = -1; all other journals stay as they are |
| OpenBarrier.Journals.NumberJournals | src/journals.c:234-237 | fds[i] and idx for every journal |
| OpenBarrier.Journals.NumberBuffers | src/journals.c:247-262 | every buffer knows its slot, the slot holds its memory, and there are n * JOURNAL_BUF_CNT slots |
| OpenBarrier.Journals.Register | src/journals.c:224-276 | the last completion registers everything and dispatches, or fails as malloc and the two registrations do |
| OpenBarrier.Journals.OpenedJournal | src/journals.c:188-279 | at every completion: counted; an error other than EPERM and EACCES is returned; only the last one registers and dispatches, when every open has completed |
| OpenBarrier.Journals.OpenAll | src/journals.c:188-279 | for every completion order: the continuation is dispatched once, at the last completion, unless an open failed for good (or there was none), and then every journal is open and threaded, or denied |
| OpenBarrier.OpenIsIdle | src/journals.c:208-222 | an opened journal meets what every walk over its file starts from |
| OpenBarrier.VisitsInOrder | src/journals.c:913-939 | journals are visited in order, each at most once, and only the last visit can have failed |
| OpenBarrier.VisitsCover | src/journals.c:913-939 | every open journal is visited, unless a visit before it failed |
| OpenBarrier.ForEach | src/journals.c:913-939 | the loop makes exactly these visits and returns the error of the failed one |
| Schedules.SumAnyOrder | src/report-tail-waste.c:67-71 | a sum over all journals is the same in every order |
| Usage.TypesAddUp | src/report-usage.c:48-50 | per-type counts and bytes add up to all dispatches and to use_total |
| Usage.Tallies.Bump | src/report-usage.c:48-50 | the three increments are the tally of one more dispatch, unless the type has no counter |
| Usage.PerDataObject | src/report-usage.c:42-57 | private tally and total take the same dispatch |
| Usage.LastCountsTwice | src/report-usage.c:42-57 | a finished walk counts every object, and at the end dispatch the last header again |
| Usage.UseTotalExactly | src/report-usage.c:42-57 | use_total is the sum of object sizes plus the last one again; it equals the sum if and only if that last size is 0 |
| Usage.OneObjectCountsTwice | src/report-usage.c:42-57 | a journal with one object of 16 bytes is reported to use 32 |
| Usage.Interleave | src/report-usage.c:42-57 | for every interleaving of the journals' dispatches, each private tally is that of its own dispatches and the total that of all; it goes out of bounds if and only if a header has a type without a counter |
| Usage.TotalsAreSums | src/report-usage.c:52-54 | after any number of dispatches in any interleaving, the totals are the sums of the private tallies |
| Usage.OwnIsWalk | src/report-usage.c:42-57 | in a run that says only which journal steps next, each journal counts what its own walk dispatches in as many steps, whatever the others do |
| Usage.FinishedRun | src/report-usage.c:42-57 | once all walks have ended, each journal has counted its whole walk and its last header again |
| Usage.RunTotals | src/report-usage.c:42-57 | the totals of a finished run are, type by type, the sums over the journals of their whole walks |
| Usage.RunsAgree | src/report-usage.c:42-57 | any two finished runs over the same journals end in the same totals |
| Usage.RunUseTotalExactly | src/report-usage.c:42-57 | use_total of a finished run is the bytes of all objects if and only if every journal's last header has size 0; else it is more |
| Usage.RunInBoundsExactly | src/report-usage.c:48-54 | a finished run stays within the counters if and only if every header of every walk has a type below _OBJECT_TYPE_MAX |
| Usage.WalkObjects | src/report-usage.c:42-57 | one walk in place, through the cache: tally and total grow by the headers dispatched; it gets to the end if and only if no type lacks a counter |
| Usage.PerJournal | src/report-usage.c:60-93 | the size of the file and the number of journals count once fstat has succeeded, even if nothing can be read; then the header, then the walk, which adds the whole walk to the totals |
| TailWaste.WasteExactly | src/report-tail-waste.c:58-68 | sz - tail is the waste if and only if the file reaches to tail_object_offset + ALIGN64(size), taken without wrap-around; if not, it wraps around, or, where that end is past 64 bits, counts the tail object or more as waste |
| TailWaste.ShortFileWastes | src/report-tail-waste.c:58-68 | a file of 272 bytes whose waste is reported as 2^64 - 984 |
| TailWaste.LostFileWastes | src/report-tail-waste.c:58-68 | a file of 272 bytes with a tail object of 2^64 - 1 bytes: the header of that object is reported as waste |
| TailWaste.WasteIsTheRest | src/report-tail-waste.c:58-68 | the waste reported is what header, objects and padding leave over |
| TailWaste.Report.PrintTailWaste | src/report-tail-waste.c:42-74 | one journal is added to its state's entries and to the totals, unless its state has no entry |
| TailWaste.Report.VisitAll | src/report-tail-waste.c:42-74 | the totals after any order of journals are sums over that order, if and only if all their states have entries |
| TailWaste.PerJournal | src/report-tail-waste.c:42-96 | from header and tail object header, both read through the cache, to the totals: exactly the journals that can be read, can be stat'ed and have a known state are counted |
| TailWaste.StatesAddUp | src/report-tail-waste.c:67-71 | the states' bytes add up to the total and their counts to the journals |
| TailWaste.OrderIsIrrelevant | src/report-tail-waste.c:67-71 | the totals do not depend on the order of the journals |
| TailWaste.TotalsBalance | src/report-tail-waste.c:62-71 | where no file ends before its tail object does, the total size is the total waste and the sum of where the tail objects end |
| Reclaim.TailWasteTally.ReclaimTailWaste | src/reclaim-tail-waste.c:44-99 | the fate of a journal (mule, ignored, errored, reclaimed), the accounts after it, and the file after it; a failing fstat leaves everything as it is |
| Reclaim.PerJournal | src/reclaim-tail-waste.c:44-121 | the same from the loading of the two headers through the cache |
| Reclaim.FateExactly | src/reclaim-tail-waste.c:62-96 | nothing to waste: mule; state other than 2: ignored; the file cannot be cut: errored; else reclaimed |
| Reclaim.AccountsBalance | src/reclaim-tail-waste.c:60-96 | every journal is in one account; the three sums of bytes are all the waste there was |
| Reclaim.ReclaimedIsFreed | src/reclaim-tail-waste.c:95-96 | the reclaimed bytes are what all files together have shrunk by, plus 2^64 for every file reclaimed that ended before its tail object did |
| Reclaim.ReclaimExactly | src/reclaim-tail-waste.c:62-96 | the file is cut at the end of its tail object, and what lay behind is accounted for, if and only if it reaches that end, taken without wrap-around; it grows if and only if that end lies behind it within 64 bits; if the end is past 64 bits, the tail object is cut away |
| Reclaim.ShortFileGrows | src/reclaim-tail-waste.c:62-96 | a truncated archived journal grows by 984 bytes and is counted as having lost almost 2^64 |
| Reclaim.LostFileIsCut | src/reclaim-tail-waste.c:62-96 | an archived journal whose tail object says 2^64 - 1 bytes loses the header of that object |
| Reclaim.CutKeepsWalkExactly | src/reclaim-tail-waste.c:83 | the cut leaves header and walk as they were if and only if the tail object is larger than 8 bytes |
| Reclaim.CutKeepsObjects | src/reclaim-tail-waste.c:83 | every byte of every object of the walk survives the cut |
| Reclaim.SecondPassIsMule | src/reclaim-tail-waste.c:65-69 | with a tail object larger than 8 bytes, a second pass finds nothing to reclaim |
| Layout.DeltaCountsSpanned | src/report-layout.c:66-68 | page_delta / PAGE_SIZE - 1 is the number of page boundaries strictly inside the object |
| Layout.MarksFit | src/report-layout.c:49-80 | both markers fit the buffers they are printed into, for every 64-bit size at every offset |
| Layout.DecimalReadsBack | src/report-layout.c:71-80 | a number is printed in digits that read as that number, without a leading zero |
| Layout.LettersOfTypes | src/report-layout.c:32-41 | the letter of each type |
| Layout.PaddingByWords | src/report-layout.c:75 | the padding is right, and below 8, even where ALIGN64 wraps around |
| Layout.PerDataObject | src/report-layout.c:47-90 | for every 64-bit offset, size and type: the text tells page start, type, boundaries spanned, size and padding, with no boundaries where the pages do not fit into 64 bits; a type without a letter is read past the table; the end dispatch prints a newline |
| Layout.MarkTellsExactly | src/report-layout.c:66-73 | the text is that of the boundaries spanned if and only if the pages of the object fit into 64 bits |
| Layout.MarkOfAnObject | src/report-layout.c:47-90 | a data object of 9001 bytes at a page start is printed with a bar for the page, "d", two boundaries between bars, 9001, and 7 bytes of padding |
| Layout.MarksOfOthers | src/report-layout.c:47-90 | an entry array with one boundary and one byte of padding, and a tag with neither |
| Layout.EveryPageOnce | src/report-layout.c:66-87 | the bars of a layout count every page boundary from the first object to the end of the last exactly once |
| VerifyHashed.WholeObject | src/verify-hashed-objects.c:82-187 | whatever the buffer held before, an object as large as its fixed part is found good if and only if its stored hash is the hash of its payload, or of what that decompresses to; except that nothing, decompressed before anything else and hashed with a key, fails an assertion |
| VerifyHashed.ZeroHeapAllocates | src/verify-hashed-objects.c:239-245 | the assumption made of malloc can be met, for any file below 2^63 bytes |
| VerifyHashed.FlagBits | src/upstream/journal-def.h:64-175 | compression is in bits 0 to 2 of an object's flags, Zstandard in bit 2; the key is in bit 2 of the incompatible flags |
| VerifyHashed.ShortUnkeyed | src/verify-hashed-objects.c:137-176 | an object between its header and its fixed part, without key and compression, wraps its payload size around and is hashed past the memory |
| VerifyHashed.ShortKeyed | src/verify-hashed-objects.c:137-176 | with a key, no word of it is hashed: the verdict is a comparison with the hash of a few bytes behind the fixed part and the low byte of the wrapped size |
| VerifyHashed.ShortIsNotLookedAt | src/verify-hashed-objects.c:239-249 | an object of at most 8 bytes gets the verdict on what the buffer held before |
| VerifyHashed.AcceptedWhole | src/verify-hashed-objects.c:82-250 | an object passes, and is not a compressed nothing hashed with a key before *decompressed has memory, if and only if the code accepts it and it is as large as its fixed part |
| VerifyHashed.HeldAfter | src/verify-hashed-objects.c:92-97 | after objects that pass, *decompressed has memory if and only if one of them was compressed and not empty |
| VerifyHashed.NumberIsPositions | src/verify-hashed-objects.c:137-149 | what the counters of data and field objects are compared with is the number of objects with that type byte |
| VerifyHashed.AllAcceptedExactly | src/verify-hashed-objects.c:82-250 | of all objects of a walk: all are good, and the first compressed one of a keyed journal is not empty, if and only if the code accepts all and none is cut short |
| VerifyHashed.PlainAccepted | src/verify-hashed-objects.c:126-250 | without key and compression, and with no object below 16 bytes, the code accepts all if and only if all are good |
| VerifyHashed.ShortUnkeyedFails | src/verify-hashed-objects.c:137-176 | without key and compression, an object cut short behind its header is never accepted |
| VerifyHashed.ShortKeyedExactly | src/verify-hashed-objects.c:137-182 | with a key, an object cut short at a whole word behind its hash is accepted if and only if it stores one value that does not depend on its content |
| VerifyHashed.StaleAccepted | src/verify-hashed-objects.c:239-249 | behind an accepted object, one of its kind and flags with 2 to 8 bytes is accepted |
| HashSamples.StaleIsAccepted | src/verify-hashed-objects.c:212-250 | files with a sound data object and one of 8 bytes: all accepted, not all good |
| HashSamples.CutShortIsAccepted | src/verify-hashed-objects.c:137-182 | keyed files with one field object of 32 bytes: never good, and accepted with one stored hash |
| HashSamples.EmptyIsRefused | src/verify-hashed-objects.c:92-174 | keyed files with one compressed object that decompresses to nothing and stores the hash of that: good, and refused |
| HashSamples.KeyedExactly | src/verify-hashed-objects.c:43-187 | a keyed journal with one data object is verified if and only if that stores SipHash-2-4 of its payload under bytes 24 to 40 of the header |
| HashVerifier.Hash | src/verify-hashed-objects.c:51-58 | SipHash-2-4 keyed with file_id for keyed journals, jenkins_hash64 for the others; on memory that the size may overrun |
| HashVerifier.CheckPayload | src/verify-hashed-objects.c:82-186 | decompress if flagged, hash, compare: the verdict on the memory, reads past it and failed assertions included; and whether *decompressed has memory then |
| HashVerifier.Verifier.VerifyHashedObject | src/verify-hashed-objects.c:126-187 | the verdict on whatever iter_object holds, and one more in its type's counter |
| HashVerifier.Verifier.Load | src/verify-hashed-objects.c:239-249 | iter_object is replaced if it is too small, then its first bytes are the object's and those behind stay |
| HashVerifier.Verifier.TakeObject | src/verify-hashed-objects.c:190-250 | the walk goes on only past an object that was loaded and accepted; a refusal carries the verdict |
| HashVerifier.Verifier.OneObject | src/verify-hashed-objects.c:212-250 | one dispatch of per_object: other types are skipped, hashed ones verified |
| HashVerifier.PerJournal | src/verify-hashed-objects.c:212-278 | reaching the end means every DATA and FIELD object of the walk was loaded and accepted, and the counters are their numbers; a refusal is about the first that is not; given what it asks for, the verification succeeds if and only if all are accepted |
| HashVerifier.ConcludedTells | src/verify-hashed-objects.c:212-278 | a verified journal has a matching hash in every hashed object if and only if none is cut short; a refused object does not match, or is a compressed nothing in a keyed journal |
| HashVerifier.VerifyJournal | src/verify-hashed-objects.c:253-278 | the same from the loading of the header on; with whole objects only, or plain ones, it succeeds if and only if every hashed object matches its hash and the first compressed one of a keyed journal is not empty |

## Left out

- io_uring, libiou and thunks: a read is a step with the environment's answer, a
  continuation the next step; freeing of memory is not modelled.
- The event loop over several journals: each journal has its own cache and walk, and what
  they share, the totals, is modelled as a schedule of steps, as interleaved dispatches, or
  as the order of ends.
- Directory scanning, path opening, `readfile.c`, `machid.c`, `bootid.c`, argument handling
  and printing other than the layout report.
- `got_header`, `got_object` and the object-specific members in
  `got_hash_table_iter_object_header`: byte swapping, beyond the members that are used.  On
  the little-endian hosts modelled there it does nothing, to stale bytes neither.
- `journal_get_hash_table`; a hash table is given as its items.
- Changes of a file during a run; a file is a fixed sequence of bytes.
- 64-bit counters of the reports and `offset + length` in the cache: counters and sums are
  unbounded here; offsets of the walks and of the tails are 64-bit, with their wrap-around.
- The lookup3 self tests, and statistical properties of the hashes.
- `jio_reclaim_tail_waste`, which returns before doing anything.
- Percentages in the reports; the file that the layout report writes, beyond the text of
  each object.
- ObjectIterator.ObjectIterator.ForEach: requires that no object's size leads past 64 bits,
  because the loop of the source need not end otherwise; so do the walks of the reports.
- HashIterator.HashIterator.ForEach: requires chains that end at their tail; the source
  follows a corrupt chain wherever it leads.
- EntryRuns.RunIsAggregate: the runs are runs on values, in which a dispatch with its reads
  is one step and memory is at hand; EntryReport.PerJournal is one journal in place.
- EntryTable.TableIsMap: the digest is any function of the payload; that it is SHA-1 plays
  no role, and that it is injective on the payloads is assumed only where payloads rather
  than digests are spoken of.
- TailWaste.Report.PrintTailWaste: where the code writes past its counters, nothing is said
  of what happens then; so for Usage.PerJournal, and for Layout.PerDataObject, which reads
  past its table.
- Reclaim.PerJournal: the buffers of a journal are not looked at after its file was cut.
- HashVerifier.PerJournal: decompression is any function of the memory and the length it is
  told, which gives contents or an error or reads past the memory; where content is spoken
  of, it uses no more than that length.  The assertion on its output
  (`src/verify-hashed-objects.c:118`) is taken to hold.  The worker thread of large objects is taken to pass
  on its result.  The byte counts of the statistics, which per_journal does not initialise,
  are not kept.
- HashVerifier.Verifier.Load: memory from malloc is taken to be rounded up to eight bytes,
  which lookup3 relies on where it reads to the end of the last word, and to lie at an
  address of 8 at least, and 64 bytes below the end of the address space; what it holds at
  first is a parameter.  What `got_object` would touch behind memory smaller than the fixed
  part of a type is not modelled.
- VerifyHashed.VerdictIn: memory that ends before the stored hash is an overrun, whatever
  the flags.
- OpenBarrier.Journals.OpenAll: what the kernel does with registered files and buffers is
  not modelled beyond the tables they are registered in.
