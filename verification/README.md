# Formal model of the APR containers and text routines, and of the status database

A Dafny model of six parts of the repository: the APR hash table, rings and bucket
brigades, the glob matcher, the argument tokenizer, number and text conversion, and the
status database. Code that works on memory keeps its form: classes with the fields the
source updates, arrays that are rewritten in place, loops over cursors. Each operation is
proved against a specification on values (a finite map, a byte sequence, a language of
tokens, a number), and the laws the code is meant for are proved of that specification.

- `HashTable.dfy`, `HashMerge.dfy`, `HashCopy.dfy`, `HashRuns.dfy`: chained entries linked
  through `next`, the free list, the built-in iterator. A ghost picture of the chains ties
  the memory to a finite map. `Valid()` holds the placement of every entry in bucket
  `hash & max`, unique keys, `max` = 2^k - 1, `count` = number of keys, a free list that
  shares nothing with the chains, and `count <= max`.
- `Rings.dfy`, `Buckets.dfy`, `Brigades.dfy`, `BrigadeWrites.dfy`, `BrigadeReads.dfy`,
  `Lines.dfy`, `BrigadeLines.dfy`: rings with a sentinel, and on them brigades of heap, transient,
  immortal, file, pipe and metadata buckets. The specification is one byte sequence, the
  rope, with the place of its first read error. A pipe is a script of the reads to come.
  `get_server_line` of `apr_memcache.c` is the client that reads line by line.
- `Flushes.dfy`, `Overlaps.dfy`, `SharedMemory.dfy`, `FlushPlans.dfy`: flush callbacks, which
  follow a plan; transient buckets, which point to the memory of the writer; and what a
  write to memory that buckets point to does to a rope.
- `BrigadeOrder.dfy`, `BrigadeRuns.dfy`: how buckets that share memory may lie in a brigade so
  that a copy behind one of them meets no other, and that operations keep them so.
- `Fnmatch.dfy`, `FnmatchLaws.dfy`, `FnmatchPeriod.dfy`, `FnmatchBrackets.dfy`,
  `FnmatchCase.dfy`: a pattern parses into tokens; `Matches` is the language of a token list
  (POSIX 1003.2-1992, section B.6, and section 3.13.2 for brackets), `Strict` the one in which
  PERIOD is never switched off. What the text of a pattern means is told character by
  character, and so is the effect of CASE_BLIND.
- `Tokenizer.dfy`, `TokenizerLaws.dfy`, `TokenizerWords.dfy`: both passes of the tokenizer, the
  copies and their compaction; bare and quoted words and any blanks between them.
- `Numbers.dfy`, `NumberText.dfy`, `NumeralTexts.dfy`, `NumberRange.dfy`, `Formatter.dfy`,
  `FormatMachine.dfy`, `FormatterLaws.dfy`, `FormatterTexts.dfy`, `SizeFormat.dfy`: digits
  written backwards into a buffer, the hand-written parser, the character machine with its
  flush function, sizes in four characters; and the texts they print and read.
- `NatCompare.dfy`, `NatCompareLaws.dfy`, `NatCompareTexts.dfy`, `NatCompareOrder.dfy`: natural
  order, told by the texts, and that one can sort by it.
- `StatusItems.dfy`, `StatusDatabase.dfy`, `StatusRuns.dfy`, `StatusTraces.dfy`,
  `StatusContents.dfy`: typed items with dirty flags, the map with its nulls and the list,
  posting, and runs of all operations, with sends that arrive or fail.
- `Text.dfy`, `Chars.dfy`, `Bits.dfy`, `Seqs.dfy`: C strings, characters, masks, sequences.
  The files of laws about texts (`FnmatchBrackets`, `NatCompareTexts`, `FormatterTexts`,
  `NumeralTexts` and the like) speak of characters and numbers written out, not of the
  classes of characters that the code is modelled with.

`dafny verify dfyconfig.toml` checks the project.

## Conventions

- A C string is a sequence of non-zero bytes; `At(s, i)` is what a cursor reads and may be
  called up to the terminating NUL only, so every proof is also one that no cursor reads
  past it. `char` is signed, as on the platforms the library is built for here; the C locale
  decides case and white space.
- `const void *` values are opaque numbers, NULL being 0. Keys are byte strings.
- Doubles and floats of status items are reals.
- Allocation always succeeds and yields new memory.
- Signed 64-bit arithmetic wraps, as the overflow test of `apr_strtoi64` relies on.

Preconditions, which the code relies on without checking them:

- a hash table that grows has `max < 0x7fffffff`, so that doubling does not overflow; the
  hash functions of two tables that are merged agree on the keys of the overlay;
- behind the data of the last bucket of a brigade that is printed to, if it is a heap bucket,
  no bucket of the same brigade has data in the same memory (`TailClear`), as is the case for
  every brigade that `BrigadeRuns.PerformAll` makes. Writes do not need that:
  `SharedMemory.WriteWithin` and `SharedMemory.WriteBeside` say exactly when a write leaves
  alone the brigade it goes to, and another one;
- a buffer that is flattened into is not the storage of a bucket; `APR_SIZE_MAX` is at least
  a bucket buffer; a file range lies inside the file;
- `apr_itoa` is not given the most negative `int`.

## What turned out different from the documentation

- `[!]` and `[^]` consume a character, against `apr_fnmatch.h` (`FnmatchLaws.EmptyNegation`).
- `APR_FNM_PERIOD` protects a period at the start of the string, but not always after a
  slash: a star in front of anything but a plain slash switches the flag off for all that
  follows (`FnmatchLaws.LaterPeriodLost`). `FnmatchPeriod.PeriodKept` says exactly for which
  patterns every leading period of every string is protected.
- With CASE_BLIND the case of letters still matters for a range like `[A-_]`, which takes `Z`
  but not `z`, since both ends are folded for one comparison and none for the other
  (`FnmatchCase.CaseKept`). `FnmatchCase.CaseExact` says exactly for which patterns it does not.
- The tokenizer does not treat a backslash as escaping a backslash when it looks for the end
  of a token. So no token but the last of any line ends in a backslash
  (`TokenizerLaws.OnlyLast`), and that is the only limit (`TokenizerLaws.SomeLine`).
- `apr_brigade_vprintf` gives the flush callback a bucket that points to its own buffer and
  then goes on writing there. A callback that succeeds but leaves that bucket in the brigade,
  and does not set it aside, gets other bytes, and may be left with a bucket that points to a
  dead buffer (`FormatMachine.BrigadeVprintf`, `FormatMachine.LeftOnStack`).
- Buckets made by a split share memory, and a write behind one of them, or the copy that
  `apr_brigade_split_line` makes of a small bucket, may go over another: bytes are lost if
  that one comes later (`SharedMemory.SplitThenWrite`, `SharedMemory.SwapThenWrite`,
  `BrigadeRuns.SplitLineLoses`). As long as heap buckets that share memory follow one another
  in the order of their data, with nothing in between, `apr_brigade_split_line` loses nothing;
  writing from memory of the caller, reading and splitting any bucket, cutting a brigade, and
  joining brigades without common memory keep them so (`BrigadeOrder`, `BrigadeRuns.PerformAll`).
- In every base but 2 the overflow test of `apr_strtoi64` misses some of the numbers that do
  not fit (`NumberRange.RangeReported`, `NumberRange.TwentyOne`).
- `%-0<width>d` pads with zeros on the right and so prints another number
  (`FormatterLaws.ReadBackExact`).
- Natural comparison puts `-5` before `-7` (`NatCompareLaws.CompareDecimals`).
- A post clears the dirty flag before it sends, so a failed send loses the update
  (`StatusRuns.LostUpdate`); `StatusTraces.KnownAfterPosts` tells from the events of a run
  for which items.
- A status item with an empty name can be created any number of times
  (`StatusRuns.NamesUnique`).

## Model

| member | source | states |
|---|---|---|
| HashTables.HashTable.constructor | external/apr-1.3.12/tables/apr_hash.c:95-114 | a new table stands for the empty map, with 16 empty buckets, no free entry and the given hash function |
| HashTables.HashIndex.Next | external/apr-1.3.12/tables/apr_hash.c:121-132 | returns the next link that is still pending and leaves exactly the others pending; tells the end exactly when none is; needs nothing of the chains behind the cursor |
| HashTables.HashTable.First | external/apr-1.3.12/tables/apr_hash.c:134-147 | a walk starts with every link of the table pending, chain by chain |
| HashTables.HashTable.Step | external/apr-1.3.12/tables/apr_hash.c:121-132 | one step of a walk takes one link off the pending ones |
| HashTables.HashTable.Relink | external/apr-1.3.12/tables/apr_hash.c:171-175 | one turn of the expansion: the entry moves to its new chain while its old link is rewritten under the walk, and the walk goes on with the next old entry |
| HashTables.HashTable.RelinkAll | external/apr-1.3.12/tables/apr_hash.c:171-175 | the expansion loop ends and has moved every old entry once |
| HashTables.HashTable.Relinked | external/apr-1.3.12/tables/apr_hash.c:164-179 | when the walk is over, the new chains hold the same keys with the same values |
| HashTables.HashTable.ExpandArray | external/apr-1.3.12/tables/apr_hash.c:164-179 | doubling keeps the map, the free list and the entries, and leaves every entry in the chain of its hash under the new mask |
| HashTables.HashTable.Scan | external/apr-1.3.12/tables/apr_hash.c:252-276 | finds the slot of a key: its entry if the table has it, else the end of its chain |
| HashTables.HashTable.FindEntry | external/apr-1.3.12/tables/apr_hash.c:252-286 | with a value, a missing key gets an entry at the end of its chain, taken from the free list if there is one; a present key is left alone |
| HashTables.UnlinkChains | external/apr-1.3.12/tables/apr_hash.c:345-352 | bypassing one link of one chain gives exactly the chains without that key, the later positions moved up |
| HashTables.LinkChains | external/apr-1.3.12/tables/apr_hash.c:273-285 | appending an entry to the chain of its hash gives exactly the chains with that key at the end |
| HashTables.PushChains | external/apr-1.3.12/tables/apr_hash.c:172-174 | pushing an entry in front of the chain of its hash gives exactly the chains with that key first |
| HashTables.HashTable.Get | external/apr-1.3.12/tables/apr_hash.c:325-335 | the value of the key in the map, NULL if it has none |
| HashTables.HashTable.Set | external/apr-1.3.12/tables/apr_hash.c:337-363 | NULL removes the key, any other value binds it, nothing else changes; all invariants hold after the call, count <= max among them |
| HashTables.HashTable.Delete | external/apr-1.3.12/tables/apr_hash.c:345-352 | removes exactly this key; its entry goes to the front of the free list; an absent key changes nothing |
| HashTables.HashTable.Count | external/apr-1.3.12/tables/apr_hash.c:365-368 | the number of keys in the map |
| HashTables.HashTable.Visit | external/apr-1.3.12/tables/apr_hash.c:121-132 | one turn of a loop that may delete the entry it stands at: the walk is at the next entry all the same |
| HashTables.HashTable.Clear | external/apr-1.3.12/tables/apr_hash.c:370-375 | ends with the empty map and every entry on the free list, the old live ones included |
| HashTables.HashTable.DeleteWhere | external/apr-1.3.12/tables/apr_hash.c:121-147 | a walk that deletes any subset of the entries as it stands on them visits every key exactly once and leaves exactly the others |
| HashTables.FlattenCount | external/apr-1.3.12/tables/apr_hash.c:134-147 | the chains taken together hold every key exactly once |
| HashTables.HashTable.WalkKeys | external/apr-1.3.12/tables/apr_hash.c:134-147 | what a walk comes across is every key once, and count many |
| HashTables.KeySeqDistinct | external/apr-1.3.12/tables/apr_hash.c:121-147 | the keys seen on a walk are pairwise different and are all of them |
| HashRuns.TableShape | external/apr-1.3.12/tables/apr_hash.c:252-286 | in every valid table an entry is in bucket hash & max, which is hash mod (max + 1), off the free list, and count is the number of live entries and at most max |
| HashRuns.Perform | external/apr-1.3.12/tables/apr_hash.c:325-375 | one call of set, get, count or clear changes and answers as a finite map does |
| HashRuns.Run | external/apr-1.3.12/tables/apr_hash.c:325-375 | over every run of calls the table answers as a finite map does |
| HashRuns.DefaultHash | external/apr-1.3.12/tables/apr_hash.c:181-240 | times-33 hash of the bytes up to the given length or the first NUL, and the length found |
| HashRuns.WrapOnce | external/apr-1.3.12/tables/apr_hash.c:225-237 | wrapping at each step equals wrapping the whole polynomial once |
| HashCopy.Copy | external/apr-1.3.12/tables/apr_hash.c:288-323 | an equal map with the same order of iteration, in memory of its own, with an empty free list |
| HashCopy.CopyChain | external/apr-1.3.12/tables/apr_hash.c:308-321 | one chain is copied entry by entry in order |
| HashMerge.Merge | external/apr-1.3.12/tables/apr_hash.c:384-475 | the union map, overlay or merger deciding shared keys, for hash functions that agree on the keys of the overlay; both tables are left as they were; one doubling always restores count <= max |
| HashMerge.CopyBase | external/apr-1.3.12/tables/apr_hash.c:419-441 | the entries of base, rehashed under the larger mask, are the same map |
| HashMerge.MergeEntry | external/apr-1.3.12/tables/apr_hash.c:443-472 | a shared key is merged in place, a new one takes the next slot, which the allocation still has |
| HashMerge.MergeAll | external/apr-1.3.12/tables/apr_hash.c:443-473 | after the overlay loop the map is the union and the slot index is at most the sum of the counts |
| HashMerge.UnionSize | external/apr-1.3.12/tables/apr_hash.c:424-435 | a union has at most as many keys as its parts together, so the slots allocated are enough |
| HashMerge.UnionMerges | external/apr-1.3.12/tables/apr_hash.c:443-473 | a key of one table keeps its value; a key of both has what the callback makes of the key, the value of the overlay and that of the base, in that order, or else the value of the overlay |
| HashMerge.Overlay | external/apr-1.3.12/tables/apr_hash.c:377-382 | without a merger the result is base updated with overlay |
| HashMerge.UnionOverlay | external/apr-1.3.12/tables/apr_hash.c:455-457 | without a merger, merging is map update |
| Rings.InsertCyclic | external/apr-1.3.12/include/apr_ring.h:228-250 | linking a segment in at one place gives a well-formed ring with the segment there |
| Rings.SpliceBefore | external/apr-1.3.12/include/apr_ring.h:228-233 | the ring with the segment before the element, next and prev inverse and closed; before the sentinel it is the end |
| Rings.SpliceAfter | external/apr-1.3.12/include/apr_ring.h:245-250 | the ring with the segment after the element; after the sentinel it is the front |
| Rings.DeleteCyclic | external/apr-1.3.12/include/apr_ring.h:364-369 | closing the gap gives a well-formed ring without the segment, and the segment stays linked inside |
| Rings.Unsplice | external/apr-1.3.12/include/apr_ring.h:364-369 | removes exactly the segment and leaves both parts well formed |
| Rings.Concat | external/apr-1.3.12/include/apr_ring.h:332-339 | all elements of the second ring follow those of the first, in order; the second is empty |
| Rings.Prepend | external/apr-1.3.12/include/apr_ring.h:348-355 | all elements of the second ring precede those of the first, in order; the second is empty |
| Rings.Empty | external/apr-1.3.12/include/apr_ring.h:204-205 | a ring is empty exactly when its sentinel is alone |
| Buckets.Cut | external/apr-util-1.3.10/buckets/apr_buckets_simple.c:28-46 | the two halves of a split bucket share its data and hold its bytes, the first as many as asked for |
| Buckets.ReadPipe | external/apr-util-1.3.10/buckets/apr_buckets_pipe.c:19-76 | a read yields the next bytes in a heap bucket of its own and leaves the rest of the pipe behind it; at the end an empty bucket; it fails exactly if the pipe does, and loses nothing |
| Buckets.ReadFile | external/apr-util-1.3.10/buckets/apr_buckets_file.c:75-154 | a read turns at most a buffer of the file into a heap bucket and leaves the rest of the file behind it |
| Buckets.Fetch | external/apr-util-1.3.10/include/apr_buckets.h:990-1007 | whatever the type, what was read followed by what is left are the bytes of the bucket, and the errors to come stay where they were; it fails exactly if an error comes before any byte |
| Buckets.PartsBytesSwap | external/apr-util-1.3.10/buckets/apr_brigade.c:104-188 | a bucket may be replaced by buckets with the same bytes and the same first error without changing those of the rope |
| Buckets.RopeFaultConcat | external/apr-util-1.3.10/buckets/apr_brigade.c:223-266 | the first error of two ropes in a row is that of the first, or else that of the second, as many bytes later |
| Buckets.ReadTodo | external/apr-util-1.3.10/buckets/apr_buckets_pipe.c:19-76 | reading makes progress: fewer reads and buckets lie ahead than before |
| Overlaps.WriteApart | external/apr-util-1.3.10/buckets/apr_buckets_simple.c:28-46 | what is written to memory where no bucket of a rope has bytes leaves the rope as it is, whatever is written |
| Overlaps.WriteOver | external/apr-util-1.3.10/buckets/apr_buckets_simple.c:28-46 | what is written over bytes of a rope changes it, unless it is the same there |
| Overlaps.Outlives | external/apr-util-1.3.10/buckets/apr_buckets_simple.c:98-107 | a rope outlives every change of some memory exactly if none of its bytes is there |
| Brigades.Brigade.constructor | external/apr-util-1.3.10/buckets/apr_brigade.c:56-69 | a new brigade is a closed ring with no bucket |
| Brigades.Brigade.InsertTail | external/apr-util-1.3.10/include/apr_buckets.h:369-374 | the bucket comes last |
| Brigades.Brigade.InsertAfter | external/apr-util-1.3.10/include/apr_buckets.h:411-416 | the bucket comes right after the given one |
| Brigades.Brigade.RemoveFirst | external/apr-util-1.3.10/include/apr_buckets.h:434-434 | the first bucket is taken out whole |
| Brigades.Brigade.Concat | external/apr-util-1.3.10/include/apr_buckets.h:380-383 | the rope of the other brigade is appended, and the other is empty |
| Brigades.Brigade.Prepend | external/apr-util-1.3.10/include/apr_buckets.h:390-393 | the rope of the other brigade is put in front, and the other is empty |
| Brigades.Brigade.SplitBucket | external/apr-util-1.3.10/buckets/apr_buckets_simple.c:28-46 | ENOTIMPL exactly for pipes and metadata, EINVAL exactly past the end, else the two halves take the place of the bucket |
| Brigades.Brigade.Read | external/apr-util-1.3.10/include/apr_buckets.h:990-1007 | the bucket read and what is left of it take its place; the rope stays the same; it fails exactly if the bucket has an error before any byte |
| Brigades.Brigade.PartitionAt | external/apr-util-1.3.10/buckets/apr_brigade.c:126-184 | one bucket of the loop: done with the cut at the point, or the bucket ends before it and its length is known; it fails exactly if the read of the bucket does |
| Brigades.Brigade.Partition | external/apr-util-1.3.10/buckets/apr_brigade.c:104-188 | the rope never changes; EINVAL exactly for a negative point, a read error exactly if one comes before point bytes of the rope, else INCOMPLETE exactly if the rope is shorter, else exactly point bytes precede after_point |
| Brigades.Brigade.SetAsideAll | external/apr-util-1.3.10/buckets/apr_buckets_simple.c:89-96 | setting aside copies just the buckets that are lent by callers, each to memory of its own |
| Brigades.Brigade.Cleanup | external/apr-util-1.3.10/buckets/apr_brigade.c:37-48 | ends with no bucket |
| Brigades.Brigade.SplitEx | external/apr-util-1.3.10/buckets/apr_brigade.c:71-96 | the buckets before e stay, those from e on move in order, and the two ropes make up the old one; both rings are well formed |
| Flushes.Sink.Flush | external/apr-util-1.3.10/buckets/apr_brigade.c:430-440 | a flush callback sends all buckets but the last few, which it may set aside, and returns a status, all as its plan says; sent and kept bytes together stay the same |
| Flushes.AsideBytes | external/apr-util-1.3.10/buckets/apr_buckets_simple.c:89-96 | setting aside changes no byte |
| Flushes.FlushedTied | external/apr-util-1.3.10/buckets/apr_buckets_simple.c:98-107 | after a flush the memory of the writer is still in use exactly if the callback left the last bucket and did not set it aside |
| BrigadeWrites.CopyInto | external/apr-util-1.3.10/buckets/apr_brigade.c:463-464 | the copy stays inside the allocation and touches nothing else |
| BrigadeWrites.AppendTail | external/apr-util-1.3.10/buckets/apr_brigade.c:463-465 | bytes copied behind the data of the last bucket extend the rope by just these bytes, unless other buckets have data there, which then changes with the memory; no other byte of the memory changes |
| BrigadeWrites.Write | external/apr-util-1.3.10/buckets/apr_brigade.c:416-468 | flushed bytes and rope together grow by exactly the bytes written, unless they fill room in which the brigade itself has data; the flush function is called, and its status returned, exactly if they exceed the room, with a bucket that points to the memory of the caller |
| BrigadeWrites.WroteSpace | external/apr-util-1.3.10/buckets/apr_brigade.c:421-448 | how much room a write leaves for the next one |
| BrigadeWrites.AppendPieces | external/apr-util-1.3.10/buckets/apr_brigade.c:524-552 | takes pieces in order as long as the next one fits, and all of them if they fit together |
| BrigadeWrites.WriteTail | external/apr-util-1.3.10/buckets/apr_brigade.c:514-570 | a heap bucket at the end takes the pieces that fit, up to the first that does not; nothing is lost if the flush then fails |
| BrigadeWrites.WriteLarge | external/apr-util-1.3.10/buckets/apr_brigade.c:488-510 | a large vector is passed on piece by piece, in order: with a flush function as buckets that point to the memory of the caller, else copied |
| BrigadeWrites.Writev | external/apr-util-1.3.10/buckets/apr_brigade.c:470-588 | flushed bytes and rope together grow by the pieces in order, all on success, those that fit if a flush failed, unless the brigade has data in the room these fill; the flush function is called exactly if they are too many for the last bucket or for a buffer; only a large vector is lent |
| BrigadeWrites.Total | external/apr-util-1.3.10/buckets/apr_brigade.c:480-486 | the length of the concatenation |
| SharedMemory.WriteOutlives | external/apr-util-1.3.10/buckets/apr_brigade.c:430-440 | what is in the brigade after a write outlives every change of the memory of the caller exactly if the bytes fitted, or the callback took the bucket or set it aside |
| SharedMemory.LargeOutlives | external/apr-util-1.3.10/buckets/apr_brigade.c:492-500 | the same for each memory of a large vector: no bytes of it among the pieces that the callback left, or these were set aside |
| SharedMemory.WriteWithin | external/apr-util-1.3.10/buckets/apr_brigade.c:421-428 | a write, seen from the brigade it goes to: what was there stays the same, for all bytes of this length, exactly if no bucket has data in the room that is filled |
| SharedMemory.SwapThenWrite | external/apr-util-1.3.10/include/apr_buckets.h:380-383 | the failing input: split a heap bucket, put the halves together in the other order, write, and the second half has changed |
| SharedMemory.WriteBeside | external/apr-util-1.3.10/buckets/apr_brigade.c:421-428 | a write, seen from a second brigade: its bytes stay the same whatever is written, unless the write fills room in which that brigade has data, and then other bytes change them |
| SharedMemory.SplitThenWrite | external/apr-util-1.3.10/buckets/apr_brigade.c:71-96 | the failing input: split a heap bucket, split the brigade there, write to the first, and the second has changed |
| FlushPlans.WroteRope | external/apr-util-1.3.10/buckets/apr_brigade.c:416-468 | a write from a buffer, as the owner of the buffer sees it: what is sent, kept or left pointing to the buffer, the room and the turns to come are those of a step on values |
| FlushPlans.NextMixed | external/apr-util-1.3.10/buckets/apr_brigade.c:430-440 | a step moves the bytes the buffer has now; those left pointing to it are later what it holds then, and no other byte changes |
| BrigadeWrites.InsertFile | external/apr-util-1.3.10/buckets/apr_brigade.c:707-739 | the rope grows by the bytes of the range; no new bucket exceeds the limit unless offsets are no wider than sizes; the last one is returned |
| BrigadeReads.FlattenInto | external/apr-util-1.3.10/buckets/apr_brigade.c:223-266 | a read error exactly if the first bucket fails or an error comes before len bytes; else the first min(len, length) bytes of the rope are in the buffer; the rest of the buffer is untouched and the rope stays the same; on an error the bytes before it are there |
| BrigadeReads.FlattenedNext | external/apr-util-1.3.10/buckets/apr_brigade.c:243-262 | one more bucket at the end of a flattened prefix gives a longer prefix |
| BrigadeOrder.SortedCut | external/apr-util-1.3.10/buckets/apr_brigade.c:327-332 | splitting the first bucket of the input keeps what makes copying safe: data in shared memory lies in the order of the rope |
| BrigadeOrder.CopyMisses | external/apr-util-1.3.10/buckets/apr_brigade.c:338-343 | so a small bucket can be copied behind the output without running into data that is still needed |
| BrigadeOrder.SortedCopy | external/apr-util-1.3.10/buckets/apr_brigade.c:338-343 | and copying it keeps that property |
| BrigadeOrder.OrderlySorted | external/apr-util-1.3.10/buckets/apr_brigade.c:304-354 | a brigade in which heap buckets with common memory follow one another in the order of their data is fit for apr_brigade_split_line, with an empty output or one without common memory |
| BrigadeOrder.OrderlyWrote | external/apr-util-1.3.10/buckets/apr_brigade.c:416-468 | a write keeps a brigade so, flush and setting aside included |
| BrigadeOrder.OrderlyRead | external/apr-util-1.3.10/include/apr_buckets.h:990-1007 | so does a read of any bucket |
| BrigadeOrder.OrderlyHalved | external/apr-util-1.3.10/buckets/apr_buckets_simple.c:28-46 | so does a split of any bucket |
| BrigadeOrder.OrderlyParts | external/apr-util-1.3.10/buckets/apr_brigade.c:71-96 | and both halves of a brigade that is cut are so |
| BrigadeOrder.OrderlyConcat | external/apr-util-1.3.10/include/apr_buckets.h:380-383 | and two such brigades without common memory in a row |
| BrigadeRuns.PerformAll | external/apr-util-1.3.10/buckets/apr_brigade.c:56-96 | whatever run of writes, reads, splits and cuts is made of a new brigade, with any flush callback, it is fit for apr_brigade_split_line |
| BrigadeReads.MoveLine | external/apr-util-1.3.10/buckets/apr_brigade.c:327-332 | the first bucket is cut after the line feed and its first half moves over |
| BrigadeReads.MoveCopy | external/apr-util-1.3.10/buckets/apr_brigade.c:338-345 | a copy, whatever memory is shared: its bytes arrive and the rest of the input stays as it is if the room filled has no data of the two; else both are as the memory then says, and other bytes change the rest |
| BrigadeReads.MoveBucket | external/apr-util-1.3.10/buckets/apr_brigade.c:334-345 | a bucket without a line feed moves over whole or is copied; its bytes move, unless the copy goes over data of the two brigades |
| BrigadeReads.LineStep | external/apr-util-1.3.10/buckets/apr_brigade.c:311-346 | one bucket: its bytes move, up to its first line feed if it has one, unless it is copied over data of the two brigades, and then other bytes there are lost; a read error moves nothing, and comes exactly if the first bucket fails |
| BrigadeReads.SplitLine | external/apr-util-1.3.10/buckets/apr_brigade.c:304-354 | for brigades in order: bytes are conserved; a read error exactly if one comes first, or before a line feed and maxbytes bytes; else the first line moves if no line is longer than maxbytes, or what has no line feed up to the end or maxbytes, exceeded by less than a bucket |
| BrigadeRuns.SplitLineLoses | external/apr-util-1.3.10/buckets/apr_brigade.c:334-345 | the failing input: a heap bucket split behind 3000 bytes with a bucket of one byte put in between: that byte comes out twice, and the second half is lost |
| Lines.NextLine | external/apr-util-1.3.10/buckets/apr_brigade.c:304-354 | what one call moves is the first line of the input, or all there is, if no line is longer than maxbytes |
| BrigadeLines.ServerLine | external/apr-util-1.3.10/memcache/apr_memcache.c:587-608 | one line goes through a second brigade to the buffer, as much of it as fits; after a read error what was read of the line waits in that brigade |
| BrigadeLines.ReadLines | external/apr-util-1.3.10/memcache/apr_memcache.c:587-608 | call after call fills the buffer with the lines of the rope one by one; on the first error of the rope, with the lines before it, and what was read and is still to be read make up the rest |
| Fnmatch.RangeItem | external/apr-1.3.12/strings/apr_fnmatch.c:182-208 | one item of a bracket expression: where the next starts, and whether it matches |
| Fnmatch.Rangematch | external/apr-1.3.12/strings/apr_fnmatch.c:166-211 | the position after the bracket expression exactly if it is closed and its items, negated or not, match; the scan does not depend on the byte tested |
| Fnmatch.ScanStep | external/apr-1.3.12/strings/apr_fnmatch.c:182-209 | a bracket expression is scanned item by item |
| Fnmatch.NeverEmpty | external/apr-1.3.12/strings/apr_fnmatch.c:114-124 | a non-empty pattern that does not start with a star never matches the empty string |
| Fnmatch.StarSlash | external/apr-1.3.12/strings/apr_fnmatch.c:107-112 | before a slash a star loses no match by going to the first slash |
| Fnmatch.StarLast | external/apr-1.3.12/strings/apr_fnmatch.c:98-106 | a star at the end matches anything, or anything without a slash |
| Fnmatch.StarSkips | external/apr-1.3.12/strings/apr_fnmatch.c:114-124 | elsewhere a star matches a run, and PERIOD is off for what follows |
| Fnmatch.ParseStars | external/apr-1.3.12/strings/apr_fnmatch.c:86-90 | a run of stars is one star |
| Fnmatch.LeadIrrelevant | external/apr-1.3.12/strings/apr_fnmatch.c:114-124 | without PERIOD it does not matter where the string of a recursive call starts |
| Fnmatch.StarSearch | external/apr-1.3.12/strings/apr_fnmatch.c:114-124 | succeeds exactly if the rest of the pattern matches behind some run that the star can take |
| Fnmatch.StarCase | external/apr-1.3.12/strings/apr_fnmatch.c:85-124 | a star decides the match, or goes on behind the run it takes; no match is lost |
| Fnmatch.ByteCase | external/apr-1.3.12/strings/apr_fnmatch.c:71-160 | `?`, a bracket expression or a literal: the language after it on the string after one byte, or no match |
| Fnmatch.Fnmatch | external/apr-1.3.12/strings/apr_fnmatch.c:62-164 | succeeds exactly if the string is in the language of the pattern, for every mix of the four flags; it terminates and never reads past a NUL |
| FnmatchBrackets.QuestionText | external/apr-1.3.12/strings/apr_fnmatch.c:71-84 | `?` takes one byte: no slash with PATHNAME, no leading period with PERIOD |
| FnmatchBrackets.StarText | external/apr-1.3.12/strings/apr_fnmatch.c:85-106 | `*` at the end takes everything, but no slash with PATHNAME and with PERIOD nothing that starts with a leading period |
| FnmatchBrackets.StarTextRest | external/apr-1.3.12/strings/apr_fnmatch.c:107-124 | without PERIOD `*` takes any run of bytes, with PATHNAME any without a slash, behind which the rest of the pattern accepts |
| FnmatchBrackets.LiteralText | external/apr-1.3.12/strings/apr_fnmatch.c:150-160 | any other byte takes itself, with CASE_BLIND also the same ASCII letter in its other case |
| FnmatchBrackets.EscapedText | external/apr-1.3.12/strings/apr_fnmatch.c:142-160 | so does a byte behind a backslash, whatever it is |
| FnmatchBrackets.BodyScanned | external/apr-1.3.12/strings/apr_fnmatch.c:182-210 | a well-written bracket is read up to its `]`, item by item, with escapes, ranges and a dash at either end |
| FnmatchBrackets.BracketMeaning | external/apr-1.3.12/strings/apr_fnmatch.c:125-210 | a bracket takes one byte exactly if one of its pieces lists it: the byte itself, or a range with both ends, in char order, with CASE_BLIND also folded; negated by `!` or `^`, exactly if none does |
| FnmatchBrackets.RangeText | external/apr-1.3.12/strings/apr_fnmatch.c:197-197 | `[lo-hi]` accepts exactly the strings of one byte from lo to hi, both included |
| FnmatchBrackets.ListText | external/apr-1.3.12/strings/apr_fnmatch.c:204-204 | `[c1..cn]` accepts exactly the strings of one of these bytes, `[!c1..cn]` and `[^c1..cn]` exactly those of one other byte |
| FnmatchCase.CaseExchange | external/apr-1.3.12/strings/apr_fnmatch.c:150-210 | with CASE_BLIND exchanging letters of the string for their other case changes nothing, if every bracket of the pattern lists both cases of a letter or none |
| FnmatchCase.CaseExact | external/apr-1.3.12/strings/apr_fnmatch.c:150-210 | for every pattern that accepts anything, with PERIOD anything for which no star has to take a byte, exactly then |
| FnmatchCase.EvenRanges | external/apr-1.3.12/strings/apr_fnmatch.c:197-200 | a bracket does so if no range of it starts or ends unevenly among the letters |
| FnmatchCase.RangeExchange | external/apr-1.3.12/strings/apr_fnmatch.c:197-200 | a bracket of one range does so exactly then |
| FnmatchCase.CaseKept | external/apr-1.3.12/strings/apr_fnmatch.c:197-200 | the failing input: with CASE_BLIND `[A-_]` accepts `Z` and rejects `z` |
| FnmatchLaws.PeriodRestricts | external/apr-1.3.12/strings/apr_fnmatch.c:78-82 | PERIOD only takes matches away |
| FnmatchLaws.PeriodHarmless | external/apr-1.3.12/strings/apr_fnmatch.c:92-96 | on a string with no leading period PERIOD changes nothing |
| FnmatchLaws.LeadingPeriod | external/apr-1.3.12/include/apr_fnmatch.h:62-62 | at the start of the string a period is matched by a literal period only |
| FnmatchLaws.LaterPeriodLost | external/apr-1.3.12/strings/apr_fnmatch.c:107-117 | after a slash it is not: a star in front of anything but a plain slash switches PERIOD off for all that follows (`*\\/?` accepts `/.`, `*a/?` accepts `xa/.`) |
| FnmatchPeriod.StrictMatches | external/apr-1.3.12/include/apr_fnmatch.h:62-62 | what the flag promises to match is matched |
| FnmatchPeriod.StrictSame | external/apr-1.3.12/strings/apr_fnmatch.c:92-96 | with PERIOD or PATHNAME alone the promise is kept for all patterns and strings |
| FnmatchPeriod.SlashBySlash | external/apr-1.3.12/strings/apr_fnmatch.c:107-112 | with PATHNAME the first slash of a match is that of the pattern, and what follows both of them matches |
| FnmatchPeriod.DifferentExposed | external/apr-1.3.12/strings/apr_fnmatch.c:107-117 | if a string is accepted against the promise, the pattern has a star in front of something other than a plain slash, and behind it a slash and a token that can match a period without naming it |
| FnmatchPeriod.ExposedDiffers | external/apr-1.3.12/strings/apr_fnmatch.c:107-117 | and every such pattern, if its tokens can match anything, accepts a string against the promise |
| FnmatchPeriod.PeriodKept | external/apr-1.3.12/strings/apr_fnmatch.c:60-150 | apr_fnmatch protects every leading period of every string exactly if the pattern is not of that kind |
| FnmatchPeriod.BoundedNotExposed | external/apr-1.3.12/strings/apr_fnmatch.c:99-112 | so it does if every star is last or stands in front of a plain slash |
| FnmatchLaws.StarStar | external/apr-1.3.12/include/apr_fnmatch.h:85-86 | two stars in a row are equivalent to one |
| FnmatchLaws.EmptyNegation | external/apr-1.3.12/strings/apr_fnmatch.c:178-182 | `[!]` and `[^]` consume a byte, against the header comment |
| FnmatchLaws.FnmatchTest | external/apr-1.3.12/strings/apr_fnmatch.c:216-246 | reports a glob exactly if there is an unescaped ? or *, or a ] somewhere behind a [ |
| FnmatchLaws.GlobText | external/apr-1.3.12/strings/apr_fnmatch.c:216-246 | that is: exactly if some byte that no backslash escapes is `?`, `*`, or a `]` behind an unescaped `[` |
| FnmatchLaws.NeverClosed | external/apr-1.3.12/strings/apr_fnmatch.c:216-246 | the two scanners agree on escapes: where the test sees no glob, no bracket expression is ever closed |
| FnmatchLaws.NoGlob | external/apr-1.3.12/strings/apr_fnmatch.c:216-246 | if the test reports no glob, apr_fnmatch without flags accepts exactly the unescaped pattern, and nothing at all if a bracket is left open |
| Tokenizer.DetermineNext | external/apr-1.3.12/strings/apr_cpystrn.c:115-127 | stops where the token ends: at its quotation mark or white space not kept by a backslash, or at the NUL |
| Tokenizer.CountArguments | external/apr-1.3.12/strings/apr_cpystrn.c:157-166 | the first pass counts the tokens and one more |
| Tokenizer.NextArgument | external/apr-1.3.12/strings/apr_cpystrn.c:170-180 | one turn of the second pass yields the next token in a buffer of its own and moves on by just that token |
| Tokenizer.TokenAt | external/apr-1.3.12/strings/apr_cpystrn.c:157-180 | both passes see the same token at the same cursor |
| Tokenizer.TokenizeToArgv | external/apr-1.3.12/strings/apr_cpystrn.c:85-184 | argv has a slot for each token, filled with it in memory of its own, and a null at the end |
| Tokenizer.RemoveEscapeChars | external/apr-1.3.12/strings/apr_cpystrn.c:133-145 | in-place compaction leaves the unescaped text |
| Tokenizer.Cpystrn | external/apr-1.3.12/strings/apr_cpystrn.c:45-65 | as much as fits, always with a NUL, nothing beyond it touched; the result tells where the NUL is |
| Tokenizer.CleanWritten | external/apr-1.3.12/strings/apr_cpystrn.c:133-145 | removing escapes gives the argument back, whichever of its bytes stand behind a backslash |
| Tokenizer.WrittenEnd | external/apr-1.3.12/strings/apr_cpystrn.c:115-127 | an argument, bare or quoted either way, ends at the byte behind it exactly if it does not end in a backslash; a bare one may have quotation marks inside |
| Tokenizer.QuotedFirst | external/apr-1.3.12/strings/apr_cpystrn.c:85-184 | the first token of a line that starts with an argument in single or double quotes is that argument exactly if it does not end in a backslash |
| Tokenizer.QuoteTokenize | external/apr-1.3.12/strings/apr_cpystrn.c:85-184 | quoting any list of arguments, with single or with double quotes, and tokenizing it gives the list back exactly if none of them ends in a backslash |
| TokenizerWords.WordFirst | external/apr-1.3.12/strings/apr_cpystrn.c:85-184 | the first word of a line, bare or quoted, is the first token exactly if it does not end in a backslash or is bare and all there is, and then the rest gives the other tokens |
| TokenizerWords.WordsTokens | external/apr-1.3.12/strings/apr_cpystrn.c:85-184 | words, bare or in either quotes, with a backslash before at least the bytes that need one, and any runs of spaces and tabs between them: the tokens are these words exactly if none ends in a backslash, but for a bare one at the end |
| TokenizerWords.PlainTokens | external/apr-1.3.12/strings/apr_cpystrn.c:115-127 | words without blanks and backslashes, joined by any runs of spaces and tabs, with any in front and behind, are the tokens of their line |
| TokenizerLaws.NoBackslashBefore | external/apr-1.3.12/strings/apr_cpystrn.c:115-127 | what ends a token never comes right behind a backslash |
| TokenizerLaws.OnlyLast | external/apr-1.3.12/strings/apr_cpystrn.c:85-184 | whatever the line, no token but the last ends in a backslash |
| TokenizerLaws.SomeLine | external/apr-1.3.12/strings/apr_cpystrn.c:85-184 | some line gives a list of arguments exactly if none of them but the last ends in a backslash |
| Numbers.Conv10 | external/apr-1.3.12/strings/apr_snprintf.c:330-371 | the canonical decimal digits of the magnitude end at buf_end; the sign is reported; nothing else is written; 32-bit minimum included |
| Numbers.Conv10Quad | external/apr-1.3.12/strings/apr_snprintf.c:373-423 | the same for 64 bits, whichever of the two versions does the work |
| Numbers.ConvP2 | external/apr-1.3.12/strings/apr_snprintf.c:616-633 | the canonical digits in base 2^nbits, lower or upper case |
| Numbers.ConvP2Quad | external/apr-1.3.12/strings/apr_snprintf.c:635-655 | the same for 64 bits, whichever of the two versions does the work |
| Numbers.DigitsFit | external/apr-1.3.12/strings/apr_snprintf.c:324-328 | no 64-bit number needs more than 64 digits, so a conversion stays inside the number buffer |
| Numbers.Itoa | external/apr-1.3.12/strings/apr_strings.c:361-383 | the decimal text, NUL-terminated, inside a buffer of 14 bytes |
| NumberText.ReadPrefix | external/apr-1.3.12/strings/apr_strings.c:258-282 | white space, sign and base prefix are taken as the numeral says |
| NumberText.AddDigit | external/apr-1.3.12/strings/apr_strings.c:330-341 | a digit extends the value on 64 bits, or an overflow is noticed; a noticed one is never forgotten |
| NumberText.CountExact | external/apr-1.3.12/strings/apr_strings.c:302-342 | a number that fits is counted exactly, digit by digit, and no overflow is noticed |
| NumberText.Strtoi64 | external/apr-1.3.12/strings/apr_strings.c:245-354 | for any text and base: EINVAL and no progress for a bad base or no digits, else the end is behind the last digit, and value and ERANGE are those of the digit count; so the value is exact whenever it fits |
| NumberRange.CountNoticed | external/apr-1.3.12/strings/apr_strings.c:330-341 | in base 2, and for positive numbers in base 3, every number that does not fit is noticed |
| NumberRange.Slips | external/apr-1.3.12/strings/apr_strings.c:330-341 | in base 4 and above, and for negative numbers in base 3, some number that does not fit is not noticed |
| NumberRange.RangeReported | external/apr-1.3.12/strings/apr_strings.c:291-342 | so every number that does not fit is reported exactly in base 2, and every positive one exactly in bases 2 and 3 |
| NumberRange.TwentyOne | external/apr-1.3.12/strings/apr_strings.c:330-341 | the failing input in base 10: 21 and 18 zeros is read as 2553255926290448384, without an error |
| NumberText.ValueDigits | external/apr-1.3.12/strings/apr_snprintf.c:330-423 | canonical digits have the value printed, and start with a zero only for zero |
| NumberText.ReadDecimal | external/apr-1.3.12/strings/apr_strings.c:245-354 | reading undoes the decimal text of every integer, in base 10 or with the base left open, whatever non-digit follows |
| NumberText.ReadDigits | external/apr-1.3.12/strings/apr_strings.c:245-354 | reading in any base from 2 to 16 undoes printing in it |
| NumberText.ReadHex | external/apr-1.3.12/strings/apr_strings.c:275-280 | the same behind the prefix 0x |
| NumeralTexts.AnalysedAs | external/apr-1.3.12/strings/apr_strings.c:252-282 | a text of white space, sign, prefix 0x or 0X, digits and something else is taken apart as such; base 0 means 16 behind a prefix, 8 behind a zero, else 10 |
| NumeralTexts.AmountValue | external/apr-1.3.12/strings/apr_strings.c:302-329 | digits 0-9, a-z and A-Z stand for 0 to 35 in every base, the most significant one first |
| NumeralTexts.ReadNumeral | external/apr-1.3.12/strings/apr_strings.c:245-354 | for every such text and base: EINVAL, 0 and no progress for a base that is not 2 to 36 or without digits; else the end is behind the digits, and the value is that of sign and digits if it fits 64 bits; with ERANGE, the limit of its sign |
| NumberText.PrintThenRead | external/apr-1.3.12/strings/apr_snprintf.c:373-423 | printing and reading is the identity on every 64-bit integer, the minimum included |
| Formatter.FixPrecision | external/apr-1.3.12/strings/apr_snprintf.c:280-293 | leading zeros up to the precision, within the number buffer |
| Formatter.ConvertDigits | external/apr-1.3.12/strings/apr_snprintf.c:856-945 | the digits of the argument in its size and base, for %u, %d, %o and %x |
| Formatter.Convert | external/apr-1.3.12/strings/apr_snprintf.c:856-1297 | digits, precision, alternate octal and sign, in front of one another at the end of the number buffer |
| FormatMachine.Vbuff.Flush | external/apr-util-1.3.10/buckets/apr_brigade.c:656-678 | a full buffer is written to the brigade whole, or the call fails because the callback did; snprintf_flush always fails |
| FormatMachine.Vbuff.Store | external/apr-1.3.12/strings/apr_snprintf.c:245-258 | a character stored in the buffer changes also what is written, where buckets were left pointing there |
| FormatMachine.Vbuff.InsChar | external/apr-1.3.12/strings/apr_snprintf.c:245-258 | one more character is out, or the flush failed, for a reason in its plan |
| FormatMachine.Vbuff.Pad | external/apr-1.3.12/strings/apr_snprintf.c:295-302 | width - len copies of the character |
| FormatMachine.Vbuff.PutField | external/apr-1.3.12/strings/apr_snprintf.c:1294-1320 | padding by width and side, zeros behind the sign |
| FormatMachine.Vbuff.PutDirective | external/apr-1.3.12/strings/apr_snprintf.c:730-1322 | exactly what the directive shows is out, or a proper part of it if the flush failed |
| FormatMachine.Vformatter | external/apr-1.3.12/strings/apr_snprintf.c:683-1327 | exactly the unbounded output is inserted and counted, whatever the number of flushes; -1 only after a flush that failed, with as many full blocks inserted as were written |
| FormatMachine.Snprintf | external/apr-1.3.12/strings/apr_snprintf.c:1339-1368 | len > 0: the first min(len - 1, n) characters, a NUL, that number returned, nothing beyond touched; len 0: n returned, nothing touched |
| FormatMachine.BrigadeVprintf | external/apr-util-1.3.10/buckets/apr_brigade.c:680-705 | the status, every byte that is written and whether a bucket is left pointing to the dead buffer are those of a run of block writes on values, whatever the plan of the callback; a callback that takes or sets aside what it is given gets exactly the output |
| FlushPlans.TrackBlock | external/apr-util-1.3.10/buckets/apr_brigade.c:656-678 | a full block written keeps the account of the rope, the course and the buffer |
| FlushPlans.TrackStore | external/apr-1.3.12/strings/apr_snprintf.c:245-258 | so does a character stored in the buffer |
| FlushPlans.PrintLength | external/apr-util-1.3.10/buckets/apr_brigade.c:680-705 | however buckets are left pointing to the buffer, no byte is added or lost: only what it is may change |
| FlushPlans.PrintExact | external/apr-util-1.3.10/buckets/apr_brigade.c:680-705 | if no full block that was written is left pointing to the buffer, all that was written is the start of the output, up to the end of the block whose write failed if one did |
| FlushPlans.PrintSpoilt | external/apr-util-1.3.10/buckets/apr_brigade.c:680-705 | if one is, and no later block starts with the same byte, its first byte has changed |
| FlushPlans.ExactPlan | external/apr-util-1.3.10/buckets/apr_brigade.c:656-705 | all texts of a given length arrive as they are, up to the block whose write fails if one does, exactly if the plan leaves no full block written before that pointing to the buffer |
| FlushPlans.CarefulPrinted | external/apr-util-1.3.10/buckets/apr_brigade.c:680-705 | a callback that never fails and takes or sets aside what it is given gets exactly the output, for all texts, and is left with nothing of the buffer |
| FormatMachine.LeftOnStack | external/apr-util-1.3.10/buckets/apr_brigade.c:680-705 | the failing input: a callback that leaves the bucket it was given gets other bytes than were printed |
| FormatterTexts.SignedText | external/apr-1.3.12/strings/apr_snprintf.c:875-900 | %d of a 16, 32 or 64 bit number prints the decimal text of just that number |
| FormatterTexts.UnsignedText | external/apr-1.3.12/strings/apr_snprintf.c:856-945 | %u, %o, %x and %X of a 16, 32 or 64 bit number print just that number in base 10, 8, 16 and 16, with letters of their case |
| FormatterTexts.LowBits | external/apr-1.3.12/strings/apr_snprintf.c:856-893 | arguments that agree in their low 16, 32 or 64 bits print the same, whatever the flags |
| FormatterTexts.NumberField | external/apr-1.3.12/strings/apr_snprintf.c:730-1322 | any number directive: a sign, + or blank as the flags ask, at least as many digits as the precision asks for, a leading zero for alternate octal, and blanks or zeros up to the width, on the side the flags ask for |
| FormatterTexts.StringField | external/apr-1.3.12/strings/apr_snprintf.c:953-1000 | %s prints the string, cut at the precision and padded with blanks to the width |
| FormatterTexts.NumeralText | external/apr-1.3.12/strings/apr_snprintf.c:330-423 | numerals are made of 0-9 and a-f or A-F, the last digit being the remainder |
| FormatterTexts.PrintThenReadQuad | external/apr-1.3.12/strings/apr_snprintf.c:1339-1368 | apr_strtoi64 reads back every 64-bit number that apr_snprintf prints |
| FormatterLaws.FieldWidth | external/apr-1.3.12/strings/apr_snprintf.c:1299-1320 | a field is as wide as its text or its minimum width, whichever is more |
| FormatterLaws.ReadBack | external/apr-1.3.12/strings/apr_snprintf.c:875-900 | what apr_strtoi64 reads from a signed field is the number times ten for each zero put behind it |
| FormatterLaws.ReadBackExact | external/apr-1.3.12/strings/apr_snprintf.c:1319-1320 | so apr_strtoi64 reads the number back exactly if it is zero or no zero is put behind it, that is unless the field is left-adjusted with the 0 flag and padded |
| SizeFormat.Limits | external/apr-1.3.12/strings/apr_strings.c:446-453 | the loop ends within the six unit letters for every non-negative 64-bit size, and what it prints fits its columns |
| SizeFormat.Strfsize | external/apr-1.3.12/strings/apr_strings.c:433-467 | the four characters of the size text and a NUL, nothing beyond; never the fallback |
| SizeFormat.MeaningOf | external/apr-1.3.12/strings/apr_strings.c:433-467 | read as a number and a unit, the text means the rounded size; the d.d form never starts with a zero |
| SizeFormat.Error | external/apr-1.3.12/strings/apr_strings.c:452-465 | the error is at most 0.05 + 1/1024 unit with a decimal and 0.5 + 1/1024 unit without, and none below 973 |
| SizeFormat.DisplayedMonotone | external/apr-1.3.12/strings/apr_strings.c:446-465 | the magnitude shown is monotone within a unit and across units |
| SizeFormat.Monotone | external/apr-1.3.12/strings/apr_strings.c:433-467 | a larger size is never shown as a smaller one |
| SizeFormat.LetterWritten | external/apr-1.3.12/strings/apr_strings.c:433-467 | the letter is K, M, G, T, P or E for sizes below 973 times 1024, 1024^2 and so on |
| SizeFormat.SizeWritten | external/apr-1.3.12/strings/apr_strings.c:433-467 | `  - ` for a negative size, a number of bytes and a blank below 973, else d.d or a number of two or three columns, at the right |
| NatCompare.CompareRight | external/apr-1.3.12/strings/apr_strnatcmp.c:36-63 | the sign by length of the digit run, then by its first difference |
| NatCompare.CompareLeft | external/apr-1.3.12/strings/apr_strnatcmp.c:66-85 | the sign by the first difference, a shorter run first |
| NatCompare.Strnatcmp0 | external/apr-1.3.12/strings/apr_strnatcmp.c:88-135 | the natural order of the two strings, with or without case folding |
| NatCompare.Antisymmetric | external/apr-1.3.12/strings/apr_strnatcmp.c:88-135 | swapping the arguments flips the sign, for all strings, with and without case folding |
| NatCompare.Reflexive | external/apr-1.3.12/strings/apr_strnatcmp.c:88-135 | every string equals itself |
| NatCompareLaws.DifferenceValue | external/apr-1.3.12/strings/apr_strnatcmp.c:41-60 | digit runs of one length differ as their values do |
| NatCompareLaws.LongerValue | external/apr-1.3.12/strings/apr_strnatcmp.c:41-60 | without leading zeros the longer run is the larger number |
| NatCompareLaws.CompareDigits | external/apr-1.3.12/strings/apr_strnatcmp.c:88-135 | canonical numerals compare as the numbers do |
| NatCompareLaws.CompareDecimals | external/apr-1.3.12/strings/apr_strings.c:361-383 | apr_itoa texts compare as the numbers do exactly if they are not two different negative numbers, which compare the wrong way round |
| NatCompareTexts.EqualRuns | external/apr-1.3.12/strings/apr_strnatcmp.c:105-133 | an equal run of digits decides nothing: what follows it does |
| NatCompareTexts.DifferentNumbers | external/apr-1.3.12/strings/apr_strnatcmp.c:88-115 | two different numbers decide, whatever follows them |
| NatCompareTexts.ZeroRuns | external/apr-1.3.12/strings/apr_strnatcmp.c:106-110 | if one of two runs starts with a zero, they compare from the left: by the first different digit, or the shorter one is less |
| NatCompareTexts.SpaceSkipped | external/apr-1.3.12/strings/apr_strnatcmp.c:97-102 | white space in front of either text does not matter |
| NatCompareTexts.OtherChars | external/apr-1.3.12/strings/apr_strnatcmp.c:117-133 | other characters decide if they differ, as signed chars, the end of a text being 0; if not, what follows does |
| NatCompareTexts.FirstDifferent | external/apr-1.3.12/strings/apr_strnatcmp.c:117-133 | texts without digits and white space compare by their first different char |
| NatCompareTexts.FoldExchange | external/apr-1.3.12/strings/apr_strnatcmp.c:123-126 | with case folding, the case of letters matters in neither argument |
| NatCompareTexts.FoldEqual | external/apr-1.3.12/strings/apr_strnatcmp.c:123-126 | so texts that differ in it only are equal |
| NatCompareTexts.FoldUpper | external/apr-1.3.12/strings/apr_strnatcmp.c:123-126 | with folding texts compare as they do in upper case without |
| NatCompareOrder.Transitive | external/apr-1.3.12/strings/apr_strnatcmp.c:88-135 | the order is transitive, and a text that is less than or equal to a second, and that to a third, equals the third exactly if all are equal |
| NatCompareOrder.EqualAlike | external/apr-1.3.12/strings/apr_strnatcmp.c:88-135 | texts that compare equal compare alike with every other one, so one can sort by it |
| StatusItems.StatusItem.constructor | src/status/StatusItem.cpp:12-40 | a new item is dirty and has the initial value of its type |
| StatusItems.StatusItem.SetValue | src/status/StatusItem.cpp:45-112 | ERROR and no change for another type; else the item has the value, and is dirty if it was or if the value is a new one |
| StatusItems.StatusItem.SetAlarmState | src/status/AlarmStatusItem.cpp:17-47 | ERROR and no change for cause OTHER without a message; no change for the same state once set; severity OK resets cause and message; else dirty |
| StatusItems.StatusItem.ClearAlarmState | src/status/AlarmStatusItem.cpp:49-57 | sets the no-alarm state and cannot fail |
| StatusDatabases.StatusDatabase.GetStatusItem | src/status/StatusDatabase.cpp:128-133 | the item of that name, null for none and for the empty name; a failed lookup only inserts a null |
| StatusDatabases.StatusDatabase.CreateItem | src/status/StatusDatabase.cpp:26-75 | ERROR and no change if a lookup finds the name, else one more item at the end of the list and under its name |
| StatusDatabases.StatusDatabase.SetStatusValue | src/status/StatusDatabase.cpp:95-125 | sets the value of the item found and of no other |
| StatusDatabases.StatusDatabase.SetHealth | src/status/StatusDatabase.cpp:77-93 | sets the health of a health item and of nothing else |
| StatusDatabases.StatusDatabase.SetAlarm | src/status/StatusDatabase.cpp:135-153 | sets the alarm of an alarm item and of nothing else |
| StatusDatabases.StatusDatabase.ClearAlarm | src/status/StatusDatabase.cpp:155-172 | clears the alarm of an alarm item and of nothing else |
| StatusDatabases.DoPost | src/status/senders/AbstractStatusSender.cpp:48-60 | a clean item is not sent; a dirty one is clean afterwards, sent or not |
| StatusDatabases.PostStatus | src/status/senders/AbstractStatusSender.cpp:22-33 | posts the item of that name, if there is one |
| StatusDatabases.PostAll | src/status/senders/AbstractStatusSender.cpp:35-46 | posts the dirty items in list order up to the first exception |
| StatusRuns.Perform | src/status/StatusDatabase.cpp:26-172 | one operation, of all that the database and a sender have, changes database and remote copy as the specification says |
| StatusRuns.PerformAll | src/status/StatusDatabase.cpp:26-172 | so does a run of any length |
| StatusRuns.PostsAll | src/status/senders/AbstractStatusSender.cpp:35-46 | posting everything leaves nothing dirty, changes no content, and brings the remote copy up to date |
| StatusRuns.GoodRun | src/status/StatusDatabase.cpp:26-172 | over every run in which the sends arrive: values have their declared types, alarms are consistent, names are unique, and the remote copy has the content of every clean named item and no other names |
| StatusRuns.RemoteExact | src/status/senders/AbstractStatusSender.cpp:35-60 | after any such run that ends in posting everything, the remote copy is exact for the named items |
| StatusRuns.LostUpdate | src/status/senders/AbstractStatusSender.cpp:52-59 | a send that fails keeps all that exactly if the remote copy already has the content; otherwise the update is lost, because the flag is cleared first; no other item is touched |
| StatusTraces.FollowsPost | src/status/senders/AbstractStatusSender.cpp:48-60 | a post, whether it arrives or throws, keeps the account of events true: a clean item was delivered as it is, or its last post threw |
| StatusTraces.FollowsRun | src/status/senders/AbstractStatusSender.cpp:22-60 | so does every run, with any of the sends failing |
| StatusTraces.KnownAfterPosts | src/status/senders/AbstractStatusSender.cpp:22-60 | after any run, with any of the sends failing, and a full post without an exception: the remote copy has the content of every named item whose last event is not a throw, and of another exactly if what was delivered last for it is the same; and it has nothing else |
| StatusContents.ContentsRun | src/status/StatusDatabase.cpp:26-172 | after any run, with any of the sends failing: one item for each name created, with the kind and type of its first creation, the value and the alarm accepted last, or the initial ones; if no send fails, dirty exactly if something new was given since it was created or posted |
| StatusContents.RemoteContents | src/status/senders/AbstractStatusSender.cpp:22-60 | after a run in which the sends arrive and a full post, the remote copy has exactly these names, values and alarms |
| StatusContents.DeliveredContents | src/status/senders/AbstractStatusSender.cpp:22-60 | after any run and a full post without an exception, it has them for every named item that is not owed |
| StatusRuns.NamesUnique | src/status/StatusDatabase.h:62-65 | all names in the list are different after a run exactly if it creates at most one item with the empty name, which is never found as already created |

## Left out

- Hash: pools and the pool lineage checks of merging, `apr_hash_this` (a client reads the
  fields of the entry), iteration by several iterators at once, and insertion during a walk.
- `HashMerge.Merge`: nothing is said for two hash functions that differ on a key of the
  overlay, which the source merges all the same; the entry of that key would then be in the
  bucket, and carry the hash, of the wrong function.
- `HashMerge.Overlay`: the same.
- `HashCopy.Copy`: the count is kept as entries are added instead of being copied first;
  nothing can observe the difference.
- Brigades: reference counts and destruction of buckets, setting aside of files and pipes
  (which changes no byte), `apr_brigade_length`, `_to_iovec`, `_pflatten`, `_putc`,
  `_putstrs`, and `apr_brigade_puts`, whose fast path measures the room without the start
  offset of the bucket.
- `Buckets.Fetch`: mmap, socket and pool buckets are not among the types.
- `Buckets.ReadFile`: the file can always be read, and is not mapped into memory.
- `Flushes.Sink.Flush`: the callback is code of the caller. It is modelled as one that sends
  buckets from the front, leaves the others in place, and sets all of them aside or none; it
  does not reorder, split or add buckets.
- `BrigadeWrites.Write`: a pointer is an array with an offset; what C leaves undefined, a
  source that overlaps the room it is copied to, reads as a copy of the old bytes.
- `BrigadeWrites.AppendPieces`: lengthens the bucket after each piece instead of once after
  all of them, and a new bucket is linked in before it is filled; the bytes are the same.
- `FnmatchCase.CaseExact`: with PERIOD, a pattern in which a star has to take a byte, because a
  period that it may not take follows, has only the half stated by `FnmatchCase.CaseExchange`.
- `apr_match_glob`, which reads directories.
- `NumberText.Strtoi64`: the code of this repository, not the function of the platform that
  takes its place where there is one.
- `BrigadeLines.ServerLine`: without the NUL that the client puts behind the line.
- `BrigadeReads.SplitLine`: for brigades that are not in order only the number of bytes moved
  is stated, as each turn (`BrigadeReads.LineStep`) says what becomes of the bytes.
- `BrigadeWrites.Writev`: where the brigade has data in the room that is filled, nothing is said
  of the bytes; what becomes of them is that of `BrigadeWrites.Write`, piece by piece.
- `Numbers.Itoa`: not for the most negative `int`, whose negation C does not define.
- `Formatter.Convert`: without the alternate form of hexadecimal.
- Formatter: parsing of the format string itself (directives are given as data), floating
  point, pointers, addresses, `%n`, `%c`, and the alternate form of hexadecimal, which tests
  an unrelated variable.
- Status: timestamps, logging, the JMS and log senders behind `postStatus` (a sender delivers
  or throws), NaN and negative zero, which compare unlike reals.
