# Verified models of libc7xx

Dafny models of the parts of libc7xx whose correctness is not evident from reading one function:
the sorts, the thread channels, the ring log, JSON, the memory pool, multipart messages, base64 and
the double-buffered thread sequence. `dafny verify dfyconfig.toml` checks everything.

## What is modelled

| files | models |
|---|---|
| `Order`, `InsertionSort`, `HeapSort`, `Merge`, `MergeSort`, `Keys`, `ParallelMerge`, `MergeSortMt`, `Partition`, `QuickSort`, `Powers`, `Radix`, `RadixSort` | `src/c7sort.hpp`: the algorithms on arrays, with their explicit stacks, for any strict weak order |
| `Pipe1`, `Fpipe`, `FpipeAbort` | `src/c7threadcom.hpp`: the one-slot channel as a class, and the two circulating buffers as a state machine over the atomic steps of blocking calls, without and with an abort |
| `Numbers`, `Bytes`, `Ring`, `MlogRecord`, `Mlog`, `MlogReader`, `Reserve`, `Interleaving`, `MlogMerge`, `MlogLayout` | `src/c7mlog/`: the ring under 32-bit addresses, the record layout, writer and backward reader as classes, the lock-free reservation as a state machine, bytes stored by several writers at once, the readers of all partitions merged up to what a caller is handed, the layout of the file |
| `JsonLex`, `JsonLexer`, `JsonTokens`, `JsonStrings`, `Doubles`, `JsonNumbers`, `JsonValue`, `JsonLayout`, `JsonRoundTrip`, `JsonRows`, `JsonTuple`, `JsonProxy` | `src/c7json/`: the token grammar and the lexer class that implements it, which texts are read as which token, typed values with the text they are dumped to and the loader's grammar, the layout of a dump, the round trip, which texts load as which row, struct or dict, and the dumping and loading methods |
| `Base64` | `src/c7nseq/base64.hpp`: the encoding and decoding iterators |
| `PoolState`, `Mpool` | `src/c7mpool.hpp`: the pool between critical sections as a state machine, and the linked free list that implements its steps |
| `Transfer`, `Msgbuf` | `src/c7fd.cpp`, `src/c7event/msgbuf_impl.hpp`: the transfer loops over a kernel that takes and gives what it likes, and the messages on top |
| `DoubleBuffer` | `src/c7nseq/thread.hpp`: thread and iterator as a state machine, and the class whose critical sections are its steps |
| `Wrappers` | a value that may be missing |

A method that changes state is proved against a function of the old state; what the source promises is
then proved about that function, or about every run of the state machine.

## Assumptions

- Sorts: `lessthan` is a strict weak order; data and work arrays are different; fewer than 2^63
  elements. The merge sorts need thresholds of at least 2, the quick sorts of at least 1, and the radix
  sorts none; masks and keys are unsigned numbers of at most 64 bits. The masked-key order of the radix
  sorts is one such order.
- Log: rings of 16 bytes to 2^30, little-endian words, bit-fields filled from the low end; records of
  less than 2^32 - 32 bytes. `Ring.GrantedFits` shows why: the sum in the test of `reserve` wraps above
  that, and a record that does not fit would be granted.
- JSON: an unterminated string gives the token `Endless`, where the loop of `expect_string` never
  returns, and a number out of range the token `Thrown`, where `std::stol` or `std::stod` throws; neither
  is loaded as a value. `std::stod` throws where `strtod` sets `ERANGE`; `Doubles` says when glibc does so
  on x86-64, rounding to nearest. Member names are written unescaped, so for the round trip they must be
  free of quotes and backslashes, as names made from C++ identifiers are.
- Messages: `Outgoing.Write` and `Incoming.Read` stand for the kernel, which may take or give any
  number of bytes or fail; part sizes are below 2^31; both ends agree on the endian flag.
- Thread sequence: `reserve(size)` gives the capacity asked for, which is at least 1.

## Where the code does something unexpected

- The parallel merge compares with `lessthan(*p, *q)` in its last step (line 330 of `src/c7sort.hpp`)
  but with `lessthan(*q, *p)` in its loop (line 324). When the elements left for that step are
  equivalent but not equal, one of them is written twice and the other is lost:
  `ParallelMerge.TieIsLost` gives such an input, `ParallelMerge.BothPartsResult` says exactly when.
- `msort_merge` takes the right one of two equivalent heads first, so the merge sort is not stable:
  `Merge.OrderIsLost` gives such an input, `Merge.OrderIsKept` says exactly when order is kept.
- The lexer ends a number in front of a capital `E` (line 311 of `src/c7json/lexer.cpp`), which section 6 of
  RFC 8259 allows as the start of an exponent, and numbers out of range end in an exception:
  `JsonNumbers.NumberIsRead` says exactly which numbers are read, `JsonNumbers.CapitalExponentIsNotRead`
  gives an input that is not.
- The tuple loader accepts `[]` for any tuple, and one arbitrary token for the tuple without elements:
  `JsonTuple.TupleLoads` says exactly what loads and `JsonTuple.WholeTupleLoads` when it is what it should
  be; `JsonTuple.EmptyTextLoads` and `JsonTuple.OneElementLoadsAsNone` give the inputs.
- `fpipe::abort` ends its two channels one after the other. If `close` goes through in between, its reset
  of `get2put_` takes the first half back, and a consumer can be left waiting for ever:
  `FpipeAbort.GetWaitsForEver` gives such a run, `FpipeAbort.AbortEndsTheWaits` says exactly when.
- A member name with a quote or a backslash is dumped as it is and not read back:
  `JsonRoundTrip.NameLexed`.
- The size test of `reserve` wraps for sizes from 2^32 - 32 on and then grants what does not fit:
  `Ring.GrantedFits`.

## Model

| member | source | states |
|---|---|---|
| `InsertionSort.Dsort` | src/c7sort.hpp:56-73 | sorts left..right in place: the range becomes sorted, is a permutation of what it was, and nothing outside it moves; an empty range is left alone |
| `InsertionSort.InsertAt` | src/c7sort.hpp:61-71 | one insertion: the sorted run grows by one element and stays a permutation, the leftward scan never leaves the range |
| `HeapSort.HeapUp` | src/c7sort.hpp:103-118 | sifting up extends a heap by one element and permutes it |
| `HeapSort.HeapDown` | src/c7sort.hpp:120-140 | sifting down restores a heap that is broken only below p and permutes it; both children are compared inside the heap only |
| `HeapSort.RootIsGreatest` | src/c7sort.hpp:142-156 | in every heap no element is greater than the root |
| `HeapSort.Hsort` | src/c7sort.hpp:142-156 | sorted permutation for every n, also 0 and 1 |
| `HeapSort.MoveRootOut` | src/c7sort.hpp:151-155 | each turn of the second loop keeps a heap in front and above it a sorted tail of no smaller elements |
| `Merge.MergeHalves` | src/c7sort.hpp:171-193 | from two sorted halves the sorted permutation of both, for n = 1 with its empty left half too, without writing outside: the stable merge for which the right half is the left one |
| `Merge.MergeSorted` | src/c7sort.hpp:171-193 | the merge of sorted halves is sorted |
| `Merge.MergePermutes` | src/c7sort.hpp:171-193 | and is a permutation of both |
| `Merge.OrderIsKept` | src/c7sort.hpp:178-189 | merging sorted halves that share no element, equivalent elements stay in order if and only if no element of the left half is equivalent to one of the right |
| `Merge.OrderIsLost` | src/c7sort.hpp:178-189 | two equivalent elements that the merge puts the other way round |
| `Merge.MergeOne` | src/c7sort.hpp:175-189 | one step of the merge writes the head it should and goes on merging the same two runs; what is written and what is left always make up the merge |
| `MergeSort.MsortStMain` | src/c7sort.hpp:195-260 | for every n below 2^63, either starting parity and any strict weak order: the output is the sorted permutation of the array the parity names, nothing outside the segment changes in either array, and abort is never reached |
| `MergeSort.RunOperations` | src/c7sort.hpp:210-259 | the loop over the stack of 128 entries terminates and delivers the whole segment |
| `MergeSort.PushIsReady` | src/c7sort.hpp:225-245 | the stack has room for two more operations, and after the push every waiting operation still finds its halves in the array its parity says |
| `MergeSort.PopIsReady` | src/c7sort.hpp:216-223 | once the running operation has delivered, the one on top of the stack has what it needs |
| `MergeSort.WaitingUndisturbed` | src/c7sort.hpp:195-260 | work on one segment disturbs no operation that waits for it, however deep the stack |
| `ParallelMerge.MergeFromTheEnd` | src/c7sort.hpp:315-335 | taking the greater last element from the back gives the same merge as taking the smaller first element from the front |
| `ParallelMerge.MergeAsc` | src/c7sort.hpp:298-313 | the ascending thread writes exactly the first h elements of the merge, to the first h places only |
| `ParallelMerge.MergeDsc` | src/c7sort.hpp:315-335 | the descending thread writes only places h to n - 1, the last elements of the merge but for its last step |
| `ParallelMerge.BothPartsResult` | src/c7sort.hpp:298-335 | both parts together are sorted, hold the same keys and only elements of the halves; they are a permutation of the halves if and only if the tie test of line 330 does not write an element twice |
| `ParallelMerge.TieIsLost` | src/c7sort.hpp:330-334 | two equivalent elements of which the parallel merge loses one |
| `MergeSortMt.MsortMtMain` | src/c7sort.hpp:337-377 | the same result for every thread depth, exact without the parallel merge; with it sorted, with the same keys and only elements of the input |
| `MergeSortMt.MsortMt` | src/c7sort.hpp:379-426 | sorted, same keys, only elements of the input, nothing else touched; a permutation whenever the merge is not the parallel one or equivalent elements of the input are equal |
| `MergeSortMt.MergeBothWays` | src/c7sort.hpp:369-373 | the two merging threads write disjoint parts that make up the whole |
| `Keys.PermutationHasSameKeys` | src/c7sort.hpp:298-335 | conservation of keys is implied by being a permutation |
| `Keys.SameKeysArePermutation` | src/c7sort.hpp:298-335 | and implies it for elements drawn from an input in which equivalent elements are equal |
| `Partition.ScanUp` | src/c7sort.hpp:475-476 | the unguarded upward scan stops at or before any element that is not below the pivot |
| `Partition.ScanDown` | src/c7sort.hpp:477-478 | the unguarded downward scan stops at or after any element that is not above the pivot |
| `Partition.PivotIsMedian` | src/c7sort.hpp:450-468 | the pivot is the median of the three elements looked at |
| `Partition.PartitionCopy` | src/c7sort.hpp:446-487 | left < p <= right; the range is permuted, nothing before p is greater than anything from p on, and all accesses stay in the range |
| `Partition.PartitionMove` | src/c7sort.hpp:489-552 | the same for the version that keeps the pivot in the array |
| `Partition.FirstSwapWithPivot` | src/c7sort.hpp:521-538 | after the first swap, which may move the pivot, sp still points at the pivot value |
| `QuickSort.QsortStMain` | src/c7sort.hpp:554-596 | sorted permutation for every n, either partition and threshold at least 1, including runs in which the 128-entry stack fills up |
| `QuickSort.HeapSortBoth` | src/c7sort.hpp:583-587 | when the stack is full both parts are heap-sorted, which sorts the range |
| `QuickSort.PushRuns` | src/c7sort.hpp:590-593 | the pending ranges, the running range and the finished rest tile the whole range and are ordered among each other |
| `QuickSort.QsortMtMain` | src/c7sort.hpp:650-691 | the same result with a thread for the left part |
| `Radix.HighestBitDecides` | src/c7sort.hpp:769-772 | of two masked keys that agree on the higher masked bits the one with the bit set is the greater |
| `Radix.AgreeOnAll` | src/c7sort.hpp:805-812 | keys that agree on all masked bits are equal under the mask |
| `Radix.AndIsBitwise` | src/c7sort.hpp:787-802 | the model of & has exactly the bits both words have |
| `Radix.BitIs` | src/c7sort.hpp:787-802 | and bit b is the remainder by 2 of the quotient by 2^b |
| `RadixSort.PartitionByBit` | src/c7sort.hpp:787-802 | permutes the range so that the bit is clear up to q = p - 1 and set from p on |
| `RadixSort.NextBit` | src/c7sort.hpp:805 | the loop finds the next lower bit of the mask, or none |
| `RadixSort.SortRanges` | src/c7sort.hpp:774-822 | the 64-entry stack never overflows, the loop terminates and the range is sorted |
| `RadixSort.RsortStMain` | src/c7sort.hpp:752-823 | sorted by key & keymask and a permutation, for any mask and threshold, of a range that agrees on the bits above tstmask |
| `RadixSort.RsortSt` | src/c7sort.hpp:825-831 | the same for any range, starting at the highest bit of the mask type |
| `RadixSort.RsortMtMain` | src/c7sort.hpp:849-907 | the same result with a thread for the left part |
| `Pipe1.Pipe.Put` | src/c7threadcom.hpp:84-105 | a put changes the channel as the five-state table says; where the table says WAITING nothing has changed |
| `Pipe1.Pipe.Get` | src/c7threadcom.hpp:107-126 | a get gives the element in the channel exactly when it succeeds |
| `Pipe1.Pipe.Close` | src/c7threadcom.hpp:141-150 | an element put before close stays to be got |
| `Pipe1.Pipe.Abort` | src/c7threadcom.hpp:152-160 | every state becomes ABORTED |
| `Pipe1.Pipe.Reset` | src/c7threadcom.hpp:162-172 | every state becomes EMPTY with both counts zero |
| `Pipe1.OneElementFifo` | src/c7threadcom.hpp:84-172 | over any sequence of calls the elements got, then the one held, are the elements put, in order, but for those dropped by abort and reset; the counters count them |
| `Pipe1.ClosedForGood` | src/c7threadcom.hpp:107-150 | once closed a channel stays closed under puts, gets and closes |
| `Pipe1.CallsTell` | src/c7threadcom.hpp:84-172 | after any sequence of calls put and get say ABORT after an abort no reset has followed, put says CLOSED after such a close, waits while an element is held and succeeds otherwise; get gives the element held even after close, and says CLOSED or waits when there is none |
| `Fpipe.InitialInv` | src/c7threadcom.hpp:278-296 | reset establishes the invariant |
| `Fpipe.EveryStepIsFifo` | src/c7threadcom.hpp:253-360 | every atomic step of put, flush, get and close keeps the invariant and is a step of one queue: it adds the element put, removes the element got, or leaves the queue alone |
| `Fpipe.InvOverRuns` | src/c7threadcom.hpp:179-360 | the invariant holds in every reachable state of every interleaving |
| `Fpipe.FifoOverRuns` | src/c7threadcom.hpp:298-351 | what get has returned is always a prefix of what put has accepted, all of it once get has said CLOSED; until close each of the two buffers has exactly one owner |
| `Fpipe.SentIsWhatWasPut` | src/c7threadcom.hpp:298-320 | in every run what put has accepted is what the puts that have come back were called with, in order |
| `Fpipe.ClosesWhenTold` | src/c7threadcom.hpp:353-360 | in every run the channel is closed, for good, if and only if close has been called, no get says CLOSED before, and whoever is in no call can begin any |
| `Fpipe.NeverBothStuck` | src/c7threadcom.hpp:253-360 | with both sides in a blocking call, one of them can go on |
| `Fpipe.NoWaitAfterClose` | src/c7threadcom.hpp:332-360 | after close no get waits, and get2put_.put cannot block |
| `Fpipe.WaitsForElements` | src/c7threadcom.hpp:332-351 | a get waits only if nothing is left to read in get_ or on its way: what it has returned, and what lies in put_, is everything put |
| `Fpipe.FlushHandsOver` | src/c7threadcom.hpp:322-330 | in every run put_ holds nothing when a flush comes back, and while nothing is put behind it a get that waits has returned every element ever put |
| `Fpipe.WaitsForOneBuffer` | src/c7threadcom.hpp:298-351 | in every run a get that waits has returned all elements put but at most n_elm_ |
| `Fpipe.DrainsAfterClose` | src/c7threadcom.hpp:332-360 | after close the consumer alone reaches CLOSED, having received every element put before |
| `Fpipe.ClosedAgain` | src/c7threadcom.hpp:332-351 | and every later get says CLOSED too |
| `FpipeAbort.AbortEndsTheWaits` | src/c7threadcom.hpp:226-229 | in every run, once abort has come back no put, flush or close waits, and a get waits if and only if, when abort came back, close had reset get2put_ with one buffer in it and the consumer had the other, and that one is read to its end |
| `FpipeAbort.GetWaitsForEver` | src/c7threadcom.hpp:353-360 | a run in which close goes through between the two halves of abort, after which get waits in all that can follow |
| `FpipeAbort.InvOverRuns` | src/c7threadcom.hpp:226-229 | in every run what abort has ended stays so, but for get2put_ when close resets it |
| `Ring.Buffer.Put` | src/c7mlog/reader.cpp:78-98 | the copy loop with its wrap leaves the ring as if the bytes had been written one by one; the address returned is the sum |
| `Ring.Buffer.Get` | src/c7mlog/reader.cpp:60-76 | the copy loop returns the bytes at the address modulo the size of the ring |
| `Ring.Buffer.Reserve` | src/c7mlog/reader.cpp:43-58 | grants the address and moves nextaddr on, or leaves it and returns _TOO_LARGE |
| `Ring.Buffer.Clear` | src/c7mlog/reader.cpp:35-41 | a zero word becomes the end of the log and nextaddr 4 |
| `Ring.GrantedFits` | src/c7mlog/reader.cpp:45-48 | a granted size fits in the ring for exactly those sizes for which size + 32 does not wrap |
| `Ring.WriteExtendsTheLog` | src/c7mlog/reader.cpp:78-98 | if the ring is the last lap of the log, it still is after writing at its end |
| `Ring.ReadIsFromTheLog` | src/c7mlog/reader.cpp:60-76 | reading inside the last lap gives the bytes of the log, across the wrap point too |
| `MlogRecord.HeaderRoundTrip` | src/c7mlog/private.hpp:91-106 | a header with its bit-fields is read back as written, whatever the unset bits hold |
| `MlogRecord.HeaderInPlace` | src/c7mlog/private.hpp:91-106 | every field of a header in its place: the numbers at their offsets, the bit-fields at their bits of the word at 24 |
| `MlogRecord.RecordInPlace` | src/c7mlog/writer.cpp:383-396 | behind the 48 bytes of the header lie the log data, the thread name and the source name, each with a zero behind it unless it is empty, and the size of it all |
| `MlogRecord.UnpackWhatIsPacked` | src/c7mlog/private.hpp:96-102 | bit-fields of any widths come back from the word they are packed in |
| `MlogRecord.RecordEnds` | src/c7mlog/writer.cpp:383-396 | the last word of a record is its size, its first 48 bytes its header |
| `MlogRecord.InfoRoundTrip` | src/c7mlog/reader.cpp:105-136 | names, log data and all fields are found again by taking sizes off the end |
| `Mlog.Writer.Put` | src/c7mlog/writer.cpp:327-399 | adds exactly the record of its arguments, names cut to their last 63 bytes, to the records in the ring, or refuses it and changes nothing, exactly when it does not fit |
| `Mlog.ToldWhatWasPut` | src/c7mlog/writer.cpp:293-369 | what a reader is told of a record is what put was given, but that names are cut to their last 63 bytes, category to 5 bits and line to 14; the control bits are clear and br_order is the complement of order |
| `Mlog.Shortened` | src/c7mlog/writer.cpp:347-364 | a long name loses its front, never its end |
| `Mlog.Writer.PutRecord` | src/c7mlog/writer.cpp:383-396 | header, log data, names and size land one behind the other |
| `Mlog.Writer.Clear` | src/c7mlog/reader.cpp:35-41 | no record is left in the ring of one partition, and its writer counts from zero |
| `Mlog.ClearAll` | src/c7mlog/writer.cpp:404-411 | every ring of rbuf_, of which several levels may share one, is left without records, and the count is zero |
| `Mlog.RecordAppended` | src/c7mlog/writer.cpp:371-396 | the log grows by the bytes of one record, nextaddr by its size modulo the ring |
| `MlogReader.NewestComeBack` | src/c7mlog/reader.cpp:139-191 | for every sequence of records and every j: the newest records that together fit in the ring stand at the addresses the reader steps back to and are read back with header, log data and names |
| `MlogReader.HitIsNewestAccepted` | src/c7mlog/reader.cpp:149-191 | get finds record i if and only if i is accepted and in the window and it and all newer ones are still in the ring, in the window, and not accepted but for i |
| `MlogReader.NewestComeFirst` | src/c7mlog/reader.cpp:149-191 | for every k such that the newest k records fit in the ring, the walk that starts behind the j newest, j < k, finds exactly the next one |
| `MlogReader.GetNewest` | src/c7mlog/reader.cpp:149-191 | so k gets give exactly the k newest records, newest first, and leave the reader behind them |
| `MlogReader.GetAll` | src/c7mlog/reader.cpp:149-191 | with the zero word still in the ring all records are given, and the next get gives none |
| `MlogReader.SteadyGoesOn` | src/c7mlog/reader.cpp:159-167 | a walk that ends well for every choice does so from every record given on |
| `MlogReader.YieldDescribes` | src/c7mlog/reader.cpp:181-188 | every descriptor that successive gets give stands for a record put, which is in the ring at the address told |
| `MlogReader.GivenAreWanted` | src/c7mlog/reader.cpp:149-191 | every record given is chosen, and no record from it on is overwritten, older than the log or than time_us_min, or below order_min |
| `MlogReader.WantedAreGiven` | src/c7mlog/reader.cpp:149-191 | and every such record is given, with its address |
| `MlogReader.AllThenEnd` | src/c7mlog/reader.cpp:160-167 | while the zero word is not overwritten, get ends after the oldest record if it finds none |
| `MlogReader.OneBack` | src/c7mlog/reader.cpp:162-169 | one step back reads the right size and lands on a record, and no address underflows |
| `MlogReader.RecordIsRead` | src/c7mlog/reader.cpp:169-179 | reading a record in two pieces gives its header and its body |
| `MlogReader.Reader.Get` | src/c7mlog/reader.cpp:149-191 | does what the walk over the records says and returns their descriptor, with 32-bit addresses that never overflow |
| `MlogReader.Access` | src/c7mlog/reader12.cpp:120-133 | from the address of a record come its fields, names and log data |
| `Reserve.InvOverRuns` | src/c7mlog/reader.cpp:43-58 | for any number of threads and every interleaving of reads and swaps: grants are consecutive on an unbounded line and nextaddr is the logical end modulo the size |
| `Reserve.SwapDoneInv` | src/c7mlog/reader.cpp:52-57 | a swap that succeeds grants the interval at the logical end even if nextaddr went round the ring since it was read |
| `Reserve.GrantsAreDisjoint` | src/c7mlog/reader.cpp:43-58 | no two grants of a run overlap on the line, nor in the ring within one lap |
| `Reserve.SomeoneAdvances` | src/c7mlog/reader.cpp:56 | a swap fails only if some thread was granted space since the read |
| `Reserve.ThreadsGoOn` | src/c7mlog/reader.cpp:43-58 | in every run each thread can take its next step: a size that fits can be asked for, and a swap that nobody came before grants the space where the last grant ended |
| `Reserve.SinceIsFixedAtTheRead` | src/c7mlog/reader.cpp:53-56 | what a thread has read is changed by no step of another |
| `Interleaving.PutsAtTheSameTime` | src/c7mlog/writer.cpp:371-396 | in every run of reserve: whatever order the bytes of all records granted within one lap are stored in, the ring ends up as if the records had been put one after the other in the order of their grants |
| `Interleaving.OrderDoesNotMatter` | src/c7mlog/writer.cpp:383-396 | stores that never disagree about a place can be done in any order |
| `Interleaving.PutsAreTheirStores` | src/c7mlog/reader.cpp:78-98 | the puts one after the other are the stores of all their bytes |
| `MlogMerge.Prescan` | src/c7mlog/reader12.cpp:137-168 | from readers set up on the rings of all partitions: takes min(maxcount, all) records, a prefix of what each partition yields in its own order; if every partition is non-increasing in (time_us, order) the result is non-increasing and nothing left behind is newer than anything taken |
| `MlogMerge.Fetch` | src/c7mlog/reader.cpp:149-191 | a get gives the next of what the partition yields, or nothing at its end |
| `MlogMerge.TakenIsThere` | src/c7mlog/reader12.cpp:120-133 | every record taken is one that its partition yields, and is still in its ring at its address |
| `MlogMerge.TakeTop` | src/c7mlog/reader12.cpp:156-167 | one turn of the loop keeps all of this, whichever greatest element the queue gives |
| `MlogMerge.StillTheOldest` | src/c7mlog/reader12.cpp:156-167 | nothing queued or left behind is newer than what has been taken |
| `MlogMerge.Scan` | src/c7mlog/reader12.cpp:105-134 | hands over fields, names and log data of the records put until one is refused: as many as the least of hdr->cnt, the records there are and, unless it is 0, maxcount; each of them chosen and not older or of lower order than asked for, in ascending order of time_us and then order, none left behind newer, if every partition was written in that order |
| `MlogMerge.SumAtMostTotal` | src/c7mlog/reader12.cpp:156-161 | all records are taken exactly when as many are taken as there are |
| `MlogLayout.SetupContext` | src/c7mlog/writer.cpp:263-274 | each partition with a size gets a ring behind the previous one, and each level goes to the nearest partition at or below it that has one |
| `MlogLayout.Load` | src/c7mlog/reader12.cpp:67-102 | the three refusals, in order, or the rings of all partitions that have one |
| `MlogLayout.RegionsApart` | src/c7mlog/writer.cpp:265-272 | the rings are disjoint and inside the file |
| `MlogLayout.ReaderFindsRing` | src/c7mlog/reader12.cpp:93-99 | the ring written for a partition is the one the reader has at its rank, and there are no others |
| `JsonLexer.Lexer.Get` | src/c7json/lexer.cpp:182-227 | on every input the token and the position after it are those of the token grammar, or the exception for a number out of range |
| `JsonLexer.Lexer.GetChar` | src/c7json/lexer.cpp:135-149 | consumes one character, or reports the end and consumes nothing |
| `JsonLexer.Lexer.UngetChar` | src/c7json/lexer.cpp:152-161 | gives back the last character |
| `JsonLexer.Lexer.Skip` | src/c7json/lexer.cpp:164-179 | stops behind the first character that is no space |
| `JsonLexer.Lexer.ExpectKeyword` | src/c7json/lexer.cpp:230-239 | consumes the word, or up to the first character that differs |
| `JsonLexer.Lexer.ExpectString` | src/c7json/lexer.cpp:242-286 | decodes every escape or stops at the first bad one |
| `JsonLexer.Lexer.ExpectNumber` | src/c7json/lexer.cpp:289-334 | reads an integer or a real and gives back the delimiter, or ends in the exception of std::stol or std::stod |
| `JsonTokens.WhiteIsSkipped` | src/c7json/lexer.cpp:164-179 | any row of the four white space characters of section 2 of RFC 8259 is skipped, and at the end of the text there is no token |
| `JsonTokens.OthersAreBad` | src/c7json/lexer.cpp:182-227 | no other character is skipped, and one that starts no token is a bad token of its own |
| `JsonTokens.WordsAreRead` | src/c7json/lexer.cpp:230-239 | true, false and null are read whole or are bad tokens |
| `JsonTokens.MarksAreRead` | src/c7json/lexer.cpp:195-207 | the six marks of section 2 of RFC 8259 stand for themselves |
| `JsonStrings.StringIsRead` | src/c7json/lexer.cpp:242-286 | for every text: a string is read with this value and this rest if and only if between the quotation marks stand plain characters, escapes of one letter and escapes of four hexadecimal digits, upper or lower case, that stand for it |
| `JsonStrings.CodePointIsRead` | src/c7json/lexer.cpp:260-274 | every code point of 16 bits, however its four digits are spelled, adds its UTF-8 form, and what is behind it is left |
| `JsonNumbers.NumberIsRead` | src/c7json/lexer.cpp:289-334 | every number of section 6 of RFC 8259 is read whole, as the token of its value with what is behind it left, if and only if an exponent has a small e and the value is in the range of its type; a small e out of range throws, and a capital E ends the number |
| `JsonNumbers.OnlyNumbersAreRead` | src/c7json/lexer.cpp:289-334 | and nothing else is: what is read as an integer or a real is the text of a number of RFC 8259 with this value, and what is behind it is left |
| `JsonNumbers.RangeIsDecided` | src/c7json/lexer.cpp:327-332 | reals of up to 18 digits with a modest exponent are read; with a great one std::stod throws for all but zero |
| `JsonNumbers.RealRange` | src/c7json/lexer.cpp:328 | whether std::stod throws is decided by the digits and the exponent as numbers |
| `Doubles.ModestIsInRange` | src/c7json/lexer.cpp:328 | up to 18 digits times a power of ten from -240 to 240 is in the range of a double |
| `Doubles.HugeOverflows` | src/c7json/lexer.cpp:328 | any other number than zero times 10^342 or more is not |
| `JsonNumbers.CapitalExponentIsNotRead` | src/c7json/lexer.cpp:311 | the smallest number with a capital E, of which only the digit in front is read |
| `JsonNumbers.CapitalIsNoToken` | src/c7json/lexer.cpp:222-226 | and what is left behind it is no token |
| `JsonNumbers.EscapedCodePoint` | src/c7string/utf8.cpp:18-28 | an escaped code point becomes its UTF-8 form |
| `JsonRoundTrip.IntLexed` | src/c7json/lexer.cpp:289-334 | every int64 is read back from its text, and the character behind it is left unread |
| `JsonRoundTrip.StringLexed` | src/c7json/proxy.cpp:24-46 | every string is read back from its quoted text |
| `JsonRoundTrip.CharUnescaped` | src/c7json/proxy.cpp:27-44 | every character is read back from its escape, as section 7 of RFC 8259 has them |
| `JsonRoundTrip.NoControlsLeft` | src/c7json/proxy.cpp:38-39 | no control character stays unescaped in a string (section 7 of RFC 8259) |
| `JsonRoundTrip.NameLexed` | src/c7json/proxy.cpp:646 | a member name, which is written as it is, is read back if and only if it is free of quotes and backslashes |
| `JsonRoundTrip.KeyComes` | src/c7json/proxy.hpp:676-739 | a dict key of any type comes back, lexed again from inside its string if it is no string itself |
| `JsonRoundTrip.PairComes` | src/c7json/proxy.cpp:287-316 | a dumped pair is loaded again |
| `JsonRoundTrip.TupleTextComes` | src/c7json/proxy.cpp:323-352 | a dumped tuple is loaded again, the empty one too |
| `JsonRoundTrip.ArrayTextComes` | src/c7json/proxy.cpp:359-397 | a dumped array is loaded again |
| `JsonTuple.TupleLoads` | src/c7json/proxy.cpp:323-340 | for every tuple type a text loads as it, with these items and this rest, if and only if behind the bracket stand all its elements, or only the closing bracket, or, for the tuple without elements, one token of any kind and the closing bracket |
| `JsonTuple.WholeTupleLoads` | src/c7json/proxy.cpp:323-340 | what loads is an array of as many elements as the tuple has if and only if the closing bracket comes at once for the tuple without elements only |
| `JsonTuple.EmptyTextLoads` | src/c7json/proxy.cpp:328-330 | [] loads as every tuple, with its defaults |
| `JsonTuple.OneElementLoadsAsNone` | src/c7json/proxy.hpp:412-417 | [1] loads as the tuple without elements |
| `JsonRoundTrip.StructTextComes` | src/c7json/proxy.cpp:591-659 | a dumped struct is loaded again, member by member |
| `JsonRoundTrip.DictTextComes` | src/c7json/proxy.cpp:404-452 | a dumped dict is loaded again with the same entries, in whatever order its table is walked |
| `JsonRoundTrip.RoundTrip` | src/c7json/proxy.cpp:287-452 | all of these together for values nested to any depth, under every indentation |
| `JsonRoundTrip.JsonRoundTrip` | src/c7json.hpp:72-110 | load(dump(v, indent)) is v for every value of every type, every indent and any text behind that does not continue a number |
| `JsonLayout.RowLayout` | src/c7json/proxy.cpp:55-91 | at depth d every item of a pair, tuple, array or struct stands behind a line feed and (d + 1) * indent blanks, and the closing bracket behind one and d * indent; without indent behind nothing |
| `JsonLayout.DictLayout` | src/c7json/proxy.cpp:55-91 | so do the entries of a dict |
| `JsonLayout.StringIsWritten` | src/c7json/proxy.cpp:24-46 | a string is written character by character, as the escape of one letter if it has one, as four lower-case digits if it is another control character, else as it is |
| `JsonLayout.IntIsWritten` | src/c7json/proxy.cpp:110-115 | an integer is written in decimal digits without a leading zero, with a minus sign if and only if it is negative |
| `JsonRows.SingleLoads` | src/c7json/proxy.cpp:99-182 | for every text: an integer, bool or string loads if and only if the token is one of it, with its value |
| `JsonRows.BinLoads` | src/c7json/proxy.cpp:249-260 | base64 text of any length loads as the bytes of its groups, letters that a last group lacks being zeros |
| `JsonRows.PairLoads` | src/c7json/proxy.cpp:287-305 | for every text: a pair loads if and only if its two elements stand between brackets with a comma between them |
| `JsonRows.LoadsAnew` | src/c7json.hpp:72-85 | json_load loads into a cleared proxy, and nothing from a text without a token |
| `JsonRows.ArrayLoads` | src/c7json/proxy.cpp:359-380 | for every text: an array loads with these elements and this rest if and only if they stand between brackets, separated by commas; they are added to what is held |
| `JsonRows.StructLoads` | src/c7json/proxy.cpp:591-633 | for every text: a struct loads if and only if known members of it stand between braces, or nothing |
| `JsonRows.MembersGive` | src/c7json/proxy.cpp:591-633 | a member left out keeps its value, and one named several times has the last |
| `JsonRows.LeftOutIsCleared` | src/c7json/proxy.cpp:591-633 | a struct loaded anew has zero, false or nothing in every member left out |
| `JsonRows.EmptyIsCleared` | src/c7json/proxy.cpp:591-633 | and in all of them if the text has none |
| `JsonRows.DictLoads` | src/c7json/proxy.cpp:404-433 | for every text: a dict loads if and only if entries stand between braces, or nothing |
| `JsonRows.LastIsAssigned` | src/c7json/proxy.hpp:705 | of the entries with one key the last is in the dict, and what was held stays unless its key is assigned again |
| `JsonProxy.DumpHelper.Begin` | src/c7json/proxy.cpp:55-68 | one level deeper: head_ and next_ are the line beginnings of the new depth |
| `JsonProxy.DumpHelper.Prefix` | src/c7json/proxy.cpp:71-77 | head_ before the first item, next_ before all others |
| `JsonProxy.DumpHelper.End` | src/c7json/proxy.cpp:80-91 | one level back, the closing bracket on a line of its own if there is indentation |
| `JsonProxy.JsonizeString` | src/c7json/proxy.cpp:24-46 | writes the quoted text |
| `JsonProxy.Dump` | src/c7json/proxy.cpp:287-452 | the text is appended, and the helper is left at the depth and prefix it had |
| `JsonProxy.DumpKey` | src/c7json/proxy.hpp:719-736 | a key that is no string is dumped without indentation and quoted |
| `JsonProxy.LoadValue` | src/c7json/proxy.cpp:287-452 | on every input, well-formed or not, but for base64 text outside ASCII: the value and the position after it, or the failure, of the grammar |
| `JsonProxy.GetPair` | src/c7json/proxy.hpp:289-302 | likewise for pairs |
| `JsonProxy.GetElements` | src/c7json/proxy.hpp:412-429 | likewise for tuples, with the token read behind the last element |
| `JsonProxy.GetArray` | src/c7json/proxy.cpp:359-380 | likewise for arrays |
| `JsonProxy.GetStruct` | src/c7json/proxy.cpp:591-633 | likewise for strict structs: an unknown member is refused |
| `JsonProxy.GetDict` | src/c7json/proxy.cpp:404-433 | likewise for dicts, a repeated key being assigned again |
| `JsonProxy.GetKey` | src/c7json/proxy.hpp:676-700 | likewise for keys, strings or lexed from a string |
| `JsonProxy.DumpJson` | src/c7json.hpp:103-110 | dumps the text the round trip is about |
| `JsonProxy.LoadJson` | src/c7json.hpp:72-85 | loads what the round trip is about; an empty input is refused |
| `Base64.DecodeOfEncode` | src/c7nseq/base64.hpp:90-124 | decoding undoes encoding, for every byte sequence |
| `Base64.EncodeIsRfc4648` | src/c7nseq/base64.hpp:111-121 | every letter, and every padding character, is the one of section 4 of RFC 4648 |
| `Base64.GroupRoundTrip` | src/c7nseq/base64.hpp:217-258 | a group comes back as the 1, 2 or 3 bytes it was made of |
| `Base64.EncodedLength` | src/c7nseq/base64.hpp:90-124 | four letters for every three bytes or part of three |
| `Base64.DecodeIsRfc4648` | src/c7nseq/base64.hpp:217-258 | any four letters, wherever they stand, give the bytes of their 24 bits, fewer by what the padding says |
| `Base64.TablesAreRfc4648` | src/c7nseq/base64.hpp:193-210 | both tables are those of Table 1 of RFC 4648, and a letter outside it counts as zero |
| `Base64.Encoder.DoEncode` | src/c7nseq/base64.hpp:90-124 | takes up to three bytes and has their four letters to give |
| `Base64.Encoder.Increment` | src/c7nseq/base64.hpp:152-158 | the iterator moves on by one letter |
| `Base64.Decoder.DoDecode` | src/c7nseq/base64.hpp:217-258 | the bytes of a group lie at the end of ubuf_, from idx_ on, as many as the padding says |
| `Base64.Decoder.Increment` | src/c7nseq/base64.hpp:286-292 | the iterator moves on by one byte |
| `Base64.CollectEncoded` | src/c7json/proxy.cpp:265-267 | what push_back collects is the encoded text |
| `Base64.CollectDecoded` | src/c7json/proxy.cpp:253-254 | what push_back collects are the decoded bytes |
| `PoolState.InvOverRuns` | src/c7mpool.hpp:151-221 | in every reachable state free and lent items are disjoint and make up all chunk items, lending_ is the number of lent items and waiting getters |
| `PoolState.GetInv` | src/c7mpool.hpp:169-187 | a get, with or without a new chunk or a wait, keeps the invariant |
| `PoolState.ResumeInv` | src/c7mpool.hpp:176-179 | so does a getter that comes back from its wait |
| `PoolState.BackInv` | src/c7mpool.hpp:189-199 | so does an item that comes back |
| `PoolState.DetachInv` | src/c7mpool.hpp:206-213 | so does the end of the mpool object |
| `PoolState.LendsWithinLimit` | src/c7mpool.hpp:366-377 | a waitable pool never lends more than chunk_size * chunk_limit items |
| `PoolState.DeletedOnceWhenUnused` | src/c7mpool.hpp:189-213 | the strategy deletes itself exactly once, in the step after which neither mpool, pointer nor getter refers to it, with all its items free; no step follows |
| `PoolState.NobodySleepsOnAFreeItem` | src/c7mpool.hpp:176-194 | no wake-up is lost: while an item is free every waiting getter has been notified and can take it |
| `PoolState.WaitsOnlyWhenAllIsLent` | src/c7mpool.hpp:169-187 | in every run nobody waits in a pool that is not waitable, and in a waitable one only while all chunk_size * chunk_limit items are lent |
| `PoolState.GrowsOnlyWhenAllIsLent` | src/c7mpool.hpp:169-187 | in every run a chunk is added only when all items there are are lent, and one of its items is lent at once |
| `PoolState.LastBackIsLentFirst` | src/c7mpool.hpp:189-199 | the item that came back last is the first to be lent again |
| `Mpool.Strategy.Get` | src/c7mpool.hpp:169-187 | on the linked list: the item at the front, linked to its pool, or a new chunk, or a wait; the list stays null-terminated with the free items in order; it waits if and only if no item is free, the pool is waitable and chunk_limit chunks are there |
| `Mpool.Strategy.Resume` | src/c7mpool.hpp:176-186 | the same for a getter that was notified |
| `Mpool.Strategy.Back` | src/c7mpool.hpp:189-199 | the item is linked in at the front, and the pool deletes itself when it should |
| `Mpool.Strategy.Detached` | src/c7mpool.hpp:206-213 | likewise |
| `Mpool.Strategy.Alloc` | src/c7mpool.hpp:366-377 | a linked chunk of new items, or null if and only if the pool is waitable and the limit is reached |
| `Mpool.Strategy.MakeChunk` | src/c7mpool.hpp:370-375 | the items of a chunk are linked in order, the last to null |
| `Transfer.ReadN` | src/c7fd.cpp:280-315 | however the kernel splits the data, the bytes read lie in the buffer in order and the others are untouched; BUSY and ERR if and only if a call failed, told apart by why; else OK with all bytes, or INCOMP or CLOSED where the stream ends after something or nothing |
| `Transfer.WriteN` | src/c7fd.cpp:317-340 | however the kernel splits the data, the bytes written are a prefix of the buffer, all of it and OK if and only if no call failed; BUSY and ERR tell why one did |
| `Transfer.WriteV` | src/c7fd.cpp:342-383 | bytes written followed by bytes left in the vector are the original bytes, also on BUSY and ERR, which tell why a call failed; without a failed call OK and all are written |
| `Transfer.Advance` | src/c7fd.cpp:368-380 | takes exactly z bytes off the vector |
| `Msgbuf.Send` | src/c7event/msgbuf_impl.hpp:155-189 | sends a prefix of header, sizes and parts, all of it and OK if and only if no call failed |
| `Msgbuf.Message.Recv` | src/c7event/msgbuf_impl.hpp:123-153 | on OK the header and the parts in the storage, each below 2^31 bytes, are exactly one message at the front of the stream, and nothing more is read; OK whenever a whole message is there, no call fails and there is storage |
| `Msgbuf.RecvMessage` | src/c7event/msgbuf_impl.hpp:123-153 | from a stream that starts with a message the receiver holds exactly its header and its parts, and what is behind it is left, if no call fails and there is storage |
| `Msgbuf.SendThenRecv` | src/c7event/msgbuf_impl.hpp:123-189 | a message sent and received without a failed call is the message that was sent, however both kernels split it |
| `Msgbuf.SentSizesAreSane` | src/c7event/msgbuf_impl.hpp:166-177 | what is sent with parts below 2^31 is read with sizes that are not negative |
| `Msgbuf.MessagesDelimitThemselves` | src/c7event/msgbuf_impl.hpp:123-189 | with equal endian flags and parts below 2^31 a stream starts with at most one message: what is received is what was sent |
| `Msgbuf.SizeRoundTrip` | src/c7event/msgbuf_impl.hpp:166-177 | a size is read back from its four bytes, reversed or not |
| `Msgbuf.SizeOnTheWire` | src/c7event/msgbuf_impl.hpp:166-177 | its four bytes in numbers, the lowest first, or last for a peer of the other endianness |
| `Msgbuf.MessageOnTheWire` | src/c7event/msgbuf_impl.hpp:155-189 | the header comes first, then the sizes of all parts, then all parts, each at its place |
| `Msgbuf.SentIsWhole` | src/c7event/msgbuf_impl.hpp:155-189 | a stream that starts with what was sent has a whole message for the receiver |
| `Msgbuf.Message.SetupIovBase` | src/c7event/msgbuf_impl.hpp:277-298 | each part that is not empty gets a region aligned to 8, disjoint from the others and inside the reserved storage |
| `Msgbuf.OffsetsLaid` | src/c7event/msgbuf_impl.hpp:288-296 | the running sum of aligned sizes gives such regions |
| `Msgbuf.AlignIsLeast` | src/c7common.hpp:73 | c7_align gives the least multiple that is not smaller |
| `Msgbuf.Message.ReadPart` | src/c7event/msgbuf_impl.hpp:144-151 | reading a part leaves the parts before it as they are |
| `DoubleBuffer.InvOverRuns` | src/c7nseq/thread.hpp:29-184 | over every interleaving: values seen, in the iterator, waiting and in the thread are the values produced, in order; both buffers are somewhere; the empty vector comes last |
| `DoubleBuffer.SeesWhatIsProduced` | src/c7nseq/thread.hpp:256-278 | the iterator gives a prefix of what is produced, all of it when it ends |
| `DoubleBuffer.NeverBothStuck` | src/c7nseq/thread.hpp:54-101 | the two threads never wait for each other, a finished thread leaves nobody waiting, and after shutdown_consumer put does not wait |
| `DoubleBuffer.GoesOnUnlessStuck` | src/c7nseq/thread.hpp:132-140 | in every run each thread can take its next step unless it waits: a value goes into a buffer that is not full, a full one is handed over |
| `DoubleBuffer.WaitsForValues` | src/c7nseq/thread.hpp:76-101 | in every run an iterator that waits has given all values put out but at most buffer_size, and all of them once the thread has left its function |
| `DoubleBuffer.ReachesEnd` | src/c7nseq/thread.hpp:256-278 | once the thread is finished the iterator alone reaches its end, and has then given everything |
| `DoubleBuffer.PutsRunOut` | src/c7nseq/thread.hpp:54-65 | in every run, once the iterator is dropped at most two puts succeed, as many as there are buffers left, and the next that comes back makes the thread leave |
| `DoubleBuffer.ProducerConserved` | src/c7nseq/thread.hpp:132-165 | no step of the thread loses or reorders a value |
| `DoubleBuffer.ConsumerConserved` | src/c7nseq/thread.hpp:268-278 | no step of the iterator loses or reorders a value |
| `DoubleBuffer.NextTwoBuffers` | src/c7nseq/thread.hpp:54-101 | no step loses a buffer while the thread runs |
| `DoubleBuffer.Shared.Output` | src/c7nseq/thread.hpp:132-140 | appends the value to the buffer of the thread; put comes exactly when it is full |
| `DoubleBuffer.Shared.PutUpToWait` | src/c7nseq/thread.hpp:54-60 | the critical section of put up to its wait is a step of every run, and keeps what runs keep |
| `DoubleBuffer.Shared.PutBehindWait` | src/c7nseq/thread.hpp:61-64 | so is the one behind it, which says whether the thread goes on |
| `DoubleBuffer.Shared.Flush` | src/c7nseq/thread.hpp:161-165 | so is the flush when the function of the thread has returned |
| `DoubleBuffer.Shared.Step` | src/c7nseq/thread.hpp:268-278 | so is the increment with the critical section of get up to its wait |
| `DoubleBuffer.Shared.GetBehindWait` | src/c7nseq/thread.hpp:95-100 | so is the rest of get |
| `DoubleBuffer.Shared.Value` | src/c7nseq/thread.hpp:280-282 | the iterator gives the first of the values put out that it has not given yet |
| `DoubleBuffer.Shared.IsEnd` | src/c7nseq/thread.hpp:256-262 | at its end it has given all of them |

## Left out

- Threads, locks and condition variables as mechanisms: a critical section is one atomic step, a wait is a step that is not enabled; the threads of the sorts are two calls on disjoint ranges, one after the other.
- Moves of elements are modelled as copies, iterators as indices into arrays.
- Fpipe: its fields, and the buffers, are values in a state and not a class, because a step of it spans two channels; timeouts and puts after close are not modelled, and of runs with an abort only who waits is told, not which elements are lost.
- MlogReader.Reader.Get: asks that the walk ends in the part of the ring that still holds whole records, or at a cut record whose size word survives; behind that the reader follows header heuristics, and on foreign bytes its loop may go on for ever.
- Log: mlog_clear, reader revisions 6 and 7, callbacks, printing to stdout, the part of the path that becomes the source name, and records of 4 GiB and more.
- Interleaving: speaks of records granted within one lap; a writer that is overtaken by a whole lap overwrites newer bytes. The read of a ring while it is written is not modelled.
- Mlog.Writer.Put: asks for records of less than 2^32 - 32 bytes, above which the test of reserve wraps; the count is that of one partition.
- Mlog.Writer.Clear: clears one partition; Mlog.ClearAll clears those of all levels.
- MlogMerge.Prescan: asks of every partition what Reader.Get asks; the callbacks choice and access are functions of what they are told.
- JSON reals (only lexed), time values, proxy_unconcern, proxy_object and the skipping of unknown members in proxy_struct; line and column numbers and raw strings of tokens.
- JSON dicts: the hash table is the list of its entries in the order it is walked.
- Base64.Decoder.DoDecode: asks for four letters or none, where the source dereferences its iterator at the end of the input.
- Base64.CollectDecoded: asks for a length that is a multiple of four, for the same reason; JsonProxy.LoadValue pads with the null characters such dereferences would read at the end of a string.
- JsonProxy.LoadValue: takes characters of base64 text above 127 for letters of value 0, where the source indexes its table with a char that may be negative.
- Mpool: pointer and mpool objects are not classes; who may call is stated where they would call, and the copying of data by dup is left out.
- Transfer: the count of remaining bytes in the result of write_v on errors, which a shadowed variable hides, and portgroup.
- Msgbuf: sizes that are negative as int32_t, deep copies and moves between messages, the contents of the storage that is not a part.
- DoubleBuffer: a flush by the user before the end of the thread, several copies of one iterator; double_buffer, th_output and th_iter are one class.
- The other nseq adaptors, c7args, c7format, c7fsm, the event monitor, path and typefunc: they would only add easy members.
