# Models of rktio, Racket's portable I/O layer, and of one path rewriter

rktio is the C library below Racket's I/O. This project models the parts of it that are algorithms
and protocols of their own, in Dafny, and proves what they are for:

- `Basics.dfy`: an optional value, and facts about sequences, products, quotients and sets that several
  models use.
- `HashTable.dfy`: the open-addressing hash table, as a class over an array of buckets that refines a
  finite map, with the nested rehash.
- `Ltps.dfy`: long-term poll sets over epoll. Handles live in slots, on a chain or nowhere; the
  kernel's interest masks and the table agree.
- `Wide.dfy`: the codec between an extended UTF-8 and an extended UTF-16 in which unpaired surrogates
  are allowed.
- `Sigchld.dfy`: the bookkeeping of child processes between a worker thread that reaps and threads
  that register, poll, kill and forget, as a state machine over all interleavings, and the lists
  behind it as a class that refines the machine's steps.
- `HashWords.dfy`, `Sha1.dfy`, `Sha2.dfy`: SHA-1, SHA-224 and SHA-256 with chunked updates, against the
  definitions of FIPS 180-4.
- `HashConstants.dfy`: where the constants of those definitions come from.
- `FdShuffle.dfy`: the move of three descriptors into 0, 1 and 2 in a child process.
- `CmdLine.dfy`: Windows command lines, and the rules by which a program reads them.
- `Inotify.dfy`: filesystem change events over one inotify connection.
- `PendingOpen.dfy`: the shared record of an `open` that blocks in a thread of its own.
- `PollSet.dfy`: the poll() variant of poll sets, with the sorted merge.
- `TextMode.dfy`: CR LF text mode on Windows.
- `NormalizePath.dfy`: `NormalizePath` of the documentation's JavaScript.

What the C code changes in place is a class with fields and arrays here. The operating system is a
parameter: the result of an epoll or inotify call, of `open` or `ReadFile`, or the next event of an
interleaving is any that the caller or the machine allows. Fixed-width integers are modelled where
they can wrap around, in the hash counters and words; elsewhere integers are unbounded.

## What does not hold

Some properties that one would expect are false of the code. For each there is a concrete input and,
where it can be said, the exact condition:

- `rktio_hash_set` on a present key behind a vacated bucket stores it twice (`SetKeepsKeysDistinct`,
  `VacateBefore`, `SetBehindVacatedDuplicates`), and a removal of the absent key 0 lowers the count of a
  table with a bucket that was never used (`RemoveFirst`, `PassesForEmpty`).
- A child that exits with a code above 128 looks like one that a signal has ended (`DeliveredAlikeIff`).
- SHA-2 drops the high half of the length of an update, and SHA-1 carries once too often, for pieces of
  2^32 and 2^29 bytes and more (`PaddedRightIff` and `LongPieceMiscounts` in both).
- The move of descriptors can overwrite an inherited descriptor above 2 (`BystandersSafeIff`, `ThreeIsLost`).
- A read of several inotify events looks at the first only, which loses the others when a buffer that
  has grown for a name has room for them (`NothingLostIff`, `QueueLostIff`, `NamelessIsLost`).
- `do_open_in_thread` disables cancellation by passing `PTHREAD_CANCEL_DISABLE` to
  `pthread_setcanceltype`, which sets the cancellation type and not the state. So a thread can be
  cancelled at any time, which the comments there mean to rule out. `FreedIff` and `UsedOnceIff` say for
  both cases which runs leak the record or misplace a descriptor, `UnmaskedLeaks` and
  `UnmaskedClosesZero` are such runs, and by `SafeAsWritten` a client that keeps its last reference until
  the thread is done is safe.
- References to a pending open that share a descriptor can be handed it twice, or one of them closes it
  under the other (`UsedOnceIff`, `UsedOnceIffNoDropAfterHandOver`, `SharedIsHandedTwice`).
- Text without a newline in its first 4096 bytes is written unconverted as a whole (`OutputRightIff`); a
  refused or partial write that ends between CR and LF loses the LF (`CountRightIff`, `WriteText`,
  `HalvingLosesNewline`); and a bulk read after a waiting byte can divide CR LF (`StreamDecodedIff`,
  `WaitingByteDivides`).

## Model

| member | source | states |
|---|---|---|
| Probing.FullCycle | racket/src/rktio/rktio_hash.c:82-85 | the probe step is odd and the size a power of two, so after `size` steps, and no sooner by SlotsDistinct, the probe is back at its start |
| Probing.SlotsDistinct | racket/src/rktio/rktio_hash.c:82-94 | two probe positions below the size never meet the same bucket |
| Probing.ProbeVisitsEverySlot | racket/src/rktio/rktio_hash.c:82-98 | every bucket is some position of every key's probe, so a scan that comes round has seen the whole table |
| BucketArrays.PresentIsReached | racket/src/rktio/rktio_hash.c:87-96 | a present key is reached along its probe through filled and vacated buckets only |
| BucketArrays.UnusedMeansAbsent | racket/src/rktio/rktio_hash.c:98-99 | meeting a never-used bucket proves the key absent |
| BucketArrays.FullScanMeansAbsent | racket/src/rktio/rktio_hash.c:92-97 | so does coming round a table with only filled and vacated buckets |
| BucketArrays.ProbeFindsRoom | racket/src/rktio/rktio_hash.c:150-172 | a table loaded below half has a value-less bucket on every probe, so `set` cannot come round |
| BucketArrays.InsertRepresents | racket/src/rktio/rktio_hash.c:174-176 | filling the first value-less bucket of an absent key's probe adds exactly that mapping and keeps every key reachable |
| BucketArrays.UpdateRepresents | racket/src/rktio/rktio_hash.c:152-154 | overwriting a value changes exactly that mapping |
| BucketArrays.VacateRepresents | racket/src/rktio/rktio_hash.c:114-117 | vacating a bucket removes exactly that mapping and breaks nobody's probe |
| HashTables.HashTable.IsEmpty | racket/src/rktio/rktio_hash.c:42-45 | true exactly when the map is empty |
| HashTables.HashTable.GetKey | racket/src/rktio/rktio_hash.c:52-58 | the key of a filled bucket, which is non-negative and in the map, or -1 |
| HashTables.HashTable.FindKey | racket/src/rktio/rktio_hash.c:81-102 | a present key is always found at its bucket; an absent one is found exactly in the one quirk, key 0 while some bucket was never used |
| HashTables.HashTable.Get | racket/src/rktio/rktio_hash.c:79-103 | exactly the mapped value, or nothing, on every table whatever mix of filled, vacated and unused buckets it has |
| HashTables.HashTable.RemoveFirst | racket/src/rktio/rktio_hash.c:105-118 | for every key, what the removal does before its rehash: the bucket of a present key is vacated, and only that; the absent key 0 is taken for found exactly when some bucket was never used, and then no entry goes but the count drops below their number |
| HashTables.HashTable.Remove | racket/src/rktio/rktio_hash.c:105-135 | the map loses exactly that key, also when the table shrinks; without a rehash buckets are at most vacated in place, which is what a scan that removes relies on |
| HashTables.HashTable.DoRehash | racket/src/rktio/rktio_hash.c:60-77 | reinsertion into a smaller or larger table, with the nested growth that a shrink can cause, terminates and keeps the map |
| HashTables.HashTable.FindPlace | racket/src/rktio/rktio_hash.c:150-172 | the scan of `set` always ends at the key or at the first value-less bucket, and all buckets before it are filled with other keys |
| HashTables.HashTable.Set | racket/src/rktio/rktio_hash.c:137-181 | the map gains exactly that binding, twice the count stays below the size, for every key that is absent or not behind a vacated bucket; without a rehash the one bucket written is the first of the probe that has no value or the key |
| HashTables.Run | racket/src/rktio/rktio_hash.c:79-181 | over every sequence of look-ups, insertions of absent keys and removals of present ones, the answers are those of a finite map |
| HashTables.SetKeepsKeysDistinct | racket/src/rktio/rktio_hash.c:168-176 | filling the bucket where the scan stops keeps the keys distinct if and only if the key is absent |
| HashTables.VacateBefore | racket/src/rktio/rktio_hash.c:105-181 | set 0, set 16 and remove 0 on a new table leave the present key 16 behind a vacated bucket |
| HashTables.SetBehindVacatedDuplicates | racket/src/rktio/rktio_hash.c:150-172 | in that table, setting the present key 16 would store it twice |
| HashTables.RemoveAbsentZero | racket/src/rktio/rktio_hash.c:113-117 | the removal of the absent key 0 matches a bucket if and only if some bucket was never used, and the buckets still stand for the same map |
| HashTables.PassesForEmpty | racket/src/rktio/rktio_hash.c:42-118 | removing 0 once more from that table brings the count to zero, so that it passes for empty with the key 16 in it |
| WideChars.FeedEncoded | racket/src/rktio/rktio_wide.c:60-126 | the decoder's state machine, fed the encoding of a code, rejects nothing, asks for more until the last byte and then outputs that code |
| WideChars.EncodedFed | racket/src/rktio/rktio_wide.c:60-126 | and any bytes it accepts for a code are the encoding of that code, so overlong forms are rejected |
| WideStrings.DecodeEncoded | racket/src/rktio/rktio_wide.c:58-190 | decoding the encoding of any sequence of 16-bit units, unpaired surrogates included, gives the sequence back |
| WideStrings.EncodeDecoded | racket/src/rktio/rktio_wide.c:128-185 | re-encoding what the decoder accepted gives the same bytes back, with a pending surrogate accounted for |
| WideStrings.DecodesIffEncoded | racket/src/rktio/rktio_wide.c:41-195 | decoder and encoder are each other's exact inverse: s decodes to us if and only if us encodes to s, so no two byte strings decode alike |
| WideStrings.StandardText | racket/src/rktio/rktio_wide.c:44-264 | on the text of any sequence of Unicode codes the two are the UTF-8 of section 3 of RFC 3629 and the UTF-16 of section 2.2 of RFC 2781 |
| WideStrings.FeedByte | racket/src/rktio/rktio_wide.c:59-125 | one turn of the byte loop with its `state`, `nextbits` and `v` does what the state machine says |
| WideStrings.OutputCode | racket/src/rktio/rktio_wide.c:126-177 | one output, with the pending surrogate flushed, kept or refused, writes exactly the units the specification emits |
| WideStrings.Utf8ishToUtf16ish | racket/src/rktio/rktio_wide.c:44-191 | without a buffer, the length of the decoding or -1; with one, exactly the decoding, and nothing beyond it is touched |
| WideStrings.ReadCode | racket/src/rktio/rktio_wide.c:203-216 | a surrogate pair is combined into one code, as in section 2.2 of RFC 2781, and an unpaired one goes through |
| WideStrings.WriteCode | racket/src/rktio/rktio_wide.c:217-260 | the bytes of one code are counted or written in place |
| WideStrings.Utf16ishToUtf8ish | racket/src/rktio/rktio_wide.c:196-264 | the length of the encoding, and with a buffer exactly the encoding |
| WideBuffers.WideBuffer.ConvertToWchar | racket/src/rktio/rktio_wide.c:268-300 | measure, choose or reuse a buffer, then fill: the units always fit, and null exactly when the string does not decode |
| WideBuffers.ConvertFromWchar | racket/src/rktio/rktio_wide.c:302-319 | the encoding up to and with the terminator, in a buffer of exactly that length |
| WideBuffers.CStringRoundTrip | racket/src/rktio/rktio_wide.c:268-319 | for a C string the decoded units end in the only zero, encode to the same bytes, and are the decoding of the string without its terminator |
| LongTermPollSets.LeftIsFewer | racket/src/rktio/rktio_ltps.c:510-525 | an event that the kernel may report for an interest mask that agrees with the table is for at least one live handle |
| LongTermPollSets.LeftExactly | racket/src/rktio/rktio_ltps.c:510-525 | an input event is for the reading handle and an output event for the writing one, and HUP and ERR are for both; no other handle is touched |
| LongTermPollSets.LeftKeepsOthers | racket/src/rktio/rktio_ltps.c:526-536 | handling the events of one descriptor leaves the masks of all others right |
| LongTermPollSets.Ltps.SignalHandle | racket/src/rktio/rktio_ltps.c:88-102 | without an automatic mode the handle becomes the head of the list, before what was the head, and otherwise the list stays and the data of a handle to be zeroed is zeroed; every handle ever created stays in exactly one place |
| LongTermPollSets.Ltps.GetSignaledHandle | racket/src/rktio/rktio_ltps.c:175-184 | the newest handle of the acyclic chain leaves it, and none when it is empty |
| LongTermPollSets.Ltps.Collect | racket/src/rktio/rktio_ltps.c:175-184 | asked until null, it returns all handles of the list once, the newest first |
| LongTermPollSets.Ltps.PollAndCollect | racket/src/rktio/rktio_ltps.c:175-544 | after a poll, the handles so returned are those that waited already and those without an automatic mode that have left their slots, each once |
| LongTermPollSets.Ltps.CreateHandle | racket/src/rktio/rktio_ltps.c:331-374 | creation fills the slot and widens the kernel mask to match, or undoes itself when the kernel refuses the descriptor, so that no empty pair stays |
| LongTermPollSets.Ltps.RemovePair | racket/src/rktio/rktio_ltps.c:283-326 | REMOVE signals both handles, forgets the pair and takes the descriptor out of the kernel |
| LongTermPollSets.Ltps.AddExisting | racket/src/rktio/rktio_ltps.c:263-270 | a check or a removal needs a pair: NOT_FOUND exactly when there is none, and then nothing changes |
| LongTermPollSets.Ltps.AddCreate | racket/src/rktio/rktio_ltps.c:272-428 | the handle that is there or a new one, with nothing else moved |
| LongTermPollSets.Ltps.Add | racket/src/rktio/rktio_ltps.c:203-434 | in every mode the masks, the table and the places of all handles stay in agreement; a handle for reading or a vnode is in the reading slot with input in the mask, one for writing in the writing slot with output in the mask, and creation fails only for a refused descriptor; a descriptor that is still being opened gets the unsupported error |
| LongTermPollSets.CheckFindsCreated | racket/src/rktio/rktio_ltps.c:296-428 | a check finds the handle that was created for its side |
| LongTermPollSets.Ltps.Retire | racket/src/rktio/rktio_ltps.c:510-525 | a handle that is there is signaled once and leaves its slot |
| LongTermPollSets.Ltps.PollOne | racket/src/rktio/rktio_ltps.c:506-536 | one reported event retires at least one handle and leaves the kernel mask equal to the handles that are left |
| LongTermPollSets.Ltps.Drain | racket/src/rktio/rktio_ltps.c:499-542 | the loop ends, with the live handles as its measure, and not before nothing that is left is ready |
| LongTermPollSets.Ltps.Poll | racket/src/rktio/rktio_ltps.c:488-544 | exactly the handles for which something is ready leave their slots; each of them is on the list if it has no automatic mode and is retired otherwise, and no other handle comes to either place; a hit exactly when there was one |
| HandlePlaces.WhereSignaled | racket/src/rktio/rktio_ltps.c:88-102 | the same for any number of signaled slots |
| LongTermPollSets.Ltps.RemoveAll | racket/src/rktio/rktio_ltps.c:701-725 | a scan that removes from the table as it goes still signals every live handle and leaves the table empty |
| LongTermPollSets.Ltps.Close | racket/src/rktio/rktio_ltps.c:153-173 | after closing, every handle ever created has been retired |
| ChildTables.ChildTable.AddGroupSignalFd | racket/src/rktio/rktio_process.c:496-529 | one more reference to the descriptor, in an array of entries with reuse and growth |
| ChildTables.ChildTable.RemoveGroupSignalFd | racket/src/rktio/rktio_process.c:531-543 | one reference less |
| ChildTables.ChildTable.DoGroupSignalFds | racket/src/rktio/rktio_process.c:545-554 | exactly the descriptors with references are posted |
| ChildTables.ChildTable.AddChildStatus | racket/src/rktio/rktio_process.c:123-159 | the list with a record found or made does what the protocol's AddStatus says, and the handle posted is that of the record, if there was one |
| ChildTables.ChildTable.RawGetChildStatus | racket/src/rktio/rktio_process.c:161-186 | found, status and removal from the linked list, in each mode |
| ChildTables.ChildTable.RegisterChild | racket/src/rktio/rktio_process.c:214-244 | a child that is already in the list is found, and one that is not is entered with its group reference |
| ChildTables.ChildTable.DoneWithProcessId | racket/src/rktio/rktio_process.c:360-391 | a record that is not done moves to the unused list and drops its group reference; a done one is freed |
| ChildSafety.StepKeepsInv | racket/src/rktio/rktio_process.c:123-391 | every step of worker, registering, polling, killing and forgetting threads keeps the whole invariant, also when the kernel gives out the number of a child that is gone again |
| ChildRuns.InAtMostOneList | racket/src/rktio/rktio_process.c:360-391 | in every reachable state a child is in at most one of the two lists, and one whose record can still be asked for is in the first |
| ChildRuns.StatusNeverLost | racket/src/rktio/rktio_process.c:123-391 | until it is forgotten, a child's exit status is with the kernel or in exactly one of four places, unaltered, even if it exits before registration |
| ChildRuns.DeliveredStatusIsKernels | racket/src/rktio/rktio_process.c:188-212 | a collected status is the kernel's |
| ChildRuns.DeliveredAtMostOnce | racket/src/rktio/rktio_process.c:744-877 | in every run the statuses delivered under a number are at most as many as the children that had it |
| ChildRuns.ReusedStartsClean | racket/src/rktio/rktio_process.c:123-391 | a child whose number was another's before finds nothing of the other in either list or with the worker |
| ChildRuns.PollDelivers | racket/src/rktio/rktio_process.c:188-212 | a poll after the child's end finds the status, whoever reaped it, once the worker has finished recording it |
| ChildRuns.DeliveredTells | racket/src/rktio/rktio_process.c:63-73 | in every run, a collected status is the code with which the child now under that number exited, or 128 and the signal that ended it, or -1 |
| ChildRuns.DeliveredAlikeIff | racket/src/rktio/rktio_process.c:63-73 | so zero means success and different codes differ; two statuses are equal only if the ends were, or one was a code that is 128 and the other's signal |
| ChildRuns.RegisteredHolds | racket/src/rktio/rktio_process.c:214-244 | as long as its record is not done, a child posts to the handle of its last registration, and if that was in a group, the handle is one of the groups' |
| ChildRuns.KillHitsUnreapedChild | racket/src/rktio/rktio_process.c:857-925 | a signal is sent only while the child has not been reaped, so never to another process with its number |
| ChildRuns.CountersExact | racket/src/rktio/rktio_process.c:439-554 | `pending_children` counts the children started whose record is neither done nor forgotten, and each group descriptor the undone in-group records that hold it |
| ChildDescriptors.Descriptors.CopyOrMove | racket/src/rktio/rktio_process.c:1828-1839 | the target refers to the source's file, and after a move the source is closed |
| ChildDescriptors.Descriptors.Shuffle | racket/src/rktio/rktio_process.c:1660-1696 | for all descriptors and all aliasings 0, 1 and 2 refer to the files that in, out and err referred to, each of the three above 2 is closed, and every other descriptor above 2 keeps its file unless 0, 1 and 2 are in one of the wrong orders |
| ChildDescriptors.Descriptors.CloseAfterFork | racket/src/rktio/rktio_process.c:1875-1885 | exactly the descriptors below the count are closed, but for the three to skip |
| ChildDescriptors.ChildSetup | racket/src/rktio/rktio_process.c:1660-1709 | the same after the pipes' other ends and the descriptors below the count have been closed, and 0, 1 and 2 survive `exec` |
| ChildDescriptors.BystandersSafeIff | racket/src/rktio/rktio_process.c:1665-1684 | no descriptor above 2 is taken for a temporary if and only if the three are not in certain wrong orders within 0, 1 and 2 |
| ChildDescriptors.ThreeIsLost | racket/src/rktio/rktio_process.c:1665-1672 | in one of those orders, an inherited descriptor 3 is lost |
| CommandLines.ReadInside | racket/src/rktio/rktio_process.c:1110-1131 | inside quotes, the reader's backslash rules undo the protection of any text, with any number of backslashes pending |
| CommandLines.ReadProtected | racket/src/rktio/rktio_process.c:1083-1138 | a protected argument reads as the original and takes nothing of what follows |
| CommandLines.ReadJoined | racket/src/rktio/rktio_process.c:1215-1230 | the joined line of any argument list reads as that list, under every rule for doubled quotes |
| CommandLines.InsideFits | racket/src/rktio/rktio_process.c:1091-1108 | the bytes written never exceed what the first pass has counted |
| CommandLines.Measure | racket/src/rktio/rktio_process.c:1091-1102 | the first pass computes the cost of the quotes, the trailing backslashes and whether there is a space |
| CommandLines.Fill | racket/src/rktio/rktio_process.c:1109-1132 | the second pass writes the protected text inside the buffer |
| CommandLines.CmdlineProtect | racket/src/rktio/rktio_process.c:1083-1138 | the protected argument, with every write inside the allocated size |
| CommandLines.Join | racket/src/rktio/rktio_process.c:1215-1230 | the arguments with one space between them, inside the allocated size |
| CommandLines.SpawnLine | racket/src/rktio/rktio_process.c:1479-1487 | the command line for any non-empty argument list reads as that list |
| HashWords.RotrIsShifts | racket/src/rktio/rktio_sha2.c:122-123 | rotation bit by bit is the join of two shifts, as the macro writes it |
| Sha2Process.MacrosAreStandard | racket/src/rktio/rktio_sha2.c:131-132 | the two shortened bit functions are Maj and Ch of section 4.1.2 of FIPS 180-4 |
| Sha2Process.TurnIsRound | racket/src/rktio/rktio_sha2.c:140-145 | turning the names of eight registers does what shifting the registers does |
| Sha2Process.ShiftsAreStandard | racket/src/rktio/rktio_sha2.c:122-129 | the four macros of shifts and rotations are the functions of section 4.1.2 |
| HashConstants.BigSigma0Is | racket/src/rktio/rktio_sha2.c:128 | which rotate by 2, 13 and 22, told with quotients and remainders |
| HashConstants.BigSigma1Is | racket/src/rktio/rktio_sha2.c:129 | by 6, 11 and 25 |
| HashConstants.SmallSigma0Is | racket/src/rktio/rktio_sha2.c:125 | by 7 and 18, with a shift by 3 |
| HashConstants.SmallSigma1Is | racket/src/rktio/rktio_sha2.c:126 | by 17 and 19, with a shift by 10 |
| HashConstants.KIsCubeRoot | racket/src/rktio/rktio_sha2.c:102-120 | each of the 64 constants is the first 32 bits of the fractional part of the cube root of the prime of that number, as in section 4.2.2 |
| SmallPrimes.NumberedOnce | racket/src/rktio/rktio_sha2.c:102-120 | where a prime has the number of primes below it, so that there is one for each number |
| HashConstants.IV256IsSquareRoots | racket/src/rktio/rktio_sha2.c:72-83 | the initial values of SHA-256 are those of the square roots of the first eight primes, as in section 5.3.3 |
| HashConstants.IV224IsSquareRoots | racket/src/rktio/rktio_sha2.c:84-95 | those of SHA-224 are the second 32 bits for the next eight, as in section 5.3.2 |
| Pieces.WordReadBack | racket/src/rktio/rktio_sha2.c:280-302 | the bytes of a word, the first of which counts most, are read back as the word |
| Sha2Process.R | racket/src/rktio/rktio_sha2.c:134-138 | the next word of the schedule, in place |
| Sha2Process.FirstRounds | racket/src/rktio/rktio_sha2.c:174-184 | sixteen unrolled rounds are the first sixteen of section 6.2.2 |
| Sha2Process.MoreRounds | racket/src/rktio/rktio_sha2.c:186-196 | the other rounds, with the schedule computed as they go, are the rest |
| Sha2Process.Process | racket/src/rktio/rktio_sha2.c:147-203 | the block function is the compression of section 6.2.2 of FIPS 180-4 |
| Sha2Contexts.Sha2.constructor | racket/src/rktio/rktio_sha2.c:59-100 | the initial hash value, with an empty message |
| Sha2Contexts.Sha2.Count | racket/src/rktio/rktio_sha2.c:222-226 | the two counters hold the length modulo 2^64, but for whole multiples of 2^32 that one call passes |
| Sha2Contexts.Sha2.Take | racket/src/rktio/rktio_sha2.c:228-250 | buffer, hash value and message stay in step for any length of the input and any fill of the buffer |
| Sha2Contexts.Sha2.Update | racket/src/rktio/rktio_sha2.c:208-253 | the message grows by the input, and all of the context's invariant is kept |
| Sha2Contexts.Sha2.PadAndCount | racket/src/rktio/rktio_sha2.c:274-288 | what the two final updates add is the padding of section 5.1.1, with the length the counters hold |
| Sha2Contexts.Sha2.Finish | racket/src/rktio/rktio_sha2.c:266-302 | the output is the digest of the padded message |
| Sha2Runs.DigestOf | racket/src/rktio/rktio_sha2.c:208-302 | for every split into pieces, the digest is that of the concatenation; with pieces below 2^32 bytes it is the standard's SHA-224 or SHA-256 |
| Sha2Runs.PaddedRightIff | racket/src/rktio/rktio_sha2.c:222-226 | the padded message is the standard's if and only if the multiples of 2^32 that the pieces lose vanish from the 64-bit length field |
| Sha2Runs.LongPieceMiscounts | racket/src/rktio/rktio_sha2.c:222-226 | one piece of 2^32 bytes gets a wrong length field |
| Pieces.SamePaddingIff | racket/src/rktio/rktio_sha2.c:274-279 | two lengths give the same padding exactly when their difference vanishes from 64 bits |
| HashWords.RotlIsShifts | racket/src/rktio/rktio_sha1.c:102 | rotation to the left is the join of two shifts, as the macro writes it |
| HashConstants.Sha1RoundIs | racket/src/rktio/rktio_sha1.c:117-121 | a round of SHA-1 in plain arithmetic, with rotations by 5 and 30 |
| HashConstants.Sha1KIsSquareRoots | racket/src/rktio/rktio_sha1.c:117-121 | the constants of SHA-1 are 2^30 times the square roots of 2, 3, 5 and 10, rounded down |
| HashConstants.Sha1IVCounts | racket/src/rktio/rktio_sha1.c:192-198 | as little-endian bytes, its initial value counts 01, 23 up to EF and back, and then F0, E1, D2, C3 |
| Sha1Words.SwapIsBigEndian | racket/src/rktio/rktio_sha1.c:110-111 | the rotations and masks of `blk0` turn a little-endian load into the big-endian word of the standard |
| Sha1Words.StillThere | racket/src/rktio/rktio_sha1.c:113-114 | in the circular schedule of sixteen words, the four words that a round needs have not been overwritten |
| Sha1Words.Blk0 | racket/src/rktio/rktio_sha1.c:107-112 | the first sixteen words of the schedule, swapped in place |
| Sha1Words.Blk | racket/src/rktio/rktio_sha1.c:113-114 | the other words, each replacing the oldest, are those of the 80-word schedule of section 6.1.2 of FIPS 180-4 |
| Sha1Transform.FormsAreStandard | racket/src/rktio/rktio_sha1.c:117-120 | the macros' bit functions are Ch and Maj of section 4.1.1 |
| Sha1Transform.R0 | racket/src/rktio/rktio_sha1.c:117 | one round with swapped words, in the macro's order of sums |
| Sha1Transform.R1 | racket/src/rktio/rktio_sha1.c:118 | one round with scheduled words and Ch |
| Sha1Transform.R2 | racket/src/rktio/rktio_sha1.c:119 | one round with Parity |
| Sha1Transform.R3 | racket/src/rktio/rktio_sha1.c:120 | one round with Maj |
| Sha1Transform.R4 | racket/src/rktio/rktio_sha1.c:121 | one round with Parity and the last constant |
| Sha1Transform.FiveR1 | racket/src/rktio/rktio_sha1.c:163-164 | five rounds across the change of macros bring every variable back to its role |
| Sha1Transform.Transform | racket/src/rktio/rktio_sha1.c:134-187 | eighty unrolled rounds with rotating roles and an in-place schedule are the compression of section 6.1.2 |
| Sha1Counters.CountStep | racket/src/rktio/rktio_sha1.c:213-215 | what the two statements leave in the counters: the bits so far, and one carry too many exactly when `len << 3` exceeds 32 bits and the low counter did not wrap |
| Sha1Contexts.Sha1.constructor | racket/src/rktio/rktio_sha1.c:189-200 | the initial hash value, with an empty message |
| Sha1Contexts.Sha1.Count | racket/src/rktio/rktio_sha1.c:213-215 | the counters hold the number of bits modulo 2^64, but for such carries |
| Sha1Contexts.Sha1.Take | racket/src/rktio/rktio_sha1.c:216-225 | buffer, hash value and message stay in step |
| Sha1Contexts.Sha1.Update | racket/src/rktio/rktio_sha1.c:203-230 | the message grows by the data, for any length and fill |
| Sha1Contexts.MaskedCount | racket/src/rktio/rktio_sha1.c:244 | the test on `count[0] & 504` looks at the byte count within a block |
| Sha1Contexts.Sha1.PadOut | racket/src/rktio/rktio_sha1.c:243-246 | padding a byte at a time terminates at 56 modulo 64 with exactly the zeros of section 5.1.1 |
| Sha1Contexts.Sha1.Final | racket/src/rktio/rktio_sha1.c:233-262 | the digest of the padded message, after which counters and buffer are cleared |
| Sha1Runs.DigestOf | racket/src/rktio/rktio_sha1.c:203-262 | for every split into pieces the digest is that of the concatenation; with pieces below 2^29 bytes it is the standard's SHA-1 |
| Sha1Runs.PaddedRightIff | racket/src/rktio/rktio_sha1.c:213-215 | the padded message is the standard's if and only if the excess carries vanish from the length field |
| Sha1Runs.LongPieceMiscounts | racket/src/rktio/rktio_sha1.c:213-215 | one piece of 2^29 bytes gets a wrong length field |
| Paths.NormalizePath | scribble-common.js:141-147 | the two nested loops terminate on every string and compute the fixed point of the three rewritings, one after the other |
| Paths.NothingLeft | scribble-common.js:141-147 | no expression matches the result, although each is used up only once, in order: later rewritings create no match for earlier ones |
| Paths.Idempotent | scribble-common.js:141-147 | normalizing twice is normalizing once, for every string |
| Paths.KeepsMeaning | scribble-common.js:141-147 | a path that starts with a slash keeps it and resolves to the same names, clamped at the root, and to a directory or not as before |
| Paths.KeptIff | scribble-common.js:141-147 | any path, resolved from any directory, keeps its meaning if and only if it goes up at most once from where its first segment leads, or that is the root, or that is one below the root and the number of levels is odd |
| Paths.StoredRoot | scribble-common.js:85-86 | the path that `SetPLTRoot` stores is where `relative` leads from the page's directory, and when that is a directory it ends with a slash unless it is `/..` |
| Paths.LeftmostUp | scribble-common.js:141 | the leftmost match of the third expression drops a name with the `..` after it, or a `..` at the root |
| Paths.Shape | scribble-common.js:141-147 | in the result of any path no segment after the first slash is `.`, only the last may be empty and only the first of them may be `..` |
| Paths.RelativeLosesMeaning | scribble-common.js:141-147 | an instance where it is lost, which no call in the file gives: from the root, `a/../../b` becomes `a/b` |
| WatchSlots.FindWd | racket/src/rktio/rktio_fs_change.c:305-313 | some slot with this descriptor, or none has it |
| WatchSlots.AddWd | racket/src/rktio/rktio_fs_change.c:315-337 | the slot of a known descriptor gets one more reference, or a free slot is found, so that `abort` is unreachable; a descriptor that has not fired means a zero `val` |
| WatchSlots.PullEvents | racket/src/rktio/rktio_fs_change.c:339-385 | exactly the slots whose descriptor is the first event of some read fire, even for the descriptor -1 of a queue overflow, with a buffer that starts at one bare event and doubles; -1 exactly when a read fails |
| EventQueue.FailsOnFailure | racket/src/rktio/rktio_fs_change.c:353-379 | the call fails only on an error that is not EAGAIN, EINTR or EINVAL |
| EventQueue.FirstFault | racket/src/rktio/rktio_fs_change.c:353-379 | EAGAIN ends it without a failure, EINTR changes nothing, and another error fails |
| EventQueue.NothingLostIff | racket/src/rktio/rktio_fs_change.c:353-372 | all events handed over are looked at if and only if no read finds the next event fitting what the first leaves of the buffer, whatever arrives and fails in between |
| EventQueue.SameSizeNeverLost | racket/src/rktio/rktio_fs_change.c:346-362 | so nothing is lost while all events that wait take the same room, as those without names do |
| EventQueue.QueueLostIff | racket/src/rktio/rktio_fs_change.c:346-372 | for a queue that is complete when the call begins, nothing is lost if and only if no two neighbours fit the buffer as the events up to the first of them have made it grow |
| EventQueue.NamelessIsLost | racket/src/rktio/rktio_fs_change.c:346-372 | an event with a name of 32 bytes makes the buffer grow to 64, and the nameless event after it is read with it and lost |
| WatchSlots.LostForGood | racket/src/rktio/rktio_fs_change.c:353-362 | the slot of that second event does not fire then, nor at any later pull that does not bring its descriptor again |
| ChangeTrackers.Inotify.Grow | racket/src/rktio/rktio_fs_change.c:452-472 | growth keeps every slot at its index |
| ChangeTrackers.Inotify.Add | racket/src/rktio/rktio_fs_change.c:447-490 | a new tracker on a slot with the watch's descriptor, never born ready, and no other slot changed |
| ChangeTrackers.Inotify.Remove | racket/src/rktio/rktio_fs_change.c:492-508 | one reference less; with the last one the slot is freed, and pending events are pulled first |
| ChangeTrackers.Inotify.Release | racket/src/rktio/rktio_fs_change.c:161-190 | the tracker is done once, and other trackers change only by events |
| ChangeTrackers.Inotify.Poll | racket/src/rktio/rktio_fs_change.c:198-232 | a tracker becomes ready if and only if the event of its slot has been pulled, by a poll for it or for any other; if the slot of another fired and no read failed, `got` is set |
| ChangeTrackers.Inotify.PollAgain | racket/src/rktio/rktio_fs_change.c:537-548 | `got` is reported once |
| ChangeTrackers.RefsAreTrackers | racket/src/rktio/rktio_fs_change.c:292-303 | the reference counts add up to the trackers that have not been released |
| ChangeTrackers.TableAccounts | racket/src/rktio/rktio_fs_change.c:292-303 | `count` is the number of slots in use, live descriptors are distinct, and a slot in use has fired exactly when it has no descriptor |
| OpenSafety.StepKeepsSafety | racket/src/rktio/rktio_file.c:506-716 | every step of the opening thread and of the holders of references keeps the invariant of the record, with cancellation masked or as the code has it |
| OpenSafety.NeverFreedTwice | racket/src/rktio/rktio_file.c:497-524 | in every interleaving, masked or not, the record is freed at most once, not before the thread is done and all references are gone, and never touched afterwards |
| OpenSafety.FreedIff | racket/src/rktio/rktio_file.c:497-562 | when thread and references are gone, the record has been freed if and only if no cancellation ended a cleanup handler that was already running by itself |
| OpenSafety.UsedOnceIff | racket/src/rktio/rktio_file.c:506-716 | and what `open` returned has been handed over or closed exactly once, and nothing else closed, if and only if no cancellation came before `fd` was set to -1, between `open` and the record, or in the handler before it had closed the descriptor, and no poll took the descriptor while others had references |
| OpenSafety.SafeAsWritten | racket/src/rktio/rktio_file.c:534-562 | as the code is written, a client that never drops the last reference before `done` has the record freed exactly once, and sharing alone can waste the descriptor |
| OpenSafety.FreedExactlyOnce | racket/src/rktio/rktio_file.c:497-524 | with cancellation masked outside `open`, the record is always freed exactly once |
| OpenSafety.UsedOnceIffNoDropAfterHandOver | racket/src/rktio/rktio_file.c:601-716 | with masking, the descriptor is used exactly once if and only if nobody gives up a reference once it has been handed over |
| OpenSafety.DescriptorAccountedFor | racket/src/rktio/rktio_file.c:601-716 | with masking and a single reference, an opened descriptor is handed over or closed exactly once, and no other descriptor is closed |
| OpenSafety.NoneLeftBehind | racket/src/rktio/rktio_file.c:506-524 | with no reference left and no handler cut short, some step of the thread or of the last release is always possible, and each comes nearer to freeing the record |
| OpenSafety.UnmaskedLeaks | racket/src/rktio/rktio_file.c:555-562 | an instance: a cancelled handler leaves record and descriptor behind for ever |
| OpenSafety.UnmaskedClosesZero | racket/src/rktio/rktio_file.c:534-542 | an instance: the thread closes descriptor 0 |
| OpenSafety.SharedIsHandedTwice | racket/src/rktio/rktio_file.c:601-622 | an instance: two references are handed the same descriptor |
| OpenRecords.OpenInThread.CleanupWithLock | racket/src/rktio/rktio_file.c:511-517 | under the lock the thread counts the references and declares itself done |
| OpenRecords.OpenInThread.CleanupWithoutLock | racket/src/rktio/rktio_file.c:519-523 | without it, the thread closes the descriptor and goes on to free the record only when it was last |
| OpenRecords.OpenInThread.CleanupFreeing | racket/src/rktio/rktio_file.c:497-503 | the record is freed, for the first time and with nobody left to touch it |
| OpenRecords.OpenInThread.DropWithLock | racket/src/rktio/rktio_file.c:694-702 | a release is last exactly when the thread is done and no reference is left; without the thread being done, the last reference cancels it |
| OpenRecords.OpenInThread.PollRecord | racket/src/rktio/rktio_file.c:601-626 | blocked, failed, or the descriptor that `open` returned with the reference given up |
| OpenRecords.OpenInThread.ReleaseRecord | racket/src/rktio/rktio_file.c:682-716 | what a release frees, closes and cancels, in each state |
| PollSets.FindFdPos | racket/src/rktio/rktio_poll_set.c:101-116 | the position of a descriptor, or none has it |
| PollSets.PollSet.FdClr | racket/src/rktio/rktio_poll_set.c:118-130 | exactly the flag of that descriptor is dropped |
| PollSets.PollSet.FdSet | racket/src/rktio/rktio_poll_set.c:132-162 | exactly the flag of that descriptor is added, with growth and without duplicates |
| PollSets.PollSet.Clean | racket/src/rktio/rktio_poll_set.c:252-270 | compaction in place keeps meaning and order and leaves no entry without events |
| PollEntries.SortedIsSorted | racket/src/rktio/rktio_poll_set.c:183-188 | sorting distinct descriptors gives a strict order and the same entries |
| PollEntries.MergedIsSorted | racket/src/rktio/rktio_poll_set.c:214-239 | the merge of two strictly sorted lists is strictly sorted |
| PollEntries.MergedWaits | racket/src/rktio/rktio_poll_set.c:214-239 | it waits for exactly what either list waits for |
| PollSets.MergeInto | racket/src/rktio/rktio_poll_set.c:212-239 | the three loops compute the merge inside the new array |
| PollSets.PollSet.Merge | racket/src/rktio/rktio_poll_set.c:190-250 | the set ends with the union of both meanings, strictly sorted and without duplicates if anything was merged in, inside its capacity |
| TextCoding.DecodeEncoded | racket/src/rktio/rktio_fd.c:1242-1270 | decoding what was encoded gives every text back, and marks exactly its newlines as converted |
| TextCoding.AdjustOutputText | racket/src/rktio/rktio_fd.c:2086-2117 | the encoding of the first 4096 bytes, or the whole buffer when those have no newline |
| TextCoding.SentExactly | racket/src/rktio/rktio_fd.c:2086-2117 | a text of at most 4096 bytes is encoded as a whole; of a longer one the first 4096 bytes are, if there is a newline in them, and else the text goes out as it is |
| TextCoding.OutputRightIff | racket/src/rktio/rktio_fd.c:2094-2103 | what is handed on is the encoding of some text the caller gave if and only if the first newline is not after the first 4096 bytes |
| TextCoding.RecountOutputText | racket/src/rktio/rktio_fd.c:2119-2132 | the least number of bytes whose encoding covers what was written |
| TextCoding.RecountInverts | racket/src/rktio/rktio_fd.c:2119-2132 | at the boundary of a character that inverts the encoded length |
| TextCoding.RecountInsideNewline | racket/src/rktio/rktio_fd.c:2123-2129 | between CR and LF the newline counts as written |
| TextCoding.CountRightIff | racket/src/rktio/rktio_fd.c:2119-2132 | for every text and every number of bytes written, the count is of the text that was written if and only if no LF was cut off from its CR |
| TextCoding.CutIsQuotient | racket/src/rktio/rktio_fd.c:1667-1677 | what the refusals leave to write is the length divided by a power of two |
| TextCoding.WriteHalving | racket/src/rktio/rktio_fd.c:1651-1678 | the loop around `WriteFile`: after so many refusals, that quotient of the buffer is written, and the write fails when it gets to zero; the test that is meant to keep CR and LF together changes nothing |
| TextCoding.WrittenExactly | racket/src/rktio/rktio_fd.c:1651-1684 | the write fails exactly when halving gets to zero; else the start of the buffer is written, as far as the last size and the system allow |
| TextCoding.WriteText | racket/src/rktio/rktio_fd.c:1626-1706 | for every text, refusals and partial write, what reaches the file is the encoding of the text that is counted as written if and only if no LF is cut off and no newline was past the window |
| TextCoding.HalvingLosesNewline | racket/src/rktio/rktio_fd.c:1667-1676 | an instance: one refusal loses the LF in "a", newline, "bc" |
| TextReading.StreamDecodedIff | racket/src/rktio/rktio_fd.c:1076-1155 | for calls of every size the bytes delivered are the decoded stream if and only if no call that began with a waiting byte ends in a CR before an LF |
| TextReading.RunDecodes | racket/src/rktio/rktio_fd.c:1076-1155 | each such call costs exactly one byte too many |
| TextReading.OneByteReadsDecode | racket/src/rktio/rktio_fd.c:1080-1090 | reading byte by byte through the waiting byte gives the decoded stream |
| TextReading.WaitingByteDivides | racket/src/rktio/rktio_fd.c:1091-1096 | three calls with room for two bytes in which a newline is divided |
| TextInput.DecodeInPlace | racket/src/rktio/rktio_fd.c:1254-1267 | decoding in place, with writes behind the reads, delivers the decoding and its flags |
| TextInput.TextFd.AdjustInputText | racket/src/rktio/rktio_fd.c:1242-1270 | the decoding of the buffer, with a trailing CR held back unless a byte had waited, and with flags if the client wants them |
| TextInput.TextFd.AdjustForPendingCr | racket/src/rktio/rktio_fd.c:1272-1296 | a waiting CR with one more byte, or none |
| TextInput.TextFd.ReadConverted | racket/src/rktio/rktio_fd.c:1076-1155 | one call delivers and keeps what the specification says, the end of the stream is exactly an empty read with nothing waiting, and a failed read loses a waiting byte exactly when there is room for two |

## Left out

- HashTables.HashTable.Set: a present key behind a vacated bucket is outside its contract, because the code then stores the key twice; `SetKeepsKeysDistinct` says exactly when.
- HashTables.HashTable.Remove: the absent key 0 is outside its contract, because an unused bucket looks like key 0; `RemoveFirst` says what then happens, up to the rehash.
- LongTermPollSets.Ltps.Poll: what has become ready stays so until the poll is over, and more may become ready on the way.
- LongTermPollSets.Ltps.RemoveAll: polling afterwards is not modelled, because the kernel's registrations stay.
- LongTermPollSets.Ltps.Add: of the errors of `epoll_ctl` only EPERM on adding is modelled, and descriptors stay open while they are registered.
- LongTermPollSets.Ltps.CreateHandle: assumes the same of `epoll_ctl`.
- OpenSafety.FreedExactlyOnce: is about cancellation masked outside `open`; for the code as it is written `FreedIff` gives the exact condition.
- OpenSafety.DescriptorAccountedFor: is about masking and a single reference; `UsedOnceIff` is about every run.
- OpenSafety.UsedOnceIffNoDropAfterHandOver: is about masking; `UsedOnceIff` is about every run.
- Paths.KeepsMeaning: is about paths that start with a slash, which is how `NormalizePath` is called on a location's path name; `KeptIff` is about every path.
- Paths.StoredRoot: takes `relative` as plain text, in which `$` has no special meaning to `replace`.
- CommandLines.ReadJoined: reads the program name by the same rules as the other arguments; the run-time's special parsing of the first one is not modelled.
- CommandLines.CmdlineProtect: takes `isspace` as a parameter that contains at least space and tab, and neither the quote nor the backslash.
- Sha1Words.Blk0: the variant for big-endian machines, which loads without a swap.
- The kqueue, poll and select variants of long-term poll sets, and freeing the table with its values.
- What the posts to signal handles in `rktio_process.c` and `rktio_file.c` wake up, unexpected errors of `waitpid`, the reuse of a process number between its child's reaping and `centralized_ended_child`, and the `unneeded` flag, which is never set.
- The array of signal handles of a pending open, and a failure of `finish_unix_fd_creation` after the record is released.
- Retries of `dup2` and `close` after EINTR, and the error of an open that the caller reads from `errno`.
- The five- and six-byte forms in the encoder of `rktio_wide.c`, which no 16-bit unit or surrogate pair can reach.
- Starting, ending and restarting the inotify connection.
- TextInput.TextFd.ReadConverted: is about regular files, which are always ready; a console can also be not ready, which gives 0.
- TextCoding.WriteText: is about files; the console's conversion to wide characters is not modelled.
- The second and third poll sets as objects of their own; they share the entries and differ in a flag, which is a parameter.
- Console input and output on Windows, with the conversion to wide characters between text mode and the console.
- Thin wrappers over system calls: files, sockets, environment variables, DLLs, the console, syslog, locale and iconv, and DOM code in the JavaScript file.
- The asynchronous address lookup and the connect and listen loops.
