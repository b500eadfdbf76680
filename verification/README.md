# rsync, modelled and verified

This project models the parts of rsync 3.1.3 that carry its weight: the delta transfer, the file list, the
multiplexed I/O layer, and the small caches, spools and tables around them. Every model is proved in Dafny.

Code that changes state is modelled by classes and methods with the same fields, loops and branches. Each such
method is tied to a function or predicate over plain values, and the lemmas are about those values.

## How it is laid out

| file | what it models |
|---|---|
| `Basics`, `Lexicographic`, `Wire`, `Ring` | bytes and sequences, lexicographic order, little-endian numbers, circular buffers that can be cut short |
| `Checksum` | the weak sum, its rolling form, and the chunked whole-file accumulator |
| `SumSizes` | block length, strong-sum length, the sum table and its head |
| `HashIndex`, `DeltaJob`, `DeltaSender`, `Tokens` | the hash chains, the choice of a block, the scan, and what the receiver makes of the tokens |
| `NameOrder`, `NameComponents` | the comparison of names, and what it means in terms of path components |
| `FileSort`, `FileFind`, `FileClean`, `FilePrune` | the merge sort, the search in a list with holes, removal of duplicates, pruning of empty directories |
| `DirWalk` | the stackless walk of incremental recursion |
| `FileEntry`, `Varint`, `Indices` | list entries, integers and file indices on the wire |
| `Frames`, `MultiplexOut`, `MultiplexIn` | the frames of a multiplexed stream, its sending and its receiving end |
| `MapWindow`, `DeleteDelay`, `HashTable` | the sliding window over a file, the spool of delayed deletions, the open-addressing table |

## How the parts fit together

* `SumSizes.SumSizesSqroot` gives a head, `GenerateSums` and `ReceiveSums` a table that tiles the basis file, and
  `SumsMakeSetting` shows that this table is the setting that `DeltaSender.Sender.MatchSums` starts from. Replaying
  its tokens gives the source file if no sums collide. With in-place updating, `Tokens.InPlaceEqualsUntouched` shows
  that replaying inside the file that is being overwritten comes to the same.
* The strong sum is a parameter, and may collide. As long as no match reaches beyond the source (`Job.TailApart`),
  every byte is summed and counted once whatever else collides, the matches are those of `Job.Run`, which tries
  every block at every position, and copies in place are safe. That equal sums mean equal bytes is a hypothesis
  about one file and one block table (`Job.CollisionFree`), used only where the output is said to be the source.
* `NameComponents.OrderIsTotal` is what the sort, the search and the cleaning rest on. `FileClean.SortAndClean`
  ends in a list that is `Searchable`, which is what `FileFind.FlistFind` asks for; pruning keeps it so
  (`FilePrune.PrunedSearchable`).
* `MultiplexOut.Writer` and `MultiplexIn.Reader` share nothing but the bytes on the descriptor;
  `MultiplexIn.EndToEnd` puts them together.

## What the code does that its comments do not say

* `f_name_cmp` says that a removed item counts as after any existing item (`flist.c:4093-4096`). The code puts it
  before all others, and the order here does the same.
* In-place updating: when a match on zeros could be moved forward to the block of the basis that starts next, the
  sums of the window there overwrite the sums at hand (`match.c:271-277`). If they turn out not to fit, the wanted
  block is compared with the wrong sums: with both of that window's, or with its weak sum and the strong sum at
  hand. `DeltaJob.Job.PickIsFaithful` shows that the block emitted holds the right bytes if the scan is not
  `Misled` in this way, and does not if it is and the block is a full one. `DeltaJob.ScanIsMisled` gives a file and
  a basis for which the run from the start of the file is misled, so that the output is not the source;
  `NeverMisled` shows that it cannot be when all full windows of weak sum zero hold the same bytes and no block with
  another weak sum has their strong sum. Those are the hypotheses in `Faithful`. Without in-place updating nothing
  of the kind is needed.
* The length of the wanted block is not compared (`match.c:292-297`). A full block that has the sums of a shorter
  window at the end of the source is emitted there, and reaches beyond the source.
  `DeltaJob.Job.PickStaysInside` says exactly when, `DeltaJob.TailOverruns` gives a run, and `Job.TailApart`, which
  is about that one window, excludes it (`DeltaJob.Job.NeverOverruns`).
* A full flush asks for all the room there is in the output buffer, and then for all in the message buffer
  (`io.c:1991`, `io.c:1996`). A buffer that is cut short at that moment is asked for up to three bytes too few. As
  long as no messages come in, `IoFlush` says when nothing stays behind: no data if the output buffer has its full
  size, or no data wait for a frame, or so many that their frame cuts the buffer short itself; no message if the
  message buffer has its full size, or more data wait than the output buffer is cut by. It is exact: data that are
  no more than the buffer is cut by always stay (`MultiplexOut.FullFlushKeeps`), and from any other state as many
  bytes as the buffer is cut by can stay (`MultiplexOut.FlushMayKeep`, `MultiplexOut.FlushMayKeepMsg`).
* While it waits for room a process reads messages, and may send others in answer (`io.c:853-857`). A message that
  itself waits for room can so be overtaken: `SendMsg` says that all are handed over, not that they keep the order.
* A normal flush asks for `size - len + 1` bytes of room (`io.c:1993`). The reserved header can make the buffer
  overfull by up to four bytes (`io.c:686`), and stays so if input comes in before anything can be written. The
  difference is then negative, and as an unsigned number so large that the process gives up (`io.c:578-584`).
  `MultiplexOut.NormalFlushRefused` is a run in which it does; `IoFlush` states exactly when a flush is refused.
* Pruning treats an entry that was removed as a duplicate like something that is no directory, because its mode is
  zero. So a removed duplicate keeps the empty directories around it (`flist.c:3999-4008`).
  `FilePrune.HolesKeepDirs` says exactly when pruning still keeps what is needed and no more.
* Pruning removes one directory of its chain for each level that the list comes up by, and sets depths again by
  counting down (`flist.c:3978-3995`). With a missing parent it may remove a directory that is needed
  (`FilePrune.MissingParentLosesDir`), or give one a wrong depth (`FilePrune.JumpIsOff`).
  `FilePrune.Outcome` is what becomes of any list, `WellIff` says exactly when that is right, and
  `RightForAllFilters` that it is right for all filters exactly if no directory has right behind it one more than
  one level below. A list that names all parents has none (`ParentedNoJumps`).
* `read_delay_line` counts a "!" in front of a record as part of the length of its name (`generator.c:245-249`).
  A name of the greatest length that is remembered with a "!" is taken for too long, and ends the queue:
  `DeleteDelay.LongNameIsLost`. `DecodeLine` and `ReadableAll` say exactly what is read back.
* `map_ptr` rounds a request that does not fit in its default window up to whole kilobytes, which may reach beyond
  the end of the file and then sets the error status of an intact file (`fileio.c:256-257`). `MapWindow.WindowCovers`
  gives the condition, and `MapWindow.StatusOfIntactFile` is a run of the generator's requests on a file of some
  64 GB that meets it. The bytes returned are right all the same.

## Model

| member | source | states |
|---|---|---|
| Checksum.GetChecksum1 | checksum.c:106-122 | the unrolled loop computes the weak sum: bytes, and bytes weighted by their distance from the end, each reduced to 16 bits |
| Checksum.SumsDropFirst | match.c:324-325 | taking the first byte out of a window changes the two sums by the byte, and by the byte times the window's length |
| Checksum.SplitWeak | match.c:164-166 | the running sums taken from a weak sum agree with the window's sums modulo 2^16 |
| Checksum.Roll | match.c:320-331 | moving the window on by one byte, or shortening it at the end of the file, keeps the running sums those of the window, whatever their upper halves hold |
| Checksum.Accumulator.SumUpdate | checksum.c:297-336 | however data are handed over, chunks hashed and residue together are all of them, in order |
| Checksum.Accumulator.SumEnd | checksum.c:342-367 | the message that is digested is all that was handed over |
| SumSizes.RootIs | generator.c:647-654 | there is one largest multiple of 8 whose square is not above the length: the reference for the block length |
| SumSizes.TopBit | generator.c:643 | dividing by 4 finds the top bit of the square root |
| SumSizes.BitRoot | generator.c:647-653 | building the root bit by bit down to 8 gives that multiple of 8, below twice the top bit |
| SumSizes.BitsBound | generator.c:664-666 | the bits of a strong sum: two for each doubling of the file's length, one less for each of the block's, stated by powers of 2 |
| SumSizes.Heuristic | generator.c:639-655 | the block length is that root, no less than BLOCK_SIZE, no more than the protocol's maximum |
| SumSizes.CountBits | generator.c:664-666 | the two counting loops give bias + 2 log2(length) - log2(block length), not below 0, within the same bounds |
| SumSizes.SumLengthIs | generator.c:668-670 | a strong sum has the fewest bytes that hold its bits less those of the rolling sum, within what is asked for and what there is |
| SumSizes.LengthFits | generator.c:664-670 | what follows for the number of bytes: enough, and no more than needed or asked for |
| SumSizes.SumSizesSqroot | generator.c:623-688 | for every length: block length, sum length, count and remainder, each bounded from both sides; a count of -1 exactly for a negative length or more blocks than 31 bits can count |
| SumSizes.HeadAccepted | io.c:1891-1935 | every head that is sent is read back unchanged and accepted |
| SumSizes.GenerateSums | generator.c:703-742 | the sums sent are those of the blocks of the file, in order, the last one perhaps shorter |
| SumSizes.ReceiveSums | sender.c:74-133 | the table is rebuilt from head and sums, offsets and lengths included, and so is the file's length |
| SumSizes.BlocksTile | sender.c:107-118 | the table's blocks lie end to end, make up the whole basis file, and each row has the sums of its block |
| SumSizes.SumsMakeSetting | match.c:433-439 | such a table is the setting that the scan needs, and each row has the sums of its block |
| HashIndex.Index.BuildHashTable | match.c:53-88 | the chains link, from each slot, exactly the blocks of that slot, the highest index first |
| HashIndex.Index.HashEntry | match.c:189-200 | both table sizes look a window up under the hash of its weak sum, though the running sums may have overflowed |
| HashIndex.Index.Unlink | match.c:210-214 | dropping an entry from a chain loses only blocks that can never be used again |
| HashIndex.Index.Lookup | match.c:189-240 | the block found fits at this position, and no usable block with a higher index does; if none is found, none fits |
| HashIndex.Index.WalkChain | match.c:204-311 | the same for a walk along one chain, with entries dropped on the way |
| DeltaJob.Job.NoFitPastEnd | match.c:172 | from the computed end on no block of the table can match |
| DeltaJob.Job.LastFit | match.c:204-311 | the linear scan of the block table for the highest usable block that fits, as the reference for the chains |
| DeltaJob.Job.FitsIs | match.c:218-240 | a block fits where the source holds its bytes, and without collisions only there |
| DeltaJob.Job.PickIsFaithful | match.c:242-302 | without collisions of both sums, the block emitted for a fitting block has the bytes of the source if the scan is not misled by a failed re-alignment; if it is, a full block has not |
| DeltaJob.Job.NeverMisled | match.c:261-281 | it is not, if all full windows of weak sum zero hold the same bytes, and no block with another weak sum has their strong sum |
| DeltaJob.ScanIsMisled | match.c:242-302 | a file and a table, with a strong sum that never collides, for which the run from the start is misled and the output is not the source |
| DeltaJob.Job.PickStaysInside | match.c:288-300 | the block emitted stays within the source exactly if no longer wanted block has the sums of a short window, whatever collides |
| DeltaJob.Job.TailIsApart | match.c:288-300 | without collisions no longer block has the sums of a window |
| DeltaJob.Job.NeverOverruns | match.c:288-300 | if that never happens where a block fits, no block emitted reaches beyond the source |
| DeltaJob.TailOverruns | match.c:288-300 | a file, a table and a strong sum for which the run from the start takes a full block where one byte is left |
| DeltaJob.Job.PickIsUsable | match.c:207-215 | in place, an emitted block starts at or behind the output position, or is flagged; a flagged block is emitted at its own offset |
| DeltaJob.Job.PickInPlace | match.c:242-302 | in place, exactly which block is emitted where, and whether it is flagged |
| DeltaJob.Job.PickIsFlagged | match.c:246-285 | in place, a block that is emitted at its own offset is flagged |
| DeltaJob.Job.PickIsNext | match.c:204-302 | the block emitted is the next match of the run that tries all blocks at all positions, in place or not |
| DeltaJob.Job.PickIsGreedy | match.c:288-300 | without in-place updating and without collisions, the choice is that of the greedy scan by trying all blocks |
| DeltaJob.Job.RunIsGreedy | match.c:140-345 | so is the whole run |
| DeltaSender.Sender.MatchedLiteral | match.c:103-137 | a literal token list for the bytes since the last match, fed to the whole-file sum in chunks |
| DeltaSender.Sender.MatchedBlock | match.c:103-137 | the same, followed by a match token; both the literal and the block are fed to the sum |
| DeltaSender.Sender.Align | match.c:246-250 | the aligned offset is the first multiple of the block length that is not below the position |
| DeltaSender.Sender.TakeMatch | match.c:242-310 | taking a match keeps what has been emitted a cover of the source so far |
| DeltaSender.Sender.NextSums | match.c:313-331 | after a step the running sums are those of the next window |
| DeltaSender.Sender.ScanOne | match.c:179-341 | one turn of the scan keeps its invariant and moves on |
| DeltaSender.Sender.HashSearch | match.c:140-345 | whatever collides, unless a match would reach beyond the source: every source byte is summed once, in order; literal and matched bytes add up to the file; the matches are those of trying every block at every position; in place all copies are safe, and flagged blocks have been emitted at their own offset. Without collisions: these are all that are flagged, and replaying the tokens gives the source |
| DeltaSender.Sender.SumPrefix | match.c:412-431 | in the second append mode the existing part of the file is summed first |
| DeltaSender.Sender.MatchSums | match.c:401-449 | the same for a whole call, with an empty table and both append modes included; in append mode nothing is assumed of the sums |
| Tokens.ReplayChunks | token.c:242-257 | splitting a literal into chunks does not change what is replayed |
| Tokens.ChunksAre | token.c:242-257 | every piece of a literal but the last has the full size |
| Tokens.CopyReadsBasis | receiver.c:445-461 | a block that is safe to copy still has the bytes of the untouched basis when it is copied |
| Tokens.InPlaceEqualsUntouched | receiver.c:383-482 | replaying safe tokens inside the file that is overwritten gives the same as replaying them against an untouched basis |
| NameOrder.FNameCmp | flist.c:4097-4214 | the four-state comparison has the sign of the order of the names' keys, for both protocol families, with or without a shared dirname |
| NameOrder.BothAdvanced | flist.c:4132-4208 | moving on to the next part on both sides keeps what is left comparing as the whole names do, or decides by kind |
| NameComponents.OrderIsByComponents | flist.c:4082-4091 | for well-formed paths that order is lexicographic in components: a finished name first, an item before any directory, directories with a trailing slash |
| NameComponents.OldOrderIsByBytes | flist.c:4082-4085 | before protocol 29 full names compare byte by byte |
| NameComponents.RemovedFirst | flist.c:4097-4118 | a removed entry comes before any other |
| NameComponents.OrderIsTotal | flist.c:4097-4214 | the order is total and transitive |
| NameComponents.KeyIsName | flist.c:4089-4091 | two names that compare equal are the same name |
| NameComponents.BeneathIsPrefix | flist.c:4085-4088 | what lies beneath a directory is exactly what has its key as a proper prefix |
| NameComponents.DirectoryBeforeContents | flist.c:4085-4088 | a directory sorts before its contents, and nothing else comes between them |
| FileSort.MergeSortKeepsAll | flist.c:1604-1640 | the sort is a permutation |
| FileSort.MergeSortIsStable | flist.c:1604-1640 | the result is sorted, and each class of equal entries keeps its order |
| FileSort.StableSortUnique | flist.c:1642-1659 | only one list is sorted and stable |
| FileSort.SortOfSelection | flist.c:3094-3116 | sorting any selection, such as the directories, gives the selection of the sorted list |
| FileSort.SkipInPlace | flist.c:1620-1624 | entries of the left run that are in place are passed without copying |
| FileSort.MergeHalves | flist.c:1620-1640 | merging two adjacent runs with scratch room for the left one only gives their merge |
| FileSort.FsortTmp | flist.c:1604-1640 | the sort in place computes the merge sort of a part of the array, touches nothing outside, and needs half as many scratch slots |
| FileSort.Fsort | flist.c:1646-1659 | the same for a whole list, with the scratch array it allocates |
| FileFind.NextActive | flist.c:3677-3685 | the cached distances lead to the next active entry above, and stay sound when one is renewed |
| FileFind.PreviousActive | flist.c:3686-3695 | likewise below |
| FileFind.EqualsAgree | flist.c:3664-3665 | from protocol 29 on, names that compare equal are both directories or both not |
| FileFind.FlistFind | flist.c:3664-3713 | finds an active entry that compares equal and agrees in whether it is a directory; from protocol 29 on, or if no two entries compare equal, it finds none exactly if there is none; for any sound distances; it writes nothing but distances, which stay sound |
| FileClean.ItemBeforeDir | flist.c:4088-4091 | a plain item sorts before a directory of the same path |
| FileClean.StepNew | flist.c:3946-3947 | a new name is kept where it stands |
| FileClean.StepDup | flist.c:3907-3935 | a second entry of a name goes, and a directory passes its vital flags on |
| FileClean.StepTwin | flist.c:3897-3945 | a directory takes the place of a plain item of its path, and the first active entry is found again |
| FileClean.FindTwin | flist.c:3897-3904 | looking for the plain item finds it exactly if there is one, without harm to the list |
| FileClean.KeptOfClass | flist.c:3909-3926 | what is kept of a name depends on the entries of that name alone |
| FileClean.KeptStands | flist.c:3909-3926 | what is kept of a name is its first entry; a directory is at the top or has content if one of its entries says so, and is implied if all do |
| FileClean.SortAndClean | flist.c:3861-3949 | every path is active exactly once, in order, as a directory if any entry was one; it is the first entry of its name as received, with the flags of all of them; low and high are the first and last active entries; the list can be searched |
| FilePrune.Reprieve | flist.c:3988-3995 | following the chain of negative depths gives every directory in it the depth that is counted down; those that do not get their own back are named exactly |
| FilePrune.Dump | flist.c:3978-3985 | coming back up removes as many directories of the chain as there are levels, or all |
| FilePrune.PoppedAre | flist.c:3978-3985 | those are all that are to go, and the ones that are not are named exactly |
| FilePrune.PrunedSearchable | flist.c:4019-4029 | a list that could be searched can still be searched between the new end points, holes and their distances included |
| FilePrune.PruneNext | flist.c:3971-4009 | one turn of the loop keeps chain and list as they should be, for any list |
| FilePrune.PruneEmptyDirs | flist.c:3966-4030 | of any list: what is removed, kept, or kept with a wrong depth; exactly the entries with no anchor inside are removed and all others as before if and only if all goes well; low and high are found again, and the list can be searched if it could be before |
| FilePrune.WellIff | flist.c:3966-4030 | that is so exactly if no depth is counted wrong and no directory removed too early is needed |
| FilePrune.NoJumpsGoesWell | flist.c:3977-4008 | all goes well if no directory that may be pruned has right behind it one more than one level below |
| FilePrune.JumpIsOff | flist.c:3986-3995 | otherwise, with that one excluded, it gets a wrong depth |
| FilePrune.RightForAllFilters | flist.c:3966-4030 | all goes well whatever is excluded exactly if there is no such jump |
| FilePrune.MissingParentLosesDir | flist.c:3978-3985 | a list for which a directory is removed though what is beneath it is kept |
| FilePrune.OpenIsBeneath | flist.c:3977-4008 | in a sorted list that names all parents, being inside of a directory by position is lying beneath it by name |
| FilePrune.ParentedNoJumps | flist.c:1004-1012 | such a list has no such jumps |
| FilePrune.PruneByNames | flist.c:3966-4017 | there, a directory is kept exactly if it, or something beneath it, is no directory or an excluded one, and has its depth |
| FilePrune.HolesKeepDirs | flist.c:3999-4008 | with removed entries in the list, only what is really needed is kept exactly if no directory has a removed entry inside without being needed anyway |
| FilePrune.DuplicateKeepsEmptyDir | flist.c:3999-4008 | an empty directory that was listed twice is kept, another one is not |
| DirWalk.Walker.AddDirs | flist.c:1663-1699 | the directories of a list are linked to each other and their parent, in order, and nothing else changes; "." is listed but not linked |
| DirWalk.Walker.CollectGroup | flist.c:2011-2024 | all directories of one name, and no others, are sent together |
| DirWalk.Walker.Climb | flist.c:2061-2074 | going back up ends at the next sibling not visited, or at the end of the tree |
| DirWalk.Walker.SendOne | flist.c:1992-2075 | each turn sends the list that comes next in pre-order, at its depth, and leaves one list less to send |
| DirWalk.ListOfGroup | flist.c:1992-2075 | the pre-order has one list for every group, at its depth in the tree |
| DirWalk.ListsInOrder | flist.c:2052-2075 | a group's list comes before those of what is beneath it, and these before those of the groups behind it |
| DirWalk.Walker.SendExtraFileList | flist.c:1977-2081 | over any calls, on any finite tree: the lists sent are a beginning of the pre-order; the end is announced exactly when they are all of it; a call stops as soon as there are enough files, and not before unless at the end; the files counted are those in the lists sent |
| FileEntry.ReadWriteFlags | flist.c:556-567 | the flags of an entry are read back, and are never an end of the list |
| FileEntry.FlagsMean | flist.c:431-562 | whatever is as in the last entry is left out |
| FileEntry.SharedIsLongest | flist.c:546-551 | no more of the last name could be left out, up to 255 bytes |
| FileEntry.ReadWriteName | flist.c:546-579 | a name is rebuilt from what it shares with the last one and what follows |
| FileEntry.ReadWriteNumbers | flist.c:589-623 | length, time, nanoseconds, mode and ids are read back, whichever of them are left out |
| FileEntry.ReadWriteLink | flist.c:641-646 | so is a symlink's target |
| FileEntry.ReadWriteEntry | flist.c:408-683 | an entry is read back as the receiver is to see it, exactly its bytes are consumed, and the static variables agree at both ends |
| FileEntry.ToldIs | flist.c:408-683 | the receiver is told everything if all options are on, and always the name, mode, length, time and directory marks |
| FileEntry.ReadWriteList | flist.c:3498-3514 | so is every list with either kind of end |
| FileEntry.ListEnd.CollectFlags | flist.c:431-562 | the flags say exactly what is shared with the last entry, and the static variables become the new entry's |
| FileEntry.ListEnd.SendFileEntry | flist.c:408-683 | what is written is the entry's encoding, and the static variables follow |
| FileEntry.ListEnd.RecvFileEntry | flist.c:685-1147 | what is read is the decoding, and the static variables follow |
| Varint.UnpackPack | io.c:1722-1793 | a packed number is unpacked, nothing behind it is touched |
| Varint.ReadWriteNum | io.c:2014-2066 | every 32-bit number, and every 64-bit number with at least three bytes on the wire, is read back |
| Varint.SmallNumbers | io.c:2014-2035 | numbers up to 127 take one byte, and up to 0x3FFF two |
| Varint.TwoBytesTooFew | io.c:114-119 | with two bytes at least, a 64-bit number is read back exactly if its last byte is below 2 |
| Varint.WritePacked | io.c:2014-2066 | the loop over the bytes writes the packed form |
| Varint.ReadPacked | io.c:1722-1793 | copying the bytes back gives the unpacked number, or fails as the code does |
| Indices.DecodeEncode | io.c:2169-2248 | an index is read back by an end whose state agrees, and the states agree after it |
| Indices.IndexBytes | io.c:2169-2213 | how many bytes an index takes, and which for the usual ones |
| Indices.ReadWriteItems | io.c:2014-2248 | any mix of numbers and indices is read back, with exactly the written bytes consumed and the state the same at both ends |
| Indices.NdxEnd.WriteNdx | io.c:2169-2213 | writes the encoding of an index and keeps the state |
| Indices.NdxEnd.ReadNdx | io.c:2216-2248 | reads any bytes as the decoding says and keeps the state |
| Ring.TakenShows | io.c:836-848 | taking bytes from a circular buffer leaves what is behind them, though its size may come back |
| Ring.RestoreIs | io.c:129-130 | the full size of a buffer that was cut short is found again |
| Ring.CopyIn | io.c:2122-2127 | bytes are stored behind what is there, in two parts if need be, and nothing else is touched |
| Frames.HeaderParts | io.c:1424-1428 | a frame header can be taken apart, and is positive as a 32-bit number |
| Frames.HeaderBytes | io.c:1007 | the bytes of a header |
| MultiplexOut.Writer.StartFrame | io.c:661-687 | the waiting data become one frame, and room for the next header is reserved, at the start of the buffer if it does not fit at its end |
| MultiplexOut.Writer.WriteSome | io.c:803-848 | writing a number of bytes of a frame leaves the buffer what it was less those bytes |
| MultiplexOut.Writer.WriteOut | io.c:803-848 | likewise for as many bytes as the descriptor takes |
| MultiplexOut.Writer.WriteSomeMsg | io.c:803-848 | likewise for a number of bytes of messages |
| MultiplexOut.Writer.WriteMsg | io.c:803-848 | likewise for as many bytes of messages as the descriptor takes |
| MultiplexOut.Writer.PerformIo | io.c:547-862 | whatever parts are written, and whatever messages come in and are answered meanwhile, room is made in the end, frames are not interrupted, and nothing is lost |
| MultiplexOut.Writer.Turn | io.c:656-699 | each turn writes part of what is due: of a frame in progress, of the messages, or of the waiting data |
| MultiplexOut.Writer.TakeIncoming | io.c:853-857 | messages read in between leave the connection as it should be, and what they call for is handed over |
| MultiplexOut.Writer.AwaitInput | io.c:656-699 | while input is awaited nothing is lost either, whether or not the descriptor is ready |
| MultiplexOut.Writer.WriteBuf | io.c:2106-2135 | data are taken in order, and refused exactly if they do not fit in the buffer at its present size, less a header |
| MultiplexOut.Writer.SendMsg | io.c:933-1013 | messages are taken whole, one after the other, and refused exactly if they do not fit in the message buffer at its present size, less three bytes |
| MultiplexOut.Writer.IoFlush | io.c:1987-1998 | unless messages come in, a full flush leaves no data behind with the buffer at its full size, or no data or very many of them waiting, and always those that are no more than the buffer is cut by; it leaves no message behind with the message buffer at its full size, or more data waiting; a normal flush sends something; it is refused exactly if the buffer is overfull by more than a byte |
| MultiplexOut.FlushMayKeep | io.c:1989-1991 | from every other state, a run of a full flush that keeps any number of bytes of data up to those the buffer is cut by |
| MultiplexOut.FlushMayKeepMsg | io.c:1989-1997 | from every other state, one that keeps as many bytes of messages |
| MultiplexOut.CutShort | io.c:678-686 | a run from the start to a buffer that is cut by one, two or three bytes |
| MultiplexOut.FullFlushKeeps | io.c:1989-1991 | a run from the start in which a full flush keeps all data that wait |
| MultiplexOut.CutShortMsg | io.c:958-990 | a run from the start to a message buffer that is cut by one, two or three bytes |
| MultiplexOut.FullFlushKeepsMsg | io.c:1996-1997 | a run from the start in which a full flush keeps bytes of a message |
| MultiplexOut.NormalFlushRefused | io.c:1992-1993 | a run in which a normal flush is refused |
| MultiplexOut.Writer.constructor | io.c:2298-2315 | multiplexing starts with room for the first header and nothing else |
| MultiplexIn.CopyOutOk | io.c:893-903 | comparing read positions before and after tells where to split a copy, also if an empty buffer has started over in between |
| MultiplexIn.Reader.PerformIo | io.c:557-561 | the buffer holds what has come in, and as much as is needed unless the connection ends |
| MultiplexIn.Reader.RawReadBuf | io.c:893-903 | the next bytes of the stream, in one piece |
| MultiplexIn.AcceptedByLength | io.c:1432-1600 | which messages are taken, by code and length |
| MultiplexIn.Reader.ReadAMsg | io.c:1413-1443 | a header is read; a message is taken whole, a data frame is left to be read; it fails exactly for a message that is not taken or not all there |
| MultiplexIn.Reader.ReadBuf | io.c:1814-1855 | the bytes handed out are the next data, across frames and past messages; with all sent it fails only if there are not as many |
| MultiplexIn.SentIsFrames | io.c:528-537 | at any time the bytes sent are the beginning of whole frames, so that no message stands inside of a data frame |
| MultiplexIn.EndToEnd | io.c:547-903 | what is read is what was handed to the writer, data and messages each in order, and all of it once all frames are read |
| MapWindow.WindowCovers | fileio.c:250-257 | the window covers the request; when it reaches beyond the file |
| MapWindow.MapStruct.Reuse | fileio.c:267-278 | bytes of the last window are reused only where they belong |
| MapWindow.MapStruct.FillWindow | fileio.c:300-313 | whatever the reads return, the window holds the file's bytes, and zeros behind its end |
| MapWindow.MapStruct.Slide | fileio.c:250-315 | there is always something to read, and the window moved covers the request |
| MapWindow.MapStruct.MapPtr | fileio.c:233-315 | the bytes at the place returned are the file's at that offset; the error status is set exactly if a new window reaches beyond the file |
| MapWindow.StatusOfIntactFile | generator.c:711-719 | a run of requests that sets the error status of an intact file |
| DeleteDelay.DecodeLine | generator.c:234-259 | a line is read back as the record it was printed from exactly if the name is short enough, counting the "!" |
| DeleteDelay.RecordFits | generator.c:169-189 | every record fits in the buffer |
| DeleteDelay.DelayQueue.RememberDelete | generator.c:169-193 | file and buffer together hold all records in order, also if a "!" has gone to the file alone |
| DeleteDelay.DelayQueue.FindLine | generator.c:200-232 | whatever the reads return, a line is found unless there is none or it is longer than the buffer |
| DeleteDelay.DelayQueue.ReadDelayLine | generator.c:194-260 | returns exactly the next record, unless there is none or its name is too long |
| DeleteDelay.DelayQueue.DoDelayedDeletions | generator.c:262-275 | what is deleted is what was remembered, in order: all of it if every name has room for its NUL and its "!" in a path, and else what stands in front of the first that has not |
| DeleteDelay.ReadableAll | generator.c:245-252 | that is all of it exactly if every name is short enough |
| DeleteDelay.ReadableFront | generator.c:245-252 | the records that can be read back, without the decoding |
| DeleteDelay.LongNameIsLost | generator.c:245-252 | a name of the greatest length with a "!" is lost, and all behind it; without one it is not |
| HashTable.HashTable.constructor | hashtable.c:24-57 | the size is the smallest power of 2 from 16 up that holds what is asked for |
| HashTable.NotThere | hashtable.c:146-163 | a key not met in front of a free slot is not in the table |
| HashTable.HashTable.Probe | hashtable.c:146-163 | probing ends at the key or at a free slot, for any hash function |
| HashTable.HashTable.Grow | hashtable.c:82-107 | doubling the size keeps all keys and data |
| HashTable.HashTable.Find | hashtable.c:71-172 | the table is a map: a key is found exactly if it is in it, is added exactly if that is wanted and it is not, and key 0 is refused; it doubles exactly if something is to be added and more than three quarters are used |

## Left out

- MD4 and MD5: the strong sum is a parameter.
- DeltaSender.Sender.MatchSums: in append mode the existing part is taken to be no longer than the source; the whole-file branch and the counters for hits and false alarms are not modelled.
- DeltaSender.Sender.HashSearch: windows are read straight from the source; that the sliding window returns those bytes is proved on its own.
- DeltaSender.Sender.HashSearch: a run in which a full block reaches beyond the end of the source (`TailApart`) is followed only up to there.
- DeltaSender.Sender.HashSearch: in place, that the replay gives the source is stated for files whose full windows of weak sum zero are all alike and have no block's strong sum by chance; without in-place updating that is not asked for.
- NameOrder.FNameCmp: a directory "." with a directory name in front of it is left out, for which the code reads beyond the end of a string.
- FileSort.Fsort: entries are values in an array, not pointers to shared structures; the unstable sort that `use_qsort` asks for is not modelled.
- FileClean.SortAndClean: protocol 29 and later, on the receiving side; "." is only ever a directory.
- FilePrune.PruneEmptyDirs: the filters are a predicate on names.
- DirWalk.Walker.SendOne: what a scan of the disk gives is a parameter; index numbers on the wire, statistics and error reports are not modelled.
- FileEntry.ReadWriteEntry: hard links, devices, user and group names, checksums, character conversion, and protocols below 30; at protocol 30 nanoseconds are not sent. The receiver's cleaning of a name is taken to leave it alone.
- Indices.DecodeEncode: the smallest 32-bit number, which has no positive counterpart; batch files and protocols below 30.
- MultiplexOut.Writer.PerformIo: each write takes some of the bytes offered; select, timeouts, bandwidth limits, and output that is not multiplexed are not modelled.
- MultiplexOut.Writer.SendMsg: messages are not converted to another character set.
- MultiplexOut.Writer.TakeIncoming: a message that comes in calls for at most one other, which fits in the message buffer.
- MultiplexIn.Reader.ReadAMsg: what is done with a message is not modelled, but which messages are taken in which role is.
- MapWindow.MapStruct.MapPtr: requests lie within the file, the file does not change, and reads fail in no other way than by ending.
- DeleteDelay.DelayQueue.RememberDelete: writing to the temporary file does not fail.
- HashTable.HashTable.Find: keys fit in the width of the table's nodes.
- Compressed tokens, the sparse writer, `send_file_list_and_file` and `recv_file_list_and_file`, options, the daemon, logging, and the local additions for backup versions.
