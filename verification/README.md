# Verified model of the native layer: file cache, read-ahead file, traps, character conversion

This project models, in Dafny 4.11, the parts of the repository's native code that keep the most state or do the most
arithmetic, and proves what they promise to their callers. Paths are relative to the repository; `oscl_config` stands
for `listener/src/main/jni/oscl_config` below.

- **Write-back file cache** (`oscl_config/oscl_file_cache.cpp`): one window of a file in memory, with a virtual position,
  a virtual size and a single dirty range. `FileCache.dfy` has the class with the source's fields and methods, over the
  native file of `NativeFile.dfy`, whose calls may fail at any time. `CacheWindow.dfy` says which bytes a window makes a
  caller see, `PlainFile.dfy` is the byte sequence with a position that the cache stands for, and `CacheRuns.dfy` proves
  whole runs of calls equal to runs on it. `CacheCalls.dfy` says what the calls do by the bits of the mode and the bytes of
  the file alone. `ReadCount.dfy` says how many bytes the read loop gives for elements of any size.
- **Read-ahead file** (`oscl_config/oscl_file_async_read.cpp`): four buffers and a stitching buffer, filled by a reader
  thread and by blocking reads. `AsyncFile.dfy` is a state machine of the user's calls, the completion of the reader
  thread's request, and the scheduler's `Run`; `AsyncBuffers.dfy` has the sort and the chains. `AsyncBook.dfy` keeps the
  books: which buffer stands for which part of the file, the chain, the positions and the request, without a single byte.
  Every method of the class does to them what the book says, so a run of the book tells when an assertion of the source
  fails. `AsyncRuns.dfy` plays any interleaving of the steps, and `AsyncStall.dfy` has a run in which one fails.
  `AsyncCalls.dfy` says what seeks and reads give, when a request is issued, and what is found, by the bytes of the file and
  the fields of the buffers alone.
- **Trap and cleanup stack** (`oscl_config/oscl_error_trapcleanup.cpp` and its neighbours): a hand-built exception
  mechanism. `TrapPrograms.dfy` has a small language of pushes, pops, leaves and try blocks with a reference semantics
  that gives each try block a frame of its own; `TrapStack.dfy` has the one list, the bounded trap marks and the bounded
  jump marks of the source, and proves that they run every program as the reference says. A jump is an outcome that
  statements hand on up to the try block whose mark it names. `CleanUps.dfy` says which items programs destroy, and with
  which action.
- **Character conversion** (`listener/src/main/jni/iconv/iconv.c`): `UnicodeForms.dfy` has UTF-8, UTF-16, UTF-32 and host
  wide characters one at a time and in texts; `SelectLoop.dfy` the loop that finds the n-th code point not in a table;
  `PackedTable.dfy` the ten-bit code page tables; `CharSets.dfy` decodes and encodes one character of each set; and
  `Iconv.dfy` is the conversion loop. What they compute is said again without their own words: the bytes of the Unicode
  forms in `EncodedBytes.dfy`, the order of four-byte sequences and Hangul syllables in `SequenceOrder.dfy`, and what
  conversions do with texts, and why they end, in `PlainText.dfy`.
- **Priority ring** (`oscl_config/oscl_double_list.cpp`): `PriorityRing.dfy` works on linked objects in the heap, and
  `PriorityRuns.dfy` says what order any run of insertions and removals leaves, also by the calls of the run alone.
- **Glob matcher** (`oscl_config/oscl_file_find.cpp`): `Glob.dfy` proves the matcher equal to the naive one, and
  `Patterns.dfy` says which texts each kind of pattern matches.

`Bytes.dfy` has what the files share: bytes, writing one sequence over part of another, and counting whole elements;
`Sequences.dfy` puts a sequence of sequences together.

Where the code differs from what its documentation promises, the model follows the code:

- `OsclFileCache::Read` promises as many whole elements as are asked for or left. The end-of-file test is repeated on each
  pass, also in the middle of an element, so an element that crosses a refill near the end can be cut short:
  `ReadCount.WholeElementsRead` has the exact condition, `ReadCount.ElementCutShort` an input. The test is made on 32 bits:
  with exactly 4 GiB left nothing is read (`ReadCount.NothingReadAtFourGiB`).
- `GetNextDataBuffer` means to fall back on a buffer that could be linked, but remembers the wrong variable; the fallback
  is never used. The contract of `AsyncFiles.AsyncFile.GetNextDataBuffer` says what is returned instead.
- The n-th code point not in a table is found for every n exactly when the table has no duplicates from the starting point
  on (`SelectLoop.SelectCorrectIffNoDuplicates`).
- The read-ahead file asserts that there is always a buffer for the next asynchronous read after a blocking one. There is
  none exactly when all buffers are valid and each is linked, in use, or could be linked: the contract of
  `AsyncFiles.AsyncFile.StartNextRead` has the condition, `AsyncRuns.Play` carries it over whole runs, and
  `AsyncStall.HistoryStalls` has a run in which it comes true. Where assertions are not compiled in
  (`oscl_config/oscl_assert.h:58-63`) the positions are then swapped already, and the next request is for data that do not
  continue the buffer it writes to (`AsyncStall.NextRequestIsMisplaced`). The other assertion of `StartNextRead` is
  harmless there: nothing has been changed, and delivery goes on.
- GB18030 four-byte sequences are numbered through the whole range of their bytes, also into the surrogates and beyond
  Unicode. On those the UTF-8 encoder fails; the failure, -1, is added to the output pointer, and the byte before is lost
  when there is room for four. `Iconv.FourByteIsScalar` and `Iconv.FourByteLoses` say which sequences do that,
  `Iconv.LosesNothing` for which inputs of any set nothing is lost, and `Iconv.Gb18030Loses` has an input. A third byte of
  0xff is accepted, and has the number of the sequence that carries (`CharSets.SameFourByteIndex`).
- Hangul syllables outside KS C 5601 are accepted with first bytes up to 0xdd, although those with first bytes up to 0xc6 are
  all there are (`SequenceOrder.HangulIsComplete`). The others are read as code points behind the Hangul syllables, and from
  first byte 0xc8 on as surrogates or numbers behind them that take back a byte of UTF-8 (`SequenceOrder.HangulLoses`).
- The test for a target without surrogate pairs is made on the source, so a character from 0x10000 on is written to UCS-2 as
  two surrogates (`PlainText.ConvertsToUcs2`, `PlainText.SurrogatesInUcs2`).
- The reverse search of a code page adds 128 to the index in its map, and not the number of entries that the map elides:
  `Iconv.CodepageRoundTrip` has the exact condition for the emitted byte to read back.
- An item that carries the pointer of the current trap mark would hide the items above the mark from a leave:
  `TrapStacks.CleanUpIsExact` has the exact condition, `TrapStacks.NullPointerIsKept` an input.

## Model

| member | source | states |
|---|---|---|
| CacheRuns.Session | listener/src/main/jni/oscl_config/oscl_file_cache.cpp:46-445 | Opening the cache on a file, making any run of `Read` (bytes), `Write`, `Seek`, `Flush`, `Tell`, `FileSize` and `EndOfFile` calls, and closing it gives, over a native file that does not fail, every answer that a plain byte sequence with a position gives, and leaves the native file equal to that sequence |
| CacheRuns.Do | listener/src/main/jni/oscl_config/oscl_file_cache.cpp:120-445 | One call through the cache keeps its invariant whatever native calls fail, and when none fails it has exactly the effect and the answer of the plain file |
| CacheRuns.AppendRun | listener/src/main/jni/oscl_config/oscl_file_cache.cpp:233-246 | In append mode any run leaves the old bytes followed by everything written, in order, wherever the run seeks and reads in between |
| CacheRuns.WriteThenRead | listener/src/main/jni/oscl_config/oscl_file_cache.cpp:210-393 | What is written is what a seek back and a read return, in every writable mode, append mode included |
| CacheRuns.SizeOfRun | listener/src/main/jni/oscl_config/oscl_file_cache.cpp:285-287 | A run never shrinks the file, and grows it by no more than it writes |
| Bytes.WholeElementsFill | listener/src/main/jni/oscl_config/oscl_file_cache.cpp:192-194 | The number of elements that is returned is that of the whole ones: one more would not fit |
| CacheCalls.ReadGives | listener/src/main/jni/oscl_config/oscl_file_cache.cpp:120-193 | A read delivers the next bytes, as many as are asked for or left, exactly with one of the mode bits read, read-write, append and read-plus; without one it delivers nothing and moves nothing |
| CacheCalls.WriteGives | listener/src/main/jni/oscl_config/oscl_file_cache.cpp:220-299 | A write puts its bytes at the position, or at the end in append mode, moves there, and leaves every other byte, exactly with one of the bits read-write, append and read-plus; without one it changes nothing and answers 0 |
| CacheCalls.ReadsFromEnd | listener/src/main/jni/oscl_config/oscl_file_cache.cpp:340-345 | A seek back from the end by k bytes and a read of k bytes deliver the last k bytes of the file |
| CacheCalls.SeeksAdd | listener/src/main/jni/oscl_config/oscl_file_cache.cpp:334-362 | A seek from the start and one from there add up when the sum is inside the file, else the second is refused and the position stays |
| CacheCalls.SeekRefused | listener/src/main/jni/oscl_config/oscl_file_cache.cpp:334-356 | The seeks that are refused, origin by origin, which change nothing; all others succeed |
| CacheCalls.EndAndSize | listener/src/main/jni/oscl_config/oscl_file_cache.h:65-82 | The end of the file is reported exactly when nothing is left to read; the size is the position of the end |
| FileCaches.FileCache.Open | listener/src/main/jni/oscl_config/oscl_file_cache.cpp:46-90 | The opened cache stands for the native file at position 0, and changes nothing in it |
| FileCaches.FileCache.Close | listener/src/main/jni/oscl_config/oscl_file_cache.cpp:93-104 | A successful close leaves the native file as the caller saw it; after a failed flush each native byte is still a byte of the old native file or of the caller's view at the same place |
| FileCaches.FileCache.Read | listener/src/main/jni/oscl_config/oscl_file_cache.cpp:120-195 | Delivers the next bytes of the caller's view and moves the position by their number, in any element size, also when a native call fails; over a reliable file the number is `ReadCount.Copied`; a failure keeps the pending updates, or is a flush cut short, of which a prefix reached the file |
| FileCaches.FileCache.ReadBytes | listener/src/main/jni/oscl_config/oscl_file_cache.cpp:144-190 | The read loop: bytes delivered, position, and pending updates after any number of refills, with or without failures |
| FileCaches.FileCache.Write | listener/src/main/jni/oscl_config/oscl_file_cache.cpp:210-318 | Over a reliable file the caller's view becomes the plain write; in every case each byte of the native file is a byte it held before, a byte of the view before, or a byte of the view after the accepted bytes; the position is behind the accepted bytes, or after a failed flush at the end of the file if that is nearer |
| FileCaches.FileCache.CopyIn | listener/src/main/jni/oscl_config/oscl_file_cache.cpp:252-299 | One pass of the write loop keeps the whole invariant and overlays the view with exactly the bytes copied |
| FileCaches.FileCache.Seek | listener/src/main/jni/oscl_config/oscl_file_cache.cpp:329-393 | Succeeds only inside 0 to the file size, and then only moves the position; refuses everything else without a change; a failing native call keeps the view or leaves a flush cut short |
| FileCaches.FileCache.Flush | listener/src/main/jni/oscl_config/oscl_file_cache.cpp:406-445 | Success means nothing dirty and native bytes equal to the view; view, cached data and position stay |
| FileCaches.FileCache.SetCachePosition | listener/src/main/jni/oscl_config/oscl_file_cache.cpp:462-488 | Writes the pending updates, then leaves an empty cache at the new position that shows the same view; terminates together with `WriteCacheToFile` because the dirty range is cleared before they call each other again |
| FileCaches.FileCache.FillCacheFromFile | listener/src/main/jni/oscl_config/oscl_file_cache.cpp:503-548 | Refills an empty cache without changing the view or the position, to its full size or to the end of the file |
| FileCaches.FileCache.WriteCacheToFile | listener/src/main/jni/oscl_config/oscl_file_cache.cpp:564-632 | Success makes the native bytes equal to the view and keeps the cached data and the position; failure keeps everything, or leaves a prefix of the updates in the file and an empty cache that equals the file |
| FileCaches.FileCache.Recover | listener/src/main/jni/oscl_config/oscl_file_cache.cpp:619-629 | After a short write the cache is empty, shows the native file as it is, and stands at its old position or at the end of the file if that is nearer |
| CacheWindow.Window.PutWrites | listener/src/main/jni/oscl_config/oscl_file_cache.cpp:260-287 | Widening the one dirty range over the gap between two writes changes no byte of the view but those written |
| CacheWindow.Window.FlushWritesView | listener/src/main/jni/oscl_config/oscl_file_cache.cpp:604-614 | Writing the dirty range alone turns the native file into the view, and the same cached data then shows it |
| CacheWindow.Window.CleanShowsFile | listener/src/main/jni/oscl_config/oscl_file_cache.cpp:564-632 | With nothing dirty the view is the native file |
| ReadCount.WholeElementsRead | listener/src/main/jni/oscl_config/oscl_file_cache.cpp:146-193 | The promise of as many whole elements as asked for or left is kept if and only if no refill inside them comes when less than one element is left in the file, as the 32-bit test sees it |
| ReadCount.ElementCutShort | listener/src/main/jni/oscl_config/oscl_file_cache.cpp:153-157 | An input for which the promise fails: two four-byte elements with a refill inside the second |
| ReadCount.BytesReadExactly | listener/src/main/jni/oscl_config/oscl_file_cache.cpp:146-193 | Elements of one byte are never cut short below 4 GiB: the loop reads what was asked for or what is left |
| ReadCount.StopsWhereItGivesUp | listener/src/main/jni/oscl_config/oscl_file_cache.cpp:151-190 | A read that falls short stops at a refill, at its start or at the end of the file, at a place where the loop gives up |
| ReadCount.NeverPassesAGiveUp | listener/src/main/jni/oscl_config/oscl_file_cache.cpp:153-157 | No read gets past a refill at which less than one element is left |
| ReadCount.NothingReadAtFourGiB | listener/src/main/jni/oscl_config/oscl_file_cache.cpp:153-157 | With exactly 4 GiB left in the file the loop reads nothing |
| ReadCount.GivesUpBelowFourGiB | listener/src/main/jni/oscl_config/oscl_file_cache.cpp:153-157 | Below 4 GiB the loop gives up exactly when less than one element is left |
| ReadCount.RefillsAreRegular | listener/src/main/jni/oscl_config/oscl_file_cache.cpp:163-190 | Refills come one cache size apart, from the first on |
| AsyncRuns.Play | listener/src/main/jni/oscl_config/oscl_file_async_read.cpp:344-1078 | For every interleaving of user reads and seeks with completions of the reader thread and runs of the scheduler, every event comes through if and only if the book of buffers and positions says that each finds a place for its next request; then the user has read exactly the bytes a plain file delivers to those reads and seeks, is at its position, and the buffers are as the next request needs them |
| AsyncStall.HistoryStalls | listener/src/main/jni/oscl_config/oscl_file_async_read.cpp:980-1003 | A run of three reads, two steps back with a read each, and the completion of the request fails at its last event, with assertions and without: the next read is to start where the last blocking one ended, and all four buffers are linked |
| AsyncStall.NextRequestIsMisplaced | listener/src/main/jni/oscl_config/oscl_file_async_read.cpp:991-1003 | Where assertions are not compiled in, the read after that issues a request for data from offset 3, behind a full buffer that ends at offset 2 |
| AsyncBooks.Book.NextReadTracks | listener/src/main/jni/oscl_config/oscl_file_async_read.cpp:936-1020 | The buffer in use goes on ending where the next asynchronous read starts, unless the positions are swapped and there is no buffer; this is exact |
| AsyncBooks.NoNextBuffer | listener/src/main/jni/oscl_config/oscl_file_async_read.cpp:728-794 | There is no buffer to fill exactly when all are valid and none is spare |
| AsyncCalls.ReadsFromEnd | listener/src/main/jni/oscl_config/oscl_file_async_read.cpp:1048-1078 | After any run, a seek back from the end by k bytes and a read of k bytes or more deliver the last k bytes of the file and end at its end |
| AsyncCalls.SeeksAdd | listener/src/main/jni/oscl_config/oscl_file_async_read.cpp:1048-1078 | A seek from the start and one from there add up; an unknown origin moves nothing |
| AsyncCalls.SeekFails | listener/src/main/jni/oscl_config/oscl_file_async_read.cpp:1048-1078 | The seeks that stop the process, origin by origin; no seek touches anything but the position |
| AsyncCalls.ReadsConcatenate | listener/src/main/jni/oscl_config/oscl_file_async_read.cpp:344-410 | In a run without seeks the reads deliver the start of the file, piece by piece, as long as all that they ask for, or the whole file |
| AsyncCalls.LargeElements | listener/src/main/jni/oscl_config/oscl_file_async_read.cpp:371-379 | Elements larger than a buffer are not read |
| AsyncCalls.FirstRead | listener/src/main/jni/oscl_config/oscl_file_async_read.cpp:416-520 | The first byte of a file longer than a buffer makes a blocking read fill one buffer and the reader thread go on behind it in another, by 8 KiB or what fits |
| AsyncCalls.IssuesExactly | listener/src/main/jni/oscl_config/oscl_file_async_read.cpp:623-664 | With none outstanding, a request is issued exactly when less than three buffers and less than the file are read ahead and there is a place for it, said by the fields of the buffers |
| AsyncCalls.RunIssuesExactly | listener/src/main/jni/oscl_config/oscl_file_async_read.cpp:852-915 | The same after a completion, counted from where the last read ended |
| AsyncCalls.FindsExactly | listener/src/main/jni/oscl_config/oscl_file_async_read.cpp:522-620 | Data is found exactly in the first reachable buffer with its first byte, alone or with the first buffer that has the byte behind and begins there |
| AsyncRuns.OnePass | listener/src/main/jni/oscl_config/oscl_file_async_read.cpp:362-400 | A read of what fits a buffer and is in the file is one pass of the loop |
| AsyncFiles.AsyncFile.Read | listener/src/main/jni/oscl_config/oscl_file_async_read.cpp:344-410 | Delivers the next min(asked, left) bytes and moves the position by as many, for elements no larger than a buffer, from one buffer, from two stitched ones or by a blocking read, while the reader thread writes into the same buffers; larger elements give nothing. It comes through exactly when each of its passes finds a place for the next request |
| AsyncFiles.AsyncFile.ReadOnce | listener/src/main/jni/oscl_config/oscl_file_async_read.cpp:371-390 | One pass of the read loop, with a completion between finding the data and copying it; it fails exactly when starting the next request does |
| AsyncFiles.AsyncFile.DoRead | listener/src/main/jni/oscl_config/oscl_file_async_read.cpp:416-520 | The data found is published by its buffer, is in the file at the position, and is as much as was asked for or is left; starting the next request does not touch it, and fails exactly when the book says so |
| AsyncFiles.AsyncFile.FindDataBuffer | listener/src/main/jni/oscl_config/oscl_file_async_read.cpp:522-620 | Finds data exactly when the first buffer that has the offset, and is linked or could be put in front of the chain, has all of it, or the valid buffer that continues it has the rest; what is found lies in that buffer, or in the stitching buffer, which then holds the file's bytes at that place |
| AsyncFiles.AsyncFile.SyncRead | listener/src/main/jni/oscl_config/oscl_file_async_read.cpp:453-500 | A blocking read always finds a buffer other than the one being filled, and fills it with the file's bytes from the position on |
| AsyncFiles.AsyncFile.Complete | listener/src/main/jni/oscl_config/oscl_file_async_read.cpp:1169-1194 | A completion with any number of bytes keeps the invariant and what every buffer publishes |
| AsyncFiles.AsyncFile.Run | listener/src/main/jni/oscl_config/oscl_file_async_read.cpp:852-915 | Publishing a completed request and issuing the next one keep the invariant: every valid buffer agrees with the file, the request in flight targets the unused tail of the buffer in use, fits it, and starts where that buffer ends; it fails exactly when the next request finds no place |
| AsyncFiles.AsyncFile.StartNextRead | listener/src/main/jni/oscl_config/oscl_file_async_read.cpp:936-1046 | Finds no place exactly when the read is to start at neither position and assertions are compiled in, or where the last blocking read ended while every buffer is valid and none is spare; otherwise a request that is issued meets the invariant, no buffer that the user is reading is reused, and the failed assertion about the positions changes nothing where it is not compiled in |
| AsyncFiles.AsyncFile.GetNextDataBuffer | listener/src/main/jni/oscl_config/oscl_file_async_read.cpp:728-794 | Returns an unused buffer, else the first of the recyclable ones with the smallest offset, else none, although a buffer that could be linked is to be the last resort: it is remembered in the wrong variable |
| AsyncFiles.AsyncFile.Seek | listener/src/main/jni/oscl_config/oscl_file_async_read.cpp:1048-1078 | Moves only the position; stops the process exactly on a target outside the file |
| AsyncFiles.AsyncFile.Relink | listener/src/main/jni/oscl_config/oscl_file_async_read.cpp:796-821 | The chain rebuilt for the user is consecutive, and no valid buffer outside it starts where it ends |
| AsyncFiles.StitchedHolds | listener/src/main/jni/oscl_config/oscl_file_async_read.cpp:589-619 | The end of one buffer and the start of the next, put together, are the file's bytes at the offset |
| AsyncFiles.PublishMore | listener/src/main/jni/oscl_config/oscl_file_async_read.h:152-199 | Publishing more bytes that were read behind a buffer's end keeps it equal to the file |
| AsyncFiles.ReadSize | listener/src/main/jni/oscl_config/oscl_file_async_read.cpp:371-379 | The loop asks for whole elements that fit a buffer, at least one whenever one fits and one is wanted |
| AsyncBuffers.SortDataBuffers | listener/src/main/jni/oscl_config/oscl_file_async_read.cpp:666-726 | The sort by appending and swapping down is insertion in front of the first larger offset |
| AsyncBuffers.SortKeepsValid | listener/src/main/jni/oscl_config/oscl_file_async_read.cpp:666-726 | The sorted list has exactly the valid buffers |
| AsyncBuffers.SortIsSorted | listener/src/main/jni/oscl_config/oscl_file_async_read.cpp:666-726 | It is ordered by offset, has each buffer once, and keeps array order for equal offsets |
| AsyncBuffers.ReOrderBuffersQueue | listener/src/main/jni/oscl_config/oscl_file_async_read.cpp:796-821 | One pass over the sorted list follows the chain from the first buffer |
| AsyncBuffers.ChainFromIsComplete | listener/src/main/jni/oscl_config/oscl_file_async_read.cpp:796-821 | From a buffer that is not empty the chain is consecutive, of distinct valid buffers, and no valid buffer outside it starts at its end |
| AsyncBuffers.FollowIsMaximal | listener/src/main/jni/oscl_config/oscl_file_async_read.cpp:805-820 | One pass over a sorted list misses no continuation of the chain |
| TrapStacks.ErrorTrap.Exec | listener/src/main/jni/oscl_config/oscl_error_trapcleanup.cpp:74-310 | Any program of pushes, pops, deallocating pops, leaves and nested try blocks, run on the one list with marks and jumps, ends as the reference semantics with one frame for each try block says: same items, same clean-ups in the same order, same leave code, same depth of trap and jump marks |
| TrapStacks.ErrorTrap.ExecTry | listener/src/main/jni/oscl_config/oscl_error_imp_jumps.h:136-147 | A try block picks up exactly the leaves that jump to its own mark, and hands on every other end |
| TrapStacks.ErrorTrap.Trap | listener/src/main/jni/oscl_config/oscl_error_trapcleanup.cpp:74-106 | Opens a frame, up to 20 levels; trap marks and jump marks stay in step |
| TrapStacks.ErrorTrap.UnTrap | listener/src/main/jni/oscl_config/oscl_error_trapcleanup.cpp:108-150 | Restores the depth its `Trap` found, and stops the process exactly when the frame is not empty |
| TrapStacks.ErrorTrap.Leave | listener/src/main/jni/oscl_config/oscl_error.cpp:166-186 | Destroys the innermost frame, last in first out, and jumps to the innermost mark with the leave code |
| TrapStacks.ErrorTrap.PopOne | listener/src/main/jni/oscl_config/oscl_error_trapcleanup.cpp:232-299 | Takes off or destroys the topmost item of the frame; an empty frame is a leave with the underflow code |
| TrapStacks.ErrorTrap.PushL | listener/src/main/jni/oscl_config/oscl_error_trapcleanup.cpp:173-230 | Adds to the innermost frame, and stops the process outside any trap |
| TrapStacks.ErrorTrap.CleanUpLevel | listener/src/main/jni/oscl_config/oscl_error_trapcleanup.cpp:301-310 | The clean-up loop runs the clean-up of every item above the mark once, from the top down |
| TrapStacks.CleanUpIsExact | listener/src/main/jni/oscl_config/oscl_error_trapcleanup.cpp:301-310 | The loop stops exactly at the items pushed before the trap if and only if nothing pushed since carries the pointer of the mark |
| TrapStacks.NullPointerIsKept | listener/src/main/jni/oscl_config/oscl_error_trapcleanup.cpp:301-310 | An item that does: a null pointer, pushed first in the outermost trap, survives a leave |
| CleanUps.Play | listener/src/main/jni/oscl_config/oscl_error_trapcleanup.cpp:266-310 | A program that comes to its end on a new thread leaves the stack empty, and every item that it destroyed, and no other, has had its own action, in order: a base deleted, else an operation called, else memory freed |
| CleanUps.ActionsCount | listener/src/main/jni/oscl_config/oscl_error_trapcleanup.cpp:274-291 | Each action happens exactly as often as items that it is for are destroyed |
| CleanUps.ActionsInOrder | listener/src/main/jni/oscl_config/oscl_error_trapcleanup.cpp:274-291 | The actions come in the order of the items that have one |
| CleanUps.PopAndPopDealloc | listener/src/main/jni/oscl_config/oscl_error_trapcleanup.cpp:259-299 | Of n items from the top down, the one statement hands them back and the other destroys them; a negative count stops the one and does nothing in the other |
| CleanUps.PopTooMany | listener/src/main/jni/oscl_config/oscl_error_trapcleanup.cpp:232-242 | More than there are: all of the frame are taken off, then the leave code is 112 |
| CleanUps.LeaveDestroys | listener/src/main/jni/oscl_config/oscl_error_trapcleanup.cpp:301-310 | Whatever a try block has pushed, a leave in it destroys from the top down, and its reason is reported |
| CleanUps.PopReleases | listener/src/main/jni/oscl_config/oscl_error_trapcleanup.cpp:259-264 | What is taken off again is not destroyed |
| CleanUps.CaughtIsTested | listener/src/main/jni/oscl_config/oscl_error_imp_jumps.h:136-147 | What follows a try block sees whether a leave with a reason other than 0 was caught |
| CleanUps.LeaveSkips | listener/src/main/jni/oscl_config/oscl_error.cpp:166-186 | Nothing behind a leave runs in its try block |
| CleanUps.OutsideAnyTrap | listener/src/main/jni/oscl_config/oscl_error_trapcleanup.cpp:173-310 | Outside any try block every use of the cleanup stack stops the process |
| CleanUps.NestsTwenty | listener/src/main/jni/oscl_config/oscl_error_trapcleanup.cpp:74-106 | Twenty try blocks can be open, one in the other, and no more |
| TrapPrograms.NothingLeaks | listener/src/main/jni/oscl_config/oscl_error_trapcleanup.cpp:232-310 | In a program that completes, every pushed item has been taken off or destroyed, exactly once |
| TrapPrograms.RunConserves | listener/src/main/jni/oscl_config/oscl_error_trapcleanup.cpp:232-310 | Every step conserves, for each item, pushed against on the stack, released and destroyed |
| TrapPrograms.TryRestores | listener/src/main/jni/oscl_config/oscl_error_imp_jumps.h:136-147 | A try block leaves the cleanup stack as it was before, and reports the leave code of its body, or none |
| TrapPrograms.RunKeepsBelow | listener/src/main/jni/oscl_config/oscl_error_trapcleanup.cpp:173-310 | No program touches items below its innermost trap, and a leave empties the innermost frame only |
| TrapPrograms.DistinctPointersAreSafe | listener/src/main/jni/oscl_config/oscl_error_trapcleanup.cpp:127-150 | A program that pushes no null pointer and no pointer twice never pushes the one that marks its level |
| SelectLoop.SelectInTable | listener/src/main/jni/iconv/iconv.c:314-323 | The nested loops over the table compute `Select` for any table, and terminate |
| SelectLoop.SelectIsLeastFixpoint | listener/src/main/jni/iconv/iconv.c:314-323 | The result is the least number that equals the index plus the number of table entries up to it |
| SelectLoop.SelectFindsMissing | listener/src/main/jni/iconv/iconv.c:385-394 | For a table without duplicates the result is the one code point with that index among those that the table lacks, and no other has it |
| SelectLoop.SelectIsIncreasing | listener/src/main/jni/iconv/iconv.c:314-323 | Larger indexes give larger code points, whatever the table |
| SelectLoop.SelectReaches | listener/src/main/jni/iconv/iconv.c:314-323 | The result is at least a given number exactly when the table has, up to each smaller one, entries enough to push the index past it; for any table |
| SelectLoop.ReachesByCount | listener/src/main/jni/iconv/iconv.c:314-323 | Without duplicates that is one count: the index plus the entries below the number reach it |
| SelectLoop.SelectCorrectIffNoDuplicates | listener/src/main/jni/iconv/iconv.c:314-323 | The loop finds the right code point for every index if and only if no entry from the starting point on is there twice |
| PackedTable.FieldIsTenBits | listener/src/main/jni/iconv/iconv.c:403-404 | The two-byte shift expression reads bits 10c to 10c+9 of the packed table for every c |
| PackedTable.FieldOfPack | listener/src/main/jni/iconv/iconv.c:403-404 | Reading a table of four ten-bit numbers in five bytes gives back every number packed |
| CharSets.SameFourByteIndex | listener/src/main/jni/iconv/iconv.c:301-312 | Two accepted four-byte sequences have the same number exactly when they are the same, or one has third byte 0xff and the other carries it into its second and first bytes |
| CharSets.SameFourByteCharacter | listener/src/main/jni/iconv/iconv.c:301-324 | Two four-byte sequences decode to the same character exactly then, whatever the table |
| CharSets.HangulCharactersDiffer | listener/src/main/jni/iconv/iconv.c:371-396 | Two syllables outside KS C 5601 decode to different characters, whatever the table |
| CharSets.GbPairs | listener/src/main/jni/iconv/iconv.c:291-329 | A pair of bytes is read as one entry of the table, and each entry has exactly one pair: the second bytes skip 0x7f |
| CharSets.CodepageReadsPacked | listener/src/main/jni/iconv/iconv.c:400-406 | Over a map that packs any list of numbers, a byte is read through the number at its place in that list, the last one included |
| PlainText.CodepageReads | listener/src/main/jni/iconv/iconv.c:399-406 | A code page has the bytes below 128 and those that it elides as they are |
| PlainText.AsciiReads | listener/src/main/jni/iconv/iconv.c:209-221 | ASCII has the bytes below 128 and refuses the others |
| PlainText.Ucs2Reads | listener/src/main/jni/iconv/iconv.c:234-243 | UCS-2 is read as UTF-16 is, in the same byte order, but for surrogates, which are all refused |
| SequenceOrder.GbReads | listener/src/main/jni/iconv/iconv.c:291-329 | Which first and second bytes the three GB sets read, and exactly when more input is asked for |
| SequenceOrder.GbReadsFour | listener/src/main/jni/iconv/iconv.c:300-313 | Which four bytes GB18030 reads, the third up to 0xff |
| SequenceOrder.GbFirst | listener/src/main/jni/iconv/iconv.c:312-324 | The first four-byte sequence is the code point 0x80 when the table has nothing up to there |
| SequenceOrder.GbNext | listener/src/main/jni/iconv/iconv.c:306-324 | From each four-byte sequence of the standard to the one behind it, the character is the next code point that the table does not have |
| SequenceOrder.KscPairs | listener/src/main/jni/iconv/iconv.c:365-370 | Each pair of KS C 5601 is one entry of the table, and an empty entry is refused |
| SequenceOrder.EucKrReads | listener/src/main/jni/iconv/iconv.c:371-384 | Of the other pairs exactly the Hangul syllables are read |
| SequenceOrder.PairsAscend | listener/src/main/jni/iconv/iconv.c:375-384 | The pairs of the 8822 syllables, numbered, come in ascending order with none left out |
| SequenceOrder.HangulInOrder | listener/src/main/jni/iconv/iconv.c:380-396 | The pairs in their order are the code points from 0xac00 on that the table does not have, in their order |
| SequenceOrder.HangulIsComplete | listener/src/main/jni/iconv/iconv.c:380-396 | With the 2350 syllables of the standard in the table, the pairs are exactly the others of the 11172 Hangul syllables |
| SequenceOrder.BehindHangul | listener/src/main/jni/iconv/iconv.c:375-396 | Pairs with first bytes from 0xc7 on are accepted, and go on behind the last Hangul syllable |
| SequenceOrder.HangulIsScalar | listener/src/main/jni/iconv/iconv.c:375-396 | A syllable outside the table is a scalar value exactly with a first byte up to 0xc7 |
| SequenceOrder.HangulLoses | listener/src/main/jni/iconv/iconv.c:416-424 | Converted to UTF-8 with room for four bytes, exactly the others take back the byte written before them |
| CharSets.DecodeIsLocal | listener/src/main/jni/iconv/iconv.c:217-407 | A character is read from its own bytes alone, in every set modelled |
| CharSets.DecodeWithMore | listener/src/main/jni/iconv/iconv.c:217-407 | A character that has been read stays the same with more input behind it |
| CharSets.DecodedIsBounded | listener/src/main/jni/iconv/iconv.c:217-407 | Every decoded number fits the units it is written in |
| CharSets.SearchCodepage | listener/src/main/jni/iconv/iconv.c:431-446 | The reverse search emits the first place of the map that has the character, or a counted substitute |
| PlainText.CodepageWrites | listener/src/main/jni/iconv/iconv.c:429-446 | A code page writes a character below the ones that its map has as it is, another at the first place that has it, and an asterisk for one without a place |
| CharSets.WriteChar | listener/src/main/jni/iconv/iconv.c:409-471 | The encoding switch writes the bytes of a character one by one, all of them or none, and nothing outside them; its UTF-8 branch goes through a buffer of its own when there is room for fewer than four |
| CharSets.WcrtombInto | listener/src/main/jni/iconv/iconv.c:154-178 | The encoder writes, byte by byte, the bytes of a scalar value that `UnicodeForms.DecodeUtf8Encoded` reads back, and returns their number; for any other number it writes nothing and returns -1 |
| UnicodeForms.DecodeEncoded | listener/src/main/jni/iconv/iconv.c:126-251 | Decoding an encoded scalar value gives it back and takes exactly its bytes, whatever follows: UTF-8, UTF-16 and UTF-32 in both byte orders, and host wide characters |
| UnicodeForms.EncodeDecoded | listener/src/main/jni/iconv/iconv.c:126-251 | Whatever is accepted is a scalar value in its one encoded form |
| UnicodeForms.AcceptsExactlyEncodings | listener/src/main/jni/iconv/iconv.c:212-251 | A character is read if and only if the input starts with the encoding of a scalar value; unpaired surrogates (section 2.2 of RFC 2781), overlong forms and other numbers are refused in every form |
| UnicodeForms.EncodingIsUnique | listener/src/main/jni/iconv/iconv.c:154-178 | Encoded texts decode uniquely: equal bytes come from equal texts |
| UnicodeForms.DecodeUtf8Encoded | listener/src/main/jni/iconv/iconv.c:154-178 | What `wcrtomb_s` writes for a scalar value is read back by a decoder written from section 4 of RFC 3629 |
| EncodedBytes.Utf16Bytes | listener/src/main/jni/iconv/iconv.c:126-139 | The bytes of a character in UTF-16, in both orders, with the surrogates of section 2.1 of RFC 2781 |
| EncodedBytes.Utf32Bytes | listener/src/main/jni/iconv/iconv.c:141-152 | The bytes in UTF-32, in both orders, and in a host wide character |
| EncodedBytes.Utf8Bytes | listener/src/main/jni/iconv/iconv.c:154-178 | The bytes in UTF-8: the marker bits of section 3 of RFC 3629, with the number in the bits below |
| EncodedBytes.Utf8Starves | listener/src/main/jni/iconv/iconv.c:213-216 | More input is asked for exactly for the beginning of a character |
| EncodedBytes.OthersStarve | listener/src/main/jni/iconv/iconv.c:222-250 | In the other forms exactly for less than a unit, or a first surrogate without the second |
| EncodedBytes.Scalars | listener/src/main/jni/iconv/iconv.c:154-178 | The numbers that have an encoding: up to 0x10ffff, without the surrogates |
| EncodedBytes.KnownCharacters | listener/src/main/jni/iconv/iconv.c:154-178 | The examples of section 7 of RFC 3629 and section 5 of RFC 2781 |
| Iconv.Iconv | listener/src/main/jni/iconv/iconv.c:190-488 | The conversion loop writes, consumes, counts and returns what `Convert` says, steps back of its output pointer included, and writes nothing behind its room |
| Iconv.Resume | listener/src/main/jni/iconv/iconv.c:206-487 | However a conversion ends within its buffer, going on from its pointers with more room or more input gives the bytes, pointers, end, count and steps back of one uninterrupted conversion, between any two sets modelled |
| Iconv.StopsBetweenCharacters | listener/src/main/jni/iconv/iconv.c:214-471 | The pointers stop at a character boundary: the consumed input alone converts completely to the written output, steps back included |
| Iconv.EndIsReason | listener/src/main/jni/iconv/iconv.c:206-487 | A conversion ends for the reason that the next character, at its pointers, gives: the end of the input, an illegal or incomplete sequence, or no room |
| Iconv.FirstBack | listener/src/main/jni/iconv/iconv.c:416-424 | The output pointer moves back exactly for a character that is not a scalar value, on its way to UTF-8, with room for four bytes |
| Iconv.LosesNothing | listener/src/main/jni/iconv/iconv.c:416-424 | Nothing written is taken back if and only if the target is not UTF-8 or every character read is a scalar value |
| Iconv.UnicodeLosesNothing | listener/src/main/jni/iconv/iconv.c:416-424 | From the Unicode forms, UCS-2 and ASCII nothing written is ever taken back |
| Iconv.UnicodeIsScalar | listener/src/main/jni/iconv/iconv.c:218-251 | From those sets every accepted character is a scalar value |
| Iconv.FourByteIsScalar | listener/src/main/jni/iconv/iconv.c:306-324 | An accepted four-byte sequence is read as a scalar value exactly when the table does not push its number to 0x110000, nor between 0xd800 and 0xdfff |
| Iconv.FourByteLoses | listener/src/main/jni/iconv/iconv.c:306-324 | Converted to UTF-8 with room for four bytes, exactly the other sequences take back the byte written before them |
| Iconv.Gb18030Loses | listener/src/main/jni/iconv/iconv.c:306-324 | An input that does, whatever the table: a sequence beyond Unicode |
| Iconv.TranscodesTexts | listener/src/main/jni/iconv/iconv.c:190-488 | A text in one Unicode form converts completely to the same text in any other |
| Iconv.TranscodesOnlyTexts | listener/src/main/jni/iconv/iconv.c:190-488 | Only a text converts completely: the input was its encoding and the output is the same text |
| PlainText.ConvertsToUnicode | listener/src/main/jni/iconv/iconv.c:206-471 | From any set modelled, what is read character by character as a text converts completely to the same text in any Unicode form |
| PlainText.ConvertsToAscii | listener/src/main/jni/iconv/iconv.c:425-446 | And to ASCII as one byte for each character, an asterisk for each other one, which are counted |
| PlainText.ConvertsText | listener/src/main/jni/iconv/iconv.c:206-471 | And to any target as its characters are written one by one, with the substitutes counted |
| PlainText.KeepsSevenBit | listener/src/main/jni/iconv/iconv.c:209-446 | Seven-bit text in UTF-8, ASCII, EUC-KR, a GB set or a code page converts to UTF-8, ASCII or a code page byte for byte |
| PlainText.EndsOfTexts | listener/src/main/jni/iconv/iconv.c:206-487 | Between Unicode forms, which end stands for which rest of the input: none, a character without room, the beginning of one, or what starts none |
| PlainText.ConvertsToUcs2 | listener/src/main/jni/iconv/iconv.c:447-463 | A conversion to UCS-2 is one to UTF-16, surrogates included, from every set |
| PlainText.SurrogatesInUcs2 | listener/src/main/jni/iconv/iconv.c:447-463 | An input that shows it |
| Iconv.CodepageRoundTrip | listener/src/main/jni/iconv/iconv.c:400-444 | A byte from the reverse search reads back as its character if and only if the code page elides no entry, or the character is below 256, has its first place at the byte of its own value, and the entry that is read back is left at zero |
| PriorityRing.PriorityList.Insert | listener/src/main/jni/oscl_config/oscl_double_list.cpp:134-163 | The walk puts the item in front of the first one of lower priority, the rest in place, and the list is again one ring in both directions |
| PriorityRing.PriorityList.InsertHead | listener/src/main/jni/oscl_config/oscl_double_list.cpp:97-118 | Puts the item first; the list is again one ring in both directions |
| PriorityRing.PriorityList.InsertTail | listener/src/main/jni/oscl_config/oscl_double_list.cpp:120-132 | Puts the item last; the list is again one ring in both directions |
| PriorityRing.PriorityList.Remove | listener/src/main/jni/oscl_config/oscl_double_list.cpp:60-70 | Takes exactly that item out, closes the ring, and clears its links; on an item in no list nothing changes |
| PriorityRing.Link.InsertAfter | listener/src/main/jni/oscl_config/oscl_double_list.cpp:34-45 | All four links, also when the neighbours are one and the same, and after a null pointer |
| PriorityRing.Link.InsertBefore | listener/src/main/jni/oscl_config/oscl_double_list.cpp:47-58 | All four links, also when the neighbours are one and the same, and before a null pointer |
| PriorityRuns.Play | listener/src/main/jni/oscl_config/oscl_double_list.cpp:34-163 | After any run of insertions and removals, repeated removals included, the list is the priority queue of the items that are there, in order of arrival |
| PriorityRuns.QueueIsStable | listener/src/main/jni/oscl_config/oscl_double_list.cpp:134-163 | That queue is in non-increasing priority, and in order of arrival within each priority |
| PriorityRuns.OrderIsUnique | listener/src/main/jni/oscl_config/oscl_double_list.cpp:134-163 | Those two properties determine the queue |
| PriorityRuns.QueueWithout | listener/src/main/jni/oscl_config/oscl_double_list.cpp:60-70 | Removing an item leaves the queue in which it never arrived |
| PriorityRuns.OrderOfRun | listener/src/main/jni/oscl_config/oscl_double_list.cpp:34-163 | What a run leaves, by its calls alone: the items put in and not taken out since, higher priorities first, and of equal ones the item that came before |
| Glob.StrGlob | listener/src/main/jni/oscl_config/oscl_file_find.cpp:376-481 | Terminates and accepts exactly what the naive matcher that tries every split at every star accepts, with collapsed stars and the skip to the first literal |
| Glob.MatchStar | listener/src/main/jni/oscl_config/oscl_file_find.cpp:388-404 | The star accepts exactly when some split does |
| Glob.MatchSet | listener/src/main/jni/oscl_config/oscl_file_find.cpp:415-466 | The scan that stops at the first hit decides membership in the whole set, negated sets, open ranges, a leading bracket and unclosed sets included, and steps over the set exactly |
| Glob.StarsCollapse | listener/src/main/jni/oscl_config/oscl_file_find.cpp:389-390 | Stars in a row are one star |
| Glob.EscapedMatchesItself | listener/src/main/jni/oscl_config/oscl_file_find.cpp:468-474 | A text with every character escaped matches that text and nothing else |
| Glob.StarMatchesEnding | listener/src/main/jni/oscl_config/oscl_file_find.cpp:388-404 | A star and an escaped text match exactly what ends in the text |
| Glob.SetOfCharacters | listener/src/main/jni/oscl_config/oscl_file_find.cpp:415-466 | A set of single characters, plain or negated, stands for those characters, or all others |
| Glob.SetOfRange | listener/src/main/jni/oscl_config/oscl_file_find.cpp:428-443 | A range stands for its ends and what lies between; without an end it is open upwards |
| Patterns.QuestionMarks | listener/src/main/jni/oscl_config/oscl_file_find.cpp:406-409 | n question marks match exactly the texts of n characters |
| Patterns.PlainMatchesItself | listener/src/main/jni/oscl_config/oscl_file_find.cpp:471-474 | A text without special characters matches itself and nothing else |
| Patterns.StartsAndEnds | listener/src/main/jni/oscl_config/oscl_file_find.cpp:388-404 | Two escaped texts around a star match exactly what is long enough, starts with the first and ends with the second |
| Patterns.LoneBackslash | listener/src/main/jni/oscl_config/oscl_file_find.cpp:468-474 | A backslash that nothing follows stands for itself |
| Patterns.SetOfElements | listener/src/main/jni/oscl_config/oscl_file_find.cpp:415-466 | A set of characters and ranges, in any order and number, stands for what one of them covers, or for all the rest |
| Patterns.UnclosedSet | listener/src/main/jni/oscl_config/oscl_file_find.cpp:425-465 | A set that is not closed stands for nothing |

## Left out

- FileCaches.FileCache.Open: requires that nothing is left to flush, because opening again after a close whose flush failed would write whatever the new buffer holds; allocation failure is not modelled either.
- FileCaches.FileCache.Read: the 32-bit product of size and count is bounded by the precondition, because it wraps in the source; the same holds for `FileCaches.FileCache.Write`, and the contract of both is over native reads that move the native position by the bytes they return.
- FileCaches.FileCache.Flush: a native flush that fails is reported, and the bytes it was to push are taken to stay in the native file.
- NativeFiles.NativeFile.Seek: native size and tell queries, which the cache also makes, are taken not to fail; the rule of the standard streams about switching between reads and writes, logging and statistics are not modelled.
- AsyncRuns.Play: says exactly when an event fails and what holds while none does, and nothing about the answers after the first that fails; with assertions the process has stopped there.
- AsyncFiles.AsyncFile.Complete: completions with an error, and blocking reads or seeks that fail, are not modelled; a completion is one step, whose data become visible at once, although a thread writes them byte by byte.
- AsyncFiles.AsyncFile.Read: buffers are values named by their index in the array, so a pointer into a buffer is an index and a place in it; the file does not change while it is open, and opening, closing and cancelling are left out.
- TrapStacks.ErrorTrap.Exec: excludes programs that push the pointer of their current trap mark, and clean-up actions that open traps of their own; the classes for marks, jumps and thread state are one class, and thread-local lookup and failing allocation in `PushL` are left out.
- TrapStacks.ErrorTrap.ExecTry: excludes bodies that push the pointer of their current trap mark, as `TrapStacks.ErrorTrap.Exec` does.
- TrapStacks.ErrorTrap.PushL: excludes an item with the pointer of the current trap mark; `TrapStacks.CleanUpIsExact` says what it would do.
- TrapPrograms.NothingLeaks: a program is a tree of statements that may test whether the last try block caught a leave; loops and data are not part of it.
- Iconv.Iconv: ends, as `Outside`, where the output pointer would move back beyond the start of its array, which is undefined in the source; null pointer arguments and errno are replaced by the `End` value.
- CharSets.DecodeIsLocal: BIG5 with HKSCS, EUC-JP and Shift-JIS are left out, and tables are parameters; the C library's UTF-8 decoder is replaced by a specification, and host wide characters are little-endian.
- Names of character sets and opening a converter are left out; they would only add a table lookup.
- PriorityRing.PriorityList.Insert: the offset of a link in its item is left out, priorities are fixed when a link is made, and the item must not be in the list.
- PriorityRing.PriorityList.Remove: the source has it on the link alone; the list is named here because it keeps the order of its items as ghost state.
- Glob.StrGlob: requires a character after each `[^`, because the source reads past the end of the pattern without one.
- Directory traversal, fragment groups, smart pointers, memory auditing and the JNI layer are left out; they are thin, or depend on code that is not in the repository.
