/**
 * The read-ahead file: four buffers that a reader thread fills ahead of the user, one more for data that
 * straddles two of them, and blocking reads for everything else. The file's bytes do not change while it is open.
 */
module AsyncFiles {
  import opened Bytes
  import opened AsyncBuffers
  import opened AsyncBooks
  import opened PlainFiles

  class AsyncFile {
    /** What is in the file. */
    const file: seq<Byte>
    const totalCacheSize: nat
    const asyncReadBufferSize: nat
    /** Whether assertions are compiled in. */
    const asserts: bool
    /**
     * False from the failure of an assertion on: the process has stopped, or, where assertions are not compiled in, goes
     * on with positions that do not belong together. An assertion that guards nothing else leaves it true in such a build.
     */
    var sound: bool
    var dataBuffers: seq<Buf>
    var sortedDataBuffers: seq<nat>
    var linkedDataBuffers: seq<nat>
    /** Buffer for data put together from two of the others; it has no place in the array. */
    var dataBuffer: Buf
    /** The buffer that asynchronous reads go to; -1 until there is one. */
    var dataBufferInUse: int
    var filePosition: nat
    var lastUserFileRead: nat
    var syncFilePosition: nat
    var asyncFilePosition: nat
    /** Where the native handle of the reader thread really is. */
    var asyncHandle: nat
    var startAsyncRead: bool
    var request: Request
    /** Where the outstanding request puts its data: a buffer and a place in it. */
    var readBuffer: nat
    var readStart: nat

    ghost predicate BuffersAgree()
      reads this`dataBuffers, this`dataBuffer
    {
      && |dataBuffers| == CACHE_BUFFER_COUNT
      && dataBuffer.Agrees(file, totalCacheSize)
      && (forall i :: 0 <= i < |dataBuffers| ==> dataBuffers[i].Agrees(file, totalCacheSize))
      && (forall i :: 0 <= i < |dataBuffers| ==> dataBuffers[i].valid && file != [] ==> dataBuffers[i].End() > 0)
    }

    ghost predicate LinksAreValid()
      reads this`dataBuffers, this`linkedDataBuffers
    {
      forall k :: 0 <= k < |linkedDataBuffers| ==> linkedDataBuffers[k] < |dataBuffers| && dataBuffers[linkedDataBuffers[k]].valid
    }

    /** The next asynchronous read continues the buffer in use. */
    ghost predicate InUseIsNext()
      requires |dataBuffers| == CACHE_BUFFER_COUNT
      reads this`dataBuffers, this`dataBufferInUse, this`asyncFilePosition, this`request
    {
      && -1 <= dataBufferInUse < |dataBuffers|
      && (if dataBufferInUse == -1 then asyncFilePosition == 0 && request == Idle
          else dataBuffers[dataBufferInUse].valid && dataBuffers[dataBufferInUse].End() == asyncFilePosition)
    }

    /** The outstanding request targets the unused tail of the buffer in use, and fits there. */
    ghost predicate RequestFits()
      requires BuffersAgree() && InUseIsNext()
      reads this
    {
      && (request != Idle ==> linkedDataBuffers != [])
      && RequestPlaced()
    }

    ghost predicate RequestPlaced()
      requires BuffersAgree() && InUseIsNext()
      reads this`dataBuffers, this`dataBuffer, this`dataBufferInUse, this`asyncFilePosition, this`asyncHandle, this`request,
            this`readBuffer, this`readStart
    {
      && (request != Idle ==>
            && readBuffer == dataBufferInUse
            && readStart == dataBuffers[readBuffer].length && readStart + asyncReadBufferSize <= totalCacheSize)
      && (request.Done? ==>
            && request.bytesRead <= asyncReadBufferSize && asyncFilePosition + request.bytesRead <= |file|
            && SameStretch(dataBuffers[readBuffer].bytes, readStart, file, asyncFilePosition, request.bytesRead))
      && asyncHandle == asyncFilePosition + (if request.Done? then request.bytesRead else 0)
    }

    /** Holds between any two steps of the user, the reader thread and the scheduler. */
    ghost predicate Inv()
      reads this
    {
      && 0 < asyncReadBufferSize <= totalCacheSize
      && BuffersAgree() && LinksAreValid() && InUseIsNext() && RequestFits()
      && filePosition <= |file| && lastUserFileRead <= |file|
    }

    /** Where everything is, and what is going on. */
    ghost function TheBook(): Book
      reads this
    {
      Book(|file|, totalCacheSize, asyncReadBufferSize, asserts, startAsyncRead, Shape(dataBuffers), linkedDataBuffers,
           dataBufferInUse, filePosition, lastUserFileRead, syncFilePosition, asyncFilePosition, request)
    }

    lemma BookIsValid()
      requires Inv()
      ensures TheBook().Valid() && TheBook().cap == totalCacheSize && filePosition <= |file|
      ensures TheBook().Tracks() && TheBook().Placed()
    {
    }

    constructor (file: seq<Byte>, cacheSize: nat, asserts: bool)
      requires cacheSize > 0
      ensures Inv() && sound && this.file == file && totalCacheSize == cacheSize
      ensures TheBook() == Opened(|file|, cacheSize, asserts)
    {
      this.file, totalCacheSize, this.asserts := file, cacheSize, asserts;
      asyncReadBufferSize := Min(DEFAULT_READ_SIZE, cacheSize);
      sound := true;
      var empty := Buf(seq(cacheSize, _ => 0), 0, 0, 0, false, false);
      dataBuffers := [empty, empty, empty, empty];
      dataBuffer := empty;
      sortedDataBuffers, linkedDataBuffers := [], [];
      dataBufferInUse := -1;
      filePosition, lastUserFileRead, syncFilePosition, asyncFilePosition, asyncHandle := 0, 0, 0, 0, 0;
      startAsyncRead := true;
      request, readBuffer, readStart := Idle, 0, 0;
    }

    // ---------- The reader thread ----------

    /** The reader thread finishes its request, if it has one, with `k` bytes, or as many as there are to read. */
    method Complete(k: nat)
      requires Inv() && sound
      modifies this`dataBuffers, this`request, this`asyncHandle
      ensures Inv() && SamePublished() && TheBook() == old(TheBook()).Complete(k)
    {
      hide Buf.Agrees, SameStretch, Overlay, Buf.Published;
      if request == InFlight {
        InUseFits();
        var n := Min(k, Min(asyncReadBufferSize, |file| - asyncFilePosition));
        Receive(n);
        asyncHandle := asyncHandle + n;
        request := Done(n);
      }
    }

    /** `n` bytes arrive behind what the buffer in use publishes. */
    method Receive(n: nat)
      requires Inv() && request == InFlight && n <= asyncReadBufferSize && asyncFilePosition + n <= |file|
      modifies this`dataBuffers
      ensures BuffersAgree() && LinksAreValid() && InUseIsNext() && RequestPlaced() && SamePublished()
      ensures SameStretch(dataBuffers[readBuffer].bytes, readStart, file, asyncFilePosition, n)
      ensures Shape(dataBuffers) == old(Shape(dataBuffers)) && dataBuffers[readBuffer].length == old(dataBuffers[readBuffer].length)
    {
      hide Buf.Agrees, Overlay, Buf.Published;
      var b := dataBuffers[readBuffer];
      var d := file[asyncFilePosition..asyncFilePosition + n];
      InUseFits();
      ReceivedHolds(b, file, readStart, d, totalCacheSize);
      OverlayTail(b.bytes, readStart, d);
      ShapeUpdate(dataBuffers, readBuffer, b.(bytes := Overlay(b.bytes, readStart, d)));
      dataBuffers := dataBuffers[readBuffer := b.(bytes := Overlay(b.bytes, readStart, d))];
    }

    /** What the buffers publish is as before. */
    twostate predicate SamePublished()
      reads this
    {
      && |dataBuffers| == |old(dataBuffers)|
      && forall i :: 0 <= i < |dataBuffers| ==>
           && dataBuffers[i] == old(dataBuffers)[i].(bytes := dataBuffers[i].bytes)
           && dataBuffers[i].Published() == old(dataBuffers)[i].Published()
    }

    /** The scheduler runs the completion of a request. */
    method Run()
      requires Inv() && sound && request.Done?
      modifies this
      ensures TheBook() == old(TheBook()).Run().book && sound == old(TheBook()).Run().sound
      ensures sound ==> Inv()
      ensures filePosition == old(filePosition)
    {
      hide Buf.Agrees, SameStretch, Book.Published, Book.NextRead, Book.FindsNoPlace, Shape;
      Publish();
      var bytesReadAhead := BytesReadAhead();
      var posToReadFrom := lastUserFileRead + bytesReadAhead;
      if posToReadFrom == |file| {
        return;
      }
      if bytesReadAhead >= 3 * totalCacheSize {
        return;
      }
      StartNextRead(posToReadFrom);
    }

    /** The bytes of a completed request become part of the buffer in use. */
    method Publish()
      requires Inv() && sound && request.Done?
      modifies this`request, this`dataBuffers, this`asyncFilePosition
      ensures Inv() && request == Idle
      ensures TheBook() == old(TheBook()).Published()
    {
      hide Buf.Agrees, Shape;
      InUseFits();
      var bytesRead := request.bytesRead;
      request := Idle;
      var b := dataBuffers[dataBufferInUse];
      PublishAgrees(b, file, totalCacheSize, bytesRead);
      ShapeUpdate(dataBuffers, dataBufferInUse, b.(bufLength := b.bufLength + bytesRead).UpdateData());
      dataBuffers := dataBuffers[dataBufferInUse := b.(bufLength := b.bufLength + bytesRead).UpdateData()];
      asyncFilePosition := asyncFilePosition + bytesRead;
    }

    /** How far the chain of linked buffers reaches past the user; negative when the user is past it. */
    function BytesReadAhead(): int
      requires LinksAreValid()
      reads this
    {
      if |linkedDataBuffers| == 0 then 0
      else dataBuffers[linkedDataBuffers[|linkedDataBuffers| - 1]].End() - lastUserFileRead
    }

    /**
     * A buffer to fill: one that was never used, or else the one with the smallest offset that nobody needs.
     * A buffer that could be linked in front of the chain is never taken, although one is to be remembered
     * in case there is no other: the variable that is to remember it is assigned the wrong buffer.
     */
    method GetNextDataBuffer() returns (r: int)
      requires BuffersAgree() && LinksAreValid()
      ensures -1 <= r < |dataBuffers| && r == NextBuffer(dataBuffers, linkedDataBuffers, dataBufferInUse)
      ensures (exists i :: 0 <= i < |dataBuffers| && !dataBuffers[i].valid) ==> r >= 0 && !dataBuffers[r].valid
      ensures (forall i :: 0 <= i < |dataBuffers| ==> dataBuffers[i].valid) ==>
                if r == -1 then forall i :: 0 <= i < |dataBuffers| ==> !IsSpare(i)
                else && IsSpare(r)
                     && (forall i :: 0 <= i < |dataBuffers| && IsSpare(i) ==> dataBuffers[r].offset <= dataBuffers[i].offset)
                     && (forall i :: 0 <= i < r && IsSpare(i) ==> dataBuffers[r].offset < dataBuffers[i].offset)
    {
      hide BuffersAgree, Buf.Agrees;
      for i := 0 to |dataBuffers|
        invariant forall k :: 0 <= k < i ==> dataBuffers[k].valid
        invariant FirstInvalid(dataBuffers, i) == FirstInvalid(dataBuffers, 0)
      {
        if !dataBuffers[i].valid {
          return i;
        }
      }
      r := BestOfSpare();
    }

    /** Of the buffers that nobody needs, the one with the smallest offset. */
    method BestOfSpare() returns (r: int)
      requires LinksAreValid()
      ensures r == BestSpare(dataBuffers, linkedDataBuffers, dataBufferInUse, |dataBuffers|)
    {
      var dataBufferToUse, lastOptionBufferToUse := -1, -1;
      for i := 0 to |dataBuffers|
        invariant dataBufferToUse == BestSpare(dataBuffers, linkedDataBuffers, dataBufferInUse, i)
        invariant dataBufferToUse == -1 ==> lastOptionBufferToUse == -1
      {
        if dataBuffers[i].inUse || i in linkedDataBuffers || i == dataBufferInUse {
        } else if Linkable(dataBuffers, linkedDataBuffers, i) {
          lastOptionBufferToUse := dataBufferToUse;
        } else if dataBufferToUse == -1 || dataBuffers[i].offset < dataBuffers[dataBufferToUse].offset {
          dataBufferToUse := i;
        }
      }
      if dataBufferToUse == -1 {
        dataBufferToUse := lastOptionBufferToUse;
      }
      r := dataBufferToUse;
    }

    predicate IsSpare(i: nat)
      requires i < |dataBuffers| && LinksAreValid()
      reads this
    {
      Spare(dataBuffers, linkedDataBuffers, dataBufferInUse, i)
    }

    /** Takes a buffer for reading from `pos` on, empty so far, and links it. */
    method TakeBuffer(pos: nat) returns (available: bool)
      requires BuffersAgree() && LinksAreValid() && -1 <= dataBufferInUse < |dataBuffers| && filePosition <= |file|
      requires dataBufferInUse >= 0 ==> dataBuffers[dataBufferInUse].valid
      requires 0 < pos <= |file|
      modifies this`dataBufferInUse, this`linkedDataBuffers, this`dataBuffers
      ensures BuffersAgree() && LinksAreValid() && KeepsMarked()
      ensures !available ==> dataBufferInUse == old(dataBufferInUse) && dataBuffers == old(dataBuffers)
                             && linkedDataBuffers == old(linkedDataBuffers)
      ensures available ==>
                && 0 <= dataBufferInUse < |dataBuffers| && linkedDataBuffers == old(linkedDataBuffers) + [dataBufferInUse]
                && dataBuffers[dataBufferInUse].valid && dataBuffers[dataBufferInUse].offset == pos
                && dataBuffers[dataBufferInUse].length == 0
      ensures available <==> !old(TheBook().NoBuffer())
      ensures available ==> TheBook() == old(TheBook().Take(pos))
    {
      hide Buf.Agrees, NextBuffer, Linkable, Shape;
      ShapeOfNext(dataBuffers, linkedDataBuffers, dataBufferInUse);
      var r := GetNextDataBuffer();
      available := r >= 0;
      if available {
        dataBufferInUse := r;
        linkedDataBuffers := linkedDataBuffers + [r];
        EmptyHolds(dataBuffers[r], file, pos, totalCacheSize);
        ShapeUpdate(dataBuffers, r, dataBuffers[r].(offset := pos, bufLength := 0).UpdateData());
        dataBuffers := dataBuffers[r := dataBuffers[r].(offset := pos, bufLength := 0).UpdateData()];
      }
    }

    /** Buffers that are valid and marked in use are as before. */
    twostate predicate KeepsMarked()
      reads this
    {
      && |dataBuffers| == |old(dataBuffers)|
      && forall i :: 0 <= i < |dataBuffers| && old(dataBuffers)[i].valid && old(dataBuffers)[i].inUse ==>
           dataBuffers[i] == old(dataBuffers)[i]
    }

    /** The end of the chain is past the start of the file, unless the file is read to its end. */
    lemma PosIsPositive(pos: nat)
      requires Inv() && linkedDataBuffers != []
      requires pos == dataBuffers[linkedDataBuffers[|linkedDataBuffers| - 1]].End() && pos != |file|
      ensures 0 < pos <= |file|
    {
      assert dataBuffers[linkedDataBuffers[|linkedDataBuffers| - 1]].Agrees(file, totalCacheSize);
    }

    lemma InUseFits()
      requires Inv() && dataBufferInUse >= 0
      ensures dataBuffers[dataBufferInUse].Fits(|file|, totalCacheSize)
    {
    }

    /**
     * Issues the next asynchronous read. It finds no place for the data exactly when the read starts at neither of the two
     * positions, or at that of the blocking reads while all buffers are valid and none is spare.
     */
    method StartNextRead(pos: nat)
      requires Inv() && sound && request == Idle && linkedDataBuffers != []
      requires pos == dataBuffers[linkedDataBuffers[|linkedDataBuffers| - 1]].End() && pos != |file|
      modifies this`sound, this`dataBuffers, this`linkedDataBuffers, this`dataBufferInUse, this`syncFilePosition,
               this`asyncFilePosition, this`asyncHandle, this`request, this`readBuffer, this`readStart
      ensures TheBook() == old(TheBook()).NextRead(pos).book
      ensures sound == old(TheBook()).NextRead(pos).sound
      ensures sound <==> !old(pos != asyncFilePosition
                              && (if pos == syncFilePosition
                                  then forall i :: 0 <= i < |dataBuffers| ==> dataBuffers[i].valid && !IsSpare(i)
                                  else asserts))
      ensures sound ==> Inv() && KeepsMarked()
    {
      hide Buf.Agrees, SameStretch, Overlay, NextBuffer, Book.Take, Spare;
      PosIsPositive(pos);
      ShapeOfNext(dataBuffers, linkedDataBuffers, dataBufferInUse);
      NoNextBuffer(dataBuffers, linkedDataBuffers, dataBufferInUse);
      if pos == asyncFilePosition {
        var hasPlace := ContinueInUse(pos);
        if !hasPlace {
          return;
        }
      } else if pos == syncFilePosition {
        MoveHandle(pos);
        if !sound {
          return;
        }
      } else {
        sound := !asserts;
        return;
      }
      request := InFlight;
    }

    /** The next request has its place: the unused tail of the buffer in use. */
    ghost predicate ReadyToIssue()
      reads this
    {
      Inv() && request == Idle && linkedDataBuffers != [] && dataBufferInUse >= 0 && readBuffer == dataBufferInUse
      && readStart == dataBuffers[readBuffer].length && readStart + asyncReadBufferSize <= totalCacheSize
    }

    lemma TakenIsReady(pos: nat)
      requires 0 < asyncReadBufferSize <= totalCacheSize && filePosition <= |file| && lastUserFileRead <= |file|
      requires BuffersAgree() && LinksAreValid() && linkedDataBuffers != [] && request == Idle
      requires 0 <= dataBufferInUse < |dataBuffers| && dataBuffers[dataBufferInUse].valid
      requires dataBuffers[dataBufferInUse].offset == pos && dataBuffers[dataBufferInUse].length == 0
      requires asyncFilePosition == asyncHandle == pos && readBuffer == dataBufferInUse && readStart == 0
      ensures ReadyToIssue()
    {
    }

    /** Goes on in the buffer in use, or in a new one when that is full. */
    method ContinueInUse(pos: nat) returns (hasPlace: bool)
      requires Inv() && request == Idle && linkedDataBuffers != [] && 0 < pos <= |file| && pos == asyncFilePosition
      modifies this`dataBuffers, this`linkedDataBuffers, this`dataBufferInUse, this`readBuffer, this`readStart
      ensures Inv() && KeepsMarked() && (hasPlace ==> ReadyToIssue())
      ensures old(TheBook()).NextRead(pos).book == if hasPlace then TheBook().(request := InFlight) else TheBook()
    {
      hide Buf.Agrees, SameStretch, Overlay, NextBuffer, Book.Take;
      InUseFits();
      var b := dataBuffers[dataBufferInUse];
      var validBuffer := b.offset + b.length == pos;
      if validBuffer && totalCacheSize - b.bufLength < asyncReadBufferSize {
        hasPlace := TakeBuffer(pos);
        if hasPlace {
          readBuffer, readStart := dataBufferInUse, 0;
          TakenIsReady(pos);
        }
      } else {
        readBuffer, readStart := dataBufferInUse, b.bufLength;
        hasPlace := true;
      }
    }

    /** Moves the reader thread's handle to where the last blocking read stopped. */
    method MoveHandle(pos: nat)
      requires Inv() && sound && request == Idle && linkedDataBuffers != [] && 0 < pos <= |file|
      requires pos == syncFilePosition && pos != asyncFilePosition
      modifies this`sound, this`dataBuffers, this`linkedDataBuffers, this`dataBufferInUse, this`syncFilePosition,
               this`asyncFilePosition, this`asyncHandle, this`readBuffer, this`readStart
      ensures sound <==> !old(TheBook().NoBuffer())
      ensures TheBook() == if sound then old(TheBook()).Swapped().Take(pos) else old(TheBook()).Swapped()
      ensures sound ==> KeepsMarked() && ReadyToIssue()
    {
      hide AsyncFile.BuffersAgree, AsyncFile.LinksAreValid, NextBuffer, Book.Take, Shape, AsyncFile.ReadyToIssue;
      SwapHandles(pos);
      var available := TakeBuffer(pos);
      if available {
        readBuffer, readStart := dataBufferInUse, 0;
        TakenIsReady(pos);
      } else {
        sound := false;
      }
    }

    method SwapHandles(pos: nat)
      requires Inv() && pos == syncFilePosition
      modifies this`syncFilePosition, this`asyncFilePosition, this`asyncHandle
      ensures asyncFilePosition == asyncHandle == pos
      ensures TheBook() == old(TheBook()).Swapped()
    {
      asyncHandle := pos;
      syncFilePosition, asyncFilePosition := asyncFilePosition, syncFilePosition;
    }

    // ---------- The user ----------

    function Source(src: int): Buf
      requires -1 <= src < |dataBuffers|
      reads this
    {
      if src == -1 then dataBuffer else dataBuffers[src]
    }

    /** `src` publishes the `n` bytes of the file from `offset` on. */
    ghost predicate Publishes(src: int, offset: nat, n: nat)
      requires -1 <= src < |dataBuffers|
      reads this
    {
      Source(src).valid && Source(src).offset <= offset && offset + n <= Source(src).End()
    }

    method Seek(offset: int, origin: Origin) returns (status: int)
      requires Inv() && sound
      modifies this`filePosition, this`sound
      ensures status == 0 && Inv()
      ensures var target := SeekTarget(old(filePosition), |file|, offset, origin);
              sound == (0 <= target <= |file|) && TheBook() == old(TheBook()).(pos := if sound then target else old(filePosition))
    {
      var position := SeekTarget(filePosition, |file|, offset, origin);
      if 0 <= position <= |file| {
        filePosition := position;
      } else {
        sound := false;
      }
      status := 0;
    }

    /**
     * Looks for `size` bytes at `offset` in one linked buffer, or in two that meet; these are put together. It finds them
     * exactly when the first buffer that has the offset, and is linked or could be, has all of them, or the buffer that
     * continues it has the rest.
     */
    method FindDataBuffer(offset: nat, size: nat) returns (found: bool, src: int, bufferId: nat)
      requires Inv() && size <= totalCacheSize
      modifies this`dataBuffer
      ensures Inv()
      ensures found <==> Finds(dataBuffers, linkedDataBuffers, offset, size)
      ensures found ==>
                && bufferId == Holder(dataBuffers, linkedDataBuffers, offset, 0)
                && src == (if offset + size <= dataBuffers[bufferId].End() then bufferId else -1)
                && Publishes(src, offset, size)
    {
      hide Buf.Holds, SameStretch, Overlay;
      found, src, bufferId := false, -1, 0;
      var i := 0;
      while i < |dataBuffers| && !found
        invariant 0 <= i <= |dataBuffers|
        invariant Holder(dataBuffers, linkedDataBuffers, offset, i) == Holder(dataBuffers, linkedDataBuffers, offset, 0)
        invariant found ==> i < |dataBuffers| && i == Holder(dataBuffers, linkedDataBuffers, offset, 0)
        decreases |dataBuffers| - i, !found
      {
        if dataBuffers[i].HasThisOffset(offset)
           && (i in linkedDataBuffers || Linkable(dataBuffers, linkedDataBuffers, i)) {
          found := true;
        } else {
          i := i + 1;
        }
      }
      if !found {
        return;
      }
      bufferId := i;
      found, src := AssembleData(i, offset, size);
    }

    /** The `size` bytes at `offset`, from buffer `i` alone or put together with the buffer that starts where it ends. */
    method AssembleData(i: nat, offset: nat, size: nat) returns (found: bool, src: int)
      requires Inv() && size <= totalCacheSize && i < |dataBuffers| && dataBuffers[i].HasThisOffset(offset)
      modifies this`dataBuffer
      ensures Inv()
      ensures found <==> Covers(dataBuffers, i, offset, size)
      ensures found ==> src == (if offset + size <= dataBuffers[i].End() then i else -1) && Publishes(src, offset, size)
    {
      hide Buf.Agrees, SameStretch, Stitched;
      assert dataBuffers[i].Agrees(file, totalCacheSize);
      var first := dataBuffers[i];
      var maxOffset := first.End();
      if offset + size <= maxOffset {
        return true, i;
      }
      var availableData := maxOffset - offset;
      var j := 0;
      while j < |dataBuffers| && !dataBuffers[j].HasThisOffset(maxOffset)
        invariant 0 <= j <= |dataBuffers|
        invariant FirstWith(dataBuffers, maxOffset, j) == FirstWith(dataBuffers, maxOffset, 0)
      {
        j := j + 1;
      }
      if j == |dataBuffers| {
        return false, -1;
      }
      var second := dataBuffers[j];
      if second.offset != maxOffset {
        return false, -1;
      }
      if !(second.length + availableData >= size) {
        return false, -1;
      }
      StitchedHolds(dataBuffer, first, second, file, totalCacheSize, offset, size);
      dataBuffer := Stitched(dataBuffer, first, second, offset, size);
      return true, -1;
    }

    /** A blocking read of a whole buffer, for data that no buffer has. */
    method SyncRead(offset: nat) returns (src: int)
      requires Inv() && sound && offset == filePosition
      requires forall i :: 0 <= i < |dataBuffers| ==> !dataBuffers[i].inUse
      modifies this`linkedDataBuffers, this`dataBuffers, this`syncFilePosition
      ensures Inv() && linkedDataBuffers == [src] && 0 <= src < |dataBuffers|
      ensures dataBuffers[src].inUse && dataBuffers[src].offset == offset && dataBuffers[src].valid
      ensures dataBuffers[src].length == Min(totalCacheSize, |file| - offset)
      ensures TheBook() == old(TheBook()).Blocked()
    {
      hide AsyncFile.BuffersAgree, AsyncFile.InUseIsNext, AsyncFile.RequestPlaced, Shape, NextBuffer;
      src := PickForSync();
      FillForSync(src, offset);
      linkedDataBuffers := linkedDataBuffers + [src];
    }

    /** Empties the chain, and picks a buffer other than the one that asynchronous reads go to. */
    method PickForSync() returns (src: int)
      requires Inv() && forall i :: 0 <= i < |dataBuffers| ==> !dataBuffers[i].inUse
      modifies this`linkedDataBuffers
      ensures linkedDataBuffers == [] && 0 <= src < |dataBuffers| && src != dataBufferInUse
      ensures src == NextBuffer(Shape(dataBuffers), [], dataBufferInUse)
      ensures BuffersAgree() && InUseIsNext() && RequestPlaced()
    {
      hide Buf.Agrees, SameStretch;
      linkedDataBuffers := [];
      ghost var spare := if dataBufferInUse == 0 then 1 else 0;
      assert IsSpare(spare);
      ShapeOfNext(dataBuffers, linkedDataBuffers, dataBufferInUse);
      src := GetNextDataBuffer();
      assert IsSpare(spare);
    }

    /** Reads from `offset` on into a buffer, as much as it takes or as there is. */
    method FillForSync(src: nat, offset: nat)
      requires BuffersAgree() && InUseIsNext() && RequestPlaced()
      requires src < |dataBuffers| && src != dataBufferInUse && offset <= |file| && 0 < totalCacheSize
      modifies this`dataBuffers, this`syncFilePosition
      ensures BuffersAgree() && InUseIsNext() && RequestPlaced()
      ensures dataBuffers[src].inUse && dataBuffers[src].offset == offset && dataBuffers[src].valid
      ensures dataBuffers[src].length == Min(totalCacheSize, |file| - offset)
      ensures var n := Min(totalCacheSize, |file| - offset);
              Shape(dataBuffers) == old(Shape(dataBuffers))[src := Buf([], n, offset, n, true, true)]
      ensures syncFilePosition == offset + dataBuffers[src].length
    {
      hide Buf.Agrees, SameStretch, Overlay;
      var bytesRead := Min(totalCacheSize, |file| - offset);
      FillingHolds(dataBuffers[src], file, offset, bytesRead, totalCacheSize);
      ShapeUpdate(dataBuffers, src, Filled(dataBuffers[src], file, offset, bytesRead));
      dataBuffers := dataBuffers[src := Filled(dataBuffers[src], file, offset, bytesRead)];
      syncFilePosition := offset + bytesRead;
    }

    method CleanInUse()
      requires Inv()
      modifies this`dataBuffers
      ensures Inv() && dataBuffers == Unmarked(old(dataBuffers))
      ensures TheBook() == old(TheBook()).Clean()
    {
      hide Buf.Agrees, SameStretch, Overlay;
      for i := 0 to |dataBuffers|
        invariant Inv() && |dataBuffers| == |old(dataBuffers)|
        invariant forall k :: 0 <= k < |dataBuffers| ==> dataBuffers[k] == old(dataBuffers)[k].(inUse := if k < i then false else old(dataBuffers)[k].inUse)
      {
        MarkingKeeps(dataBuffers[i], false, file, totalCacheSize);
        dataBuffers := dataBuffers[i := dataBuffers[i].(inUse := false)];
      }
      assert Shape(dataBuffers) == Unmarked(old(Shape(dataBuffers)));
    }

    /** Finds `requested` bytes at `offset`, or as many as there are: where they are, and how many are there. */
    method Locate(requested: nat, offset: nat) returns (src: int, start: nat, bytesRead: nat)
      requires Inv() && sound && offset == filePosition && requested <= totalCacheSize
      modifies this`dataBuffers, this`dataBuffer, this`sortedDataBuffers, this`linkedDataBuffers, this`syncFilePosition
      ensures Inv() && linkedDataBuffers != [] && IsMarked(src)
      ensures Publishes(src, offset, bytesRead) && start == offset - Source(src).offset
      ensures bytesRead >= Min(requested, |file| - offset)
      ensures TheBook() == old(TheBook()).Located(requested)
    {
      hide Buf.Agrees, SameStretch, Overlay, Finds, Book.Found, Book.Blocked, AsyncFile.InUseIsNext, AsyncFile.RequestFits, Shape;
      CleanInUse();
      var found, bufferId;
      ShapeOfFinds(dataBuffers, linkedDataBuffers, offset, requested);
      found, src, bufferId := FindDataBuffer(offset, requested);
      if found {
        start, bytesRead := UseFound(src, bufferId, offset, requested);
      } else {
        src := SyncRead(offset);
        start := 0;
        bytesRead := dataBuffers[src].length;
      }
    }

    /** Marks what has been found as used, and builds the chain anew from it. */
    method UseFound(src: int, bufferId: nat, offset: nat, requested: nat) returns (start: nat, bytesRead: nat)
      requires Inv() && offset == filePosition && Finds(dataBuffers, linkedDataBuffers, offset, requested)
      requires bufferId == Holder(dataBuffers, linkedDataBuffers, offset, 0)
      requires src == (if offset + requested <= dataBuffers[bufferId].End() then bufferId else -1)
      requires Publishes(src, offset, requested)
      modifies this`dataBuffers, this`dataBuffer, this`sortedDataBuffers, this`linkedDataBuffers
      ensures Inv() && linkedDataBuffers != [] && IsMarked(src)
      ensures Publishes(src, offset, bytesRead) && start == offset - Source(src).offset && bytesRead >= requested
      ensures TheBook() == old(TheBook()).Found(requested)
    {
      hide Buf.Agrees, SameStretch, Overlay, Covers, Holder, ChainFrom, AsyncFile.InUseIsNext, AsyncFile.RequestFits, Shape;
      ShapeOfFinds(dataBuffers, linkedDataBuffers, offset, requested);
      MarkInUse(src);
      start := offset - Source(src).offset;
      bytesRead := Source(src).length - start;
      ChainByPlaces(dataBuffers, Shape(dataBuffers), bufferId);
      Relink(bufferId);
    }

    /** Builds the chain anew from buffer `first`: consecutive, and with nothing left to append. */
    method Relink(first: nat)
      requires Inv() && first < |dataBuffers| && dataBuffers[first].valid && dataBuffers[first].length > 0
      modifies this`sortedDataBuffers, this`linkedDataBuffers
      ensures Inv() && linkedDataBuffers == ChainFrom(dataBuffers, first) && linkedDataBuffers != []
      ensures Consecutive(dataBuffers, linkedDataBuffers)
      ensures forall x: nat :: x < |dataBuffers| && dataBuffers[x].valid
                               && dataBuffers[x].offset == dataBuffers[linkedDataBuffers[|linkedDataBuffers| - 1]].End()
                               ==> x in linkedDataBuffers
    {
      hide Follow, SortedUpTo, SameStretch, Buf.Agrees;
      ChainFromIsComplete(dataBuffers, first);
      sortedDataBuffers, linkedDataBuffers := ReOrderBuffersQueue(dataBuffers, first);
      forall k | 0 <= k < |linkedDataBuffers|
        ensures linkedDataBuffers[k] < |dataBuffers| && dataBuffers[linkedDataBuffers[k]].valid
      {
        assert linkedDataBuffers[k] in linkedDataBuffers;
      }
    }

    ghost predicate IsMarked(src: int)
      reads this
    {
      -1 <= src < |dataBuffers| && (src >= 0 ==> dataBuffers[src].valid && dataBuffers[src].inUse)
    }

    method MarkInUse(src: int)
      requires Inv() && -1 <= src < |dataBuffers|
      modifies this`dataBuffers, this`dataBuffer
      ensures Inv() && |dataBuffers| == |old(dataBuffers)| && Source(src) == old(Source(src)).(inUse := true)
      ensures dataBuffers == if src == -1 then old(dataBuffers) else old(dataBuffers[src := dataBuffers[src].(inUse := true)])
      ensures Shape(dataBuffers) == if src == -1 then old(Shape(dataBuffers))
                                    else old(Shape(dataBuffers)[src := Shape(dataBuffers)[src].(inUse := true)])
    {
      hide Buf.Agrees, SameStretch, Overlay;
      MarkingKeeps(Source(src), true, file, totalCacheSize);
      if src == -1 {
        dataBuffer := dataBuffer.(inUse := true);
      } else {
        ShapeUpdate(dataBuffers, src, dataBuffers[src].(inUse := true));
        dataBuffers := dataBuffers[src := dataBuffers[src].(inUse := true)];
      }
    }

    /** Finds at most `requested` bytes at `offset`, and moves the position behind them. */
    method Fetch(requested: nat, offset: nat) returns (src: int, start: nat, n: nat)
      requires Inv() && sound && offset == filePosition && requested <= totalCacheSize
      modifies this
      ensures Inv() && sound && linkedDataBuffers != [] && IsMarked(src) && lastUserFileRead == filePosition
      ensures n == Min(requested, |file| - offset) && filePosition == offset + n
      ensures Publishes(src, offset, n) && start == offset - Source(src).offset
      ensures old(TheBook()).Valid() && TheBook() == old(TheBook()).Located(requested).Moved(n)
    {
      hide Buf.Agrees, SameStretch, Overlay, Book.Located, Shape;
      var bytesRead;
      src, start, bytesRead := Locate(requested, offset);
      PublishedData(src, offset, bytesRead);
      n := if bytesRead > requested then requested else bytesRead;
      filePosition := offset + n;
      lastUserFileRead := filePosition;
    }

    /** Delivers at most `size * count` bytes at `offset`: where they are, and how many. */
    method DoRead(size: nat, count: nat, offset: nat) returns (src: int, start: nat, n: nat)
      requires Inv() && sound && offset == filePosition
      requires size * count <= totalCacheSize
      modifies this
      ensures TheBook() == old(TheBook()).Pass(size * count).book && sound == old(TheBook()).Pass(size * count).sound
      ensures n == Min(size * count, |file| - offset) == old(TheBook()).Gets(size * count)
      ensures sound ==>
                && Inv() && filePosition == offset + n
                && -1 <= src < |dataBuffers| && Publishes(src, offset, n) && start == offset - Source(src).offset
    {
      hide Buf.Agrees, SameStretch, Overlay, Book.Located, Book.Update, Shape, RequestFits, InUseIsNext;
      src, start, n := Fetch(size * count, offset);
      if startAsyncRead {
        UpdateReading();
      } else {
        NotActive();
      }
    }

    lemma NotActive()
      requires Inv() && !startAsyncRead
      ensures TheBook().Update() == Step(TheBook(), true)
    {
    }

    /** Keeps the reader thread busy, unless it is, or enough is read ahead, or all is read. */
    method UpdateReading()
      requires Inv() && sound && startAsyncRead && linkedDataBuffers != [] && lastUserFileRead == filePosition
      modifies this`sound, this`dataBuffers, this`linkedDataBuffers, this`dataBufferInUse, this`syncFilePosition,
               this`asyncFilePosition, this`asyncHandle, this`request, this`readBuffer, this`readStart
      ensures TheBook() == old(TheBook()).Update().book && sound == old(TheBook()).Update().sound
      ensures sound ==> Inv() && KeepsMarked()
    {
      hide Buf.Holds, SameStretch, Overlay, Book.NextRead, Book.FindsNoPlace;
      if request != Idle {
        return;
      }
      var bytesReadAhead := BytesReadAhead();
      if bytesReadAhead >= 3 * totalCacheSize {
        return;
      }
      var posToReadFrom := filePosition + bytesReadAhead;
      if posToReadFrom == |file| {
        return;
      }
      StartNextRead(posToReadFrom);
    }

    lemma PublishedData(src: int, offset: nat, n: nat)
      requires Inv() && -1 <= src < |dataBuffers| && Publishes(src, offset, n)
      ensures var start := offset - Source(src).offset;
              start + n <= totalCacheSize == |Source(src).bytes| && offset + n <= |file|
              && Source(src).bytes[start..start + n] == file[offset..offset + n]
    {
      PublishedStretch(Source(src), file, totalCacheSize, offset, n);
    }

    /** One pass of the read loop. While it runs, the reader thread may complete its request. */
    method ReadOnce(dest: array<Byte>, at: nat, size: nat, bytesToRead: nat, late: Late) returns (nbytes: nat)
      requires Inv() && sound
      requires size > 0 && at + bytesToRead <= dest.Length
      modifies this, dest
      ensures var asked := size * WholeElements(Min(bytesToRead, totalCacheSize), size);
              && nbytes == old(TheBook()).Gets(asked) && sound == old(TheBook()).Pass(asked).sound
              && TheBook() == (if sound then old(TheBook()).Pass(asked).book.Arrive(late) else old(TheBook()).Pass(asked).book)
      ensures sound ==>
                && Inv() && TheBook().Valid() && TheBook().cap == totalCacheSize && nbytes <= bytesToRead && filePosition <= |file|
                && nbytes == Min(size * WholeElements(Min(bytesToRead, totalCacheSize), size), |file| - old(filePosition))
                && filePosition == old(filePosition) + nbytes
                && Elements(dest) == Overlay(old(Elements(dest)), at, file[old(filePosition)..filePosition])
    {
      hide BuffersAgree, LinksAreValid, InUseIsNext, RequestFits, WholeElements, Overlay, Elements, Book.Pass, Book.Gets, Shape, Book.Valid;
      var thisRead := if bytesToRead > totalCacheSize then totalCacheSize else bytesToRead;
      WholeElementsFit(thisRead, size);
      var src, start;
      src, start, nbytes := DoRead(size, WholeElements(thisRead, size), filePosition);
      if !sound {
        return;
      }
      if late.Within? && late.pass == 0 {
        Complete(late.k);
      }
      BookIsValid();
      Deliver(dest, at, src, start, filePosition - nbytes, nbytes);
    }

    /** Copies what has been found. */
    method Deliver(dest: array<Byte>, at: nat, src: int, start: nat, ghost offset: nat, n: nat)
      requires Inv() && -1 <= src < |dataBuffers| && Publishes(src, offset, n) && start == offset - Source(src).offset
      requires at + n <= dest.Length
      modifies dest
      ensures offset + n <= |file| && Elements(dest) == Overlay(old(Elements(dest)), at, file[offset..offset + n])
    {
      hide BuffersAgree, LinksAreValid, InUseIsNext, RequestFits, Overlay, Elements;
      PublishedData(src, offset, n);
      Copy(dest, at, Source(src).bytes[start..start + n]);
    }

    /**
     * Reads up to `count` elements of `size` bytes. Whatever the buffers hold, and whenever the reader thread completes
     * in the meantime, the user gets the next bytes of the file, unless a pass finds no place for the next request.
     */
    method Read(dest: array<Byte>, size: nat, count: nat, late: Late) returns (n: nat, bytesRead: nat)
      requires Inv() && sound
      requires size > 0 && size * count <= dest.Length
      modifies this, dest
      ensures Step(TheBook(), sound) == old(TheBook()).Read(size * count, size, late)
      ensures sound ==>
                && Inv() && n == WholeElements(bytesRead, size)
                && bytesRead == (if size <= totalCacheSize then Min(size * count, |file| - old(filePosition)) else 0)
                && filePosition == old(filePosition) + bytesRead
                && Elements(dest) == Overlay(old(Elements(dest)), 0, file[old(filePosition)..filePosition])
    {
      hide AsyncFile.Inv, AsyncFile.TheBook, WholeElements, Overlay, Elements, Book.Pass, Book.Gets, Book.Arrive, Book.Valid, Book.Read;
      bytesRead := 0;
      var bytesToRead: nat, more := size * count, true;
      var pending := late;
      BookIsValid();
      ghost var elementsLeft: nat, start, whole := count, filePosition, old(TheBook()).Read(size * count, size, late);
      OverlayNothing(Elements(dest), 0);
      while bytesToRead > 0 && more
        invariant sound && Inv() && TheBook().Valid() && TheBook().cap == totalCacheSize
        invariant bytesRead + bytesToRead == size * count
        invariant filePosition == start + bytesRead <= |file|
        invariant Elements(dest) == Overlay(old(Elements(dest)), 0, file[start..filePosition])
        invariant size > totalCacheSize ==> bytesRead == 0
        invariant !more && size <= totalCacheSize ==> filePosition == |file|
        invariant filePosition == |file| || bytesToRead == size * elementsLeft
        invariant whole == if more then TheBook().Read(bytesToRead, size, pending) else Step(TheBook(), true)
        decreases bytesToRead, more
      {
        ghost var before, asked := filePosition, WholeElements(Min(bytesToRead, totalCacheSize), size);
        ReadSize(size, totalCacheSize, bytesToRead, elementsLeft);
        TheBook().ReadUnfolds(bytesToRead, size, pending);
        var nbytes := ReadOnce(dest, bytesRead, size, bytesToRead, pending);
        if !sound {
          return 0, bytesRead;
        }
        pending := pending.Next();
        OverlayTwice(old(Elements(dest)), 0, file[start..before], file[before..filePosition]);
        assert file[start..before] + file[before..filePosition] == file[start..filePosition];
        if nbytes > 0 {
          elementsLeft := if filePosition == |file| then 0 else elementsLeft - asked;
          bytesRead := bytesRead + nbytes;
          bytesToRead := bytesToRead - nbytes;
        } else {
          more := false;
        }
      }
      TheBook().ReadUnfolds(0, size, pending);
      n := WholeElements(bytesRead, size);
    }
  }

  /** Where a seek is to go. */
  function SeekTarget(pos: nat, size: nat, offset: int, origin: Origin): int {
    match origin
    case SeekCur => pos + offset
    case SeekSet => offset
    case SeekEnd => size + offset
    case UnknownOrigin => pos
  }

  /** `n` bytes of `a` from `i` on are those of `b` from `j` on. */
  ghost predicate SameStretch(a: seq<Byte>, i: nat, b: seq<Byte>, j: nat, n: nat) {
    i + n <= |a| && j + n <= |b| && a[i..i + n] == b[j..j + n]
  }

  lemma PublishedStretch(b: Buf, file: seq<Byte>, cap: nat, offset: nat, n: nat)
    requires b.Agrees(file, cap) && b.valid && b.offset <= offset && offset + n <= b.End()
    ensures SameStretch(b.bytes, offset - b.offset, file, offset, n)
  {
    var start := offset - b.offset;
    SliceOfSlice(b.bytes, 0, b.length, start, start + n);
    SliceOfSlice(file, b.offset, b.End(), start, start + n);
  }

  lemma MarkingKeeps(b: Buf, mark: bool, file: seq<Byte>, cap: nat)
    requires b.Agrees(file, cap)
    ensures b.(inUse := mark).Agrees(file, cap)
  {
  }

  /** Bytes behind what a buffer publishes are nobody's. */
  lemma ReceivedHolds(b: Buf, file: seq<Byte>, start: nat, d: seq<Byte>, cap: nat)
    requires b.Agrees(file, cap) && start == b.length && start + |d| <= cap
    ensures |b.bytes| == cap && b.(bytes := Overlay(b.bytes, start, d)).Agrees(file, cap)
    ensures b.(bytes := Overlay(b.bytes, start, d)).Published() == b.Published()
  {
    OverlayTail(b.bytes, start, d);
  }

  /** A buffer from which nothing can be read agrees with the file anywhere. */
  lemma EmptyHolds(b: Buf, file: seq<Byte>, pos: nat, cap: nat)
    requires b.Agrees(file, cap) && pos <= |file|
    ensures b.(offset := pos, bufLength := 0).UpdateData().Agrees(file, cap)
  {
    assert file[pos..pos] == b.bytes[..0];
  }

  /** A buffer filled anew from the file. */
  function Filled(b: Buf, file: seq<Byte>, offset: nat, n: nat): Buf
    requires offset + n <= |file|
  {
    Buf(Overlay(b.bytes, 0, file[offset..offset + n]), n, offset, b.length, b.valid, true).UpdateData()
  }

  lemma FillingHolds(b: Buf, file: seq<Byte>, offset: nat, n: nat, cap: nat)
    requires b.Agrees(file, cap) && n <= cap && offset + n <= |file|
    ensures Filled(b, file, offset, n).Agrees(file, cap)
  {
    OverlayFront(b.bytes, file[offset..offset + n]);
  }

  /** Adds `d` at the end of a byte container. */
  function Append(b: Buf, d: seq<Byte>): (r: Buf)
    requires b.bufLength + |d| <= |b.bytes|
    ensures r == b.(bytes := r.bytes, bufLength := b.bufLength + |d|) && |r.bytes| == |b.bytes|
    ensures r.bytes[..r.bufLength] == b.bytes[..b.bufLength] + d
  {
    b.(bytes := Overlay(b.bytes, b.bufLength, d), bufLength := b.bufLength + |d|)
  }

  // ---------- Facts about byte containers and element counts

  /** The read loop asks for as many whole elements as fit a buffer: at least one, when one fits and one is wanted. */
  lemma ReadSize(size: nat, cap: nat, bytes: nat, elements: nat)
    requires size > 0
    ensures var q := WholeElements(Min(bytes, cap), size);
            && size * q <= bytes
            && (size > cap ==> q == 0)
            && (bytes == size * elements ==> q <= elements && bytes - size * q == size * (elements - q))
            && (bytes == size * elements && bytes > 0 && size <= cap ==> size * q > 0)
  {
    var t := Min(bytes, cap);
    var q := WholeElements(t, size);
    WholeElementsFit(t, size);
    if size > cap {
      assert t < size;
    }
    if bytes == size * elements {
      if q > elements {
        Monotone(size, elements + 1, q);
      }
      assert size * (elements - q) == size * elements - size * q;
      if bytes > 0 && size <= cap {
        assert elements >= 1;
        Monotone(size, 1, elements);
        assert q >= 1;
      }
    }
  }

  lemma OverlayTail(bytes: seq<Byte>, p: nat, d: seq<Byte>)
    requires p + |d| <= |bytes|
    ensures |Overlay(bytes, p, d)| == |bytes|
    ensures Overlay(bytes, p, d)[..p] == bytes[..p] && Overlay(bytes, p, d)[p..p + |d|] == d
  {
  }

  lemma OverlayFront(bytes: seq<Byte>, d: seq<Byte>)
    requires |d| <= |bytes|
    ensures Overlay(bytes, 0, d)[..|d|] == d
  {
  }

  /** Publishing `k` more bytes that are the file's. */
  lemma PublishMore(b: Buf, file: seq<Byte>, k: nat)
    requires b.Agrees(file, |b.bytes|) && b.valid && b.length + k <= |b.bytes| && b.End() + k <= |file|
    requires b.bytes[b.length..b.length + k] == file[b.End()..b.End() + k]
    ensures b.bytes[..b.length + k] == file[b.offset..b.End() + k]
  {
    assert b.bytes[..b.length + k] == b.bytes[..b.length] + b.bytes[b.length..b.length + k];
    assert file[b.offset..b.End() + k] == file[b.offset..b.End()] + file[b.End()..b.End() + k];
  }

  lemma AppendedTwice(b: Buf, x: seq<Byte>, y: seq<Byte>)
    requires |x| + |y| <= |b.bytes|
    ensures var r := Append(Append(b.(bufLength := 0), x), y);
            |r.bytes| == |b.bytes| && r.bufLength == |x| + |y| && r.bytes[..|x| + |y|] == x + y
  {
    hide Append;
    assert b.bytes[..0] + x == x;
  }

  lemma PublishAgrees(b: Buf, file: seq<Byte>, cap: nat, k: nat)
    requires b.Agrees(file, cap) && b.valid && b.length + k <= cap && b.End() + k <= |file|
    requires b.bytes[b.length..b.length + k] == file[b.End()..b.End() + k]
    ensures b.(bufLength := b.bufLength + k).UpdateData().Agrees(file, cap)
  {
    PublishMore(b, file, k);
  }

  /** The end of one buffer, from `offset` on, and as much of the next as makes `size` bytes, in buffer `b`. */
  function Stitched(b: Buf, first: Buf, second: Buf, offset: nat, size: nat): Buf
    requires first.offset <= offset < first.End() < offset + size <= first.End() + second.length
    requires first.bufLength == first.length <= |first.bytes| && second.length <= |second.bytes| && size <= |b.bytes|
  {
    var availableData := first.End() - offset;
    var lengthToCopy := size - availableData;
    Append(Append(b.(bufLength := 0), first.bytes[first.bufLength - availableData..first.bufLength]),
           second.bytes[..lengthToCopy]).UpdateData().(offset := offset)
  }

  lemma StitchIsFile(first: Buf, second: Buf, file: seq<Byte>, offset: nat, size: nat)
    requires first.Agrees(file, |first.bytes|) && first.valid && second.Agrees(file, |second.bytes|) && second.valid
    requires first.offset <= offset < first.End() == second.offset && first.End() < offset + size <= second.End()
    ensures var availableData := first.End() - offset;
            first.bytes[first.bufLength - availableData..first.bufLength] + second.bytes[..size - availableData]
            == file[offset..offset + size]
  {
    var k, n := offset - first.offset, offset + size - second.offset;
    SliceOfSlice(first.bytes, 0, first.length, k, first.length);
    SliceOfSlice(file, first.offset, first.End(), k, first.length);
    SliceOfSlice(second.bytes, 0, second.length, 0, n);
    SliceOfSlice(file, second.offset, second.End(), 0, n);
  }

  lemma StitchedHolds(b: Buf, first: Buf, second: Buf, file: seq<Byte>, cap: nat, offset: nat, size: nat)
    requires first.Agrees(file, cap) && first.valid && second.Agrees(file, cap) && second.valid
    requires first.offset <= offset < first.End() == second.offset && first.End() < offset + size <= second.End()
    requires b.Agrees(file, cap) && size <= cap
    ensures first.bufLength == first.length <= |first.bytes| && second.length <= |second.bytes| && size <= |b.bytes|
    ensures Stitched(b, first, second, offset, size).Agrees(file, cap)
    ensures Stitched(b, first, second, offset, size).valid
    ensures Stitched(b, first, second, offset, size).offset == offset
    ensures Stitched(b, first, second, offset, size).length == size
  {
    hide Stitched;
    StitchIsFile(first, second, file, offset, size);
    StitchedHas(b, first, second, offset, size);
  }

  lemma StitchedHas(b: Buf, first: Buf, second: Buf, offset: nat, size: nat)
    requires first.offset <= offset < first.End() < offset + size <= first.End() + second.length
    requires first.bufLength == first.length <= |first.bytes| && second.length <= |second.bytes| && size <= |b.bytes|
    ensures var r := Stitched(b, first, second, offset, size);
            && r == Buf(r.bytes, size, offset, size, true, b.inUse) && |r.bytes| == |b.bytes|
            && r.bytes[..size] == first.bytes[first.bufLength - (first.End() - offset)..first.bufLength]
                                  + second.bytes[..size - (first.End() - offset)]
  {
    hide Append;
    AppendedTwice(b, first.bytes[first.bufLength - (first.End() - offset)..first.bufLength],
                  second.bytes[..size - (first.End() - offset)]);
  }
}
