/** What a user of the read-ahead file gets for seeks and reads, and when it reads ahead, said without its own words. */
module AsyncCalls {
  import opened AsyncBuffers
  import opened Bytes
  import opened PlainFiles
  import opened Sequences
  import opened AsyncBooks
  import opened AsyncFiles
  import opened AsyncRuns

  lemma ExpectedOneMore(file: seq<Byte>, cap: nat, events: seq<Event>, event: Event)
    ensures var before := Expected(file, cap, events);
            Expected(file, cap, events + [event])
            == (PlainStep(file, cap, before.0, event).0, before.1 + PlainStep(file, cap, before.0, event).1)
  {
    assert (events + [event])[..|events|] == events;
  }

  /** After any run: back from the end by `k` bytes, and a read of that many or more gives the last `k` bytes. */
  lemma ReadsFromEnd(file: seq<Byte>, cap: nat, events: seq<Event>, k: int, size: nat, count: nat, late: Late)
    requires 0 <= k <= |file| && 0 < size <= cap && size * count >= k
    ensures Expected(file, cap, events + [UserSeek(-k, SeekEnd)] + [UserRead(size, count, late)])
         == (|file|, Expected(file, cap, events).1 + [file[|file| - k..]])
  {
    hide Expected;
    ExpectedOneMore(file, cap, events, UserSeek(-k, SeekEnd));
    ExpectedOneMore(file, cap, events + [UserSeek(-k, SeekEnd)], UserRead(size, count, late));
    var answers := Expected(file, cap, events).1;
    assert answers + [] == answers && file[|file| - k..|file|] == file[|file| - k..];
  }

  /** Elements larger than a buffer are not read at all. */
  lemma LargeElements(file: seq<Byte>, cap: nat, events: seq<Event>, size: nat, count: nat, late: Late)
    requires size > cap
    ensures Expected(file, cap, events + [UserRead(size, count, late)])
         == (Expected(file, cap, events).0, Expected(file, cap, events).1 + [[]])
  {
    hide Expected;
    ExpectedOneMore(file, cap, events, UserRead(size, count, late));
  }

  /** A seek from the start and one from there add up; an unknown origin moves nothing. */
  lemma SeeksAdd(file: seq<Byte>, cap: nat, events: seq<Event>, o: nat, d: int)
    requires o <= |file| && 0 <= o + d <= |file|
    ensures Expected(file, cap, events + [UserSeek(o, SeekSet)] + [UserSeek(d, SeekCur)])
         == (o + d, Expected(file, cap, events).1)
    ensures Expected(file, cap, events + [UserSeek(d, UnknownOrigin)]) == Expected(file, cap, events)
  {
    hide Expected;
    ExpectedOneMore(file, cap, events, UserSeek(o, SeekSet));
    ExpectedOneMore(file, cap, events + [UserSeek(o, SeekSet)], UserSeek(d, SeekCur));
    ExpectedOneMore(file, cap, events, UserSeek(d, UnknownOrigin));
    var answers := Expected(file, cap, events).1;
    assert answers + [] == answers && answers + [] + [] == answers;
  }

  /** The seeks that stop the process, and what the others do to the book: the position moves, and nothing else. */
  lemma SeekFails(b: Book, offset: int, origin: Origin)
    requires b.Valid()
    ensures Fails(b, UserSeek(offset, origin))
       <==> || (origin == SeekSet && (offset < 0 || offset > b.size))
            || (origin == SeekCur && (b.pos + offset < 0 || b.pos + offset > b.size))
            || (origin == SeekEnd && (b.size + offset < 0 || offset > 0))
    ensures Took(b, UserSeek(offset, origin)).book == b.(pos := Took(b, UserSeek(offset, origin)).book.pos)
  {
  }

  ghost predicate OnlyReads(events: seq<Event>, cap: nat) {
    forall i :: 0 <= i < |events| ==> !events[i].UserSeek? && (events[i].UserRead? ==> events[i].size <= cap)
  }

  ghost function Asked(events: seq<Event>): nat {
    if events == [] then 0
    else
      var last := events[|events| - 1];
      Asked(events[..|events| - 1]) + (if last.UserRead? then last.size * last.count else 0)
  }

  /** Without seeks, what the reads deliver is the start of the file, piece by piece, as long as all they ask for, or all of it. */
  lemma {:induction false} ReadsConcatenate(file: seq<Byte>, cap: nat, events: seq<Event>)
    requires OnlyReads(events, cap)
    ensures var n := if Asked(events) < |file| then Asked(events) else |file|;
            Expected(file, cap, events).0 == n && Flat(Expected(file, cap, events).1) == file[..n]
  {
    if events != [] {
      var before := events[..|events| - 1];
      ReadsConcatenate(file, cap, before);
      var (pos, answers) := Expected(file, cap, before);
      var step := PlainStep(file, cap, pos, events[|events| - 1]);
      if step.1 == [] {
        assert answers + [] == answers;
      } else {
        assert (answers + step.1)[..|answers|] == answers;
        assert file[..pos] + file[pos..step.0] == file[..step.0];
      }
    }
  }

  // ---------- Reading ahead ----------

  /** A buffer that may be filled: not valid, or not marked, linked, in use, or about to be linked in front. */
  ghost predicate HasBuffer(bufs: seq<Buf>, linked: seq<nat>, inUse: int)
    requires Names(bufs, linked)
  {
    exists i :: 0 <= i < |bufs| && IsFree(bufs, linked, inUse, i)
  }

  ghost predicate IsFree(bufs: seq<Buf>, linked: seq<nat>, inUse: int, i: nat)
    requires i < |bufs| && Names(bufs, linked)
  {
    || !bufs[i].valid
    || (&& !bufs[i].inUse && i != inUse && (forall k :: 0 <= k < |linked| ==> linked[k] != i)
        && (|linked| > 0 ==> bufs[i].offset + bufs[i].length != bufs[linked[0]].offset))
  }

  /**
   * With none outstanding, a request is issued exactly when less than three buffers and less than the file are read ahead,
   * and the place where the chain ends is that of the asynchronous reads, with room or a buffer for it, or that of the
   * blocking ones, with a buffer.
   */
  lemma IssuesExactly(b: Book)
    requires b.Valid() && b.active && b.request == Idle && b.linked != [] && b.last == b.pos
    ensures Issues(b, b.Update())
  {
    IssuesWhenDue(b);
  }

  /** So it is when the scheduler has run a completion, by where the last read ended, wherever the user has gone since. */
  lemma RunIssuesExactly(b: Book)
    requires b.Valid() && b.request.Done? && b.inUse >= 0 && b.linked != []
    ensures Issues(b.Published(), b.Run())
  {
    IssuesWhenDue(b.Published());
  }

  ghost predicate Issues(b: Book, r: Step)
    requires b.Valid() && b.linked != []
  {
    var last := b.bufs[b.linked[|b.linked| - 1]];
    var reached := last.offset + last.length;
    var room := b.inUse >= 0 && b.bufs[b.inUse].offset + b.bufs[b.inUse].length == reached
                ==> b.bufs[b.inUse].bufLength + b.unit <= b.cap;
    r.book.request == InFlight
    <==> && reached < b.last + 3 * b.cap && reached != b.size
         && if reached == b.async then room || HasBuffer(b.bufs, b.linked, b.inUse)
            else reached == b.sync && HasBuffer(b.bufs, b.linked, b.inUse)
  }

  lemma IssuesWhenDue(b: Book)
    requires b.Valid() && b.request == Idle && b.linked != []
    ensures var last := b.bufs[b.linked[|b.linked| - 1]];
            var reached := last.offset + last.length;
            var room := b.inUse >= 0 && b.bufs[b.inUse].offset + b.bufs[b.inUse].length == reached
                        ==> b.bufs[b.inUse].bufLength + b.unit <= b.cap;
            b.NextRead(reached).book.request == InFlight
            <==> && if reached == b.async then room || HasBuffer(b.bufs, b.linked, b.inUse)
                    else reached == b.sync && HasBuffer(b.bufs, b.linked, b.inUse)
  {
    NoNextBuffer(b.bufs, b.linked, b.inUse);
    forall i | 0 <= i < |b.bufs|
      ensures IsFree(b.bufs, b.linked, b.inUse, i) <==> !(b.bufs[i].valid && !Spare(b.bufs, b.linked, b.inUse, i))
    {
    }
  }

  lemma FirstBlocks(size: nat, cap: nat, asserts: bool)
    requires 0 < cap < size
    ensures var b := Opened(size, cap, asserts);
            var empty := b.bufs[0];
            var full := empty.(offset := 0, length := cap, bufLength := cap, valid := true, inUse := true);
            b.Located(1).Moved(1) == b.(bufs := [full, empty, empty, empty], linked := [0], sync := cap, pos := 1, last := 1)
  {
    var b := Opened(size, cap, asserts);
    assert Unmarked(b.bufs) == b.bufs;
    assert b.Located(1) == b.Clean().Blocked();
  }

  /**
   * The first byte of a file that is longer than a buffer: a blocking read fills one buffer, and the reader thread is to go on
   * behind it in another, with 8 KiB or what fits.
   */
  lemma FirstRead(size: nat, cap: nat, asserts: bool, k: nat)
    requires 0 < cap < size
    ensures var r := Took(Opened(size, cap, asserts), UserRead(1, 1, Never));
            && r.sound && r.book.pos == 1 && r.book.linked == [0, 1] && r.book.request == InFlight
            && r.book.bufs[0].offset == 0 && r.book.bufs[0].length == cap && r.book.bufs[0].valid
            && r.book.inUse == 1 && r.book.sync == 0 && r.book.bufs[1].offset == r.book.async == cap && r.book.bufs[1].length == 0
            && Took(r.book, ReaderCompletes(k)).book.request == Done(Min(Min(k, 8192), Min(cap, size - cap)))
  {
    hide Book.Read;
    var b := Opened(size, cap, asserts);
    OnePass(b, 1, 1, Never);
    var empty := b.bufs[0];
    var full := empty.(offset := 0, length := cap, bufLength := cap, valid := true, inUse := true);
    var c := b.(bufs := [full, empty, empty, empty], linked := [0], sync := cap, pos := 1, last := 1);
    FirstBlocks(size, cap, asserts);
    assert c.bufs[0].valid && !c.bufs[1].valid;
    assert FirstInvalid(c.bufs, 0) == 1;
    assert NextBuffer(c.bufs, [0], -1) == 1;
  }

  // ---------- What is found ----------

  /** A valid buffer that has the byte at `offset`. */
  ghost predicate HasByte(b: Buf, offset: nat) {
    b.valid && b.offset <= offset < b.offset + b.length
  }

  /** It has it, and is in the chain or ends where the chain begins. */
  ghost predicate IsReachable(bufs: seq<Buf>, linked: seq<nat>, offset: nat, i: nat)
    requires i < |bufs| && Names(bufs, linked)
  {
    && HasByte(bufs[i], offset)
    && (|| (exists k :: 0 <= k < |linked| && linked[k] == i)
        || (|linked| > 0 && bufs[i].offset + bufs[i].length == bufs[linked[0]].offset))
  }

  ghost predicate IsFirstReachable(bufs: seq<Buf>, linked: seq<nat>, offset: nat, i: nat)
    requires Names(bufs, linked)
  {
    i < |bufs| && IsReachable(bufs, linked, offset, i) && forall k :: 0 <= k < i ==> !IsReachable(bufs, linked, offset, k)
  }

  ghost predicate IsFirstWith(bufs: seq<Buf>, offset: nat, j: nat) {
    j < |bufs| && HasByte(bufs[j], offset) && forall k :: 0 <= k < j ==> !HasByte(bufs[k], offset)
  }

  /**
   * Data is found in the first buffer that has its first byte and can be reached, when that has all of it, or when the first
   * buffer with the byte behind it begins with that byte and has the rest.
   */
  lemma FindsExactly(bufs: seq<Buf>, linked: seq<nat>, offset: nat, size: nat)
    requires Names(bufs, linked)
    ensures Finds(bufs, linked, offset, size)
       <==> exists i: nat :: && IsFirstReachable(bufs, linked, offset, i)
                        && var end := bufs[i].offset + bufs[i].length;
                           || offset + size <= end
                           || exists j: nat :: IsFirstWith(bufs, end, j) && bufs[j].offset == end && offset + size <= end + bufs[j].length
  {
    hide IsFirstReachable, IsFirstWith, Holder, FirstWith;
    var i := Holder(bufs, linked, offset, 0);
    OnlyFirstReachable(bufs, linked, offset);
    if i < |bufs| {
      OnlyFirst(bufs, bufs[i].offset + bufs[i].length);
    }
  }

  lemma OnlyFirstReachable(bufs: seq<Buf>, linked: seq<nat>, offset: nat)
    requires Names(bufs, linked)
    ensures var i := Holder(bufs, linked, offset, 0);
            && (i < |bufs| ==> IsFirstReachable(bufs, linked, offset, i))
            && forall k: nat :: IsFirstReachable(bufs, linked, offset, k) ==> k == i
    ensures forall k: nat :: IsFirstReachable(bufs, linked, offset, k) ==> k < |bufs|
  {
    forall k | 0 <= k < |bufs|
      ensures IsReachable(bufs, linked, offset, k)
         <==> bufs[k].HasThisOffset(offset) && (k in linked || Linkable(bufs, linked, k))
    {
    }
  }

  lemma OnlyFirst(bufs: seq<Buf>, offset: nat)
    ensures var j := FirstWith(bufs, offset, 0);
            (j < |bufs| ==> IsFirstWith(bufs, offset, j)) && forall k: nat :: IsFirstWith(bufs, offset, k) ==> k == j < |bufs|
  {
    assert forall k :: 0 <= k < |bufs| ==> (HasByte(bufs[k], offset) <==> bufs[k].HasThisOffset(offset));
  }
}
