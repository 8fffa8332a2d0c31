/** A run in which the read-ahead file finds no place for the next asynchronous read. */
module AsyncStall {
  import opened Bytes
  import opened AsyncBuffers
  import opened PlainFiles
  import opened AsyncBooks
  import opened AsyncRuns

  /** Buffers of one byte, in a file of four bytes or more. */
  ghost function Stage(size: nat, asserts: bool, bufs: seq<Buf>, linked: seq<nat>, pos: nat, last: nat, sync: nat, async: nat,
                       request: Request): Book {
    Book(size, 1, 1, asserts, true, bufs, linked, 1, pos, last, sync, async, request)
  }

  ghost function Empty(): Buf {
    Buf([], 0, 0, 0, false, false)
  }

  /** A buffer that has the byte at `offset`. */
  ghost function Full(offset: nat, inUse: bool): Buf {
    Buf([], 1, offset, 1, true, inUse)
  }

  /** A buffer that is to get the byte at `offset`. */
  ghost function Waiting(offset: nat): Buf {
    Buf([], 0, offset, 0, true, false)
  }

  const READ: Event := UserRead(1, 1, Never)

  /** Three reads, while the reader thread has its first request; two steps back, each with a read; then the request completes. */
  const HISTORY: seq<Event> :=
    [READ, READ, READ, UserSeek(1, SeekSet), READ, UserSeek(0, SeekSet), READ, ReaderCompletes(1), SchedulerRuns]

  /** A read whose byte no buffer has. */
  lemma BlockedRead(b: Book, r: nat)
    requires b.Valid() && b.cap == 1 && b.pos < b.size && forall i :: 0 <= i < |b.bufs| ==> !b.bufs[i].HasThisOffset(b.pos)
    requires r == NextBuffer(Unmarked(b.bufs), [], b.inUse)
    ensures var c := b.(bufs := Unmarked(b.bufs)[r := Buf(b.bufs[r].bytes, 1, b.pos, 1, true, true)], linked := [r],
                        pos := b.pos + 1, last := b.pos + 1, sync := b.pos + 1);
            c.Valid() && (c.Update().sound ==> Took(b, READ) == c.Update())
  {
    hide NextBuffer, Took, Book.Update, Book.Read;
    OnePass(b, 1, 1, Never);
  }

  /** A read whose byte is in buffer `i`. */
  lemma FoundRead(b: Book, i: nat, chain: seq<nat>)
    requires b.Valid() && b.cap == 1 && b.pos < b.size && i < |b.bufs|
    requires i == Holder(Unmarked(b.bufs), b.linked, b.pos, 0) && chain == ChainFrom(b.bufs, i)
    ensures var c := b.(bufs := Unmarked(b.bufs)[i := b.bufs[i].(inUse := true)], linked := chain,
                        pos := b.pos + 1, last := b.pos + 1);
            c.Valid() && (c.Update().sound ==> Took(b, READ) == c.Update())
  {
    hide Holder, Took, ChainFrom, Book.Update, Book.Read;
    OnePass(b, 1, 1, Never);
    ChainByPlaces(b.bufs, Unmarked(b.bufs)[i := b.bufs[i].(inUse := true)], i);
  }

  /** The same with a request in flight. */
  lemma FoundWaits(b: Book, i: nat, chain: seq<nat>, clean: seq<Buf>, marked: seq<Buf>)
    requires b.Valid() && b.cap == 1 && b.pos < b.size && i < |b.bufs| && b.request == InFlight
    requires clean == Unmarked(b.bufs) && marked == clean[i := b.bufs[i].(inUse := true)]
    requires i == Holder(clean, b.linked, b.pos, 0) && chain == ChainFrom(clean, i)
    ensures Took(b, READ) == Step(b.(bufs := marked, linked := chain, pos := b.pos + 1, last := b.pos + 1), true)
  {
    hide Holder, Took, ChainFrom;
    ChainByPlaces(b.bufs, clean, i);
    FoundRead(b, i, chain);
  }

  // ---------- The stages of the run ----------

  ghost function Four(first: bool, third: bool, fourth: bool): seq<Buf> {
    [Full(0, first), Waiting(1), Full(1, third), Full(2, fourth)]
  }

  lemma AppendedLast(bufs: seq<Buf>, ids: seq<nat>, x: nat)
    requires Names(bufs, ids) && x < |bufs| && forall k :: 0 <= k < |ids| ==> bufs[ids[k]].offset <= bufs[x].offset
    ensures Insert(bufs, ids, x) == ids + [x]
  {
    PlaceIs(bufs, ids, x, |ids|);
  }

  lemma {:induction false} SortedAlready(bufs: seq<Buf>, n: nat)
    requires n <= |bufs| && forall i :: 0 <= i < |bufs| ==> bufs[i].valid
    requires forall i, j :: 0 <= i < j < |bufs| ==> bufs[i].offset <= bufs[j].offset
    ensures |SortedUpTo(bufs, n)| == n && forall k :: 0 <= k < n ==> SortedUpTo(bufs, n)[k] == k
  {
    hide Insert;
    if n > 0 {
      SortedAlready(bufs, n - 1);
      AppendedLast(bufs, SortedUpTo(bufs, n - 1), n - 1);
    }
  }

  lemma FollowOne(bufs: seq<Buf>, x: nat, rest: seq<nat>, end: nat)
    requires Names(bufs, [x] + rest) && x < |bufs| && Names(bufs, rest)
    ensures Follow(bufs, [x] + rest, end)
         == if bufs[x].offset == end then [x] + Follow(bufs, rest, bufs[x].End()) else Follow(bufs, rest, end)
  {
    assert ([x] + rest)[1..] == rest;
  }

  /** The chains that start with the first and with the third of the four. */
  lemma Chains()
    ensures ChainFrom(Four(false, false, false), 0) == [0, 1, 2, 3]
    ensures ChainFrom(Four(false, false, false), 2) == [2, 3]
  {
    hide Follow, SortedUpTo;
    var bufs := Four(false, false, false);
    SortedAlready(bufs, 4);
    assert SortedUpTo(bufs, 4) == [0] + ([1] + ([2] + ([3] + [])));
    FollowNone(bufs, 3);
    FollowOne(bufs, 3, [], 2);
    FollowOne(bufs, 2, [3] + [], 1);
    FollowOne(bufs, 2, [3] + [], 2);
    FollowOne(bufs, 1, [2] + ([3] + []), 1);
    FollowOne(bufs, 1, [2] + ([3] + []), 2);
    FollowOne(bufs, 0, [1] + ([2] + ([3] + [])), 1);
    FollowOne(bufs, 0, [1] + ([2] + ([3] + [])), 2);
  }

  lemma FollowNone(bufs: seq<Buf>, end: nat)
    ensures Follow(bufs, [], end) == []
  {
  }

  lemma First(size: nat, asserts: bool)
    requires size >= 4
    ensures Took(Opened(size, 1, asserts), READ)
         == Step(Stage(size, asserts, [Full(0, true), Waiting(1), Empty(), Empty()], [0, 1], 1, 1, 0, 1, InFlight), true)
  {
    var b := Opened(size, 1, asserts);
    assert Unmarked(b.bufs) == b.bufs;
    BlockedRead(b, 0);
    var c := b.(bufs := [Full(0, true), Empty(), Empty(), Empty()], linked := [0], pos := 1, last := 1, sync := 1);
    assert b.bufs[0 := Full(0, true)] == c.bufs;
    assert NextBuffer(c.bufs, [0], -1) == 1;
    assert c.bufs[1 := Waiting(1)] == [Full(0, true), Waiting(1), Empty(), Empty()] && [0] + [1] == [0, 1];
    assert c.Update() == c.NextRead(1);
  }

  lemma Second(size: nat, asserts: bool)
    requires size >= 4
    ensures Took(Stage(size, asserts, [Full(0, true), Waiting(1), Empty(), Empty()], [0, 1], 1, 1, 0, 1, InFlight), READ)
         == Step(Stage(size, asserts, [Full(0, false), Waiting(1), Full(1, true), Empty()], [2], 2, 2, 2, 1, InFlight), true)
  {
    hide Took;
    var b := Stage(size, asserts, [Full(0, true), Waiting(1), Empty(), Empty()], [0, 1], 1, 1, 0, 1, InFlight);
    var clean := [Full(0, false), Waiting(1), Empty(), Empty()];
    assert Unmarked(b.bufs) == clean;
    assert clean[0].valid && clean[1].valid && !clean[2].valid;
    BlockedRead(b, 2);
    assert Unmarked(b.bufs)[2 := Full(1, true)] == [Full(0, false), Waiting(1), Full(1, true), Empty()];
  }

  lemma Third(size: nat, asserts: bool)
    requires size >= 4
    ensures Took(Stage(size, asserts, [Full(0, false), Waiting(1), Full(1, true), Empty()], [2], 2, 2, 2, 1, InFlight), READ)
         == Step(Stage(size, asserts, Four(false, false, true), [3], 3, 3, 3, 1, InFlight), true)
  {
    hide Took;
    var b := Stage(size, asserts, [Full(0, false), Waiting(1), Full(1, true), Empty()], [2], 2, 2, 2, 1, InFlight);
    var clean := [Full(0, false), Waiting(1), Full(1, false), Empty()];
    assert Unmarked(b.bufs) == clean;
    assert clean[0].valid && clean[1].valid && clean[2].valid && !clean[3].valid;
    BlockedRead(b, 3);
    assert Unmarked(b.bufs)[3 := Full(2, true)] == Four(false, false, true);
  }

  /** Both steps back find their byte in a buffer that can be put in front of the chain. */
  lemma Holders()
    ensures Holder(Four(false, false, false), [3], 1, 0) == 2
    ensures Holder(Four(false, false, false), [2, 3], 0, 0) == 0
  {
  }

  lemma Marks()
    ensures Unmarked(Four(false, false, true)) == Unmarked(Four(false, true, false)) == Four(false, false, false)
    ensures |Four(false, false, true)| == |Four(false, true, false)| == |Four(false, false, false)| == 4
    ensures Four(false, false, false)[2 := Four(false, false, true)[2].(inUse := true)] == Four(false, true, false)
    ensures Four(false, false, false)[0 := Four(false, true, false)[0].(inUse := true)] == Four(true, false, false)
  {
  }

  lemma BackToTheSecond(size: nat, asserts: bool)
    requires size >= 4
    ensures Took(Stage(size, asserts, Four(false, false, true), [3], 1, 3, 3, 1, InFlight), READ)
         == Step(Stage(size, asserts, Four(false, true, false), [2, 3], 2, 2, 3, 1, InFlight), true)
  {
    hide Took, ChainFrom, Holder, Unmarked, Four;
    Marks();
    Holders();
    Chains();
    FoundWaits(Stage(size, asserts, Four(false, false, true), [3], 1, 3, 3, 1, InFlight), 2, [2, 3],
               Four(false, false, false), Four(false, true, false));
  }

  lemma BackToTheFirst(size: nat, asserts: bool)
    requires size >= 4
    ensures Took(Stage(size, asserts, Four(false, true, false), [2, 3], 0, 2, 3, 1, InFlight), READ)
         == Step(Stage(size, asserts, Four(true, false, false), [0, 1, 2, 3], 1, 1, 3, 1, InFlight), true)
  {
    hide Took, ChainFrom, Holder, Unmarked, Four;
    Marks();
    Holders();
    Chains();
    FoundWaits(Stage(size, asserts, Four(false, true, false), [2, 3], 0, 2, 3, 1, InFlight), 0, [0, 1, 2, 3],
               Four(false, false, false), Four(true, false, false));
  }

  /** The buffers with the request completed in the second of them. */
  ghost function AllFull(first: bool): seq<Buf> {
    [Full(0, first), Full(1, false), Full(1, false), Full(2, false)]
  }

  /** All buffers are linked, and the next read is to start where the last blocking read ended. */
  lemma Stalls(size: nat, asserts: bool)
    requires size >= 4
    ensures Took(Stage(size, asserts, Four(true, false, false), [0, 1, 2, 3], 1, 1, 3, 1, Done(1)), SchedulerRuns)
         == Step(Stage(size, asserts, AllFull(true), [0, 1, 2, 3], 1, 1, 2, 3, Idle), false)
  {
    var b := Stage(size, asserts, Four(true, false, false), [0, 1, 2, 3], 1, 1, 3, 1, Done(1));
    var c := Stage(size, asserts, AllFull(true), [0, 1, 2, 3], 1, 1, 3, 2, Idle);
    assert b.bufs[1 := Full(1, false)] == c.bufs;
    assert b.Published() == c;
    NoNextBuffer(c.bufs, c.linked, c.inUse);
    assert b.Run() == c.NextRead(3);
  }

  /** A step back, and the completion of the request, change nothing else. */
  lemma SeeksAndCompletes(size: nat, asserts: bool)
    requires size >= 4
    ensures Took(Stage(size, asserts, Four(false, false, true), [3], 3, 3, 3, 1, InFlight), UserSeek(1, SeekSet))
         == Step(Stage(size, asserts, Four(false, false, true), [3], 1, 3, 3, 1, InFlight), true)
    ensures Took(Stage(size, asserts, Four(false, true, false), [2, 3], 2, 2, 3, 1, InFlight), UserSeek(0, SeekSet))
         == Step(Stage(size, asserts, Four(false, true, false), [2, 3], 0, 2, 3, 1, InFlight), true)
    ensures Took(Stage(size, asserts, Four(true, false, false), [0, 1, 2, 3], 1, 1, 3, 1, InFlight), ReaderCompletes(1))
         == Step(Stage(size, asserts, Four(true, false, false), [0, 1, 2, 3], 1, 1, 3, 1, Done(1)), true)
  {
  }

  // ---------- The run ----------

  /** The events come through, and leave the book `b`. */
  ghost predicate Leads(start: Book, events: seq<Event>, b: Book) {
    start.Valid() && RunsThrough(start, events) && BookAfter(start, events) == b
  }

  lemma LeadsOn(start: Book, events: seq<Event>, b: Book, event: Event, next: Step)
    requires Leads(start, events, b) && b.Valid() && Took(b, event) == next
    ensures BookAfter(start, events + [event]) == next.book
    ensures RunsThrough(start, events + [event]) <==> next.sound
    ensures next.sound ==> Leads(start, events + [event], next.book)
  {
    hide Took;
    var more := events + [event];
    assert more[..|events|] == events;
    forall i | 0 <= i < |events|
      ensures !Fails(BookAfter(start, more[..i]), more[i])
    {
      assert more[..i] == events[..i];
    }
  }

  lemma LeadsNowhere(start: Book)
    requires start.Valid()
    ensures Leads(start, [], start)
  {
  }

  /** The run comes through up to its last event. */
  lemma HistoryComesThrough(size: nat, asserts: bool)
    requires size >= 4
    ensures Leads(Opened(size, 1, asserts), HISTORY[..8], Stage(size, asserts, Four(true, false, false), [0, 1, 2, 3], 1, 1, 3, 1, Done(1)))
  {
    hide Leads, Took, Opened, Stage, Four, RunsThrough, BookAfter;
    var b0 := Opened(size, 1, asserts);
    var b1 := Stage(size, asserts, [Full(0, true), Waiting(1), Empty(), Empty()], [0, 1], 1, 1, 0, 1, InFlight);
    var b2 := Stage(size, asserts, [Full(0, false), Waiting(1), Full(1, true), Empty()], [2], 2, 2, 2, 1, InFlight);
    var b3 := Stage(size, asserts, Four(false, false, true), [3], 3, 3, 3, 1, InFlight);
    var b4 := Stage(size, asserts, Four(false, false, true), [3], 1, 3, 3, 1, InFlight);
    var b5 := Stage(size, asserts, Four(false, true, false), [2, 3], 2, 2, 3, 1, InFlight);
    var b6 := Stage(size, asserts, Four(false, true, false), [2, 3], 0, 2, 3, 1, InFlight);
    var b7 := Stage(size, asserts, Four(true, false, false), [0, 1, 2, 3], 1, 1, 3, 1, InFlight);
    var b8 := Stage(size, asserts, Four(true, false, false), [0, 1, 2, 3], 1, 1, 3, 1, Done(1));
    LeadsNowhere(b0);
    First(size, asserts);
    LeadsOn(b0, [], b0, READ, Step(b1, true));
    Second(size, asserts);
    LeadsOn(b0, [] + [READ], b1, READ, Step(b2, true));
    Third(size, asserts);
    LeadsOn(b0, [] + [READ] + [READ], b2, READ, Step(b3, true));
    SeeksAndCompletes(size, asserts);
    var three := [] + [READ] + [READ] + [READ];
    LeadsOn(b0, three, b3, UserSeek(1, SeekSet), Step(b4, true));
    BackToTheSecond(size, asserts);
    LeadsOn(b0, three + [UserSeek(1, SeekSet)], b4, READ, Step(b5, true));
    var five := three + [UserSeek(1, SeekSet)] + [READ];
    LeadsOn(b0, five, b5, UserSeek(0, SeekSet), Step(b6, true));
    BackToTheFirst(size, asserts);
    LeadsOn(b0, five + [UserSeek(0, SeekSet)], b6, READ, Step(b7, true));
    var seven := five + [UserSeek(0, SeekSet)] + [READ];
    LeadsOn(b0, seven, b7, ReaderCompletes(1), Step(b8, true));
    assert HISTORY[..8] == seven + [ReaderCompletes(1)];
  }

  /**
   * It fails there, with assertions and without, and leaves a buffer in use that does not end where the next asynchronous
   * read starts.
   */
  lemma HistoryStalls(size: nat, asserts: bool)
    requires size >= 4
    ensures !RunsThrough(Opened(size, 1, asserts), HISTORY)
    ensures BookAfter(Opened(size, 1, asserts), HISTORY) == Stage(size, asserts, AllFull(true), [0, 1, 2, 3], 1, 1, 2, 3, Idle)
    ensures !BookAfter(Opened(size, 1, asserts), HISTORY).Tracks()
  {
    hide Leads, Took, RunsThrough, BookAfter;
    HistoryComesThrough(size, asserts);
    Stalls(size, asserts);
    var b := Stage(size, asserts, Four(true, false, false), [0, 1, 2, 3], 1, 1, 3, 1, Done(1));
    LeadsOn(Opened(size, 1, asserts), HISTORY[..8], b, SchedulerRuns,
            Step(Stage(size, asserts, AllFull(true), [0, 1, 2, 3], 1, 1, 2, 3, Idle), false));
    assert HISTORY == HISTORY[..8] + [SchedulerRuns];
  }

  lemma ChainOfAllFull()
    ensures ChainFrom(AllFull(true), 1) == [1, 3]
  {
    hide Follow, SortedUpTo;
    var bufs := AllFull(true);
    SortedAlready(bufs, 4);
    assert SortedUpTo(bufs, 4) == [0] + ([1] + ([2] + ([3] + [])));
    FollowNone(bufs, 3);
    FollowOne(bufs, 3, [], 2);
    FollowOne(bufs, 2, [3] + [], 2);
    FollowOne(bufs, 1, [2] + ([3] + []), 2);
    FollowOne(bufs, 0, [1] + ([2] + ([3] + [])), 2);
  }

  /**
   * Where assertions are not compiled in, the read after it, from a buffer that has the byte, issues a request for data
   * from offset 3 behind a buffer that is full, and ends at offset 2.
   */
  lemma NextRequestIsMisplaced(size: nat)
    requires size >= 4
    ensures var b := Took(BookAfter(Opened(size, 1, false), HISTORY), READ).book;
            b.request == InFlight && b.async == 3 && b.inUse == 1 && b.bufs[1] == Full(1, true) && !b.Placed()
  {
    hide Took, BookAfter, ChainFrom;
    HistoryStalls(size, false);
    var b := Stage(size, false, AllFull(true), [0, 1, 2, 3], 1, 1, 2, 3, Idle);
    assert Unmarked(b.bufs) == AllFull(false);
    ChainOfAllFull();
    FoundRead(b, 1, [1, 3]);
    var c := b.(bufs := AllFull(false)[1 := Full(1, true)], linked := [1, 3], pos := 2, last := 2);
    assert c.Update() == c.NextRead(3);
  }
}
