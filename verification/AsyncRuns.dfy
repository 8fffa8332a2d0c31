/** Whole runs of the read-ahead file: any interleaving of the user, the reader thread and the scheduler. */
module AsyncRuns {
  import opened Bytes
  import opened AsyncBuffers
  import opened PlainFiles
  import opened AsyncBooks
  import opened AsyncFiles

  datatype Event =
    | UserRead(size: nat, count: nat, late: Late)
    | UserSeek(offset: int, origin: Origin)
    | ReaderCompletes(k: nat)
    | SchedulerRuns

  // ---------- What the user is to get ----------

  /** What a user reads from position `pos` of a plain file. */
  ghost function Delivery(file: seq<Byte>, cap: nat, pos: nat, size: nat, count: nat): (d: seq<Byte>)
    requires pos <= |file|
    ensures |d| <= |file| - pos
  {
    file[pos..pos + if size <= cap then Min(size * count, |file| - pos) else 0]
  }

  /** The user's position after one event from position `pos`, and what the user reads in it. */
  ghost function PlainStep(file: seq<Byte>, cap: nat, pos: nat, event: Event): (r: (nat, seq<seq<Byte>>))
    requires pos <= |file|
    ensures r.0 <= |file|
  {
    match event
    case UserRead(size, count, _) =>
      var d := Delivery(file, cap, pos, size, count);
      (pos + |d|, [d])
    case UserSeek(offset, origin) =>
      var target := SeekTarget(pos, |file|, offset, origin);
      (if 0 <= target <= |file| then target else pos, [])
    case _ => (pos, [])
  }

  /** The position, and everything read, after the events; only the user's own calls matter. */
  ghost function Expected(file: seq<Byte>, cap: nat, events: seq<Event>): (r: (nat, seq<seq<Byte>>))
    ensures r.0 <= |file|
  {
    if events == [] then (0, [])
    else
      var before := Expected(file, cap, events[..|events| - 1]);
      var last := PlainStep(file, cap, before.0, events[|events| - 1]);
      (last.0, before.1 + last.1)
  }

  // ---------- Where the buffers are ----------

  /** One event, in the book of buffers and positions. */
  ghost function Took(b: Book, event: Event): (r: Step)
    requires b.Valid()
    ensures r.book.Valid()
  {
    match event
    case UserRead(size, count, late) => b.Read(size * count, size, late)
    case UserSeek(offset, origin) =>
      var target := SeekTarget(b.pos, b.size, offset, origin);
      if 0 <= target <= b.size then Step(b.(pos := target), true) else Step(b, false)
    case ReaderCompletes(k) => Step(b.Complete(k), true)
    case SchedulerRuns => if b.request.Done? && b.inUse >= 0 then b.Run() else Step(b, true)
  }

  ghost function BookAfter(b: Book, events: seq<Event>): (r: Book)
    requires b.Valid()
    ensures r.Valid()
  {
    if events == [] then b else Took(BookAfter(b, events[..|events| - 1]), events[|events| - 1]).book
  }

  lemma BookAfterOne(b: Book, events: seq<Event>, i: nat)
    requires b.Valid() && i < |events|
    ensures BookAfter(b, events[..i + 1]) == Took(BookAfter(b, events[..i]), events[i]).book
  {
    assert events[..i + 1][..i] == events[..i];
  }

  /** A read of what fits a buffer, and is there, is one pass, with the completion behind it. */
  lemma OnePass(b: Book, size: nat, count: nat, late: Late)
    requires b.Valid() && size > 0 && 0 < size * count <= b.cap && b.pos + size * count <= b.size
    ensures var r, pass := Took(b, UserRead(size, count, late)), b.Pass(size * count);
            r == if pass.sound then Step(pass.book.Arrive(late), true) else pass
  {
    hide Book.Pass, Book.Read, Book.Arrive, WholeElements;
    var want := size * count;
    WholeCount(size, count);
    b.ReadUnfolds(want, size, late);
    if b.Pass(want).sound {
      b.Pass(want).book.Arrive(late).ReadUnfolds(0, size, late.Next());
    }
  }

  lemma WholeCount(size: nat, count: nat)
    requires size > 0
    ensures WholeElements(size * count, size) == count
  {
    QuotientIsUnique(size * count, size, count, 0);
  }

  /** The event fails an assertion that guards something: a seek outside the file, or a read that finds no place. */
  ghost predicate Fails(b: Book, event: Event)
    requires b.Valid()
  {
    !Took(b, event).sound
  }

  /** No event of the run fails in the book that the events before it leave. */
  ghost predicate RunsThrough(b: Book, events: seq<Event>)
    requires b.Valid()
  {
    forall i :: 0 <= i < |events| ==> !Fails(BookAfter(b, events[..i]), events[i])
  }

  lemma NothingYet(b: Book, events: seq<Event>)
    requires b.Valid()
    ensures BookAfter(b, events[..0]) == b
  {
  }

  // ---------- Runs ----------

  /**
   * Plays the events on a freshly opened file, up to the first that fails. Whether there is one depends on the book alone.
   * When there is none, the user has read exactly what a plain file would have delivered to the user's own calls.
   */
  method Play(file: seq<Byte>, cacheSize: nat, asserts: bool, events: seq<Event>)
    returns (sound: bool, position: nat, answers: seq<seq<Byte>>)
    requires cacheSize > 0
    requires forall i :: 0 <= i < |events| && events[i].UserRead? ==> events[i].size > 0
    ensures sound <==> RunsThrough(Opened(|file|, cacheSize, asserts), events)
    ensures sound ==> (position, answers) == Expected(file, cacheSize, events)
    ensures sound ==> var b := BookAfter(Opened(|file|, cacheSize, asserts), events); b.Tracks() && b.Placed()
  {
    hide AsyncFile.BuffersAgree, AsyncFile.LinksAreValid, AsyncFile.InUseIsNext, AsyncFile.RequestFits, PlainStep, Took, BookAfter;
    var f := new AsyncFile(file, cacheSize, asserts);
    ghost var start := f.TheBook();
    answers := [];
    NothingYet(start, events);
    for i := 0 to |events|
      invariant fresh(f) && f.file == file && f.totalCacheSize == cacheSize
      invariant f.sound && f.Inv()
      invariant f.TheBook() == BookAfter(start, events[..i])
      invariant forall j :: 0 <= j < i ==> !Fails(BookAfter(start, events[..j]), events[j])
      invariant (f.filePosition, answers) == Expected(file, cacheSize, events[..i])
    {
      assert events[..i + 1][..i] == events[..i];
      BookAfterOne(start, events, i);
      var more := PlayOne(f, events[i]);
      if !f.sound {
        assert Fails(BookAfter(start, events[..i]), events[i]);
        return false, 0, [];
      }
      answers := answers + more;
    }
    assert events[..|events|] == events;
    f.BookIsValid();
    return true, f.filePosition, answers;
  }

  method PlayOne(f: AsyncFile, event: Event) returns (answer: seq<seq<Byte>>)
    requires f.Inv() && f.sound && (event.UserRead? ==> event.size > 0)
    modifies f
    ensures Step(f.TheBook(), f.sound) == Took(old(f.TheBook()), event)
    ensures f.sound ==> f.Inv()
    ensures f.sound ==> (f.filePosition, answer) == PlainStep(f.file, f.totalCacheSize, old(f.filePosition), event)
  {
    hide Overlay, Elements, Book.Read, Book.Run, Shape;
    answer := [];
    match event {
      case UserRead(size, count, late) =>
        var d := ReadAll(f, size, count, late);
        answer := [d];
      case UserSeek(offset, origin) =>
        var _ := f.Seek(offset, origin);
      case ReaderCompletes(k) =>
        f.Complete(k);
      case SchedulerRuns =>
        if f.request.Done? {
          f.Run();
        }
    }
  }

  method ReadAll(f: AsyncFile, size: nat, count: nat, late: Late) returns (d: seq<Byte>)
    requires f.Inv() && f.sound && size > 0
    modifies f
    ensures Step(f.TheBook(), f.sound) == old(f.TheBook()).Read(size * count, size, late)
    ensures f.sound ==> f.Inv()
    ensures f.sound ==>
              && d == Delivery(f.file, f.totalCacheSize, old(f.filePosition), size, count)
              && f.filePosition == old(f.filePosition) + |d|
  {
    hide AsyncFile.BuffersAgree, AsyncFile.LinksAreValid, AsyncFile.InUseIsNext, AsyncFile.RequestFits, Overlay, Elements,
         Book.Read, Shape;
    var dest := new Byte[size * count];
    ghost var was := Elements(dest);
    var n, bytesRead := f.Read(dest, size, count, late);
    if !f.sound {
      return [];
    }
    OverlayFront(was, f.file[old(f.filePosition)..f.filePosition]);
    ElementsPrefix(dest, bytesRead);
    d := dest[..bytesRead];
  }
}
