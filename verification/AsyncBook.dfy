/**
 * The read-ahead file without its bytes: which buffer stands for which part of the file, and what every step makes
 * of that. It says exactly when a step finds no place for the next asynchronous read.
 */
module AsyncBooks {
  import opened Bytes
  import opened AsyncBuffers

  const CACHE_BUFFER_COUNT: nat := 4
  const DEFAULT_READ_SIZE: nat := 8 * 1024

  /** The one outstanding request of the reader thread; `Done` waits for the scheduler. */
  datatype Request = Idle | InFlight | Done(bytesRead: nat)

  /** Whether, after which pass of a read, and with how many bytes the reader thread completes during that read. */
  datatype Late = Never | Within(pass: nat, k: nat) {
    function Next(): Late {
      if this.Never? || pass == 0 then Never else Within(pass - 1, k)
    }
  }

  // ---------- Which buffer ----------

  /** The buffer could be put in front of the chain. */
  predicate Linkable(bufs: seq<Buf>, linked: seq<nat>, i: nat)
    requires i < |bufs| && Names(bufs, linked)
  {
    linked != [] && bufs[i].End() == bufs[linked[0]].offset
  }

  /** A valid buffer that may be filled anew. */
  predicate Spare(bufs: seq<Buf>, linked: seq<nat>, inUse: int, i: nat)
    requires i < |bufs| && Names(bufs, linked)
  {
    !bufs[i].inUse && i !in linked && i != inUse && !Linkable(bufs, linked, i)
  }

  ghost function FirstInvalid(bufs: seq<Buf>, i: nat): (r: nat)
    requires i <= |bufs|
    ensures i <= r <= |bufs| && (forall k :: i <= k < r ==> bufs[k].valid) && (r < |bufs| ==> !bufs[r].valid)
    decreases |bufs| - i
  {
    if i == |bufs| || !bufs[i].valid then i else FirstInvalid(bufs, i + 1)
  }

  /** The first of the spare buffers with the smallest offset among the first `n`; -1 when there is none. */
  ghost function BestSpare(bufs: seq<Buf>, linked: seq<nat>, inUse: int, n: nat): (r: int)
    requires n <= |bufs| && Names(bufs, linked)
    ensures -1 <= r < n
    ensures r == -1 ==> forall k :: 0 <= k < n ==> !Spare(bufs, linked, inUse, k)
    ensures r >= 0 ==> Spare(bufs, linked, inUse, r)
    ensures r >= 0 ==> forall k :: 0 <= k < n && Spare(bufs, linked, inUse, k) ==> bufs[r].offset <= bufs[k].offset
    ensures r >= 0 ==> forall k :: 0 <= k < r && Spare(bufs, linked, inUse, k) ==> bufs[r].offset < bufs[k].offset
  {
    if n == 0 then -1
    else
      var r := BestSpare(bufs, linked, inUse, n - 1);
      if Spare(bufs, linked, inUse, n - 1) && (r == -1 || bufs[n - 1].offset < bufs[r].offset) then n - 1 else r
  }

  ghost function NextBuffer(bufs: seq<Buf>, linked: seq<nat>, inUse: int): (r: int)
    requires Names(bufs, linked)
    ensures -1 <= r < |bufs|
  {
    var i := FirstInvalid(bufs, 0);
    if i < |bufs| then i else BestSpare(bufs, linked, inUse, |bufs|)
  }

  /** There is nothing to fill exactly when all buffers are valid and none is spare. */
  lemma NoNextBuffer(bufs: seq<Buf>, linked: seq<nat>, inUse: int)
    requires Names(bufs, linked)
    ensures NextBuffer(bufs, linked, inUse) == -1
       <==> forall i :: 0 <= i < |bufs| ==> bufs[i].valid && !Spare(bufs, linked, inUse, i)
  {
  }

  /** The first buffer from `i` on that has `offset`, and is in the chain or could be put in front of it. */
  ghost function Holder(bufs: seq<Buf>, linked: seq<nat>, offset: nat, i: nat): (r: nat)
    requires i <= |bufs| && Names(bufs, linked)
    ensures i <= r <= |bufs|
    ensures r < |bufs| ==> bufs[r].HasThisOffset(offset) && (r in linked || Linkable(bufs, linked, r))
    ensures forall k :: i <= k < r ==> !(bufs[k].HasThisOffset(offset) && (k in linked || Linkable(bufs, linked, k)))
    decreases |bufs| - i
  {
    if i == |bufs| || (bufs[i].HasThisOffset(offset) && (i in linked || Linkable(bufs, linked, i))) then i
    else Holder(bufs, linked, offset, i + 1)
  }

  /** The first buffer from `i` on that has `offset`. */
  ghost function FirstWith(bufs: seq<Buf>, offset: nat, i: nat): (r: nat)
    requires i <= |bufs|
    ensures i <= r <= |bufs| && (r < |bufs| ==> bufs[r].HasThisOffset(offset))
    ensures forall k :: i <= k < r ==> !bufs[k].HasThisOffset(offset)
    decreases |bufs| - i
  {
    if i == |bufs| || bufs[i].HasThisOffset(offset) then i else FirstWith(bufs, offset, i + 1)
  }

  /** Buffer `i` has all of `size` bytes at `offset`, or the first buffer with the byte behind it starts there and has the rest. */
  ghost predicate Covers(bufs: seq<Buf>, i: nat, offset: nat, size: nat)
    requires i < |bufs|
  {
    || offset + size <= bufs[i].End()
    || (var j := FirstWith(bufs, bufs[i].End(), 0);
        j < |bufs| && bufs[j].offset == bufs[i].End() && offset + size <= bufs[j].End())
  }

  ghost predicate Finds(bufs: seq<Buf>, linked: seq<nat>, offset: nat, size: nat)
    requires Names(bufs, linked)
  {
    var i := Holder(bufs, linked, offset, 0);
    i < |bufs| && Covers(bufs, i, offset, size)
  }

  // ---------- Buffers without their bytes ----------

  ghost function Shape(bufs: seq<Buf>): (r: seq<Buf>)
    ensures |r| == |bufs| && forall i :: 0 <= i < |r| ==> r[i] == bufs[i].(bytes := [])
  {
    seq(|bufs|, i requires 0 <= i < |bufs| => bufs[i].(bytes := []))
  }

  ghost function Unmarked(bufs: seq<Buf>): (r: seq<Buf>)
    ensures |r| == |bufs| && forall i :: 0 <= i < |r| ==> r[i] == bufs[i].(inUse := false)
  {
    seq(|bufs|, i requires 0 <= i < |bufs| => bufs[i].(inUse := false))
  }

  lemma ShapeUpdate(bufs: seq<Buf>, i: nat, b: Buf)
    requires i < |bufs|
    ensures Shape(bufs[i := b]) == Shape(bufs)[i := b.(bytes := [])]
  {
  }

  lemma {:induction false} ShapeOfInvalid(bufs: seq<Buf>, i: nat)
    requires i <= |bufs|
    ensures FirstInvalid(Shape(bufs), i) == FirstInvalid(bufs, i)
    decreases |bufs| - i
  {
    if i < |bufs| {
      ShapeOfInvalid(bufs, i + 1);
    }
  }

  lemma {:induction false} ShapeOfSpare(bufs: seq<Buf>, linked: seq<nat>, inUse: int, n: nat)
    requires n <= |bufs| && Names(bufs, linked)
    ensures BestSpare(Shape(bufs), linked, inUse, n) == BestSpare(bufs, linked, inUse, n)
  {
    if n > 0 {
      ShapeOfSpare(bufs, linked, inUse, n - 1);
    }
  }

  lemma ShapeOfNext(bufs: seq<Buf>, linked: seq<nat>, inUse: int)
    requires Names(bufs, linked)
    ensures NextBuffer(Shape(bufs), linked, inUse) == NextBuffer(bufs, linked, inUse)
  {
    ShapeOfInvalid(bufs, 0);
    ShapeOfSpare(bufs, linked, inUse, |bufs|);
  }

  lemma {:induction false} ShapeOfHolder(bufs: seq<Buf>, linked: seq<nat>, offset: nat, i: nat)
    requires i <= |bufs| && Names(bufs, linked)
    ensures Holder(Shape(bufs), linked, offset, i) == Holder(bufs, linked, offset, i)
    decreases |bufs| - i
  {
    if i < |bufs| {
      ShapeOfHolder(bufs, linked, offset, i + 1);
    }
  }

  lemma {:induction false} ShapeOfWith(bufs: seq<Buf>, offset: nat, i: nat)
    requires i <= |bufs|
    ensures FirstWith(Shape(bufs), offset, i) == FirstWith(bufs, offset, i)
    decreases |bufs| - i
  {
    if i < |bufs| {
      ShapeOfWith(bufs, offset, i + 1);
    }
  }

  lemma ShapeOfFinds(bufs: seq<Buf>, linked: seq<nat>, offset: nat, size: nat)
    requires Names(bufs, linked)
    ensures Finds(Shape(bufs), linked, offset, size) == Finds(bufs, linked, offset, size)
    ensures Holder(Shape(bufs), linked, offset, 0) == Holder(bufs, linked, offset, 0)
  {
    ShapeOfHolder(bufs, linked, offset, 0);
    var i := Holder(bufs, linked, offset, 0);
    if i < |bufs| {
      ShapeOfWith(bufs, bufs[i].End(), 0);
    }
  }

  /** What sorting and linking look at. */
  ghost predicate SamePlaces(a: seq<Buf>, b: seq<Buf>) {
    |a| == |b| && forall i :: 0 <= i < |a| ==> a[i].offset == b[i].offset && a[i].length == b[i].length && a[i].valid == b[i].valid
  }

  lemma {:induction false} PlaceByPlaces(a: seq<Buf>, b: seq<Buf>, ids: seq<nat>, x: nat)
    requires SamePlaces(a, b) && Names(a, ids) && x < |a|
    ensures Place(a, ids, x) == Place(b, ids, x)
  {
    if ids != [] {
      PlaceByPlaces(a, b, ids[1..], x);
    }
  }

  lemma {:induction false} SortByPlaces(a: seq<Buf>, b: seq<Buf>, n: nat)
    requires SamePlaces(a, b) && n <= |a|
    ensures SortedUpTo(a, n) == SortedUpTo(b, n)
  {
    if n > 0 {
      SortByPlaces(a, b, n - 1);
      PlaceByPlaces(a, b, SortedUpTo(a, n - 1), n - 1);
    }
  }

  lemma {:induction false} FollowByPlaces(a: seq<Buf>, b: seq<Buf>, ids: seq<nat>, end: nat)
    requires SamePlaces(a, b) && Names(a, ids)
    ensures Follow(a, ids, end) == Follow(b, ids, end)
  {
    if ids != [] {
      FollowByPlaces(a, b, ids[1..], if a[ids[0]].offset == end then a[ids[0]].End() else end);
    }
  }

  lemma ChainByPlaces(a: seq<Buf>, b: seq<Buf>, first: nat)
    requires SamePlaces(a, b) && first < |a|
    ensures ChainFrom(a, first) == ChainFrom(b, first)
  {
    SortByPlaces(a, b, |a|);
    FollowByPlaces(a, b, SortedUpTo(a, |a|), a[first].End());
  }

  // ---------- The book ----------

  /** `sound` is false once a failed assertion stops the process, or would, were assertions compiled in, and is not harmless. */
  datatype Step = Step(book: Book, sound: bool)

  /**
   * `size` is the size of the file, `cap` that of a buffer, `unit` that of an asynchronous read. `asserts` tells
   * builds in which assertions are compiled in.
   */
  datatype Book = Book(size: nat, cap: nat, unit: nat, asserts: bool, active: bool, bufs: seq<Buf>, linked: seq<nat>,
                       inUse: int, pos: nat, last: nat, sync: nat, async: nat, request: Request) {

    ghost predicate Valid() {
      |bufs| == CACHE_BUFFER_COUNT && Names(bufs, linked) && -1 <= inUse < |bufs| && pos <= size
    }

    /** How far the chain reaches past the user; negative when the user is past it. */
    ghost function Ahead(): int
      requires Valid()
    {
      if linked == [] then 0 else bufs[linked[|linked| - 1]].End() - last
    }

    /** The buffer in use is full, as far as another read is concerned. */
    ghost predicate NeedsBuffer(p: int)
      requires Valid()
    {
      inUse >= 0 && bufs[inUse].End() == p && cap - bufs[inUse].bufLength < unit
    }

    ghost predicate NoBuffer()
      requires Valid()
    {
      NextBuffer(bufs, linked, inUse) == -1
    }

    /** A new, empty buffer for reading from `p` on. */
    ghost function Take(p: nat): (b: Book)
      requires Valid() && !NoBuffer()
      ensures b.Valid()
    {
      var r := NextBuffer(bufs, linked, inUse);
      this.(bufs := bufs[r := bufs[r].(offset := p, bufLength := 0, length := 0, valid := true)], linked := linked + [r], inUse := r)
    }

    /**
     * The two assertions of the next read: it starts where neither handle is, which is harmless when assertions are not
     * compiled in, or the handles have been swapped and there is no buffer for it, which is not.
     */
    ghost predicate FindsNoPlace(p: int)
      requires Valid()
    {
      p != async && (if p == sync then NoBuffer() else asserts)
    }

    /** The two handles have changed places. */
    ghost function Swapped(): (b: Book)
      requires Valid()
      ensures b.Valid() && b.NoBuffer() == NoBuffer()
    {
      this.(sync := async, async := sync)
    }

    ghost function NextRead(p: nat): (r: Step)
      requires Valid()
      ensures r.sound <==> !FindsNoPlace(p)
      ensures r.book.Valid()
    {
      if p == async then
        if !NeedsBuffer(p) then Step(this.(request := InFlight), true)
        else if NoBuffer() then Step(this, true)
        else Step(Take(p).(request := InFlight), true)
      else if p == sync then
        if NoBuffer() then Step(Swapped(), false) else Step(Swapped().Take(p).(request := InFlight), true)
      else Step(this, !asserts)
    }

    /** The buffer in use ends where the next asynchronous read starts. */
    ghost predicate Tracks()
      requires Valid()
    {
      if inUse == -1 then async == 0 && request == Idle else bufs[inUse].End() == async
    }

    /** The outstanding request goes to the unused tail of the buffer in use, and fits there. */
    ghost predicate Placed()
      requires Valid()
    {
      request != Idle ==> inUse >= 0 && bufs[inUse].End() == async && bufs[inUse].bufLength + unit <= cap
    }

    /** That survives exactly when the handles are not swapped for lack of a buffer; whether assertions are compiled in or not. */
    lemma NextReadTracks(p: nat)
      requires Valid() && Tracks() && p > 0
      ensures NextRead(p).book.Tracks() <==> !(p != async && p == sync && NoBuffer())
    {
    }

    /** The next read is due: none is outstanding, not enough is read ahead, and not all is read. */
    ghost predicate IsDue(p: int)
      requires Valid()
    {
      active && request == Idle && Ahead() < 3 * cap && p != size
    }

    ghost function Update(): (r: Step)
      requires Valid()
      ensures r.book.Valid()
    {
      var p := pos + Ahead();
      if IsDue(p) && p >= 0 then NextRead(p) else Step(this, true)
    }

    ghost function Clean(): (b: Book)
      requires Valid()
      ensures b.Valid()
    {
      this.(bufs := Unmarked(bufs))
    }

    /** The data at the position has been found in a buffer, or in two; the chain starts with the first of them. */
    ghost function Found(requested: nat): (b: Book)
      requires Valid()
      ensures b.Valid()
    {
      var i := Holder(bufs, linked, pos, 0);
      if i == |bufs| then this
      else
        var marked := if pos + requested <= bufs[i].End() then bufs[i := bufs[i].(inUse := true)] else bufs;
        this.(bufs := marked, linked := ChainFrom(marked, i))
    }

    /** A blocking read has filled a buffer, which is the whole chain now. */
    ghost function Blocked(): (b: Book)
      requires Valid()
      ensures b.Valid()
    {
      var r, n := NextBuffer(bufs, [], inUse), Min(cap, size - pos);
      if r == -1 then this
      else this.(bufs := bufs[r := Buf(bufs[r].bytes, n, pos, n, true, true)], linked := [r], sync := pos + n)
    }

    ghost function Located(requested: nat): (b: Book)
      requires Valid()
      ensures b.Valid()
    {
      if Finds(Clean().bufs, linked, pos, requested) then Clean().Found(requested) else Clean().Blocked()
    }

    ghost function Moved(n: nat): (b: Book)
      requires Valid() && n <= size - pos
      ensures b.Valid()
    {
      this.(pos := pos + n, last := pos + n)
    }

    /** One pass of the read loop. */
    ghost function Pass(requested: nat): (r: Step)
      requires Valid()
      ensures r.book.Valid()
    {
      Located(requested).Moved(Gets(requested)).Update()
    }

    /** The reader thread completes with `k` bytes, or as many as the request and the file allow. */
    ghost function Complete(k: nat): (b: Book)
      ensures Valid() ==> b.Valid()
    {
      if request == InFlight then this.(request := Done(Min(k, Min(unit, if async <= size then size - async else 0)))) else this
    }

    /** How many of the bytes that are asked for there are. */
    ghost function Gets(requested: nat): nat
      requires Valid()
    {
      Min(requested, size - pos)
    }

    /** The reader thread completes now, if it is to. */
    ghost function Arrive(late: Late): (b: Book)
      ensures Valid() ==> b.Valid()
    {
      if late.Within? && late.pass == 0 then Complete(late.k) else this
    }

    /** A read of `want` bytes in elements of `element` bytes. */
    ghost function Read(want: nat, element: nat, late: Late): (r: Step)
      requires Valid()
      ensures r.book.Valid()
      decreases want
    {
      if want == 0 then Step(this, true)
      else
        WholeElementsFit(Min(want, cap), element);
        var requested := element * WholeElements(Min(want, cap), element);
        var n, pass := Gets(requested), Pass(requested);
        if !pass.sound then pass
        else if n == 0 then Step(pass.book.Arrive(late), true)
        else pass.book.Arrive(late).Read(want - n, element, late.Next())
    }

    lemma ReadUnfolds(want: nat, element: nat, late: Late)
      requires Valid()
      ensures want == 0 ==> Read(want, element, late) == Step(this, true)
      ensures want > 0 ==>
                var requested := element * WholeElements(Min(want, cap), element);
                var pass := Pass(requested);
                && Gets(requested) <= want
                && Read(want, element, late)
                   == (if !pass.sound then pass
                       else if Gets(requested) == 0 then Step(pass.book.Arrive(late), true)
                       else pass.book.Arrive(late).Read(want - Gets(requested), element, late.Next()))
    {
      hide Book.Pass, Book.Arrive, WholeElements;
      WholeElementsFit(Min(want, cap), element);
    }

    /** The bytes of a completed request become part of the buffer in use. */
    ghost function Published(): (b: Book)
      requires Valid() && request.Done? && inUse >= 0
      ensures b.Valid()
    {
      var k, b := request.bytesRead, bufs[inUse];
      this.(request := Idle, async := async + k, bufs := bufs[inUse := b.(bufLength := b.bufLength + k).UpdateData()])
    }

    /** The scheduler runs a completion. */
    ghost function Run(): (r: Step)
      requires Valid() && request.Done? && inUse >= 0
      ensures r.book.Valid()
    {
      var c := Published();
      var p := last + c.Ahead();
      if p != size && c.Ahead() < 3 * cap && p >= 0 then c.NextRead(p) else Step(c, true)
    }
  }

  /** A file of `size` bytes, just opened. */
  ghost function Opened(size: nat, cap: nat, asserts: bool): (b: Book)
    ensures b.Valid()
  {
    var empty := Buf([], 0, 0, 0, false, false);
    Book(size, cap, Min(DEFAULT_READ_SIZE, cap), asserts, true, [empty, empty, empty, empty], [], -1, 0, 0, 0, 0, Idle)
  }
}
