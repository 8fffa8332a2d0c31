/** Whole runs of calls: through the cache, and on the plain file it stands for. */
module CacheRuns {
  import opened Bytes
  import opened NativeFiles
  import opened PlainFiles
  import opened FileCaches
  import ReadCount

  datatype Call = Read(n: nat) | Write(d: seq<Byte>) | Seek(offset: int, origin: Origin) | Flush | Tell | FileSize | EndOfFile

  datatype Answer = Delivered(d: seq<Byte>) | Number(n: int) | Succeeded | Refused

  /** The promised effect of one call and its promised answer. */
  ghost function Effect(p: PlainFile, call: Call): (r: (PlainFile, Answer))
    requires p.Valid()
    ensures r.0.Valid()
  {
    match call
    case Read(n) =>
      var k := if p.mode.Readable() then Min(n, p.Left()) else 0;
      (p.Advance(k), Delivered(p.Ahead(k)))
    case Write(d) =>
      (p.Write(d), Number(if p.mode.Writable() then |d| else 0))
    case Seek(offset, origin) =>
      (p.Seek(offset, origin), if p.CanSeek(offset, origin) then Succeeded else Refused)
    case Flush => (p, Succeeded)
    case Tell => (p, Number(p.pos))
    case FileSize => (p, Number(|p.bytes|))
    case EndOfFile => (p, Number(if p.pos == |p.bytes| then 1 else 0))
  }

  ghost function Run(p: PlainFile, calls: seq<Call>): (r: (PlainFile, seq<Answer>))
    requires p.Valid()
    ensures r.0.Valid()
  {
    if calls == [] then (p, [])
    else
      var before := Run(p, calls[..|calls| - 1]);
      var last := Effect(before.0, calls[|calls| - 1]);
      (last.0, before.1 + [last.1])
  }

  /** Everything the calls write, in order. */
  ghost function Written(calls: seq<Call>): (d: seq<Byte>)
  {
    if calls == [] then []
    else
      var last := calls[|calls| - 1];
      Written(calls[..|calls| - 1]) + (if last.Write? then last.d else [])
  }

  lemma {:induction false} SizeOfRun(p: PlainFile, calls: seq<Call>)
    requires p.Valid()
    ensures |p.bytes| <= |Run(p, calls).0.bytes| <= |p.bytes| + |Written(calls)|
    ensures Run(p, calls).0.mode == p.mode
  {
    if calls != [] {
      SizeOfRun(p, calls[..|calls| - 1]);
    }
  }

  lemma WrittenSoFar(calls: seq<Call>, i: nat)
    requires i <= |calls|
    ensures |Written(calls[..i])| <= |Written(calls)|
    decreases |calls| - i
  {
    if i < |calls| {
      assert calls[..i + 1][..i] == calls[..i];
      WrittenSoFar(calls, i + 1);
    } else {
      assert calls[..i] == calls;
    }
  }

  /** One call through the cache, over a native file that does not fail, does what it does on the plain file. */
  method Do(c: FileCache, call: Call) returns (a: Answer)
    requires c.Valid()
    requires match call case Read(n) => n < TWO_TO_THE_32 case Write(d) => |d| < TWO_TO_THE_32 case _ => true
    requires |c.contents| < TWO_TO_THE_32
    modifies c, c.container, c.buffer
    ensures c.Valid() && c.SameConfig()
    ensures c.container.reliable ==> (c.Plain(), a) == Effect(old(c.Plain()), call)
  {
    match call {
      case Read(n) =>
        var d := DoRead(c, n);
        a := Delivered(d);
      case Write(d) =>
        var count, _ := c.Write(To(d), 1, |d|);
        assert d[..1 * |d|] == d;
        a := Number(count);
      case Seek(offset, origin) =>
        var status := c.Seek(offset, origin);
        a := if status == 0 then Succeeded else Refused;
      case Flush =>
        var status := c.Flush();
        a := if status == 0 then Succeeded else Refused;
      case Tell => a := Number(c.Tell());
      case FileSize => a := Number(c.FileSize());
      case EndOfFile => a := Number(c.EndOfFile());
    }
  }

  method DoRead(c: FileCache, n: nat) returns (d: seq<Byte>)
    requires c.Valid() && n < TWO_TO_THE_32 && |c.contents| < TWO_TO_THE_32
    modifies c, c.container, c.buffer
    ensures c.Valid() && c.SameConfig()
    ensures c.container.reliable ==> (c.Plain(), Delivered(d)) == Effect(old(c.Plain()), Read(n))
  {
    hide Overlay, Elements, ReadCount.Copied;
    var dest := new Byte[n];
    ghost var plain, was := c.Plain(), Elements(dest);
    ReadCount.BytesReadExactly(c.endCachePos - c.currentCachePos, plain.Left(), n, c.cacheSize);
    var count, copied := c.Read(dest, 1, n);
    ReadBack(was, plain.Ahead(copied));
    ElementsPrefix(dest, count);
    d := dest[..count];
  }

  lemma ReadBack(f: seq<Byte>, d: seq<Byte>)
    requires |d| <= |f|
    ensures Overlay(f, 0, d)[..|d|] == d
  {
  }

  /**
   * A cache opened on a native file, any calls, and a close. When the native file does not fail, every answer is the
   * one the plain file gives, and what is left in the native file is what the plain file holds.
   */
  method Session(native: NativeFile, mode: Mode, cacheSize: nat, calls: seq<Call>) returns (answers: seq<Answer>)
    requires mode.append == native.append && cacheSize > 0
    requires forall i :: 0 <= i < |calls| && calls[i].Read? ==> calls[i].n < TWO_TO_THE_32
    requires |native.bytes| + |Written(calls)| < TWO_TO_THE_32
    requires native.reliable
    modifies native
    ensures answers == Run(PlainFile(mode, old(native.bytes), 0), calls).1
    ensures native.bytes == Run(PlainFile(mode, old(native.bytes), 0), calls).0.bytes
  {
    var c := new FileCache(native);
    var _ := c.Open(mode, cacheSize);
    ghost var start := c.Plain();
    answers := [];
    assert calls[..0] == [];
    for i := 0 to |calls|
      invariant c.Valid() && c.container == native && fresh(c) && fresh(c.buffer)
      invariant (c.Plain(), answers) == Run(start, calls[..i])
    {
      SizeOfRun(start, calls[..i]);
      WrittenSoFar(calls, i);
      WrittenSoFar(calls, i + 1);
      assert calls[..i + 1][..i] == calls[..i];
      var a := Do(c, calls[i]);
      answers := answers + [a];
    }
    assert calls[..|calls|] == calls;
    SizeOfRun(start, calls);
    c.Close();
  }

  /** In append mode a run adds exactly what it writes, in order, wherever it seeks and reads in between. */
  lemma {:induction false} AppendRun(p: PlainFile, calls: seq<Call>)
    requires p.Valid() && p.mode.append
    ensures Run(p, calls).0.bytes == p.bytes + Written(calls) && Run(p, calls).0.mode == p.mode
  {
    if calls != [] {
      AppendRun(p, calls[..|calls| - 1]);
    }
  }

  /** What is written can be read back at once. */
  lemma WriteThenRead(p: PlainFile, d: seq<Byte>)
    requires p.Valid() && p.mode.Writable()
    ensures Run(p, [Write(d), Seek(-|d|, SeekCur), Read(|d|)]).1 == [Number(|d|), Succeeded, Delivered(d)]
  {
    hide Overlay, Run;
    RunNothing(p);
    OverlayHolds(p.bytes, if p.mode.append then |p.bytes| else p.pos, d);
    var w, s, r := Write(d), Seek(-|d|, SeekCur), Read(|d|);
    RunOneMore(p, [], w);
    RunOneMore(p, [w], s);
    RunOneMore(p, [w, s], r);
    assert [] + [w] == [w] && [w] + [s] == [w, s] && [w, s] + [r] == [w, s, r];
  }

  lemma OverlayHolds(f: seq<Byte>, at: nat, d: seq<Byte>)
    requires at <= |f|
    ensures Overlay(f, at, d)[at..at + |d|] == d
  {
  }

  lemma RunNothing(p: PlainFile)
    requires p.Valid()
    ensures Run(p, []) == (p, [])
  {
  }

  lemma RunOneMore(p: PlainFile, calls: seq<Call>, call: Call)
    requires p.Valid()
    ensures var before := Run(p, calls);
            Run(p, calls + [call]) == (Effect(before.0, call).0, before.1 + [Effect(before.0, call).1])
  {
    assert (calls + [call])[..|calls|] == calls;
  }
}
