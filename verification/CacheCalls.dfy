/** What calls do to a file, said by the bits of the mode and by the bytes alone. */
module CacheCalls {
  import opened Bytes
  import opened PlainFiles
  import opened CacheRuns

  lemma RunOne(p: PlainFile, call: Call)
    requires p.Valid()
    ensures Run(p, [call]) == (Effect(p, call).0, [Effect(p, call).1])
  {
    hide Effect, Run;
    RunNothing(p);
    RunOneMore(p, [], call);
    assert [] + [call] == [call];
    assert [] + [Effect(p, call).1] == [Effect(p, call).1];
  }

  lemma RunTwo(p: PlainFile, a: Call, b: Call)
    requires p.Valid()
    ensures var one := Effect(p, a);
            Run(p, [a, b]) == (Effect(one.0, b).0, [one.1, Effect(one.0, b).1])
  {
    hide Effect, Run;
    RunOne(p, a);
    RunOneMore(p, [a], b);
    assert [a] + [b] == [a, b];
    assert [Effect(p, a).1] + [Effect(Effect(p, a).0, b).1] == [Effect(p, a).1, Effect(Effect(p, a).0, b).1];
  }

  lemma RunThree(p: PlainFile, a: Call, b: Call, c: Call)
    requires p.Valid()
    ensures var one := Effect(p, a); var two := Effect(one.0, b);
            Run(p, [a, b, c]) == (Effect(two.0, c).0, [one.1, two.1, Effect(two.0, c).1])
  {
    hide Effect, Run;
    RunTwo(p, a, b);
    RunOneMore(p, [a, b], c);
    assert [a, b] + [c] == [a, b, c];
    var one := Effect(p, a);
    var two := Effect(one.0, b);
    assert [one.1, two.1] + [Effect(two.0, c).1] == [one.1, two.1, Effect(two.0, c).1];
  }

  /** Any of the four bits lets a caller read; without one nothing is delivered. */
  lemma ReadGives(p: PlainFile, n: nat)
    requires p.Valid()
    ensures var may := p.mode.read || p.mode.readWrite || p.mode.append || p.mode.readPlus;
            var k := if !may then 0 else if n < |p.bytes| - p.pos then n else |p.bytes| - p.pos;
            Run(p, [Read(n)]) == (PlainFile(p.mode, p.bytes, p.pos + k), [Delivered(p.bytes[p.pos..p.pos + k])])
  {
    hide Run;
    RunOne(p, Read(n));
  }

  /** Three of them let a caller write, at the position or at the end; without one nothing changes. */
  lemma WriteGives(p: PlainFile, d: seq<Byte>)
    requires p.Valid()
    ensures var (after, answers) := Run(p, [Write(d)]);
            if p.mode.readWrite || p.mode.append || p.mode.readPlus then
              var at := if p.mode.append then |p.bytes| else p.pos;
              && answers == [Number(|d|)] && after.mode == p.mode && after.pos == at + |d|
              && |after.bytes| == (if at + |d| < |p.bytes| then |p.bytes| else at + |d|)
              && forall i :: 0 <= i < |after.bytes| ==> after.bytes[i] == if at <= i < at + |d| then d[i - at] else p.bytes[i]
            else after == p && answers == [Number(0)]
  {
    hide Overlay, Run;
    RunOne(p, Write(d));
    var at := if p.mode.append then |p.bytes| else p.pos;
    forall i | 0 <= i < |Overlay(p.bytes, at, d)|
      ensures Overlay(p.bytes, at, d)[i] == if at <= i < at + |d| then d[i - at] else p.bytes[i]
    {
      OverlayAt(p.bytes, at, d, i);
    }
  }

  /** Back from the end by `k` bytes, and the last `k` bytes are read. */
  lemma ReadsFromEnd(p: PlainFile, k: int)
    requires p.Valid() && 0 <= k <= |p.bytes|
    requires p.mode.read || p.mode.readWrite || p.mode.append || p.mode.readPlus
    ensures Run(p, [Seek(-k, SeekEnd), Read(k)]) == (p.(pos := |p.bytes|), [Succeeded, Delivered(p.bytes[|p.bytes| - k..])])
  {
    hide Run;
    RunTwo(p, Seek(-k, SeekEnd), Read(k));
    assert Effect(p, Seek(-k, SeekEnd)) == (p.(pos := |p.bytes| - k), Succeeded);
    assert p.bytes[|p.bytes| - k..|p.bytes|] == p.bytes[|p.bytes| - k..];
  }

  /** A seek from the start and one from there add up, as far as they stay inside the file. */
  lemma SeeksAdd(p: PlainFile, o: nat, d: int)
    requires p.Valid() && o <= |p.bytes|
    ensures var inside := 0 <= o + d <= |p.bytes|;
            var at := if inside then o + d else o;
            Run(p, [Seek(o, SeekSet), Seek(d, SeekCur), Tell])
            == (p.(pos := at), [Succeeded, if inside then Succeeded else Refused, Number(at)])
  {
    hide Run;
    RunThree(p, Seek(o, SeekSet), Seek(d, SeekCur), Tell);
  }

  /** What is refused: targets outside the file, and origins that there are none; nothing changes then. */
  lemma SeekRefused(p: PlainFile, offset: int, origin: Origin)
    requires p.Valid()
    ensures Run(p, [Seek(offset, origin)]).1 == [Refused]
       <==> || (origin == SeekSet && (offset < 0 || offset > |p.bytes|))
            || (origin == SeekCur && (p.pos + offset < 0 || p.pos + offset > |p.bytes|))
            || (origin == SeekEnd && (|p.bytes| + offset < 0 || offset > 0))
            || origin == UnknownOrigin
    ensures Run(p, [Seek(offset, origin)]).1 == [Refused] ==> Run(p, [Seek(offset, origin)]).0 == p
    ensures Run(p, [Seek(offset, origin)]).1 != [Refused] ==> Run(p, [Seek(offset, origin)]).1 == [Succeeded]
  {
    hide Run;
    RunOne(p, Seek(offset, origin));
  }

  lemma EndIsTold(p: PlainFile)
    requires p.Valid()
    ensures Run(p, [Seek(0, SeekEnd), Tell, EndOfFile]).1 == [Succeeded, Number(|p.bytes|), Number(1)]
  {
    hide Run;
    RunThree(p, Seek(0, SeekEnd), Tell, EndOfFile);
    assert Effect(p, Seek(0, SeekEnd)) == (p.(pos := |p.bytes|), Succeeded);
  }

  /** At the end of the file exactly when there is no byte left to read; the size is how far the end is from the start. */
  lemma EndAndSize(p: PlainFile)
    requires p.Valid()
    ensures Run(p, [EndOfFile]) == (p, [Number(if p.bytes[p.pos..] == [] then 1 else 0)])
    ensures Run(p, [Seek(0, SeekEnd), Tell, EndOfFile]).1 == [Succeeded, Number(|p.bytes|), Number(1)]
    ensures Run(p, [FileSize]) == (p, [Number(|p.bytes|)]) && Run(p, [Flush]) == (p, [Succeeded])
  {
    hide Run;
    RunOne(p, EndOfFile);
    RunOne(p, FileSize);
    RunOne(p, Flush);
    EndIsTold(p);
  }
}
