/** The write-back cache in front of a native file: one window of the file in memory. */
module FileCaches {
  import opened Bytes
  import opened NativeFiles
  import opened CacheWindow
  import opened PlainFiles
  import ReadCount

  datatype Flushable = Flushable(file: seq<Byte>, at: nat, updates: seq<Byte>)

  /** Every byte of the native file `b` is one of the file `f`, or one of the view `v` or `w`, at the same place. */
  ghost predicate Mixes(b: seq<Byte>, f: seq<Byte>, v: seq<Byte>, w: seq<Byte>) {
    |b| <= |w| && forall i :: 0 <= i < |b| ==> (i < |f| && b[i] == f[i]) || (i < |v| && b[i] == v[i]) || b[i] == w[i]
  }

  lemma MixesFlushed(b: seq<Byte>, f: seq<Byte>, v: seq<Byte>, w: seq<Byte>)
    requires Mixes(b, v, v, w)
    ensures Mixes(b, f, v, w)
  {
  }

  /** More of `src` in the view. */
  lemma MixesMore(b: seq<Byte>, f: seq<Byte>, v: seq<Byte>, at: nat, src: seq<Byte>, k: nat, n: nat)
    requires at <= |v| && k + n <= |src| && Mixes(b, f, v, Overlay(v, at, src[..k]))
    ensures Mixes(b, f, v, Overlay(v, at, src[..k + n]))
  {
    var w, w' := Overlay(v, at, src[..k]), Overlay(v, at, src[..k + n]);
    forall i | 0 <= i < |b|
      ensures (i < |f| && b[i] == f[i]) || (i < |v| && b[i] == v[i]) || b[i] == w'[i]
    {
      OverlayAt(v, at, src[..k], i);
      OverlayAt(v, at, src[..k + n], i);
    }
  }

  /** A stretch of the view `w` written over the file. */
  lemma MixesWritten(b: seq<Byte>, f: seq<Byte>, v: seq<Byte>, w: seq<Byte>, at: nat, d: seq<Byte>, k: nat)
    requires Mixes(b, f, v, w) && at <= |b| && k <= |d| && at + |d| <= |w| && d == w[at..at + |d|]
    ensures Mixes(Overlay(b, at, d[..k]), f, v, w)
  {
    forall i | 0 <= i < |Overlay(b, at, d[..k])|
      ensures var c := Overlay(b, at, d[..k])[i];
              (i < |f| && c == f[i]) || (i < |v| && c == v[i]) || c == w[i]
    {
      OverlayAt(b, at, d[..k], i);
      if at <= i < at + k {
        assert d[i - at] == w[i];
      }
    }
  }

  class FileCache {
    const container: NativeFile
    var mode: Mode
    var cacheSize: nat
    var buffer: array?<Byte>
    /** Native position of the start of the cache. */
    var cacheFilePosition: nat
    /** Virtual position, counted from the start of the cache. */
    var currentCachePos: nat
    /** End of valid data, counted from the start of the cache. */
    var endCachePos: nat
    /** The range that has been written but not flushed, counted from the start of the cache. */
    var cacheUpdateStart: nat
    var cacheUpdateEnd: nat
    /** Virtual file size. */
    var fileSize: nat
    /** Position of the native file. */
    var nativePosition: nat

    /** The bytes of the file as the caller sees them. */
    ghost var contents: seq<Byte>

    ghost predicate Shaped()
      reads this
    {
      && buffer != null && buffer.Length == cacheSize > 0
      && currentCachePos <= endCachePos <= cacheSize
      && container.append == mode.append
    }

    ghost function TheWindow(): Window
      requires Shaped()
      reads this, buffer
    {
      Window(cacheFilePosition, Elements(buffer)[..endCachePos], cacheUpdateStart, cacheUpdateEnd)
    }

    ghost predicate Dirty()
      reads this
    {
      cacheUpdateStart < cacheUpdateEnd
    }

    /** Holds between calls, also after native calls that failed. */
    ghost predicate Valid()
      reads this, buffer, container
    {
      && Shaped()
      && TheWindow().Shows(container.bytes, contents)
      && fileSize == |contents|
      && nativePosition == container.pos
      && (Dirty() ==> mode.Writable())
      && (Dirty() && mode.append ==> cacheFilePosition + cacheUpdateStart == |container.bytes|)
    }

    /** The plain file this cache stands for. */
    ghost function Plain(): PlainFile
      reads this
    {
      PlainFile(mode, contents, Tell())
    }

    lemma PlainIsValid()
      requires Valid()
      ensures Plain().Valid() && Pending().at <= |Pending().file| && (Dirty() <==> Pending().updates != [])
    {
    }

    function FileSize(): nat
      reads this
    {
      fileSize
    }

    function Tell(): nat
      reads this
    {
      cacheFilePosition + currentCachePos
    }

    function EndOfFile(): int
      reads this
    {
      if Tell() == FileSize() then 1 else 0
    }

    /** What the next flush has to write, where, and over what. */
    ghost function Pending(): Flushable
      requires Valid()
      reads this, buffer, container
    {
      Flushable(container.bytes, cacheFilePosition + cacheUpdateStart, Elements(buffer)[cacheUpdateStart..cacheUpdateEnd])
    }

    lemma PendingIsCached()
      requires Valid()
      ensures buffer[cacheUpdateStart..cacheUpdateEnd] == Pending().updates
      ensures TheWindow().data[cacheUpdateStart..cacheUpdateEnd] == Pending().updates
    {
    }

    /** What is pending is part of what the caller sees. */
    lemma PendingIsSeen()
      requires Valid() && Dirty()
      ensures var p := Pending();
              p.at <= |p.file| && p.at + |p.updates| <= |contents| && p.updates == contents[p.at..p.at + |p.updates|]
    {
      PendingIsCached();
      TheWindow().ShowsData(container.bytes, contents, cacheUpdateStart, cacheUpdateEnd - cacheUpdateStart);
    }

    /** A failed call left the file as the caller sees it, and what has to be flushed, alone. */
    ghost predicate Kept(plain: PlainFile, pending: Flushable)
      requires Valid()
      reads this, buffer, container
    {
      Plain() == plain && (Dirty() ==> Pending() == pending)
    }

    /**
     * A flush was cut short: a prefix of the pending bytes reached the native file, the rest is lost,
     * and the cache is left empty, on the native file as it now is, as close to `pos` as that allows.
     */
    ghost predicate Emptied(pos: nat, pending: Flushable)
      requires pending.at <= |pending.file|
      reads this, container
    {
      && !Dirty() && endCachePos == 0 && contents == container.bytes && Tell() == Min(pos, |contents|)
      && exists k :: 0 <= k < |pending.updates|
           && container.bytes == Overlay(pending.file, pending.at, pending.updates[..k])
    }

    twostate predicate SameConfig()
      reads this
    {
      buffer == old(buffer) && mode == old(mode) && cacheSize == old(cacheSize)
    }

    constructor (container: NativeFile)
      ensures this.container == container
      ensures buffer == null && !Dirty()
    {
      this.container := container;
      mode := Mode(false, false, false, false);
      cacheSize, buffer := 0, null;
      cacheFilePosition, currentCachePos, endCachePos := 0, 0, 0;
      cacheUpdateStart, cacheUpdateEnd, fileSize, nativePosition := 0, 0, 0, 0;
      contents := [];
    }

    /** Opens the cache for a native file that was just opened. */
    method Open(mode: Mode, size: nat) returns (status: int)
      requires size > 0 && mode.append == container.append
      requires !Dirty()
      modifies this, container
      ensures status == 0 && Valid() && fresh(buffer) && cacheSize == size
      ensures Plain() == PlainFile(mode, container.bytes, 0) && container.bytes == old(container.bytes)
    {
      hide Window.Merges, Overlay;
      this.mode, cacheSize := mode, size;
      buffer := new Byte[size];
      status := SetCachePosition(0);
      fileSize := |container.bytes|;
      nativePosition := container.pos;
      contents := container.bytes;
      CleanWindow(contents, 0, 0);
      assert TheWindow() == Window(0, contents[0..0], 0, 0);
      return 0;
    }

    /** Flushes and gives up the buffer. */
    method Close()
      requires Valid()
      modifies this, container
      ensures buffer == null
      ensures container.reliable || !old(Dirty()) ==> container.bytes == old(contents) && !Dirty()
      ensures Mixes(container.bytes, old(container.bytes), old(contents), old(contents))
    {
      hide Window.Merges, Overlay, Mixes;
      FileMixes();
      if !Dirty() {
        TheWindow().CleanShowsFile(container.bytes, contents);
      }
      var _ := Relocate(0, container.bytes, contents);
      buffer := null;
    }

    /** Reads up to `count` elements of `size` bytes; `copied` is the number of bytes it moved. */
    method Read(dest: array?<Byte>, size: nat, count: nat) returns (n: nat, ghost copied: nat)
      requires Valid()
      requires size * count < TWO_TO_THE_32
      requires dest != null ==> dest != buffer && size * count <= dest.Length
      modifies this, container, buffer, dest
      ensures Valid() && SameConfig()
      ensures copied <= old(Plain().Left()) && copied <= size * count
      ensures n == WholeElements(copied, size)
      ensures dest != null ==> Elements(dest) == Overlay(old(Elements(dest)), 0, old(Plain().Ahead(copied)))
      ensures dest == null || !mode.Readable() ==> copied == 0 && Plain() == old(Plain())
      ensures dest != null && mode.Readable() && container.reliable ==>
                && Plain() == old(Plain().Advance(copied))
                && copied == old(Deliverable(size * count, size))
      ensures Kept(old(Plain().Advance(copied)), old(Pending())) || Emptied(old(Tell()) + copied, old(Pending()))
    {
      hide Window.Merges, Overlay, Elements, PlainFile.Ahead, ReadCount.Copied, WholeElements;
      copied := 0;
      if dest != null {
        Plain().DeliverNothing(Elements(dest), 0);
      }
      if dest == null {
        return WholeElements(0, size), 0;
      }
      if !mode.Readable() {
        return WholeElements(0, size), 0;
      }
      var moved := ReadBytes(dest, size, size * count);
      copied := moved;
      n := WholeElements(moved, size);
    }

    /** The read loop: `want` bytes in elements of `size` bytes. */
    method ReadBytes(dest: array<Byte>, size: nat, want: nat) returns (copied: nat)
      requires Valid() && dest != buffer && want <= dest.Length
      modifies this, container, buffer, dest
      ensures Valid() && SameConfig()
      ensures copied <= old(Plain().Left()) && copied <= want
      ensures Elements(dest) == Overlay(old(Elements(dest)), 0, old(Plain().Ahead(copied)))
      ensures container.reliable ==> Plain() == old(Plain().Advance(copied)) && copied == old(Deliverable(want, size))
      ensures Kept(old(Plain().Advance(copied)), old(Pending())) || Emptied(old(Tell()) + copied, old(Pending()))
    {
      hide FileCache.Valid, Overlay, Elements, Emptied, Deliverable, PlainFile.Ahead;
      copied := 0;
      PlainIsValid();
      Plain().DeliverNothing(Elements(dest), 0);
      ghost var plain, pending, total := Plain(), Pending(), Deliverable(want, size);
      var bytesToRead: nat, destBuf: nat, stop := want, 0, false;
      while bytesToRead > 0 && !stop
        invariant Valid() && SameConfig() && dest != buffer
        invariant destBuf == copied && copied + bytesToRead == want && copied <= plain.Left()
        invariant Elements(dest) == Overlay(old(Elements(dest)), 0, plain.Ahead(copied))
        invariant Kept(plain.Advance(copied), pending) || (stop && Emptied(plain.pos + copied, pending))
        invariant container.reliable ==>
                    && Plain() == plain.Advance(copied)
                    && total == copied + if stop then 0 else Deliverable(bytesToRead, size)
        decreases !stop, bytesToRead, if endCachePos == currentCachePos then 1 else 0
      {
        PlainIsValid();
        var thisRead;
        thisRead, stop := ReadPass(dest, destBuf, bytesToRead, size);
        PlainIsValid();
        plain.DeliverTwice(old(Elements(dest)), copied, thisRead);
        bytesToRead := bytesToRead - thisRead;
        destBuf := destBuf + thisRead;
        copied := copied + thisRead;
      }
      if container.reliable && bytesToRead == 0 {
        DeliverableNothing(size);
      }
    }

    /** How much of the next `want` bytes the read loop delivers when no native call fails. */
    ghost function Deliverable(want: nat, size: nat): nat
      requires Valid()
      reads this, buffer, container
    {
      ReadCount.Copied(endCachePos - currentCachePos, fileSize - Tell(), want, size, cacheSize)
    }

    lemma DeliverableNothing(size: nat)
      requires Valid()
      ensures Deliverable(0, size) == 0
    {
    }

    /** One pass of the read loop: it moves bytes out of the cache, or refills the cache, or gives up. */
    method ReadPass(dest: array<Byte>, destBuf: nat, bytesToRead: nat, size: nat) returns (thisRead: nat, stop: bool)
      requires Valid() && dest != buffer
      requires bytesToRead > 0 && destBuf + bytesToRead <= dest.Length
      modifies this, container, buffer, dest
      ensures Valid() && SameConfig()
      ensures thisRead <= bytesToRead && thisRead <= old(Plain().Left()) && (stop ==> thisRead == 0)
      ensures Elements(dest) == Overlay(old(Elements(dest)), destBuf, old(Plain().Ahead(thisRead)))
      ensures Kept(old(Plain().Advance(thisRead)), old(Pending())) || (stop && old(Dirty()) && Emptied(old(Tell()), old(Pending())))
      ensures container.reliable ==> Plain() == old(Plain().Advance(thisRead))
      ensures container.reliable ==>
                old(Deliverable(bytesToRead, size)) == if stop then 0 else thisRead + Deliverable(bytesToRead - thisRead, size)
      ensures !stop && thisRead == 0 ==> old(endCachePos == currentCachePos) && endCachePos != currentCachePos
    {
      hide Window.Merges, Overlay, Elements, PlainFile.Ahead, ReadCount.Copied;
      thisRead, stop := 0, true;
      Plain().DeliverNothing(Elements(dest), destBuf);
      ReadCount.OnePass(endCachePos - currentCachePos, fileSize - Tell(), bytesToRead, size, cacheSize);
      if (FileSize() - Tell()) % TWO_TO_THE_32 < size {
        return;
      }
      var bytesInCache := endCachePos - currentCachePos;
      if bytesInCache > 0 {
        thisRead := if bytesInCache > bytesToRead then bytesToRead else bytesInCache;
        CopyOut(dest, destBuf, thisRead);
        currentCachePos := currentCachePos + thisRead;
        stop := false;
      } else {
        var status := FillCacheFromFile();
        stop := status != 0 || endCachePos - currentCachePos == 0;
      }
    }

    /** Copies `n` cached bytes from the virtual position on. */
    method CopyOut(dest: array<Byte>, at: nat, n: nat)
      requires Valid() && dest != buffer
      requires at + n <= dest.Length && currentCachePos + n <= endCachePos
      modifies dest
      ensures Valid()
      ensures Elements(dest) == Overlay(old(Elements(dest)), at, Plain().Ahead(n))
    {
      hide Window.Merges, Overlay;
      TheWindow().ShowsData(container.bytes, contents, currentCachePos, n);
      SliceOfSlice(Elements(buffer), 0, endCachePos, currentCachePos, currentCachePos + n);
      Copy(dest, at, buffer[currentCachePos..currentCachePos + n]);
    }

    /** Writes `count` elements of `size` bytes; `accepted` is the number of bytes the cache took. */
    method Write(src: Pointer<seq<Byte>>, size: nat, count: nat) returns (n: nat, ghost accepted: nat)
      requires Valid()
      requires size * count < TWO_TO_THE_32
      requires src.To? ==> size * count <= |src.value|
      modifies this, container, buffer
      ensures Valid() && SameConfig()
      ensures accepted <= size * count && n == WholeElements(accepted, size)
      ensures src.Null? || !mode.Writable() ==> accepted == 0 && Plain() == old(Plain())
      ensures src.To? && container.reliable ==> Plain() == old(Plain().Write(src.value[..size * count]))
      ensures src.To? && mode.Writable() && container.reliable ==> accepted == size * count
      ensures src.To? ==>
                || (accepted == 0 && Plain() == old(Plain()))
                || Plain() == old(Plain().Write(src.value[..accepted]))
                || (!Dirty() && endCachePos == 0 && contents == container.bytes)
      ensures src.To? ==>
                || Tell() == Min(old(Plain().Write(src.value[..accepted]).pos), |contents|)
                || (mode.append && accepted == 0 && Tell() == Min(old(Tell()), |contents|))
      ensures src.To? ==> Mixes(container.bytes, old(container.bytes), old(contents), old(Plain().Write(src.value[..accepted])).bytes)
    {
      hide Window.Merges, Overlay, Elements, WholeElements, Mixes;
      accepted := 0;
      FileMixes();
      OverlayNothing(contents, if mode.append then |contents| else Tell());
      assert src.To? ==> src.value[..0] == [];
      if src.Null? {
        return WholeElements(0, size), 0;
      }
      if !mode.Writable() {
        return WholeElements(0, size), 0;
      }
      ghost var plain := Plain();
      if mode.append && Tell() != FileSize() {
        var status := Relocate(FileSize(), container.bytes, contents);
        if status != 0 {
          return WholeElements(0, size), 0;
        }
      }
      ghost var file, at := container.bytes, Tell();
      var taken := WriteBytes(src.value[..size * count]);
      accepted := taken;
      assert src.value[..size * count][..taken] == src.value[..taken];
      if file == plain.bytes {
        MixesFlushed(container.bytes, old(container.bytes), plain.bytes, Overlay(plain.bytes, at, src.value[..taken]));
      }
      n := WholeElements(taken, size);
    }

    /** The write loop. */
    method WriteBytes(src: seq<Byte>) returns (accepted: nat)
      requires Valid() && mode.Writable()
      requires mode.append ==> Tell() == FileSize()
      modifies this, container, buffer
      ensures Valid() && SameConfig()
      ensures accepted <= |src|
      ensures Mixes(container.bytes, old(container.bytes), old(contents), Overlay(old(contents), old(Tell()), src[..accepted]))
      ensures Plain() == PlainFile(mode, Overlay(old(contents), old(Tell()), src[..accepted]), old(Tell()) + accepted)
              || (!Dirty() && endCachePos == 0 && contents == container.bytes)
      ensures Tell() == Min(old(Tell()) + accepted, |contents|)
      ensures container.reliable ==>
                Plain() == PlainFile(mode, Overlay(old(contents), old(Tell()), src), old(Tell()) + |src|) && accepted == |src|
    {
      hide Window.Merges, Overlay, Elements, Mixes, Emptied;
      accepted := 0;
      ghost var at := Tell();
      var srcBuf: nat, bytesToWrite: nat := 0, |src|;
      OverlayNothing(contents, at);
      assert src[..0] == [];
      FileMixes();
      while bytesToWrite > 0
        invariant Valid() && SameConfig()
        invariant srcBuf == accepted && accepted + bytesToWrite == |src|
        invariant Tell() == at + accepted
        invariant Mixes(container.bytes, old(container.bytes), old(contents), contents)
        invariant contents == Overlay(old(contents), at, src[..accepted])
        decreases bytesToWrite, if currentCachePos == cacheSize then 1 else 0
      {
        var spaceInCache := cacheSize - currentCachePos;
        if spaceInCache > 0 {
          var thisWrite := if spaceInCache > bytesToWrite then bytesToWrite else spaceInCache;
          OverlayGrows(old(contents), at, src, accepted, thisWrite);
          MixesMore(container.bytes, old(container.bytes), old(contents), at, src, accepted, thisWrite);
          CopyIn(src[srcBuf..srcBuf + thisWrite]);
          bytesToWrite := bytesToWrite - thisWrite;
          srcBuf := srcBuf + thisWrite;
          accepted := accepted + thisWrite;
        } else {
          var status := Relocate(Tell(), old(container.bytes), old(contents));
          if status != 0 {
            return;
          }
        }
      }
      assert src[..accepted] == src;
    }

    /** Flushes and goes on with an empty cache; a flush that is cut short writes no byte that does not belong. */
    method Relocate(newPos: nat, ghost f: seq<Byte>, ghost v: seq<Byte>) returns (status: int)
      requires Valid() && newPos <= FileSize() && Mixes(container.bytes, f, v, contents)
      modifies this, container
      ensures Valid() && SameConfig() && Mixes(container.bytes, f, v, old(contents))
      ensures status == 0 ==>
                && Plain() == old(Plain()).(pos := newPos) && !Dirty() && currentCachePos == 0
                && container.bytes == old(contents)
      ensures status != 0 ==> Plain() == old(Plain()) || (!Dirty() && endCachePos == 0 && contents == container.bytes)
      ensures status != 0 ==> Tell() == Min(old(Tell()), |contents|)
      ensures container.reliable || !old(Dirty()) ==> status == 0
    {
      hide Window.Merges, Overlay, Elements;
      ghost var pending := Pending();
      if Dirty() {
        PendingIsSeen();
      }
      status := SetCachePosition(newPos);
      if status != 0 && Emptied(old(Tell()), pending) {
        ghost var k: nat :| k < |pending.updates| && container.bytes == Overlay(pending.file, pending.at, pending.updates[..k]);
        MixesWritten(pending.file, f, v, old(contents), pending.at, pending.updates, k);
      } else if status != 0 && !Dirty() {
        TheWindow().CleanShowsFile(container.bytes, contents);
      }
    }

    lemma FileMixes()
      requires Valid()
      ensures Mixes(container.bytes, container.bytes, contents, contents)
    {
    }

    /** One pass of the write loop: copies `d` in and keeps track of the range that has to be flushed. */
    method CopyIn(d: seq<Byte>)
      requires Valid() && mode.Writable()
      requires 0 < |d| && currentCachePos + |d| <= cacheSize
      requires mode.append ==> Tell() == FileSize()
      modifies this, buffer
      ensures Valid() && SameConfig()
      ensures contents == Overlay(old(contents), old(Tell()), d)
      ensures Tell() == old(Tell()) + |d|
    {
      hide Window.Merges, WidenFrom, WidenTo, Overlay, Elements;
      ghost var w, p := TheWindow(), currentCachePos;
      w.PutWrites(container.bytes, contents, p, d);
      if !Dirty() {
        w.CleanShowsFile(container.bytes, contents);
      }
      OverlayPrefix(Elements(buffer), endCachePos, p, d);
      contents := Overlay(contents, Tell(), d);
      Copy(buffer, currentCachePos, d);
      TrackUpdate(|d|);
      currentCachePos := currentCachePos + |d|;
      ExtendEnds();
      assert TheWindow() == w.Put(p, d);
      assert Shaped() && fileSize == |contents|;
    }

    /** Extends the end of the cached data, and the file size, to the virtual position. */
    method ExtendEnds()
      modifies this`endCachePos, this`fileSize
      ensures endCachePos == if old(endCachePos) < currentCachePos then currentCachePos else old(endCachePos)
      ensures fileSize == if old(fileSize) < cacheFilePosition + endCachePos then cacheFilePosition + endCachePos else old(fileSize)
    {
      if endCachePos < currentCachePos {
        endCachePos := currentCachePos;
      }
      if fileSize < cacheFilePosition + endCachePos {
        fileSize := cacheFilePosition + endCachePos;
      }
    }

    /** Widens the dirty range to the `n` bytes from the virtual position on. */
    method TrackUpdate(n: nat)
      modifies this`cacheUpdateStart, this`cacheUpdateEnd
      ensures cacheUpdateStart == WidenFrom(old(cacheUpdateStart), old(cacheUpdateEnd), currentCachePos)
      ensures cacheUpdateEnd == WidenTo(old(cacheUpdateStart), old(cacheUpdateEnd), currentCachePos + n)
    {
      if cacheUpdateEnd == cacheUpdateStart {
        cacheUpdateStart := currentCachePos;
        cacheUpdateEnd := currentCachePos + n;
      } else {
        if currentCachePos < cacheUpdateStart {
          cacheUpdateStart := currentCachePos;
        }
        if currentCachePos + n > cacheUpdateEnd {
          cacheUpdateEnd := currentCachePos + n;
        }
      }
    }

    method Seek(offset: int, origin: Origin) returns (status: int)
      requires Valid()
      modifies this, container
      ensures Valid() && SameConfig()
      ensures status == 0 ==> old(Plain().CanSeek(offset, origin)) && Plain() == old(Plain().Seek(offset, origin))
      ensures !old(Plain().CanSeek(offset, origin)) ==> status != 0 && Plain() == old(Plain())
      ensures status != 0 ==> Kept(old(Plain()), old(Pending())) || Emptied(old(Tell()), old(Pending()))
      ensures container.reliable ==> (status == 0 <==> old(Plain().CanSeek(offset, origin)))
    {
      hide Window.Merges, Overlay, Emptied, Elements;
      var pos;
      match origin {
        case SeekCur => pos := Tell() + offset;
        case SeekSet => pos := 0 + offset;
        case SeekEnd => pos := FileSize() + offset;
        case UnknownOrigin => return -1;
      }
      if pos < 0 || pos > FileSize() {
        return -1;
      }
      if cacheFilePosition <= pos && pos <= cacheFilePosition + endCachePos {
        currentCachePos := pos - cacheFilePosition;
        return 0;
      }
      status := SeekOutside(pos);
    }

    /** Moves to a place that is not cached. */
    method SeekOutside(newPos: nat) returns (status: int)
      requires Valid() && newPos <= FileSize()
      modifies this, container
      ensures Valid() && SameConfig()
      ensures status == 0 ==> Plain() == old(Plain()).(pos := newPos)
      ensures status != 0 ==> Kept(old(Plain()), old(Pending())) || Emptied(old(Tell()), old(Pending()))
      ensures container.reliable ==> status == 0
    {
      hide Window.Merges, Overlay;
      status := container.Seek(newPos);
      if status != 0 {
        return;
      }
      nativePosition := newPos;
      status := SetCachePosition(newPos);
    }

    method Flush() returns (status: int)
      requires Valid()
      modifies this, container
      ensures Valid() && SameConfig()
      ensures status == 0 ==> !Dirty() && container.bytes == old(contents)
      ensures Kept(old(Plain()), old(Pending())) || (status != 0 && Emptied(old(Tell()), old(Pending())))
      ensures container.reliable ==> status == 0
    {
      hide Window.Merges, Overlay;
      if cacheUpdateEnd > cacheUpdateStart {
        status := WriteCacheToFile();
        if status != 0 {
          return;
        }
        status := container.Flush();
        nativePosition := container.pos;
      } else {
        TheWindow().CleanShowsFile(container.bytes, contents);
        status := 0;
      }
    }

    /** Flushes, then leaves an empty cache at `newPos`. */
    method SetCachePosition(newPos: nat) returns (status: int)
      requires Dirty() ==> Valid()
      modifies this, container
      ensures SameConfig()
      ensures status == 0 ==>
                && cacheFilePosition == newPos && currentCachePos == endCachePos == 0
                && cacheUpdateStart == cacheUpdateEnd == 0
      ensures !old(Dirty()) ==>
                && status == 0 && fileSize == old(fileSize) && nativePosition == old(nativePosition)
                && container.bytes == old(container.bytes) && container.pos == old(container.pos)
                && contents == old(contents)
      ensures old(Valid()) && status == 0 ==> container.bytes == old(contents)
      ensures old(Valid()) && status == 0 && newPos <= old(FileSize()) ==>
                Valid() && Plain() == old(Plain()).(pos := newPos)
      ensures status != 0 ==> old(Valid()) && Valid()
      ensures status != 0 ==> Kept(old(Plain()), old(Pending())) || Emptied(old(Tell()), old(Pending()))
      ensures container.reliable ==> status == 0
      decreases cacheUpdateEnd - cacheUpdateStart, 1
    {
      hide Window.Merges, Overlay;
      ghost var valid := Valid();
      if valid && !Dirty() {
        TheWindow().CleanShowsFile(container.bytes, contents);
      }
      if cacheUpdateEnd > cacheUpdateStart {
        status := WriteCacheToFile();
        if status != 0 {
          return;
        }
      }
      cacheFilePosition := newPos;
      currentCachePos := 0;
      endCachePos := 0;
      cacheUpdateStart, cacheUpdateEnd := 0, 0;
      if valid && newPos <= fileSize {
        CleanWindow(contents, newPos, 0);
        assert TheWindow() == Window(newPos, contents[newPos..newPos], 0, 0);
      }
      status := 0;
    }

    /** Refills the empty cache from the virtual position on. */
    method FillCacheFromFile() returns (status: int)
      requires Valid() && currentCachePos == endCachePos
      modifies this, container, buffer
      ensures Valid() && SameConfig()
      ensures status == 0 ==> Plain() == old(Plain()) && !Dirty() && currentCachePos == 0
      ensures status == 0 && container.reliable ==> endCachePos == Min(cacheSize, |contents| - Tell())
      ensures status != 0 ==> Kept(old(Plain()), old(Pending())) || Emptied(old(Tell()), old(Pending()))
      ensures container.reliable ==> status == 0
    {
      hide Window.Merges, Overlay, Elements;
      var newPos := Tell();
      if cacheFilePosition != newPos || cacheUpdateEnd - cacheUpdateStart > 0 {
        status := SetCachePosition(newPos);
        if status != 0 {
          return;
        }
      }
      if nativePosition != newPos {
        status := container.Seek(newPos);
        if status != 0 {
          return;
        }
        nativePosition := newPos;
      }
      LoadCache();
      status := 0;
    }

    /** Fills the empty cache from the native file, which is at the right place. */
    method LoadCache()
      requires Valid() && !Dirty() && currentCachePos == endCachePos == 0 && nativePosition == cacheFilePosition
      modifies this, container, buffer
      ensures Valid() && SameConfig() && Plain() == old(Plain()) && !Dirty() && currentCachePos == 0
      ensures container.reliable ==> endCachePos == Min(cacheSize, |contents| - Tell())
    {
      hide Window.Merges, Overlay, Elements;
      ghost var newPos := cacheFilePosition;
      TheWindow().CleanShowsFile(container.bytes, contents);
      endCachePos := container.Read(buffer, cacheSize);
      nativePosition := nativePosition + endCachePos;
      CleanWindow(contents, newPos, endCachePos);
      assert TheWindow() == Window(newPos, contents[newPos..newPos + endCachePos], 0, 0);
    }

    /** Writes the updates to the native file; cached data and virtual position stay. */
    method WriteCacheToFile() returns (status: int)
      requires Valid()
      modifies this, container
      ensures Valid() && SameConfig()
      ensures status == 0 ==>
                && Plain() == old(Plain()) && !Dirty() && container.bytes == contents
                && cacheFilePosition == old(cacheFilePosition) && endCachePos == old(endCachePos)
      ensures status != 0 ==> Kept(old(Plain()), old(Pending())) || Emptied(old(Tell()), old(Pending()))
      ensures container.reliable ==> status == 0
      decreases cacheUpdateEnd - cacheUpdateStart, 0
    {
      hide Window.Merges, Overlay, Elements;
      ghost var w, pending := TheWindow(), Pending();
      PendingIsCached();
      if cacheUpdateEnd > cacheUpdateStart {
        var bytesToWrite := cacheUpdateEnd - cacheUpdateStart;
        w.FlushWritesView(container.bytes, contents);
        status := SeekToUpdates();
        if status != 0 {
          return;
        }
        var put := container.Write(buffer[cacheUpdateStart..cacheUpdateEnd]);
        nativePosition := nativePosition + put;
        cacheUpdateStart, cacheUpdateEnd := 0, 0;
        if put == bytesToWrite {
          assert pending.updates[..put] == pending.updates;
          assert TheWindow() == Window(w.base, w.data, 0, 0);
          return 0;
        }
        assert container.bytes == Overlay(pending.file, pending.at, pending.updates[..put]);
        Recover();
        return -1;
      }
      w.CleanShowsFile(container.bytes, contents);
      status := 0;
    }

    /** Goes to where the updates belong, unless the native file appends anyway. */
    method SeekToUpdates() returns (status: int)
      requires Valid()
      modifies this`nativePosition, container`pos
      ensures status == 0 ==>
                && nativePosition == cacheFilePosition + cacheUpdateStart
                && (!mode.append ==> container.pos == nativePosition)
      ensures status != 0 ==> nativePosition == old(nativePosition) && container.pos == old(container.pos)
      ensures container.reliable ==> status == 0
    {
      status := 0;
      var pos := cacheFilePosition + cacheUpdateStart;
      if nativePosition != pos {
        if !mode.append {
          status := container.Seek(pos);
          if status != 0 {
            return;
          }
        }
        nativePosition := pos;
      }
    }

    /** After a short write: takes the native values as they are, and empties the cache as near to its position as it can. */
    method Recover()
      requires Shaped() && cacheUpdateStart == cacheUpdateEnd == 0
      modifies this, container
      ensures Valid() && SameConfig() && !Dirty() && endCachePos == 0
      ensures contents == container.bytes == old(container.bytes) && Tell() == Min(old(Tell()), |contents|)
      decreases cacheUpdateEnd - cacheUpdateStart, 2
    {
      hide Window.Merges, Overlay, Elements;
      fileSize := |container.bytes|;
      nativePosition := container.pos;
      contents := container.bytes;
      var newPos := Tell();
      if newPos > fileSize {
        newPos := fileSize;
      }
      var _ := SetCachePosition(newPos);
      CleanWindow(contents, newPos, 0);
      assert TheWindow() == Window(newPos, contents[newPos..newPos], 0, 0);
    }
  }
}
