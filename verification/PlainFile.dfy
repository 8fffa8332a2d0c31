/** What a caller of the cache is promised: a byte sequence with a position, and nothing else. */
module PlainFiles {
  import opened Bytes

  /** The bits of the open mode that the cache tests. */
  datatype Mode = Mode(read: bool, readWrite: bool, append: bool, readPlus: bool) {
    predicate Readable() { readWrite || read || append || readPlus }
    predicate Writable() { readWrite || append || readPlus }
  }

  datatype Origin = SeekCur | SeekSet | SeekEnd | UnknownOrigin

  datatype PlainFile = PlainFile(mode: Mode, bytes: seq<Byte>, pos: nat) {

    ghost predicate Valid() {
      pos <= |bytes|
    }

    ghost function Left(): nat
      requires Valid()
    {
      |bytes| - pos
    }

    /** The next `n` bytes. */
    ghost function Ahead(n: nat): (r: seq<Byte>)
      requires Valid() && n <= Left()
    {
      bytes[pos..pos + n]
    }

    ghost function Advance(n: nat): (r: PlainFile)
      requires Valid() && n <= Left()
    {
      this.(pos := pos + n)
    }

    /** Delivering `n` and then `m` bytes is delivering `n + m` bytes. */
    lemma DeliverTwice(dest: seq<Byte>, n: nat, m: nat)
      requires Valid() && n + m <= Left()
      ensures Overlay(Overlay(dest, 0, Ahead(n)), n, Advance(n).Ahead(m)) == Overlay(dest, 0, Ahead(n + m))
    {
      OverlayTwice(dest, 0, Ahead(n), Advance(n).Ahead(m));
      assert Ahead(n) + Advance(n).Ahead(m) == Ahead(n + m);
    }

    lemma DeliverNothing(dest: seq<Byte>, at: nat)
      requires Valid() && at <= |dest|
      ensures Overlay(dest, at, Ahead(0)) == dest
    {
      OverlayNothing(dest, at);
      assert Ahead(0) == [];
    }

    /** Append mode always writes at the end. */
    ghost function Write(d: seq<Byte>): (r: PlainFile)
      requires Valid()
    {
      if !mode.Writable() then this
      else
        var at := if mode.append then |bytes| else pos;
        PlainFile(mode, Overlay(bytes, at, d), at + |d|)
    }

    function Target(offset: int, origin: Origin): int {
      match origin
      case SeekCur => pos + offset
      case SeekSet => offset
      case SeekEnd => |bytes| + offset
      case UnknownOrigin => -1
    }

    ghost predicate CanSeek(offset: int, origin: Origin) {
      0 <= Target(offset, origin) <= |bytes|
    }

    ghost function Seek(offset: int, origin: Origin): (r: PlainFile) {
      if CanSeek(offset, origin) then this.(pos := Target(offset, origin)) else this
    }
  }
}
