/** The native file below the cache: a byte sequence with a position, whose calls may fail. */
module NativeFiles {
  import opened Bytes

  class NativeFile {
    var bytes: seq<Byte>
    var pos: nat
    /** Opened in append mode: every write goes to the end of the file. */
    const append: bool
    /** An ideal file: no call fails and no transfer is short. */
    const reliable: bool

    constructor (contents: seq<Byte>, append: bool, reliable: bool)
      ensures bytes == contents && pos == 0
      ensures this.append == append && this.reliable == reliable
    {
      bytes, pos := contents, 0;
      this.append, this.reliable := append, reliable;
    }

    method Seek(offset: nat) returns (status: int)
      modifies this`pos
      ensures pos == if status == 0 then offset else old(pos)
      ensures reliable ==> status == 0
    {
      var fails := MayFail();
      if fails {
        return -1;
      }
      pos := offset;
      status := 0;
    }

    /** Reads up to `count` bytes into the front of `buffer`. */
    method Read(buffer: array<Byte>, count: nat) returns (got: nat)
      requires count <= buffer.Length
      modifies buffer, this`pos
      ensures got <= count && pos == old(pos) + got
      ensures got == 0 || pos <= |bytes|
      ensures reliable ==> got == Min(count, if old(pos) <= |bytes| then |bytes| - old(pos) else 0)
      ensures Elements(buffer)[..got] == if got == 0 then [] else bytes[old(pos)..pos]
    {
      got := Min(count, if pos <= |bytes| then |bytes| - pos else 0);
      var fails := MayFail();
      if fails {
        var most := got;
        got :| 0 <= got <= most;
      }
      forall i | 0 <= i < got {
        buffer[i] := bytes[pos + i];
      }
      pos := pos + got;
    }

    /** Writes a prefix of `data`; after a short write the position is whatever the file system left. */
    method Write(data: seq<Byte>) returns (put: nat)
      requires append || pos <= |bytes|
      modifies this
      ensures put <= |data|
      ensures bytes == Overlay(old(bytes), if append then |old(bytes)| else old(pos), data[..put])
      ensures put == |data| ==> pos == (if append then |old(bytes)| else old(pos)) + put
      ensures reliable ==> put == |data|
    {
      var at := if append then |bytes| else pos;
      put := |data|;
      var fails := MayFail();
      if fails {
        put :| 0 <= put <= |data|;
      }
      bytes := Overlay(bytes, at, data[..put]);
      pos := at + put;
      if put < |data| {
        var p: nat := *;
        pos := p;
      }
    }

    /** Pushes native buffers to disk; bytes and position stay. */
    method Flush() returns (status: int)
      ensures reliable ==> status == 0
    {
      var fails := MayFail();
      status := if fails then -1 else 0;
    }

    method MayFail() returns (fails: bool)
      ensures reliable ==> !fails
    {
      fails := *;
      if reliable {
        fails := false;
      }
    }
  }
}
