/**
 * The cached window of a file as a value: `data` is what the buffer holds for the file
 * from `base` on, and `data[from..to]` has been written but not yet flushed.
 */
module CacheWindow {
  import opened Bytes

  /** The one dirty range `from..to` after an update that starts at `at`. */
  ghost function WidenFrom(from: nat, to: nat, at: nat): nat {
    if from == to then at else Min(from, at)
  }

  /** The one dirty range `from..to` after an update that ends at `end`. */
  ghost function WidenTo(from: nat, to: nat, end: nat): nat {
    if from == to || to < end then end else to
  }

  datatype Window = Window(base: nat, data: seq<Byte>, from: nat, to: nat) {

    ghost predicate WellFormed() {
      from <= to <= |data| && (from == to ==> to == 0)
    }

    /** The window leaves no hole in a file of `fileLen` bytes, and with it a caller sees `viewLen` bytes. */
    ghost predicate Fits(fileLen: nat, viewLen: nat) {
      && WellFormed()
      && base + from <= fileLen
      && base + |data| <= viewLen
      && viewLen == (if base + to > fileLen then base + to else fileLen)
    }

    /** `v` holds the window's data where the window reaches, and outside the dirty range what `f` holds. */
    ghost predicate Merges(f: seq<Byte>, v: seq<Byte>)
      requires Fits(|f|, |v|)
    {
      && v[base..base + |data|] == data
      && v[..base + from] == f[..base + from]
      && (base + to <= |f| ==> v[base + to..] == f[base + to..])
    }

    /** Over the native file `f`, this window makes a caller see `v`. */
    ghost predicate Shows(f: seq<Byte>, v: seq<Byte>) {
      Fits(|f|, |v|) && Merges(f, v)
    }

    lemma ShowsAt(f: seq<Byte>, v: seq<Byte>, i: nat)
      requires Shows(f, v) && i < |v|
      ensures base <= i < base + |data| ==> v[i] == data[i - base]
      ensures !(base + from <= i < base + to) ==> i < |f| && v[i] == f[i]
    {
      if base <= i < base + |data| {
        assert v[base..base + |data|][i - base] == v[i];
      }
      if i < base + from {
        assert v[..base + from][i] == f[..base + from][i];
      } else if base + to <= i {
        assert v[base + to..][i - (base + to)] == f[base + to..][i - (base + to)];
      }
    }

    /** The converse: the window shows what agrees with it, byte by byte. */
    lemma ShowsIfEachDoes(f: seq<Byte>, v: seq<Byte>)
      requires Fits(|f|, |v|)
      requires forall i :: base <= i < base + |data| ==> v[i] == data[i - base]
      requires forall i :: 0 <= i < |v| && !(base + from <= i < base + to) ==> i < |f| && v[i] == f[i]
      ensures Shows(f, v)
    {
    }

    /** A stretch of the cached data is that stretch of the view. */
    lemma ShowsData(f: seq<Byte>, v: seq<Byte>, i: nat, n: nat)
      requires Shows(f, v) && i + n <= |data|
      ensures data[i..i + n] == v[base + i..base + i + n]
    {
      SliceOfSlice(v, base, base + |data|, i, i + n);
    }

    /** With nothing to flush, the caller sees the native file. */
    lemma CleanShowsFile(f: seq<Byte>, v: seq<Byte>)
      requires Shows(f, v) && from == to
      ensures v == f && base + |data| <= |f|
    {
      forall i | 0 <= i < |v|
        ensures v[i] == f[i]
      {
        ShowsAt(f, v, i);
      }
    }

    /** Flushing the dirty range turns the native file into what the caller sees. */
    lemma FlushWritesView(f: seq<Byte>, v: seq<Byte>)
      requires Shows(f, v)
      ensures Overlay(f, base + from, data[from..to]) == v
      ensures Window(base, data, 0, 0).Shows(v, v)
    {
      forall i | 0 <= i < |v|
        ensures Overlay(f, base + from, data[from..to])[i] == v[i]
      {
        OverlayAt(f, base + from, data[from..to], i);
        ShowsAt(f, v, i);
      }
    }

    /** The window after `d` has been copied in at `at`. */
    ghost function Put(at: nat, d: seq<Byte>): (w: Window)
      requires WellFormed() && at <= |data| && d != []
    {
      Window(base, Overlay(data, at, d), WidenFrom(from, to, at), WidenTo(from, to, at + |d|))
    }

    /** Widening the dirty range over the gap between two writes changes no byte of the view but those of `d`. */
    lemma PutWrites(f: seq<Byte>, v: seq<Byte>, at: nat, d: seq<Byte>)
      requires Shows(f, v) && at <= |data| && d != []
      ensures Put(at, d).Shows(f, Overlay(v, base + at, d)) && Put(at, d).from < Put(at, d).to
      ensures to <= at ==> Put(at, d).from == if from == to then at else from
    {
      hide Merges;
      var w, v' := Put(at, d), Overlay(v, base + at, d);
      assert w.base + w.from <= |f| by {
        if from == to { CleanShowsFile(f, v); }
      }
      forall i | base <= i < base + |w.data|
        ensures v'[i] == w.data[i - base]
      {
        OverlayAt(v, base + at, d, i);
        OverlayAt(data, at, d, i - base);
        if i < base + |data| { ShowsAt(f, v, i); }
      }
      forall i | 0 <= i < |v'| && !(base + w.from <= i < base + w.to)
        ensures i < |f| && v'[i] == f[i]
      {
        OverlayAt(v, base + at, d, i);
        ShowsAt(f, v, i);
      }
      w.ShowsIfEachDoes(f, v');
    }
  }

  /** A clean window over any stretch of the file shows the file. */
  lemma CleanWindow(f: seq<Byte>, base: nat, n: nat)
    requires base + n <= |f|
    ensures Window(base, f[base..base + n], 0, 0).Shows(f, f)
  {
  }
}
