/**
 * How many bytes the read loop of the cache copies. Before every pass the loop gives up when less than one
 * whole element is left in the file, even in the middle of an element, so the answer depends on where the
 * cache has to be refilled.
 */
module ReadCount {
  import opened Bytes

  /**
   * Bytes copied when `avail` bytes are cached ahead of the position, `left` bytes are left in the file,
   * `want` bytes are asked for in elements of `size` bytes, and the cache holds `cap` bytes.
   * The number of bytes left is compared as an unsigned 32-bit number.
   */
  ghost function Copied(avail: nat, left: nat, want: nat, size: nat, cap: nat): (n: nat)
    requires avail <= left && cap > 0
    ensures n <= want && n <= left
    decreases left, if avail == 0 then 1 else 0
  {
    if want == 0 || left % TWO_TO_THE_32 < size then 0
    else if avail > 0 then
      var t := Min(avail, want);
      t + Copied(avail - t, left - t, want - t, size, cap)
    else if left == 0 then 0
    else Copied(Min(cap, left), left, want, size, cap)
  }

  /** One pass of the loop. */
  lemma OnePass(avail: nat, left: nat, want: nat, size: nat, cap: nat)
    requires avail <= left && cap > 0 && want > 0
    ensures left % TWO_TO_THE_32 < size ==> Copied(avail, left, want, size, cap) == 0
    ensures left % TWO_TO_THE_32 >= size && avail > 0 ==>
              var t := Min(avail, want);
              Copied(avail, left, want, size, cap) == t + Copied(avail - t, left - t, want - t, size, cap)
    ensures left % TWO_TO_THE_32 >= size && avail == 0 ==>
              Copied(avail, left, want, size, cap) ==
              if left == 0 then 0 else Copied(Min(cap, left), left, want, size, cap)
  {
  }

  /** `b` is one of `avail`, `avail + cap`, `avail + 2 * cap` and so on: there the cache has run empty. */
  ghost predicate IsRefill(avail: nat, cap: nat, b: nat)
    requires cap > 0
    decreases b - avail
  {
    b >= avail && (b == avail || IsRefill(avail + cap, cap, b))
  }

  /** With `b` bytes copied, the loop sees less than one element left. */
  ghost predicate GivesUp(left: nat, size: nat, b: nat)
    requires b <= left
  {
    (left - b) % TWO_TO_THE_32 < size
  }

  lemma {:induction false} RefillsShift(avail: nat, cap: nat, b: nat, t: nat)
    requires cap > 0 && t <= avail && t <= b
    ensures IsRefill(avail, cap, b) == IsRefill(avail - t, cap, b - t)
    decreases b - avail
  {
    if b > avail {
      RefillsShift(avail + cap, cap, b, t);
    }
  }

  /** A short read stops at a point where the loop gives up. */
  lemma {:induction false} StopsWhereItGivesUp(avail: nat, left: nat, want: nat, size: nat, cap: nat)
    requires avail <= left && cap > 0 && size > 0
    requires Copied(avail, left, want, size, cap) < want
    ensures var n := Copied(avail, left, want, size, cap);
            GivesUp(left, size, n) && (n == left || n == 0 || IsRefill(avail, cap, n))
    decreases left, if avail == 0 then 1 else 0
  {
    var n := Copied(avail, left, want, size, cap);
    if left % TWO_TO_THE_32 < size {
    } else if avail > 0 {
      StopsWhereItGivesUp(0, left - avail, want - avail, size, cap);
      RefillsShift(avail, cap, n, avail);
    } else {
      StopsWhereItGivesUp(Min(cap, left), left, want, size, cap);
    }
  }

  /** The loop does not get past a point where it gives up. */
  lemma {:induction false} NeverPassesAGiveUp(avail: nat, left: nat, want: nat, size: nat, cap: nat, b: nat)
    requires avail <= left && cap > 0 && size > 0
    requires b < Copied(avail, left, want, size, cap) && (b == 0 || IsRefill(avail, cap, b))
    ensures !GivesUp(left, size, b)
    decreases left, if avail == 0 then 1 else 0
  {
    if b == 0 {
    } else if avail > 0 {
      RefillsShift(avail, cap, b, avail);
      NeverPassesAGiveUp(0, left - avail, want - avail, size, cap, b - avail);
    } else {
      NeverPassesAGiveUp(Min(cap, left), left, want, size, cap, b);
    }
  }

  /** No refill inside the first `bytes` bytes comes when less than one element is left. */
  ghost predicate NoElementCut(avail: nat, left: nat, size: nat, cap: nat, bytes: nat)
    requires cap > 0 && bytes <= left
  {
    forall b :: 0 <= b < bytes && (b == 0 || IsRefill(avail, cap, b)) ==> !GivesUp(left, size, b)
  }

  /**
   * The documentation promises as many whole elements as were asked for or, failing that, as are left.
   * The loop keeps the promise exactly when no refill inside those elements comes when less than one element is left.
   */
  lemma WholeElementsRead(avail: nat, left: nat, count: nat, size: nat, cap: nat)
    requires avail <= left && cap > 0 && size > 0
    ensures var promised := Min(count, left / size);
            && size * promised <= left
            && (Copied(avail, left, size * count, size, cap) / size == promised
                <==> NoElementCut(avail, left, size, cap, size * promised))
  {
    var want, bytes := size * count, size * Min(count, left / size);
    var n := Copied(avail, left, want, size, cap);
    CountElements(n, size, count, left);
    if n >= bytes {
      forall b | 0 <= b < bytes && (b == 0 || IsRefill(avail, cap, b))
        ensures !GivesUp(left, size, b)
      {
        NeverPassesAGiveUp(avail, left, want, size, cap, b);
      }
    } else {
      StopsWhereItGivesUp(avail, left, want, size, cap);
    }
  }

  lemma CountElements(n: nat, size: nat, count: nat, left: nat)
    requires size > 0 && n <= size * count && n <= left
    ensures var promised := Min(count, left / size);
            && size * promised <= size * count && size * promised <= left
            && (n / size == promised <==> n >= size * promised)
  {
    var most, q := left / size, n / size;
    QuotientBounds(left, size);
    QuotientBounds(n, size);
    var promised := Min(count, most);
    Monotone(size, promised, count);
    Monotone(size, promised, most);
    if q < promised {
      Monotone(size, q, promised);
      Monotone(size, q + 1, promised);
    } else {
      Monotone(size, promised, q);
      if q > count {
        Monotone(size, count + 1, q);
        Monotone(size, count, q);
      } else if q > most {
        Monotone(size, most + 1, q);
      }
    }
  }

  /** Bytes are never cut short, in a file below 4 GiB. */
  lemma BytesReadExactly(avail: nat, left: nat, want: nat, cap: nat)
    requires avail <= left < TWO_TO_THE_32 && cap > 0
    ensures Copied(avail, left, want, 1, cap) == Min(want, left)
  {
    if Copied(avail, left, want, 1, cap) < want {
      StopsWhereItGivesUp(avail, left, want, 1, cap);
    }
  }

  /** Two four-byte elements, both in the file, with a refill inside the second: fewer than two are read. */
  lemma ElementCutShort()
    ensures Copied(7, 10, 4 * 2, 4, 7) / 4 != Min(2, 10 / 4)
  {
    WholeElementsRead(7, 10, 2, 4, 7);
    assert IsRefill(7, 7, 7) && GivesUp(10, 4, 7);
  }

  /** With exactly 4 GiB left, the comparison sees nothing left, and nothing is read, whatever is cached and asked for. */
  lemma NothingReadAtFourGiB(avail: nat, want: nat, size: nat, cap: nat)
    requires avail <= 0x1_0000_0000 && cap > 0 && size > 0
    ensures Copied(avail, 0x1_0000_0000, want, size, cap) == 0
  {
  }

  /** Below 4 GiB the loop gives up exactly when less than one element is left. */
  lemma GivesUpBelowFourGiB(left: nat, size: nat, b: nat)
    requires b <= left < 0x1_0000_0000
    ensures GivesUp(left, size, b) <==> left < b + size
  {
  }

  /** Refills come every `cap` bytes, from the first on. */
  lemma {:induction false} RefillsAreRegular(avail: nat, cap: nat, b: nat)
    requires cap > 0
    ensures IsRefill(avail, cap, b) <==> b >= avail && (b - avail) % cap == 0
    decreases b - avail
  {
    if b > avail {
      RefillsAreRegular(avail + cap, cap, b);
      if b >= avail + cap {
        OneLess(b - avail, cap);
      }
    }
  }

  lemma OneLess(n: nat, cap: nat)
    requires cap > 0 && n >= cap
    ensures n % cap == (n - cap) % cap
  {
    QuotientBounds(n - cap, cap);
    var q, r := (n - cap) / cap, (n - cap) % cap;
    assert n - cap == cap * q + r;
    Monotone(cap, q, q + 1);
    RemainderIsUnique(n, cap, q + 1, r);
  }
}
