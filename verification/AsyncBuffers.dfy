/** The read-ahead buffers, in sorted order and in chains. A buffer is named by its index in the buffer array. */
module AsyncBuffers {
  import opened Bytes

  /** `bufLength` is the length of the byte container; `length` is the copy of it that the buffer publishes. */
  datatype Buf = Buf(bytes: seq<Byte>, bufLength: nat, offset: nat, length: nat, valid: bool, inUse: bool) {

    function End(): nat {
      offset + length
    }

    function UpdateData(): Buf {
      this.(valid := true, length := bufLength)
    }

    predicate HasThisOffset(o: nat) {
      valid && o >= offset && o <= offset + length - 1
    }

    ghost function Published(): seq<Byte> {
      if length <= |bytes| then bytes[..length] else []
    }

    ghost predicate Fits(fileSize: nat, cap: nat) {
      |bytes| == cap && length == bufLength <= cap && (valid ==> End() <= fileSize)
    }

    /** What the buffer publishes is in the file at its offset. */
    ghost predicate Holds(file: seq<Byte>)
      requires Fits(|file|, |bytes|)
    {
      valid ==> bytes[..length] == file[offset..End()]
    }

    /** The buffer has `cap` bytes of room, and what it publishes is in the file at its offset. */
    ghost predicate Agrees(file: seq<Byte>, cap: nat) {
      Fits(|file|, cap) && Holds(file)
    }
  }

  // ---------- Sorting ----------

  ghost predicate Names(bufs: seq<Buf>, ids: seq<nat>) {
    forall i :: 0 <= i < |ids| ==> ids[i] < |bufs|
  }

  /** Where `x` goes: before the first buffer with a larger offset. */
  ghost function Place(bufs: seq<Buf>, ids: seq<nat>, x: nat): (j: nat)
    requires Names(bufs, ids) && x < |bufs|
    ensures j <= |ids|
    ensures forall i :: 0 <= i < j ==> bufs[ids[i]].offset <= bufs[x].offset
    ensures j < |ids| ==> bufs[x].offset < bufs[ids[j]].offset
  {
    if ids == [] || bufs[x].offset < bufs[ids[0]].offset then 0
    else 1 + Place(bufs, ids[1..], x)
  }

  ghost function Insert(bufs: seq<Buf>, ids: seq<nat>, x: nat): (r: seq<nat>)
    requires Names(bufs, ids) && x < |bufs|
    ensures Names(bufs, r)
  {
    var j := Place(bufs, ids, x);
    ids[..j] + [x] + ids[j..]
  }

  /** The valid buffers among the first `n`, sorted by insertion. */
  ghost function SortedUpTo(bufs: seq<Buf>, n: nat): (r: seq<nat>)
    requires n <= |bufs|
    ensures Names(bufs, r)
  {
    if n == 0 then []
    else
      var r := SortedUpTo(bufs, n - 1);
      if bufs[n - 1].valid then Insert(bufs, r, n - 1) else r
  }

  /** Sorted by offset, and buffers at the same offset in the order of the array. */
  ghost predicate IsSorted(bufs: seq<Buf>, ids: seq<nat>)
    requires Names(bufs, ids)
  {
    forall i, j :: 0 <= i < j < |ids| ==>
      bufs[ids[i]].offset < bufs[ids[j]].offset || (bufs[ids[i]].offset == bufs[ids[j]].offset && ids[i] < ids[j])
  }

  lemma NoneIsSorted(bufs: seq<Buf>)
    ensures IsSorted(bufs, [])
  {
  }

  lemma InsertIsSorted(bufs: seq<Buf>, ids: seq<nat>, x: nat)
    requires Names(bufs, ids) && IsSorted(bufs, ids) && x < |bufs|
    requires forall y :: y in ids ==> y < x
    ensures IsSorted(bufs, Insert(bufs, ids, x))
  {
    var j, r := Place(bufs, ids, x), Insert(bufs, ids, x);
    forall a, b | 0 <= a < b < |r|
      ensures bufs[r[a]].offset < bufs[r[b]].offset || (bufs[r[a]].offset == bufs[r[b]].offset && r[a] < r[b])
    {
      if b == j {
        assert ids[a] in ids;
      } else if a == j && j < b - 1 {
        assert bufs[x].offset < bufs[ids[j]].offset && bufs[ids[j]].offset <= bufs[ids[b - 1]].offset;
      }
    }
  }

  lemma InsertAdds(bufs: seq<Buf>, ids: seq<nat>, x: nat, y: nat)
    requires Names(bufs, ids) && x < |bufs|
    ensures y in Insert(bufs, ids, x) <==> y == x || y in ids
  {
    var j := Place(bufs, ids, x);
    assert ids == ids[..j] + ids[j..];
  }

  /** The sort keeps exactly the valid buffers. */
  lemma {:induction false} SortKeepsValid(bufs: seq<Buf>, n: nat, x: nat)
    requires n <= |bufs|
    ensures x in SortedUpTo(bufs, n) <==> x < n && bufs[x].valid
  {
    if n > 0 {
      SortKeepsValid(bufs, n - 1, x);
      if bufs[n - 1].valid {
        InsertAdds(bufs, SortedUpTo(bufs, n - 1), n - 1, x);
      }
    }
  }

  /** It orders them, each once. */
  lemma {:induction false} SortIsSorted(bufs: seq<Buf>, n: nat)
    requires n <= |bufs|
    ensures IsSorted(bufs, SortedUpTo(bufs, n))
  {
    hide IsSorted, Insert;
    if n == 0 {
      NoneIsSorted(bufs);
    } else {
      SortIsSorted(bufs, n - 1);
      if bufs[n - 1].valid {
        var r := SortedUpTo(bufs, n - 1);
        forall y | y in r
          ensures y < n - 1
        {
          SortKeepsValid(bufs, n - 1, y);
        }
        InsertIsSorted(bufs, r, n - 1);
      }
    }
  }

  /** Sorting by pushing to the end and swapping down into place. */
  method SortDataBuffers(bufs: seq<Buf>) returns (sorted: seq<nat>)
    ensures sorted == SortedUpTo(bufs, |bufs|)
  {
    hide Place;
    sorted := [];
    for i := 0 to |bufs|
      invariant sorted == SortedUpTo(bufs, i)
    {
      if bufs[i].valid {
        var j := 0;
        while j < |sorted| && !(bufs[i].offset < bufs[sorted[j]].offset)
          invariant 0 <= j <= |sorted|
          invariant forall k :: 0 <= k < j ==> bufs[sorted[k]].offset <= bufs[i].offset
        {
          j := j + 1;
        }
        PlaceIs(bufs, sorted, i, j);
        ghost var ids := sorted;
        sorted := sorted + [i];
        var k := |sorted| - 1;
        while k > j
          invariant j <= k < |sorted| == |ids| + 1
          invariant sorted == ids[..k] + [i] + ids[k..]
        {
          SwapDown(ids, i, k);
          sorted := sorted[k - 1 := sorted[k]][k := sorted[k - 1]];
          k := k - 1;
        }
      }
    }
  }

  lemma SwapDown(ids: seq<nat>, i: nat, k: nat)
    requires 0 < k <= |ids|
    ensures var s := ids[..k] + [i] + ids[k..];
            s[k - 1 := s[k]][k := s[k - 1]] == ids[..k - 1] + [i] + ids[k - 1..]
  {
    assert ids[..k] == ids[..k - 1] + [ids[k - 1]] && ids[k - 1..] == [ids[k - 1]] + ids[k..];
  }

  lemma {:induction false} PlaceIs(bufs: seq<Buf>, ids: seq<nat>, x: nat, j: nat)
    requires Names(bufs, ids) && x < |bufs| && j <= |ids|
    requires forall i :: 0 <= i < j ==> bufs[ids[i]].offset <= bufs[x].offset
    requires j < |ids| ==> bufs[x].offset < bufs[ids[j]].offset
    ensures Place(bufs, ids, x) == j
  {
    var p := Place(bufs, ids, x);
  }

  // ---------- Chains ----------

  /** The buffers met when following `ids` in order, each starting where the one before ended, from `end` on. */
  ghost function Follow(bufs: seq<Buf>, ids: seq<nat>, end: nat): (r: seq<nat>)
    requires Names(bufs, ids)
    ensures Names(bufs, r) && forall x :: x in r ==> x in ids
  {
    if ids == [] then []
    else if bufs[ids[0]].offset == end then [ids[0]] + Follow(bufs, ids[1..], bufs[ids[0]].End())
    else Follow(bufs, ids[1..], end)
  }

  /** Where a chain that starts at `end` stops. */
  ghost function ChainEnd(bufs: seq<Buf>, chain: seq<nat>, end: nat): nat
    requires Names(bufs, chain)
  {
    if chain == [] then end else bufs[chain[|chain| - 1]].End()
  }

  ghost predicate Meet(bufs: seq<Buf>, chain: seq<nat>, i: nat)
    requires Names(bufs, chain) && i + 1 < |chain|
  {
    bufs[chain[i]].End() == bufs[chain[i + 1]].offset
  }

  /** Each buffer of the chain starts where the one before ends. */
  ghost predicate Consecutive(bufs: seq<Buf>, chain: seq<nat>)
    requires Names(bufs, chain)
  {
    forall i :: 0 <= i < |chain| - 1 ==> Meet(bufs, chain, i)
  }

  ghost predicate IsChain(bufs: seq<Buf>, chain: seq<nat>, end: nat)
    requires Names(bufs, chain)
  {
    Consecutive(bufs, chain) && (chain != [] ==> bufs[chain[0]].offset == end)
  }

  lemma {:induction false} FollowIsChain(bufs: seq<Buf>, ids: seq<nat>, end: nat)
    requires Names(bufs, ids)
    ensures IsChain(bufs, Follow(bufs, ids, end), end)
  {
    if ids != [] {
      if bufs[ids[0]].offset == end {
        var end' := bufs[ids[0]].End();
        FollowIsChain(bufs, ids[1..], end');
        ChainGrows(bufs, ids[0], Follow(bufs, ids[1..], end'), end);
      } else {
        FollowIsChain(bufs, ids[1..], end);
      }
    }
  }

  lemma ChainGrows(bufs: seq<Buf>, x: nat, chain: seq<nat>, end: nat)
    requires x < |bufs| && Names(bufs, chain)
    requires bufs[x].offset == end && IsChain(bufs, chain, bufs[x].End())
    ensures Names(bufs, [x] + chain) && IsChain(bufs, [x] + chain, end)
    ensures ChainEnd(bufs, [x] + chain, end) == ChainEnd(bufs, chain, bufs[x].End())
  {
    var c := [x] + chain;
    forall i | 0 <= i < |c| - 1
      ensures Meet(bufs, c, i)
    {
      assert c[i + 1] == chain[i];
      if i > 0 {
        assert Meet(bufs, chain, i - 1);
      }
    }
  }

  lemma SortedTail(bufs: seq<Buf>, ids: seq<nat>)
    requires Names(bufs, ids) && IsSorted(bufs, ids) && ids != []
    ensures Names(bufs, ids[1..]) && IsSorted(bufs, ids[1..])
    ensures forall y :: y in ids[1..] ==> y != ids[0] && bufs[ids[0]].offset <= bufs[y].offset
  {
  }

  /** A chain visits each buffer at most once, and never goes back before `end`. */
  lemma {:induction false} FollowGoesForward(bufs: seq<Buf>, ids: seq<nat>, end: nat)
    requires Names(bufs, ids) && IsSorted(bufs, ids)
    ensures var f := Follow(bufs, ids, end);
            && (forall i, j :: 0 <= i < j < |f| ==> f[i] != f[j])
            && (forall x :: x in f ==> bufs[x].offset >= end)
            && (f != [] ==> exists y :: y in ids && bufs[y].offset == end)
  {
    if ids != [] {
      SortedTail(bufs, ids);
      if bufs[ids[0]].offset == end {
        FollowGoesForward(bufs, ids[1..], bufs[ids[0]].End());
        assert ids[0] in ids;
      } else {
        FollowGoesForward(bufs, ids[1..], end);
      }
    }
  }

  lemma EndsForward(bufs: seq<Buf>, chain: seq<nat>, end: nat)
    requires Names(bufs, chain)
    requires forall x :: x in chain ==> bufs[x].offset >= end
    ensures ChainEnd(bufs, chain, end) >= end
  {
    if chain != [] {
      assert chain[|chain| - 1] in chain;
    }
  }

  /** One pass over a sorted list misses no continuation: whatever starts at the chain's end is already in it. */
  lemma {:induction false} FollowIsMaximal(bufs: seq<Buf>, ids: seq<nat>, end: nat, x: nat)
    requires Names(bufs, ids) && IsSorted(bufs, ids) && x in ids
    requires bufs[x].offset == ChainEnd(bufs, Follow(bufs, ids, end), end)
    ensures x in Follow(bufs, ids, end)
  {
    var rest := ids[1..];
    SortedTail(bufs, ids);
    if bufs[ids[0]].offset == end {
      var end' := bufs[ids[0]].End();
      FollowIsChain(bufs, rest, end');
      ChainGrows(bufs, ids[0], Follow(bufs, rest, end'), end);
      if x != ids[0] {
        FollowIsMaximal(bufs, rest, end', x);
      }
    } else if x != ids[0] {
      FollowIsMaximal(bufs, rest, end, x);
    } else {
      FollowGoesForward(bufs, rest, end);
      EndsForward(bufs, Follow(bufs, rest, end), end);
    }
  }

  /** The chain that starts with `first` and goes on through the valid buffers. */
  ghost function ChainFrom(bufs: seq<Buf>, first: nat): (r: seq<nat>)
    requires first < |bufs|
    ensures Names(bufs, r)
  {
    [first] + Follow(bufs, SortedUpTo(bufs, |bufs|), bufs[first].End())
  }

  /** Clears the chain and builds it anew from `first`. */
  method ReOrderBuffersQueue(bufs: seq<Buf>, first: nat) returns (sorted: seq<nat>, linked: seq<nat>)
    requires first < |bufs|
    ensures linked == ChainFrom(bufs, first) && sorted == SortedUpTo(bufs, |bufs|)
  {
    sorted := SortDataBuffers(bufs);
    linked := [first];
    var offset := bufs[first].End();
    for i := 0 to |sorted|
      invariant Names(bufs, linked)
      invariant linked + Follow(bufs, sorted[i..], offset) == ChainFrom(bufs, first)
    {
      if offset == bufs[sorted[i]].offset {
        offset := bufs[sorted[i]].End();
        linked := linked + [sorted[i]];
      }
    }
  }

  /** A chain from a buffer that is not empty: consecutive, of distinct valid buffers, and with nothing left to append. */
  lemma ChainFromIsComplete(bufs: seq<Buf>, first: nat)
    requires first < |bufs| && bufs[first].valid && bufs[first].length > 0
    ensures Consecutive(bufs, ChainFrom(bufs, first))
    ensures forall x :: x in ChainFrom(bufs, first) ==> bufs[x].valid
    ensures forall i, j :: 0 <= i < j < |ChainFrom(bufs, first)| ==> ChainFrom(bufs, first)[i] != ChainFrom(bufs, first)[j]
    ensures forall x: nat :: x < |bufs| && bufs[x].valid && bufs[x].offset == ChainEnd(bufs, ChainFrom(bufs, first), 0)
                             ==> x in ChainFrom(bufs, first)
  {
    var ids, end := SortedUpTo(bufs, |bufs|), bufs[first].End();
    var f := Follow(bufs, ids, end);
    SortIsSorted(bufs, |bufs|);
    FollowIsChain(bufs, ids, end);
    FollowGoesForward(bufs, ids, end);
    ChainGrows(bufs, first, f, bufs[first].offset);
    forall x | x in f
      ensures bufs[x].valid && x != first
    {
      SortKeepsValid(bufs, |bufs|, x);
    }
    forall x: nat | x < |bufs| && bufs[x].valid && bufs[x].offset == ChainEnd(bufs, [first] + f, 0)
      ensures x in [first] + f
    {
      SortKeepsValid(bufs, |bufs|, x);
      FollowIsMaximal(bufs, ids, end, x);
    }
  }
}
