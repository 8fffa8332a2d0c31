/**
 * The loop that turns an index into the code point that the two-byte table does not have: GB18030 four-byte
 * sequences, and the Hangul syllables that KS C 5601 leaves out.
 */
module SelectLoop {
  import opened Sequences

  /** How many entries lie in `lo..hi`, both included; an entry that is there twice counts twice. */
  ghost function Count(entries: seq<nat>, lo: int, hi: int): nat {
    if entries == [] then 0
    else Count(entries[..|entries| - 1], lo, hi) + (if lo <= entries[|entries| - 1] <= hi then 1 else 0)
  }

  lemma {:induction false} CountBoth(a: seq<nat>, b: seq<nat>, lo: int, hi: int)
    ensures Count(a + b, lo, hi) == Count(a, lo, hi) + Count(b, lo, hi)
  {
    if b == [] {
      assert a + b == a;
    } else {
      assert (a + b)[..|a + b| - 1] == a + b[..|b| - 1];
      CountBoth(a, b[..|b| - 1], lo, hi);
    }
  }

  lemma {:induction false} CountSplit(t: seq<nat>, lo: int, mid: int, hi: int)
    requires lo - 1 <= mid <= hi
    ensures Count(t, lo, hi) == Count(t, lo, mid) + Count(t, mid + 1, hi)
  {
    if t != [] {
      CountSplit(t[..|t| - 1], lo, mid, hi);
    }
  }

  lemma {:induction false} CountNone(t: seq<nat>, lo: int, hi: int)
    requires hi < lo
    ensures Count(t, lo, hi) == 0
  {
    if t != [] {
      CountNone(t[..|t| - 1], lo, hi);
    }
  }

  /** How many entries are `lo` or more. */
  ghost function CountFrom(t: seq<nat>, lo: int): nat {
    if t == [] then 0 else CountFrom(t[..|t| - 1], lo) + (if lo <= t[|t| - 1] then 1 else 0)
  }

  lemma {:induction false} CountFromSplit(t: seq<nat>, lo: int, hi: int)
    requires lo <= hi + 1
    ensures CountFrom(t, lo) == Count(t, lo, hi) + CountFrom(t, hi + 1)
  {
    if t != [] {
      CountFromSplit(t[..|t| - 1], lo, hi);
    }
  }

  /** The loop, over the entries of the table in any order; `d` is where the next pass starts to count. */
  ghost function Select(t: seq<nat>, d: nat, c: nat): (r: nat)
    ensures r >= c
    decreases CountFrom(t, d), if d <= c then 1 else 0
  {
    if d > c then c
    else
      CountFromSplit(t, d, c);
      Select(t, c + 1, c + Count(t, d, c))
  }

  /** Passes count entries by table row and column. */
  method SelectInTable(table: seq<seq<nat>>, start: nat, n: nat) returns (c: nat)
    ensures c == Select(Flat(table), start, n)
  {
    c := n;
    ghost var t := Flat(table);
    var d: nat := start;
    while d <= c
      invariant Select(t, d, c) == Select(t, start, n)
      decreases CountFrom(t, d), if d <= c then 1 else 0
    {
      var k := 0;
      for i := 0 to |table|
        invariant k == Count(Flat(table[..i]), d, c)
      {
        for j := 0 to |table[i]|
          invariant k == Count(Flat(table[..i]), d, c) + Count(table[i][..j], d, c)
        {
          assert table[i][..j + 1][..j] == table[i][..j];
          if d <= table[i][j] && table[i][j] - d <= c - d {
            k := k + 1;
          }
        }
        assert table[i][..|table[i]|] == table[i] && table[..i + 1][..i] == table[..i];
        CountBoth(Flat(table[..i]), table[i], d, c);
      }
      assert table[..|table|] == table;
      CountFromSplit(t, d, c);
      d := c + 1;
      c := c + k;
    }
  }

  // ---------- What the loop computes ----------

  /** The loop stops at the least number from `n` on that is `n` plus the number of entries it has passed. */
  lemma SelectIsLeastFixpoint(t: seq<nat>, start: nat, n: nat)
    requires start <= n
    ensures var r := Select(t, start, n);
            && r == n + Count(t, start, r)
            && forall v :: n <= v < r ==> v < n + Count(t, start, v)
  {
    CountNone(t, start, start - 1);
    SelectInvariant(t, start, n, start, n);
  }

  lemma {:induction false} SelectInvariant(t: seq<nat>, start: nat, n: nat, d: nat, c: nat)
    requires start <= n && start <= d && c == n + Count(t, start, d - 1) && (d - 1 <= c)
    requires forall v :: n <= v < d - 1 ==> v < n + Count(t, start, v)
    ensures var r := Select(t, d, c);
            && r == n + Count(t, start, r)
            && forall v :: n <= v < r ==> v < n + Count(t, start, v)
    decreases CountFrom(t, d), if d <= c then 1 else 0
  {
    if d <= c {
      CountSplit(t, start, d - 1, c);
      CountFromSplit(t, d, c);
      forall v | n <= v < c
        ensures v < n + Count(t, start, v)
      {
        if v >= d - 1 {
          CountSplit(t, start, d - 1, v);
        }
      }
      SelectInvariant(t, start, n, c + 1, c + Count(t, d, c));
    }
  }

  lemma {:induction false} CountIsBounded(t: seq<nat>, lo: int, hi: int)
    ensures Count(t, lo, hi) <= |t|
  {
    if t != [] {
      CountIsBounded(t[..|t| - 1], lo, hi);
    }
  }

  lemma SelectIsBounded(t: seq<nat>, start: nat, n: nat)
    requires start <= n
    ensures Select(t, start, n) <= n + |t|
  {
    SelectIsLeastFixpoint(t, start, n);
    CountIsBounded(t, start, Select(t, start, n));
  }

  /** Different indexes give different code points, in the same order; whatever the table holds. */
  lemma SelectIsIncreasing(t: seq<nat>, start: nat, m: nat, n: nat)
    requires start <= m < n
    ensures Select(t, start, m) < Select(t, start, n)
  {
    SelectIsLeastFixpoint(t, start, m);
    SelectIsLeastFixpoint(t, start, n);
  }

  /** No entry from `start` on is there twice. */
  ghost predicate NoDuplicates(t: seq<nat>, start: nat) {
    forall i, j :: 0 <= i < j < |t| && t[i] >= start ==> t[i] != t[j]
  }

  /** How many numbers in `start..v`, `v` excluded, are not in the table. */
  ghost function Missing(t: seq<nat>, start: nat, v: nat): nat
    requires start <= v
  {
    if v == start then 0 else Missing(t, start, v - 1) + (if v - 1 in t then 0 else 1)
  }

  lemma LastIsNew(t: seq<nat>, start: nat, n: nat)
    requires NoDuplicates(t, start) && n < |t| && t[n] >= start
    ensures t[n] !in t[..n]
  {
  }

  lemma {:induction false} CountOne(t: seq<nat>, start: nat, v: nat)
    requires start <= v
    ensures v in t <==> Count(t, v, v) >= 1
    ensures NoDuplicates(t, start) ==> Count(t, v, v) <= 1
  {
    if t != [] {
      var n := |t| - 1;
      CountOne(t[..n], start, v);
      assert t == t[..n] + [t[n]];
      if NoDuplicates(t, start) && t[n] == v {
        LastIsNew(t, start, n);
      }
    }
  }

  /** Without duplicates, what is not missing is counted; with duplicates, more is counted. */
  lemma {:induction false} MissingPlusCount(t: seq<nat>, start: nat, v: nat)
    requires start <= v
    ensures Missing(t, start, v) + Count(t, start, v - 1) >= v - start
    ensures NoDuplicates(t, start) ==> Missing(t, start, v) + Count(t, start, v - 1) == v - start
  {
    if v == start {
      CountNone(t, start, v - 1);
    } else {
      MissingPlusCount(t, start, v - 1);
      CountSplit(t, start, v - 2, v - 1);
      CountOne(t, start, v - 1);
    }
  }

  /** Of the numbers not in the table, a larger one has more of them before it. */
  lemma {:induction false} MissingIsInjective(t: seq<nat>, start: nat, v: nat, w: nat)
    requires start <= v < w && v !in t
    ensures Missing(t, start, v) < Missing(t, start, w)
    decreases w - v
  {
    if w - 1 > v {
      MissingIsInjective(t, start, v, w - 1);
    }
  }

  /** For a table without duplicates: the result is the one number not in the table that as many missing numbers precede as the index says. */
  lemma SelectFindsMissing(t: seq<nat>, start: nat, n: nat)
    requires NoDuplicates(t, start) && start <= n
    ensures var r := Select(t, start, n);
            && r !in t && Missing(t, start, r) == n - start
            && forall v: nat :: start <= v && v !in t && Missing(t, start, v) == n - start ==> v == r
  {
    var r := Select(t, start, n);
    SelectIsLeastFixpoint(t, start, n);
    CountSplit(t, start, r - 1, r);
    CountOne(t, start, r);
    MissingPlusCount(t, start, r);
    assert r > n ==> r - 1 < n + Count(t, start, r - 1);
    forall v: nat | start <= v && v !in t && Missing(t, start, v) == n - start
      ensures v == r
    {
      if v < r {
        MissingIsInjective(t, start, v, r);
      } else if r < v {
        MissingIsInjective(t, start, r, v);
      }
    }
  }

  lemma {:induction false} CountIsSmall(t: seq<nat>, start: nat, lo: nat, hi: int)
    requires NoDuplicates(t, start) && start <= lo <= hi + 1
    ensures Count(t, lo, hi) <= hi - lo + 1
    decreases hi - lo + 1
  {
    if lo <= hi {
      CountSplit(t, lo, lo, hi);
      CountOne(t, start, lo);
      CountIsSmall(t, start, lo + 1, hi);
    } else {
      CountNone(t, lo, hi);
    }
  }

  /** The entries push the index past every number below `v`. */
  ghost predicate Reaches(t: seq<nat>, start: nat, n: nat, v: nat) {
    forall u: nat :: n <= u < v ==> u < n + Count(t, start, u)
  }

  /** The result is `v` or more exactly then, whatever the table. */
  lemma SelectReaches(t: seq<nat>, start: nat, n: nat, v: nat)
    requires start <= n
    ensures Select(t, start, n) >= v <==> Reaches(t, start, n, v)
  {
    SelectIsLeastFixpoint(t, start, n);
  }

  /** For a table without duplicates that can be told from the number of entries below `v`. */
  lemma ReachesByCount(t: seq<nat>, start: nat, n: nat, v: nat)
    requires NoDuplicates(t, start) && start <= n
    ensures Reaches(t, start, n, v) <==> n >= v || n + Count(t, start, v - 1) >= v
  {
    var r := Select(t, start, n);
    SelectReaches(t, start, n, v);
    SelectIsLeastFixpoint(t, start, n);
    if n < v {
      if r < v {
        CountSplit(t, start, r, v - 1);
        CountIsSmall(t, start, r + 1, v - 1);
      } else {
        assert v - 1 < n + Count(t, start, v - 1);
      }
    }
  }

  // ---------- Duplicates ----------

  lemma {:induction false} CountTwice(t: seq<nat>, i: nat, j: nat)
    requires i < j < |t| && t[i] == t[j]
    ensures Count(t, t[i], t[i]) >= 2
  {
    var n := |t| - 1;
    if j < n {
      CountTwice(t[..n], i, j);
    } else {
      CountOne(t[..n], 0, t[i]);
      assert t[..n][i] == t[i];
    }
  }

  /** Past a duplicate, more is counted than is there. */
  lemma {:induction false} MissingPastDuplicate(t: seq<nat>, start: nat, i: nat, j: nat, v: nat)
    requires i < j < |t| && t[i] == t[j] && start <= t[i] < v
    ensures Missing(t, start, v) + Count(t, start, v - 1) > v - start
  {
    CountSplit(t, start, v - 2, v - 1);
    CountOne(t, start, v - 1);
    if v - 1 == t[i] {
      MissingPlusCount(t, start, v - 1);
      CountTwice(t, i, j);
    } else {
      MissingPastDuplicate(t, start, i, j, v - 1);
    }
  }

  ghost function Largest(t: seq<nat>): (m: nat)
    ensures forall x :: x in t ==> x <= m
  {
    if t == [] then 0
    else
      var m := Largest(t[..|t| - 1]);
      assert t == t[..|t| - 1] + [t[|t| - 1]];
      if t[|t| - 1] > m then t[|t| - 1] else m
  }

  /** The loop finds the right missing number for every index exactly when the table has no duplicates. */
  lemma SelectCorrectIffNoDuplicates(t: seq<nat>, start: nat)
    ensures NoDuplicates(t, start)
       <==> forall n: nat :: start <= n ==> Missing(t, start, Select(t, start, n)) == n - start
  {
    if NoDuplicates(t, start) {
      forall n: nat | start <= n
        ensures Missing(t, start, Select(t, start, n)) == n - start
      {
        SelectFindsMissing(t, start, n);
      }
    } else {
      var i, j :| 0 <= i < j < |t| && t[i] >= start && t[i] == t[j];
      var n := start + Largest(t) + 1;
      var r := Select(t, start, n);
      assert t[i] in t && t[i] < r;
      MissingPastDuplicate(t, start, i, j, r);
      SelectIsLeastFixpoint(t, start, n);
      CountSplit(t, start, r - 1, r);
      CountOne(t, 0, r);
      assert Missing(t, start, r) != n - start;
    }
  }
}
