/**
 * The sequences that are numbers in disguise, in their order: four bytes of GB18030, and the Hangul syllables that
 * KS C 5601 has no pair for. Each stands for the next code point that the table does not have.
 */
module SequenceOrder {
  import opened Bytes
  import opened Sequences
  import opened UnicodeForms
  import opened CharSets
  import opened SelectLoop
  import opened Iconv

  /** Of the numbers from `start` on that are not in the table, `v` is the next one behind all of `u` and less. */
  ghost predicate IsNext(t: seq<nat>, u: int, v: nat) {
    u < v && v !in t && forall w: nat :: u < w < v ==> w in t
  }

  lemma SelectFirst(t: seq<nat>, start: nat)
    requires NoDuplicates(t, start)
    ensures IsNext(t, start - 1, Select(t, start, start))
  {
    SelectFindsMissing(t, start, start);
    NoneMissing(t, start, start, Select(t, start, start));
  }

  /** The next index gives the next number. */
  lemma SelectNext(t: seq<nat>, start: nat, n: nat)
    requires NoDuplicates(t, start) && start <= n
    ensures IsNext(t, Select(t, start, n), Select(t, start, n + 1))
  {
    hide Select, Missing, NoDuplicates;
    var u, v := Select(t, start, n), Select(t, start, n + 1);
    SelectIsIncreasing(t, start, n, n + 1);
    SelectFindsMissing(t, start, n);
    SelectFindsMissing(t, start, n + 1);
    OneMoreMissing(t, start, u);
    NoneMissing(t, start, u + 1, v);
  }

  lemma OneMoreMissing(t: seq<nat>, start: nat, u: nat)
    requires start <= u && u !in t
    ensures Missing(t, start, u + 1) == Missing(t, start, u) + 1
  {
  }

  /** Between two numbers with as many missing ones before them, none is missing. */
  lemma {:induction false} NoneMissing(t: seq<nat>, start: nat, u: nat, v: nat)
    requires start <= u <= v && Missing(t, start, u) == Missing(t, start, v)
    ensures forall w :: u <= w < v ==> w in t
  {
    if u < v {
      MissingGrows(t, start, u, v - 1);
      NoneMissing(t, start, u, v - 1);
    }
  }

  lemma {:induction false} MissingGrows(t: seq<nat>, start: nat, u: nat, v: nat)
    requires start <= u <= v
    ensures Missing(t, start, u) <= Missing(t, start, v)
    decreases v
  {
    if u < v {
      MissingGrows(t, start, u, v - 1);
    }
  }

  // ---------- GB18030 ----------

  /** The four bytes of the standard: 0x81 to 0xfe, a digit, 0x81 to 0xfe, a digit. */
  predicate IsStandard(s: seq<Byte>) {
    |s| == 4 && 0x81 <= s[0] <= 0xfe && 0x30 <= s[1] <= 0x39 && 0x81 <= s[2] <= 0xfe && 0x30 <= s[3] <= 0x39
  }

  /** The sequence behind `s`: the last byte counts on, and carries into the one before. */
  function After(s: seq<Byte>): (r: seq<Byte>)
    requires IsStandard(s) && s != [0xfe, 0x39, 0xfe, 0x39]
    ensures IsStandard(r)
  {
    if s[3] < 0x39 then [s[0], s[1], s[2], s[3] + 1]
    else if s[2] < 0xfe then [s[0], s[1], s[2] + 1, 0x30]
    else if s[1] < 0x39 then [s[0], s[1] + 1, 0x81, 0x30]
    else [s[0] + 1, 0x30, 0x81, 0x30]
  }

  /** Four bytes are read exactly where they are expected, the third up to 0xff. */
  lemma GbReadsFour(variant: GbVariant, t: Tables, s: seq<Byte>)
    requires ValidTables(t) && s != []
    ensures DecodeGb(variant, t, s).Char? && DecodeGb(variant, t, s).length == 4
       <==> && variant == Gb18030 && |s| >= 4 && 0x81 <= s[0] <= 0xfe && 0x30 <= s[1] <= 0x39
            && 0x81 <= s[2] && 0x30 <= s[3] <= 0x39
  {
  }

  /** What the three sets read: two bytes of the table, and more is asked for exactly when the bytes so far begin something. */
  lemma GbReads(variant: GbVariant, t: Tables, s: seq<Byte>)
    requires ValidTables(t) && s != [] && 128 <= s[0]
    ensures var low := if variant == Gb2312 then 0xa1 else 0x81;
            var two := |s| >= 2 && (if variant == Gb2312 then 0xa1 else 0x40) <= s[1] <= 0xfe && s[1] != 0x7f;
            && (DecodeGb(variant, t, s).Char? && DecodeGb(variant, t, s).length == 2 <==> low <= s[0] <= 0xfe && two)
            && (DecodeGb(variant, t, s) == Starved
                <==> && low <= s[0] <= 0xfe
                     && (|s| < 2 || (variant == Gb18030 && |s| < 4 && 0x30 <= s[1] <= 0x39)))
            && (DecodeGb(variant, t, s).Char? ==> DecodeGb(variant, t, s).length == 2 || DecodeGb(variant, t, s).length == 4)
  {
  }

  /** The first sequence is 0x80, when the table has nothing up to there. */
  lemma GbFirst(t: Tables)
    requires ValidTables(t) && forall i :: 0 <= i < |Flat(t.gb)| ==> Flat(t.gb)[i] > 0x80
    ensures DecodeGb(Gb18030, t, [0x81, 0x30, 0x81, 0x30]) == Char(0x80, 4)
  {
    var flat := Flat(t.gb);
    NoneBelow(flat, 0, 0x80);
    SelectIsLeastFixpoint(flat, 0, 128);
    SelectReaches(flat, 0, 128, 129);
  }

  lemma {:induction false} NoneBelow(t: seq<nat>, lo: int, hi: int)
    requires forall i :: 0 <= i < |t| ==> t[i] > hi
    ensures Count(t, lo, hi) == 0
  {
    if t != [] {
      NoneBelow(t[..|t| - 1], lo, hi);
    }
  }

  /** From one sequence to the next, the character is the next code point that the table does not have. */
  lemma GbNext(t: Tables, s: seq<Byte>)
    requires ValidTables(t) && NoDuplicates(Flat(t.gb), 0) && IsStandard(s) && s != [0xfe, 0x39, 0xfe, 0x39]
    ensures var c, d := DecodeGb(Gb18030, t, s), DecodeGb(Gb18030, t, After(s));
            c.Char? && d.Char? && c.length == d.length == 4 && IsNext(Flat(t.gb), c.c, d.c)
  {
    hide ValidTables, NoDuplicates, Select;
    var r, flat := After(s), Flat(t.gb);
    var n := FourByteIndex(s[0], s[1], s[2], s[3]);
    assert FourByteIndex(r[0], r[1], r[2], r[3]) == n + 1;
    GbReadsFour(Gb18030, t, s);
    GbReadsFour(Gb18030, t, r);
    SelectNext(flat, 0, 128 + n);
  }

  // ---------- Hangul ----------

  /** The pairs of KS C 5601: each is one entry of the table, where the entry is not empty. */
  lemma KscPairs(t: Tables, i: nat, j: nat, rest: seq<Byte>)
    requires ValidTables(t) && i < 93 && j < 94
    ensures DecodeEucKr(t, [0xa1 + i, 0xa1 + j] + rest) == if t.ksc[i][j] == 0 then IllegalSequence else Char(t.ksc[i][j], 2)
  {
  }

  /** The second byte of a syllable outside the table: a letter, or a byte from 0x81 to 0xfe. */
  predicate IsTrail(d: Byte) {
    'A' as int <= d <= 'Z' as int || 'a' as int <= d <= 'z' as int || 0x81 <= d <= 0xfe
  }

  /** Such a syllable, with first byte `c`; only the first eighteen second bytes go with a first byte from 0xc6 on. */
  predicate IsSyllable(c: Byte, d: Byte) {
    0x81 <= c <= 0xdd && IsTrail(d) && (c >= 0xa1 ==> d <= 0xa0) && (c >= 0xc6 ==> d <= 'R' as int)
  }

  lemma SyllableStartsHangul(c: Byte, d: Byte, rest: seq<Byte>)
    ensures IsSyllable(c, d) <==> StartsHangul([c, d] + rest)
  {
  }

  /** Everything else is no character of two bytes. */
  lemma EucKrReads(t: Tables, c: Byte, d: Byte, rest: seq<Byte>)
    requires ValidTables(t) && !(0xa1 <= c <= 0xfd && 0xa1 <= d <= 0xfe)
    ensures DecodeEucKr(t, [c, d] + rest).Char? <==> IsSyllable(c, d)
    ensures DecodeEucKr(t, [c, d] + rest).Char? ==> DecodeEucKr(t, [c, d] + rest).length == 2
    ensures DecodeEucKr(t, [c, d] + rest) != Starved && DecodeEucKr(t, [c]) == Starved
  {
    SyllableStartsHangul(c, d, rest);
  }

  /** The pair of bytes of the syllable with a number. */
  function Pair(n: nat): (r: (Byte, Byte))
    requires n < 8822
    ensures IsSyllable(r.0, r.1) && r.0 <= 0xc6
  {
    if n < 5696 then (0x81 + n / 178, Trail(n % 178)) else (0xa1 + (n - 5696) / 84, Trail((n - 5696) % 84))
  }

  function Trail(k: nat): (d: Byte)
    requires k < 178
    ensures IsTrail(d) && (k < 84 ==> d <= 0xa0) && (k < 18 ==> d <= 'R' as int)
  {
    if k < 26 then 'A' as int + k else if k < 52 then 'a' as int + (k - 26) else 0x81 + (k - 52)
  }

  lemma TrailsAscend(k: nat, y: Byte)
    requires k < 178 && IsTrail(y)
    ensures k < 177 ==> Trail(k) < Trail(k + 1) && (y <= Trail(k) || Trail(k + 1) <= y)
    ensures Trail(0) <= y <= Trail(177)
    ensures y <= 0xa0 ==> y <= Trail(83)
  {
  }

  /** The pairs come in ascending order, and none is left out between two of them. */
  lemma PairsAscend(n: nat, x: Byte, y: Byte)
    requires n < 8821
    ensures var (c, d), (c', d') := Pair(n), Pair(n + 1);
            && (c < c' || (c == c' && d < d'))
            && (IsSyllable(x, y) ==> x < c || (x == c && y <= d) || (x == c' && y >= d') || x > c')
  {
    hide Trail, IsTrail;
    var k := if n < 5696 then n % 178 else (n - 5696) % 84;
    TrailsAscend(k, Trail(0));
    if IsSyllable(x, y) {
      TrailsAscend(k, y);
    }
  }

  lemma PairIndex(n: nat)
    requires n < 8822
    ensures var (c, d) := Pair(n);
            StartsHangul([c, d]) && HangulIndex(c - 0x81, HangulColumn(d)) == n
  {
  }

  ghost function Syllable(t: Tables, n: nat): Step
    requires ValidTables(t) && n < 8822
  {
    DecodeEucKr(t, [Pair(n).0, Pair(n).1])
  }

  lemma SyllableIsSelected(t: Tables, n: nat)
    requires ValidTables(t) && n < 8822
    ensures Syllable(t, n) == Char(Select(Flat(t.ksc), 0xac00, 0xac00 + n), 2)
  {
    PairIndex(n);
    var (c, d) := Pair(n);
    assert [c, d][0] == c && [c, d][1] == d;
  }

  /** The pairs in their order are the code points from 0xac00 on that the table does not have, in their order. */
  lemma HangulInOrder(t: Tables, n: nat)
    requires ValidTables(t) && NoDuplicates(Flat(t.ksc), 0xac00) && n < 8822
    ensures Syllable(t, n).Char? && Syllable(t, 0).Char? && Syllable(t, n).length == 2
    ensures IsNext(Flat(t.ksc), 0xac00 - 1, Syllable(t, 0).c)
    ensures n < 8821 ==> Syllable(t, n + 1).Char? && IsNext(Flat(t.ksc), Syllable(t, n).c, Syllable(t, n + 1).c)
  {
    hide ValidTables, NoDuplicates, Select, Syllable;
    SyllableIsSelected(t, 0);
    SyllableIsSelected(t, n);
    SelectFirst(Flat(t.ksc), 0xac00);
    if n < 8821 {
      SyllableIsSelected(t, n + 1);
      SelectNext(Flat(t.ksc), 0xac00, 0xac00 + n);
    }
  }

  /**
   * With the 2350 syllables of KS C 5601 in the table, each once, the pairs are exactly the 8822 that are left of the
   * 11172 Hangul syllables.
   */
  lemma HangulIsComplete(t: Tables, u: nat)
    requires ValidTables(t) && NoDuplicates(Flat(t.ksc), 0xac00) && Count(Flat(t.ksc), 0xac00, 0xd7a3) == 2350
    ensures (exists n :: 0 <= n < 8822 && Syllable(t, n) == Char(u, 2)) <==> 0xac00 <= u <= 0xd7a3 && u !in Flat(t.ksc)
  {
    hide ValidTables, NoDuplicates, Select, Syllable, Count, Missing;
    var flat := Flat(t.ksc);
    MissingPlusCount(flat, 0xac00, 0xd7a4);
    forall n | 0 <= n < 8822 && Syllable(t, n) == Char(u, 2)
      ensures 0xac00 <= u <= 0xd7a3 && u !in flat
    {
      SyllableIsSelected(t, n);
      SelectFindsMissing(flat, 0xac00, 0xac00 + n);
      if u > 0xd7a3 {
        MissingGrows(flat, 0xac00, 0xd7a4, u);
      }
    }
    if 0xac00 <= u <= 0xd7a3 && u !in flat {
      var n := Missing(flat, 0xac00, u);
      MissingIsInjective(flat, 0xac00, u, 0xd7a4);
      SelectFindsMissing(flat, 0xac00, 0xac00 + n);
      SyllableIsSelected(t, n);
    }
  }

  /** A table as the standard has it: the 2350 syllables, each once, and no surrogate. */
  ghost predicate IsKsc(t: Tables) {
    && ValidTables(t) && NoDuplicates(Flat(t.ksc), 0xac00) && Count(Flat(t.ksc), 0xac00, 0xd7a3) == 2350
    && Count(Flat(t.ksc), 0xd7a4, 0xdfff) == 0
  }

  /** The pairs behind the 8822, with a first byte from 0xc7 on, which are accepted too, go on behind the last Hangul syllable. */
  lemma BehindHangul(t: Tables, c: Byte, d: Byte)
    requires IsKsc(t) && IsSyllable(c, d) && c >= 0xc7
    ensures DecodeEucKr(t, [c, d]) == Char(0xac00 + 2350 + 5696 + 84 * (c as int - 0xa1) + (d as int - 'A' as int), 2)
  {
    hide ValidTables, NoDuplicates, Select, Count, Missing;
    var flat, n := Flat(t.ksc), 5696 + 84 * (c as int - 0xa1) + (d as int - 'A' as int);
    var v := 0xac00 + 2350 + n;
    assert [c, d][0] == c && [c, d][1] == d && HangulIndex(c - 0x81, HangulColumn(d)) == n;
    MissingPlusCount(flat, 0xac00, v);
    CountSplit(flat, 0xac00, 0xd7a3, v - 1);
    NothingIn(flat, 0xd7a4, v - 1, 0xdfff);
    NothingAt(flat, 0xd7a4, v, 0xdfff);
    SelectFindsMissing(flat, 0xac00, 0xac00 + n);
  }

  lemma NothingIn(t: seq<nat>, lo: int, mid: int, hi: int)
    requires lo - 1 <= mid <= hi && Count(t, lo, hi) == 0
    ensures Count(t, lo, mid) == 0 && Count(t, mid + 1, hi) == 0
  {
    CountSplit(t, lo, mid, hi);
  }

  lemma NothingAt(t: seq<nat>, lo: nat, v: nat, hi: nat)
    requires lo <= v <= hi && Count(t, lo, hi) == 0
    ensures v !in t
  {
    NothingIn(t, lo, v - 1, hi);
    NothingIn(t, v, v, hi);
    CountOne(t, 0, v);
  }

  /** So a syllable outside the table is read as a scalar value exactly when its first byte is at most 0xc7. */
  lemma HangulIsScalar(t: Tables, c: Byte, d: Byte)
    requires IsKsc(t) && IsSyllable(c, d)
    ensures DecodeEucKr(t, [c, d]).Char? && (IsScalar(DecodeEucKr(t, [c, d]).c) <==> c <= 0xc7)
  {
    hide IsKsc, DecodeEucKr;
    if c >= 0xc7 {
      BehindHangul(t, c, d);
    } else {
      var n := NumberOf(c, d);
      HangulUpTo(t, n);
    }
  }

  lemma TrailNumber(d: Byte) returns (k: nat)
    requires IsTrail(d)
    ensures k < 178 && Trail(k) == d && (d <= 0xa0 ==> k < 84)
  {
    k := if d <= 'Z' as int then d as int - 'A' as int
         else if d <= 'z' as int then d as int - 'a' as int + 26
         else d as int - 0x81 + 52;
  }

  lemma InRow(row: nat, columns: nat, k: nat)
    requires k < columns
    ensures (columns * row + k) / columns == row && (columns * row + k) % columns == k
  {
    QuotientIsUnique(columns * row + k, columns, row, k);
    RemainderIsUnique(columns * row + k, columns, row, k);
  }

  lemma NumberOf(c: Byte, d: Byte) returns (n: nat)
    requires IsSyllable(c, d) && c <= 0xc6
    ensures n < 8822 && Pair(n) == (c, d)
  {
    hide IsTrail, Trail;
    var k := TrailNumber(d);
    if c < 0xa1 {
      n := 178 * (c as int - 0x81) + k;
      InRow(c as int - 0x81, 178, k);
    } else {
      if c == 0xc6 {
        SmallTrails(d, k);
      }
      n := 5696 + (84 * (c as int - 0xa1) + k);
      InRow(c as int - 0xa1, 84, k);
    }
  }

  lemma SmallTrails(d: Byte, k: nat)
    requires IsTrail(d) && d <= 'R' as int && k < 178 && Trail(k) == d
    ensures k < 18
  {
  }

  lemma HangulUpTo(t: Tables, n: nat)
    requires IsKsc(t) && n < 8822
    ensures DecodeEucKr(t, [Pair(n).0, Pair(n).1]).Char? && 0xac00 <= DecodeEucKr(t, [Pair(n).0, Pair(n).1]).c <= 0xd7a3
  {
    hide Count, NoDuplicates, ValidTables, DecodeEucKr;
    SyllableIsSelected(t, n);
    HangulIsComplete(t, Syllable(t, n).c);
  }

  /** Exactly the others take back the byte before them, on their way to UTF-8. */
  lemma HangulLoses(t: Tables, c: Byte, d: Byte, done: seq<Byte>, room: nat)
    requires IsKsc(t) && IsSyllable(c, d) && done != [] && room >= 4
    ensures Convert(EucKr, Unicode(Utf8), t, [c, d], done, room) == Result(2, done[..|done| - 1], room + 1, Finished, 0, 1)
       <==> c >= 0xc8
  {
    hide First, Convert, DecodeEucKr, NoDuplicates, SelectLoop.Count;
    var from, to, s := EucKr, Unicode(Utf8), [c, d];
    var p := First(from, to, t, s, room);
    HangulIsScalar(t, c, d);
    EucKrReads(t, c, d, []);
    FirstBack(from, to, t, s, room);
    Unfold(from, to, t, s, done, room, p);
    LosesNothing(from, to, t, s, done, room);
    assert s + [] == s;
    if p.Back? {
      FirstEnds(from, to, t, [], room + 1);
      Unfold(from, to, t, [], done[..|done| - 1], room + 1, Stop(Finished));
      assert s[2..] == [];
    } else if p.Go? {
      LosesNothing(from, to, t, s[p.length..], p.Written(done), p.Left(room));
      assert s[2..] == [];
      FirstEnds(from, to, t, [], p.Left(room));
      Unfold(from, to, t, [], p.Written(done), p.Left(room), Stop(Finished));
    }
  }
}
