/** The matcher of file names against patterns. Characters are signed numbers, and 0 ends a string. */
module Glob {

  const STAR: int := '*' as int
  const ANY: int := '?' as int
  const OPEN: int := '[' as int
  const CLOSE: int := ']' as int
  const NEGATE: int := '^' as int
  const DASH: int := '-' as int
  const ESCAPE: int := '\\' as int

  predicate NoNul(s: seq<int>) {
    0 !in s
  }

  /** What a pointer to place `i` points to. */
  function Char(s: seq<int>, i: nat): (c: int)
    requires i <= |s|
    ensures NoNul(s) ==> (c == 0 <==> i == |s|)
  {
    if i < |s| then s[i] else 0
  }

  // ---------- What a pattern means ----------

  /** The next closing bracket from `i` on; the end of the pattern when there is none. */
  ghost function Find(p: seq<int>, i: nat): (e: nat)
    requires i <= |p|
    ensures i <= e <= |p| && (forall j :: i <= j < e ==> p[j] != CLOSE) && (e < |p| ==> p[e] == CLOSE)
    decreases |p| - i
  {
    if i == |p| || p[i] == CLOSE then i else Find(p, i + 1)
  }

  ghost predicate Negated(p: seq<int>, q: nat)
    requires q < |p|
  {
    q + 1 < |p| && p[q + 1] == NEGATE
  }

  ghost function SetStart(p: seq<int>, q: nat): (b: nat)
    requires q < |p|
    ensures q < b <= |p|
  {
    if Negated(p, q) then q + 2 else q + 1
  }

  /** A closing bracket that comes first is an element of the set. */
  ghost function SetEnd(p: seq<int>, q: nat): (e: nat)
    requires q < |p|
    ensures SetStart(p, q) <= e <= |p|
  {
    var b := SetStart(p, q);
    if b < |p| then Find(p, b + 1) else |p|
  }

  /** A range holds its two ends, and what lies between them, in this order. */
  predicate InRange(low: int, high: int, c: int) {
    c == low || c == high || low < c < high
  }

  /** Elements and ranges in `p[i..e]`; a range that has no end before the bracket is open upwards. */
  ghost predicate InSet(p: seq<int>, i: nat, e: nat, c: int)
    requires i <= e <= |p|
    decreases e - i
  {
    if i == e then false
    else if i + 1 < e && p[i + 1] == DASH then
      if i + 2 == e then c >= p[i] else InRange(p[i], p[i + 2], c) || InSet(p, i + 2, e, c)
    else c == p[i] || InSet(p, i + 1, e, c)
  }

  /** Where the element of the pattern at `q` ends. */
  ghost function TokenEnd(p: seq<int>, q: nat): (r: nat)
    requires q < |p|
    ensures q < r <= |p|
  {
    if p[q] == OPEN then
      var e := SetEnd(p, q);
      if e < |p| then e + 1 else e
    else if p[q] == ESCAPE && q + 1 < |p| then q + 2 else q + 1
  }

  /** Whether the element at `q` stands for `c`. A set that is not closed stands for nothing. */
  ghost predicate Accepts(p: seq<int>, q: nat, c: int)
    requires q < |p|
  {
    if p[q] == ANY then true
    else if p[q] == OPEN then
      var e := SetEnd(p, q);
      e < |p| && InSet(p, SetStart(p, q), e, c) != Negated(p, q)
    else c == p[TokenEnd(p, q) - 1]
  }

  /** The naive matcher: a star tries every split. */
  ghost predicate Matches(p: seq<int>, q: nat, str: seq<int>, s: nat)
    requires q <= |p| && s <= |str|
    decreases |p| - q, 0
  {
    if q == |p| then s == |str|
    else if p[q] == STAR then MatchesFrom(p, q + 1, str, s)
    else s < |str| && Accepts(p, q, str[s]) && Matches(p, TokenEnd(p, q), str, s + 1)
  }

  ghost predicate MatchesFrom(p: seq<int>, q: nat, str: seq<int>, s: nat)
    requires q <= |p| && s <= |str|
    decreases |p| - q, 1
  {
    exists k :: s <= k <= |str| && Matches(p, q, str, k)
  }

  /** There is a character after each `[^`; otherwise the matcher reads past the end of the pattern. */
  ghost predicate Safe(p: seq<int>, q: nat)
    requires q <= |p|
    decreases |p| - q
  {
    q == |p| || (!(p[q] == OPEN && Negated(p, q) && q + 2 == |p|) && Safe(p, TokenEnd(p, q)))
  }

  // ---------- Sets ----------

  lemma FirstIsInSet(p: seq<int>, i: nat, e: nat)
    requires i < e <= |p|
    ensures InSet(p, i, e, p[i])
  {
  }

  /** Matches `c` against the set at `q`; `next` is the place after the set. */
  method MatchSet(p: seq<int>, q: nat, c: int) returns (ok: bool, next: nat)
    requires NoNul(p) && q < |p| && p[q] == OPEN && Safe(p, q)
    ensures ok <==> Accepts(p, q, c)
    ensures ok ==> next == TokenEnd(p, q)
  {
    ghost var b, e := SetStart(p, q), SetEnd(p, q);
    var i: nat := q + 1;
    var negate := Char(p, i) == NEGATE;
    if negate {
      i := i + 1;
    }
    var matched := false;
    while !matched
      invariant b <= i && (i == b == |p| || i < e || (matched && i <= e))
      invariant matched ==> b < i && InSet(p, b, e, c)
      invariant !matched ==> (InSet(p, b, e, c) <==> InSet(p, i, e, c))
      decreases !matched, e - i
    {
      var d := Char(p, i);
      if d == 0 {
        break;
      }
      i := i + 1;
      if i == |p| {
        return false, i;
      }
      if p[i] == DASH {
        i := i + 1;
        if i == |p| {
          return false, i;
        }
        if p[i] != CLOSE {
          matched := c == d || c == p[i] || (c > d && c < p[i]);
        } else {
          matched := c >= d;
          break;
        }
      } else {
        matched := d == c;
        if p[i] != CLOSE {
          if p[i] == c {
            FirstIsInSet(p, i, e);
            matched := true;
          }
        } else {
          break;
        }
      }
    }
    if negate == matched {
      return false, i;
    }
    while Char(p, i) != 0 && Char(p, i) != CLOSE
      invariant b < i <= e
      decreases |p| - i
    {
      i := i + 1;
    }
    if i == |p| {
      return false, i;
    }
    return true, i + 1;
  }

  // ---------- Stars ----------

  lemma Split(p: seq<int>, q: nat, str: seq<int>, s: nat) returns (k: nat)
    requires q <= |p| && s <= |str| && MatchesFrom(p, q, str, s)
    ensures s <= k <= |str| && Matches(p, q, str, k)
  {
    k :| s <= k <= |str| && Matches(p, q, str, k);
  }

  /** Stars in a row are one star. */
  lemma StarsCollapse(p: seq<int>, q: nat, str: seq<int>, s: nat)
    requires q < |p| && p[q] == STAR && s <= |str|
    ensures MatchesFrom(p, q, str, s) == MatchesFrom(p, q + 1, str, s)
  {
    if MatchesFrom(p, q, str, s) {
      var k := Split(p, q, str, s);
      var j := Split(p, q + 1, str, k);
    }
    if MatchesFrom(p, q + 1, str, s) {
      assert Matches(p, q, str, s);
    }
  }

  /** A split at which the next element does not match need not be tried. */
  lemma SkipSplit(p: seq<int>, q: nat, str: seq<int>, s: nat)
    requires q <= |p| && s < |str| && !Matches(p, q, str, s)
    ensures MatchesFrom(p, q, str, s) == MatchesFrom(p, q, str, s + 1)
  {
  }

  lemma LastSplit(p: seq<int>, q: nat, str: seq<int>)
    requires q < |p| && p[q] != STAR
    ensures !MatchesFrom(p, q, str, |str|)
  {
  }

  /** The part of the matcher that follows a star. */
  method MatchStar(str: seq<int>, s0: nat, p: seq<int>, q0: nat) returns (r: bool)
    requires NoNul(str) && NoNul(p) && s0 <= |str| && q0 <= |p| && Safe(p, q0)
    ensures r <==> MatchesFrom(p, q0, str, s0)
    decreases |p| - q0, 1
  {
    var s, q := s0, q0;
    while Char(p, q) == STAR
      invariant q0 <= q <= |p| && Safe(p, q)
      invariant MatchesFrom(p, q0, str, s0) == MatchesFrom(p, q, str, s)
      decreases |p| - q
    {
      StarsCollapse(p, q, str, s);
      q := q + 1;
    }
    if Char(p, q) == 0 {
      assert Matches(p, q, str, |str|);
      return true;
    }
    if p[q] != ANY && p[q] != OPEN && p[q] != ESCAPE {
      while Char(str, s) != 0 && p[q] != str[s]
        invariant s0 <= s <= |str|
        invariant MatchesFrom(p, q0, str, s0) == MatchesFrom(p, q, str, s)
        decreases |str| - s
      {
        SkipSplit(p, q, str, s);
        s := s + 1;
      }
    }
    while Char(str, s) != 0
      invariant s0 <= s <= |str|
      invariant MatchesFrom(p, q0, str, s0) == MatchesFrom(p, q, str, s)
      decreases |str| - s
    {
      var rest := StrGlob(str, s, p, q);
      if rest {
        return true;
      }
      SkipSplit(p, q, str, s);
      s := s + 1;
    }
    LastSplit(p, q, str);
    return false;
  }

  /** The matcher. It accepts exactly what the naive one does. */
  method StrGlob(str: seq<int>, s0: nat, p: seq<int>, p0: nat) returns (r: bool)
    requires NoNul(str) && NoNul(p) && s0 <= |str| && p0 <= |p| && Safe(p, p0)
    ensures r <==> Matches(p, p0, str, s0)
    decreases |p| - p0, 0
  {
    var s, q := s0, p0;
    while Char(p, q) != 0
      invariant p0 <= q <= |p| && s0 <= s <= |str| && Safe(p, q)
      invariant Matches(p, p0, str, s0) == Matches(p, q, str, s)
      decreases |p| - q
    {
      if Char(str, s) == 0 && p[q] != STAR {
        return false;
      }
      var c := p[q];
      if c == STAR {
        r := MatchStar(str, s, p, q + 1);
        return r;
      } else if c == OPEN {
        var ok, next := MatchSet(p, q, str[s]);
        if !ok {
          return false;
        }
        q := next;
      } else if c == ANY {
        q := q + 1;
      } else {
        q := q + 1;
        if c == ESCAPE && Char(p, q) != 0 {
          c := p[q];
          q := q + 1;
        }
        if c != str[s] {
          return false;
        }
      }
      s := s + 1;
    }
    return Char(str, s) == 0;
  }

  // ---------- Patterns for what one wants ----------

  /** Every character of a text, taken literally. */
  ghost function Escaped(text: seq<int>): (p: seq<int>)
    ensures |p| == 2 * |text|
  {
    if text == [] then [] else [ESCAPE, text[0]] + Escaped(text[1..])
  }

  /** An escaped text, at the end of a pattern, matches that text only, whatever characters it has. */
  lemma {:induction false} EscapedMatchesItself(p: seq<int>, q: nat, text: seq<int>, str: seq<int>, s: nat)
    requires q <= |p| && s <= |str| && p[q..] == Escaped(text)
    ensures Matches(p, q, str, s) <==> str[s..] == text
    ensures Safe(p, q)
    decreases |text|
  {
    if text == [] {
      assert q == |p|;
    } else {
      assert p[q] == p[q..][0] && p[q + 1] == p[q..][1];
      assert p[q + 2..] == p[q..][2..] == Escaped(text[1..]);
      if s < |str| {
        EscapedMatchesItself(p, q + 2, text[1..], str, s + 1);
        assert str[s..] == [str[s]] + str[s + 1..] && text == [text[0]] + text[1..];
      } else {
        EscapedMatchesItself(p, q + 2, text[1..], str, s);
      }
    }
  }

  /** A star and an escaped text match what ends in the text. */
  lemma StarMatchesEnding(text: seq<int>, str: seq<int>)
    ensures Matches([STAR] + Escaped(text), 0, str, 0) <==> |text| <= |str| && str[|str| - |text|..] == text
  {
    hide Escaped;
    var p := [STAR] + Escaped(text);
    assert p[1..] == Escaped(text);
    EscapedEnding(p, 1, text, str);
  }

  lemma EscapedEnding(p: seq<int>, q: nat, text: seq<int>, str: seq<int>)
    requires q <= |p| && p[q..] == Escaped(text)
    ensures MatchesFrom(p, q, str, 0) <==> |text| <= |str| && str[|str| - |text|..] == text
  {
    hide Escaped, Matches;
    if MatchesFrom(p, q, str, 0) {
      var k := Split(p, q, str, 0);
      EscapedMatchesItself(p, q, text, str, k);
    }
    if |text| <= |str| && str[|str| - |text|..] == text {
      EscapedMatchesItself(p, q, text, str, |str| - |text|);
    }
  }

  /** A set of single characters, or of all others. */
  lemma SetOfCharacters(elements: seq<int>, negate: bool, c: int)
    requires elements != [] && CLOSE !in elements && DASH !in elements && (negate || elements[0] != NEGATE)
    ensures Accepts([OPEN] + (if negate then [NEGATE] else []) + elements + [CLOSE], 0, c) <==> (c in elements) != negate
  {
    var b := if negate then 2 else 1;
    var p := [OPEN] + (if negate then [NEGATE] else []) + elements + [CLOSE];
    var e := b + |elements|;
    assert p[b..e] == elements && p[e] == CLOSE;
    assert forall i :: b <= i < e ==> p[i] == elements[i - b];
    assert SetStart(p, 0) == b;
    FindIs(p, b + 1, e);
    CharactersInSet(p, b, e, c);
  }

  lemma {:induction false} FindIs(p: seq<int>, i: nat, e: nat)
    requires i <= e < |p| && p[e] == CLOSE && forall j :: i <= j < e ==> p[j] != CLOSE
    ensures Find(p, i) == e
    decreases e - i
  {
    if i < e {
      FindIs(p, i + 1, e);
    }
  }

  lemma {:induction false} CharactersInSet(p: seq<int>, i: nat, e: nat, c: int)
    requires i <= e <= |p| && forall j :: i <= j < e ==> p[j] != DASH
    ensures InSet(p, i, e, c) <==> c in p[i..e]
    decreases e - i
  {
    if i < e {
      CharactersInSet(p, i + 1, e, c);
      assert p[i..e] == [p[i]] + p[i + 1..e];
    }
  }

  /** A range that has an end, and one that does not. */
  lemma SetOfRange(low: int, high: int, c: int)
    requires low != NEGATE && high != CLOSE
    ensures Accepts([OPEN, low, DASH, high, CLOSE], 0, c) <==> c == low || c == high || low <= c <= high
    ensures Accepts([OPEN, low, DASH, CLOSE], 0, c) <==> c >= low
  {
    var p := [OPEN, low, DASH, high, CLOSE];
    FindIs(p, 2, 4);
    assert InSet(p, 3, 4, c) <==> c == high;
    FindIs([OPEN, low, DASH, CLOSE], 2, 3);
  }
}
