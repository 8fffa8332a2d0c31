/** What patterns are for: the texts that each kind of pattern matches, said without the matcher. */
module Patterns {
  import opened Glob

  // ---------- Question marks and plain text ----------

  /** A question mark stands for any one character, so `n` of them match exactly what has `n` characters. */
  lemma {:induction false} QuestionMarks(p: seq<int>, q: nat, str: seq<int>, s: nat)
    requires q <= |p| && s <= |str| && forall i :: q <= i < |p| ==> p[i] == '?' as int
    ensures Matches(p, q, str, s) <==> |str| - s == |p| - q
    decreases |p| - q
  {
    if q < |p| && s < |str| {
      QuestionMarks(p, q + 1, str, s + 1);
    }
  }

  /** Has a meaning of its own in a pattern. */
  predicate IsSpecial(c: int) {
    c == '*' as int || c == '?' as int || c == '[' as int || c == '\\' as int
  }

  /** A text without such characters matches itself and nothing else. */
  lemma {:induction false} PlainMatchesItself(text: seq<int>, q: nat, str: seq<int>, s: nat)
    requires q <= |text| && s <= |str| && forall i :: 0 <= i < |text| ==> !IsSpecial(text[i])
    ensures Matches(text, q, str, s) <==> str[s..] == text[q..]
    decreases |text| - q
  {
    if q < |text| {
      assert text[q..] == [text[q]] + text[q + 1..];
      if s < |str| {
        PlainMatchesItself(text, q + 1, str, s + 1);
        assert str[s..] == [str[s]] + str[s + 1..];
      }
    }
  }

  /** A backslash that nothing follows stands for itself. */
  lemma LoneBackslash(str: seq<int>)
    ensures Matches(['\\' as int], 0, str, 0) <==> str == ['\\' as int]
  {
    if str != [] {
      assert Matches(['\\' as int], 1, str, 1) <==> |str| == 1;
    }
  }

  // ---------- What starts so and ends so ----------

  ghost predicate HasEscaped(p: seq<int>, q: nat, text: seq<int>) {
    q + 2 * |text| <= |p| && p[q..q + 2 * |text|] == Escaped(text)
  }

  ghost predicate EndsEscaped(p: seq<int>, q: nat, text: seq<int>) {
    q <= |p| && p[q..] == Escaped(text)
  }

  /** An escaped text in front of the rest of a pattern. */
  lemma {:induction false} EscapedFirst(p: seq<int>, q: nat, text: seq<int>, str: seq<int>, s: nat)
    requires HasEscaped(p, q, text) && s <= |str|
    ensures Matches(p, q, str, s)
       <==> s + |text| <= |str| && str[s..s + |text|] == text && Matches(p, q + 2 * |text|, str, s + |text|)
    decreases |text|
  {
    if text != [] {
      var e := p[q..q + 2 * |text|];
      assert p[q] == e[0] && p[q + 1] == e[1];
      assert p[q + 2..q + 2 + 2 * |text[1..]|] == e[2..] == Escaped(text[1..]);
      if s < |str| {
        EscapedFirst(p, q + 2, text[1..], str, s + 1);
        assert text == [text[0]] + text[1..];
        if s + |text| <= |str| {
          assert str[s..s + |text|] == [str[s]] + str[s + 1..s + |text|];
        }
      }
    }
  }

  /** Two escaped texts around a star match exactly what is long enough, starts with the first, and ends with the second. */
  lemma StartsAndEnds(a: seq<int>, b: seq<int>, str: seq<int>)
    ensures Matches(Escaped(a) + ['*' as int] + Escaped(b), 0, str, 0)
       <==> |a| + |b| <= |str| && str[..|a|] == a && str[|str| - |b|..] == b
  {
    hide Escaped, Matches;
    Around(Escaped(a), '*' as int, Escaped(b));
    StartsAndEndsIn(Escaped(a) + ['*' as int] + Escaped(b), a, b, str);
  }

  lemma StartsAndEndsIn(p: seq<int>, a: seq<int>, b: seq<int>, str: seq<int>)
    requires 2 * |a| < |p| && HasEscaped(p, 0, a) && p[2 * |a|] == '*' as int && EndsEscaped(p, 2 * |a| + 1, b)
    ensures Matches(p, 0, str, 0) <==> |a| + |b| <= |str| && str[..|a|] == a && str[|str| - |b|..] == b
  {
    hide *;
    var n := |a|;
    EscapedFirst(p, 0, a, str, 0);
    if n <= |str| {
      assert str[0..0 + n] == str[..n];
      StarThen(p, 2 * n, b, str, n);
    }
  }

  lemma Around(x: seq<int>, c: int, y: seq<int>)
    ensures var p := x + [c] + y;
            p[0..|x|] == x && p[|x|] == c && p[|x| + 1..] == y
  {
  }

  lemma StarThen(p: seq<int>, q: nat, text: seq<int>, str: seq<int>, s: nat)
    requires q < |p| && p[q] == '*' as int && EndsEscaped(p, q + 1, text) && s <= |str|
    ensures Matches(p, q, str, s) <==> s + |text| <= |str| && str[|str| - |text|..] == text
  {
    hide Escaped;
    if MatchesFrom(p, q + 1, str, s) {
      var k := Split(p, q + 1, str, s);
      EscapedMatchesItself(p, q + 1, text, str, k);
    }
    if s + |text| <= |str| && str[|str| - |text|..] == text {
      EscapedMatchesItself(p, q + 1, text, str, |str| - |text|);
    }
  }

  // ---------- Sets ----------

  datatype Element = One(c: int) | Range(low: int, high: int) {

    ghost predicate Covers(x: int) {
      match this
      case One(c) => x == c
      case Range(low, high) => x == low || x == high || low <= x <= high
    }

    ghost function Spelled(): (r: seq<int>) {
      match this
      case One(c) => [c]
      case Range(low, high) => [low, '-' as int, high]
    }
  }

  ghost function SpelledAll(elements: seq<Element>): (r: seq<int>)
    ensures elements != [] <==> r != []
  {
    if elements == [] then [] else elements[0].Spelled() + SpelledAll(elements[1..])
  }

  /** No element but the first begins with a dash or a closing bracket, and no range ends with a closing bracket. */
  ghost predicate Clear(elements: seq<Element>) {
    && (forall i :: 0 < i < |elements| ==> elements[i].Spelled()[0] != '-' as int && elements[i].Spelled()[0] != ']' as int)
    && (forall i :: 0 <= i < |elements| && elements[i].Range? ==> elements[i].high != ']' as int)
  }

  lemma {:induction false} SpelledIsOpen(elements: seq<Element>)
    requires Clear(elements)
    ensures forall j :: 0 < j < |SpelledAll(elements)| ==> SpelledAll(elements)[j] != ']' as int
    ensures elements != [] ==> SpelledAll(elements)[0] == elements[0].Spelled()[0]
  {
    if elements != [] {
      SpelledIsOpen(elements[1..]);
      var first, rest := elements[0].Spelled(), SpelledAll(elements[1..]);
      forall j | 0 < j < |first + rest|
        ensures (first + rest)[j] != ']' as int
      {
        if j >= |first| {
          assert (first + rest)[j] == rest[j - |first|] && elements[1..][0] == elements[1];
        }
      }
    }
  }

  ghost predicate Covered(elements: seq<Element>, x: int) {
    exists k :: 0 <= k < |elements| && elements[k].Covers(x)
  }

  lemma CoveredByFirst(elements: seq<Element>, x: int)
    requires elements != []
    ensures Covered(elements, x) <==> elements[0].Covers(x) || Covered(elements[1..], x)
  {
    var rest := elements[1..];
    if k :| 0 <= k < |rest| && rest[k].Covers(x) {
      assert elements[k + 1] == rest[k];
    }
    if k :| 0 < k < |elements| && elements[k].Covers(x) {
      assert elements[k] == rest[k - 1];
    }
  }

  /** The scan takes one element, when no dash comes behind it. */
  lemma ScansOne(p: seq<int>, i: nat, e: nat, first: Element, x: int)
    requires i + |first.Spelled()| <= e <= |p| && p[i..i + |first.Spelled()|] == first.Spelled()
    requires i + |first.Spelled()| < e ==> p[i + |first.Spelled()|] != '-' as int
    ensures InSet(p, i, e, x) <==> first.Covers(x) || InSet(p, i + |first.Spelled()|, e, x)
  {
    var n := |first.Spelled()|;
    assert p[i] == p[i..i + n][0];
    if first.Range? {
      assert p[i + 1] == p[i..i + n][1] && p[i + 2] == p[i..i + n][2];
    }
  }

  /** And so on. */
  lemma {:induction false} ScansElements(p: seq<int>, i: nat, e: nat, elements: seq<Element>, x: int)
    requires i <= e <= |p| && p[i..e] == SpelledAll(elements) && Clear(elements)
    ensures InSet(p, i, e, x) <==> Covered(elements, x)
    decreases |elements|
  {
    hide InSet, Covered;
    if elements == [] {
      NothingCovered(p, i, x);
    } else {
      var first, rest := elements[0], elements[1..];
      var n := |first.Spelled()|;
      Parts(p, i, e, first.Spelled(), SpelledAll(rest));
      SpelledIsOpen(rest);
      assert rest != [] ==> rest[0] == elements[1];
      ScansElements(p, i + n, e, rest, x);
      ScansOne(p, i, e, first, x);
      CoveredByFirst(elements, x);
    }
  }

  lemma NothingCovered(p: seq<int>, i: nat, x: int)
    requires i <= |p|
    ensures !InSet(p, i, i, x) && !Covered([], x)
  {
  }

  lemma Parts(p: seq<int>, i: nat, e: nat, a: seq<int>, b: seq<int>)
    requires i <= e <= |p| && p[i..e] == a + b
    ensures i + |a| <= e && p[i..i + |a|] == a && p[i + |a|..e] == b && (b != [] ==> p[i + |a|] == b[0])
  {
    var s := p[i..e];
    assert p[i..i + |a|] == s[..|a|] && p[i + |a|..e] == s[|a|..];
    assert b != [] ==> p[i + |a|] == s[|a|];
  }

  /** A set of characters and ranges, in any order and number, stands for what one of them covers, or for all the rest. */
  lemma SetOfElements(elements: seq<Element>, negate: bool, x: int)
    requires elements != [] && Clear(elements) && (negate || elements[0].Spelled()[0] != '^' as int)
    ensures var p := ['[' as int] + (if negate then ['^' as int] else []) + SpelledAll(elements) + [']' as int];
            Accepts(p, 0, x) <==> Covered(elements, x) != negate
  {
    var b, spelled := if negate then 2 else 1, SpelledAll(elements);
    var p := ['[' as int] + (if negate then ['^' as int] else []) + spelled + [']' as int];
    var e := b + |spelled|;
    hide SpelledAll, InSet, Find;
    SpelledIsOpen(elements);
    Inside(if negate then ['[' as int, '^' as int] else ['[' as int], spelled, ']' as int);
    assert p == (if negate then ['[' as int, '^' as int] else ['[' as int]) + spelled + [']' as int];
    assert SetStart(p, 0) == b;
    FindIs(p, b + 1, e);
    ScansElements(p, b, e, elements, x);
  }

  lemma Inside(x: seq<int>, y: seq<int>, c: int)
    ensures var p := x + y + [c];
            && p[|x|..|x| + |y|] == y && p[|x| + |y|] == c
            && (forall i :: 0 <= i < |x| ==> p[i] == x[i])
            && (forall i :: |x| <= i < |x| + |y| ==> p[i] == y[i - |x|])
  {
  }

  /** A set that is not closed stands for nothing, a closing bracket in the first place notwithstanding. */
  lemma UnclosedSet(rest: seq<int>, x: int)
    requires rest != [] && rest[0] != '^' as int && ']' as int !in rest[1..]
    ensures !Accepts(['[' as int] + rest, 0, x)
  {
    var p := ['[' as int] + rest;
    forall i | 2 <= i < |p|
      ensures p[i] != ']' as int
    {
      assert p[i] == rest[1..][i - 2];
    }
  }
}
