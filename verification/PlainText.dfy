/** What conversions do with text whose reading nobody doubts: seven-bit text in any set, and 16-bit units. */
module PlainText {
  import opened Bytes
  import opened UnicodeForms
  import opened CharSets
  import opened Iconv
  import opened EncodedBytes

  // ---------- Character by character ----------

  /** The characters of `s` are those of `text`. */
  ghost predicate ReadsAs(from: Charset, t: Tables, s: seq<Byte>, text: seq<nat>)
    requires ValidTables(t) && ValidCharset(from, t)
    decreases |s|
  {
    if s == [] then text == []
    else
      var d := DecodeChar(from, t, s);
      text != [] && d.Char? && d.c == text[0] && ReadsAs(from, t, s[d.length..], text[1..])
  }

  ghost predicate CanWrite(to: Charset, text: seq<nat>) {
    to == Unicode(Utf8) ==> AllScalars(text)
  }

  ghost predicate AllSmall(text: seq<nat>) {
    forall i :: 0 <= i < |text| ==> text[i] < 0x210000
  }

  /** The bytes for a text, character by character. */
  ghost function Output(from: Charset, to: Charset, t: Tables, text: seq<nat>): (r: seq<Byte>)
    requires Valid(from, to, t) && AllSmall(text)
  {
    if text == [] then [] else Encoded(to, from, t, text[0]).0 + Output(from, to, t, text[1..])
  }

  /** How many of them are substitutes. */
  ghost function Substitutes(from: Charset, to: Charset, t: Tables, text: seq<nat>): nat
    requires Valid(from, to, t) && AllSmall(text)
  {
    if text == [] then 0 else (if Encoded(to, from, t, text[0]).1 then 1 else 0) + Substitutes(from, to, t, text[1..])
  }

  lemma {:induction false} ReadIsSmall(from: Charset, t: Tables, s: seq<Byte>, text: seq<nat>)
    requires ValidTables(t) && ValidCharset(from, t) && ReadsAs(from, t, s, text)
    ensures AllSmall(text)
    decreases |s|
  {
    hide DecodeChar, ValidTables, ValidCharset;
    if s != [] {
      DecodedIsBounded(from, t, s);
      ReadIsSmall(from, t, s[DecodeChar(from, t, s).length..], text[1..]);
      forall i | 0 <= i < |text|
        ensures text[i] < 0x210000
      {
        assert i > 0 ==> text[i] == text[1..][i - 1];
      }
    }
  }

  lemma FirstWrites(from: Charset, to: Charset, t: Tables, s: seq<Byte>, room: nat)
    requires Valid(from, to, t) && s != [] && DecodeChar(from, t, s).Char?
    requires to == Unicode(Utf8) ==> IsScalar(DecodeChar(from, t, s).c)
    ensures DecodeChar(from, t, s).c < 0x210000
    ensures var d := DecodeChar(from, t, s);
            var e := Encoded(to, from, t, d.c);
            e.0 != [] && (|e.0| <= room ==> First(from, to, t, s, room) == Go(d.length, e.0, e.1))
  {
    hide DecodeChar, ValidTables;
    DecodedIsBounded(from, t, s);
  }

  lemma Heads(from: Charset, to: Charset, t: Tables, s: seq<Byte>, text: seq<nat>)
    requires Valid(from, to, t) && ReadsAs(from, t, s, text) && AllSmall(text)
    ensures s == [] <==> text == []
    ensures s == [] ==> Output(from, to, t, text) == [] && Substitutes(from, to, t, text) == 0
    ensures s != [] ==>
              var d, e := DecodeChar(from, t, s), Encoded(to, from, t, text[0]);
              && d.Char? && d.c == text[0] && ReadsAs(from, t, s[d.length..], text[1..])
              && Output(from, to, t, text) == e.0 + Output(from, to, t, text[1..])
              && Substitutes(from, to, t, text) == (if e.1 then 1 else 0) + Substitutes(from, to, t, text[1..])
  {
    hide DecodeChar, Encoded, ValidTables, ValidCharset, IsTarget;
  }

  /** From any set, what is read character by character is written character by character. */
  lemma {:induction false} ConvertsText(from: Charset, to: Charset, t: Tables, s: seq<Byte>, text: seq<nat>, done: seq<Byte>, room: nat)
    requires Valid(from, to, t) && ReadsAs(from, t, s, text) && CanWrite(to, text)
    ensures AllSmall(text)
    ensures room >= |Output(from, to, t, text)| ==>
              Convert(from, to, t, s, done, room)
              == Result(|s|, done + Output(from, to, t, text), room - |Output(from, to, t, text)|, Finished,
                        Substitutes(from, to, t, text), 0)
    decreases |s|
  {
    hide First, Convert, DecodeChar, Encoded, Output, Substitutes, ReadsAs, ValidTables, ValidCharset, IsTarget;
    ReadIsSmall(from, t, s, text);
    Heads(from, to, t, s, text);
    if s == [] {
      FirstEnds(from, to, t, s, room);
      Unfold(from, to, t, s, done, room, Stop(Finished));
      assert done + [] == done;
    } else {
      var n := DecodeChar(from, t, s).length;
      var (bytes, substituted) := Encoded(to, from, t, text[0]);
      var rest := Output(from, to, t, text[1..]);
      FirstWrites(from, to, t, s, room);
      if room >= |bytes + rest| {
        Unfold(from, to, t, s, done, room, Go(n, bytes, substituted));
        ConvertsText(from, to, t, s[n..], text[1..], done + bytes, room - |bytes|);
        Associative(done, bytes, rest);
      }
    }
  }

  // ---------- To Unicode and to ASCII ----------

  /** UCS-2 has no character from 0x10000 on. */
  ghost predicate InUnits(from: Charset, text: seq<nat>) {
    from.Ucs2? ==> forall i :: 0 <= i < |text| ==> text[i] < 0x10000
  }

  lemma {:induction false} ReadIsInUnits(from: Charset, t: Tables, s: seq<Byte>, text: seq<nat>)
    requires ValidTables(t) && ValidCharset(from, t) && ReadsAs(from, t, s, text)
    ensures InUnits(from, text)
    decreases |s|
  {
    hide ValidTables;
    if s != [] && from.Ucs2? {
      Unit16Back(s, from.order);
      ReadIsInUnits(from, t, s[DecodeChar(from, t, s).length..], text[1..]);
      forall i | 0 <= i < |text|
        ensures text[i] < 0x10000
      {
        assert i > 0 ==> text[i] == text[1..][i - 1];
      }
    }
  }

  lemma {:induction false} UnicodeOutput(from: Charset, form: Form, t: Tables, text: seq<nat>)
    requires Valid(from, Unicode(form), t) && AllScalars(text) && AllSmall(text) && InUnits(from, text)
    ensures Output(from, Unicode(form), t, text) == EncodeAll(form, text) && Substitutes(from, Unicode(form), t, text) == 0
  {
    hide ValidTables, Put16, Put32, PutSurrogates, Wcrtomb;
    if text != [] {
      UnicodeOutput(from, form, t, text[1..]);
    }
  }

  /** A text is what its encoding is read as. */
  lemma {:induction false} EncodedReads(form: Form, t: Tables, text: seq<nat>)
    requires ValidTables(t) && ValidForm(form) && AllScalars(text)
    ensures ReadsAs(Unicode(form), t, EncodeAll(form, text), text)
    decreases |text|
  {
    hide Decode, Encode, DecodeChar, ValidTables;
    if text != [] {
      var rest := EncodeAll(form, text[1..]);
      EncodedReads(form, t, text[1..]);
      DecodeEncoded(form, text[0], rest);
      DecodeCharIsDecode(form, t, Encode(form, text[0]) + rest);
      SliceAfter(Encode(form, text[0]), rest);
    }
  }

  /** From any set: a text is the same text in every Unicode form. */
  lemma ConvertsToUnicode(from: Charset, form: Form, t: Tables, s: seq<Byte>, text: seq<nat>, done: seq<Byte>, room: nat)
    requires Valid(from, Unicode(form), t) && ReadsAs(from, t, s, text) && AllScalars(text) && room >= |EncodeAll(form, text)|
    ensures Convert(from, Unicode(form), t, s, done, room)
         == Result(|s|, done + EncodeAll(form, text), room - |EncodeAll(form, text)|, Finished, 0, 0)
  {
    hide ReadsAs, Convert, Output, Substitutes;
    ReadIsSmall(from, t, s, text);
    ReadIsInUnits(from, t, s, text);
    UnicodeOutput(from, form, t, text);
    ConvertsText(from, Unicode(form), t, s, text, done, room);
  }

  /** What ASCII has of a text: an asterisk for each other character. */
  ghost function Narrowed(text: seq<nat>): (r: seq<Byte>)
    ensures |r| == |text| && forall i :: 0 <= i < |text| ==> r[i] == if text[i] < 128 then text[i] else '*' as int
  {
    seq(|text|, i requires 0 <= i < |text| => if text[i] < 128 then text[i] else '*' as int)
  }

  ghost function Others(text: seq<nat>): nat {
    if text == [] then 0 else (if text[0] < 128 then 0 else 1) + Others(text[1..])
  }

  lemma {:induction false} AsciiOutput(from: Charset, t: Tables, text: seq<nat>)
    requires Valid(from, UsAscii, t) && AllSmall(text)
    ensures Output(from, UsAscii, t, text) == Narrowed(text) && Substitutes(from, UsAscii, t, text) == Others(text)
  {
    hide ValidTables, ValidCharset;
    if text != [] {
      AsciiOutput(from, t, text[1..]);
    }
  }

  /** From any set: ASCII has a byte for each character, and the asterisks are counted. */
  lemma ConvertsToAscii(from: Charset, t: Tables, s: seq<Byte>, text: seq<nat>, done: seq<Byte>, room: nat)
    requires Valid(from, UsAscii, t) && ReadsAs(from, t, s, text) && room >= |text|
    ensures Convert(from, UsAscii, t, s, done, room) == Result(|s|, done + Narrowed(text), room - |text|, Finished, Others(text), 0)
  {
    hide ReadsAs, Convert, Output, Substitutes;
    ReadIsSmall(from, t, s, text);
    AsciiOutput(from, t, text);
    ConvertsText(from, UsAscii, t, s, text, done, room);
  }

  // ---------- Seven bits ----------

  /** UTF-8, ASCII, EUC-KR, the GB sets and the code pages: a byte below 128 is a character by itself. */
  ghost predicate IsNarrow(cs: Charset) {
    cs == Unicode(Utf8) || cs == UsAscii || cs == EucKr || cs.Gb? || cs.Codepage?
  }

  ghost predicate SevenBit(s: seq<Byte>) {
    forall i :: 0 <= i < |s| ==> s[i] < 128
  }

  lemma {:induction false} SevenBitReads(from: Charset, t: Tables, s: seq<Byte>)
    requires ValidTables(t) && ValidCharset(from, t) && IsNarrow(from) && SevenBit(s)
    ensures ReadsAs(from, t, s, s) && AllScalars(s) && AllSmall(s)
    decreases |s|
  {
    hide ValidTables, ValidCharset;
    if s != [] {
      SevenBitReads(from, t, s[1..]);
    }
  }

  lemma {:induction false} SevenBitOutput(from: Charset, to: Charset, t: Tables, s: seq<Byte>)
    requires Valid(from, to, t) && (to == Unicode(Utf8) || to == UsAscii || to.Codepage?) && SevenBit(s) && AllSmall(s)
    ensures Output(from, to, t, s) == s && Substitutes(from, to, t, s) == 0
  {
    hide ValidTables, ValidCharset;
    if s != [] {
      SevenBitOutput(from, to, t, s[1..]);
      assert Encoded(to, from, t, s[0]) == ([s[0]], false);
      assert [s[0]] + s[1..] == s;
    }
  }

  /** Seven-bit text stays as it is between any two of those sets that can be written. */
  lemma KeepsSevenBit(from: Charset, to: Charset, t: Tables, s: seq<Byte>, done: seq<Byte>, room: nat)
    requires Valid(from, to, t) && IsNarrow(from) && (to == Unicode(Utf8) || to == UsAscii || to.Codepage?)
    requires SevenBit(s) && room >= |s|
    ensures Convert(from, to, t, s, done, room) == Result(|s|, done + s, room - |s|, Finished, 0, 0)
  {
    hide ReadsAs, Convert, Output, Substitutes;
    SevenBitReads(from, t, s);
    SevenBitOutput(from, to, t, s);
    ConvertsText(from, to, t, s, s, done, room);
  }

  // ---------- ASCII and code pages ----------

  /** ASCII has the seven-bit bytes and nothing else. */
  lemma AsciiReads(t: Tables, s: seq<Byte>)
    requires ValidTables(t) && s != []
    ensures DecodeChar(UsAscii, t, s) == if s[0] < 128 then Char(s[0], 1) else IllegalSequence
  {
  }

  ghost predicate IsFirstPlace(entries: seq<Byte>, t: Tables, c: nat, i: nat)
    requires forall k :: 0 <= k <= i ==> Mapped(entries, k) < |t.legacy|
  {
    t.legacy[Mapped(entries, i)] == c && forall k :: 0 <= k < i ==> t.legacy[Mapped(entries, k)] != c
  }

  /** A code page has the bytes that it elides as they are. */
  lemma CodepageReads(elided: nat, entries: seq<Byte>, t: Tables, b: Byte)
    requires ValidTables(t) && ValidCharset(Codepage(elided, entries), t) && b < 128 + elided
    ensures DecodeChar(Codepage(elided, entries), t, [b]) == Char(b, 1)
  {
  }

  /**
   * A code page writes the characters below the ones it elides as they are, each other one at the first place that has it,
   * and an asterisk for what has no place.
   */
  lemma CodepageWrites(elided: nat, entries: seq<Byte>, from: Charset, t: Tables, c: nat)
    requires ValidCharset(Codepage(elided, entries), t) && c < 0x210000
    ensures var n, r := 128 - elided, Encoded(Codepage(elided, entries), from, t, c);
            && (c < 128 + elided ==> r == ([c], false))
            && (forall i :: 0 <= i < n && IsFirstPlace(entries, t, c, i) ==> (c >= 128 + elided ==> r == ([128 + i], false)))
            && (c >= 128 + elided && (forall i :: 0 <= i < n ==> t.legacy[Mapped(entries, i)] != c) ==> r == (['*' as int], true))
  {
  }

  // ---------- Why a conversion ends ----------

  /** The beginning of a character, to be completed by more input. */
  ghost predicate IsBegun(form: Form, s: seq<Byte>)
    requires ValidForm(form)
  {
    match form
    case Utf8 => exists c :: IsScalar(c) && s <= Encode(Utf8, c) && s != Encode(Utf8, c)
    case Utf16(e) => |s| < 2 || (|s| < 4 && 0xd8 <= s[if e == BIG_ENDIAN then 0 else 1] <= 0xdb)
    case _ => |s| < 4
  }

  lemma BegunStarves(form: Form, s: seq<Byte>)
    requires ValidForm(form) && s != []
    ensures IsBegun(form, s) <==> Decode(form, s) == Starved
  {
    if form == Utf8 {
      hide Wcrtomb;
      Utf8Starves(s);
      assert forall c | IsScalar(c) :: Encode(Utf8, c) == Wcrtomb(c);
    } else {
      OthersStarve(form, s);
    }
  }

  ghost predicate StartsWith(form: Form, s: seq<Byte>, c: nat)
    requires ValidForm(form)
  {
    IsScalar(c) && Encode(form, c) <= s
  }

  lemma FirstStops(from: Form, to: Form, t: Tables, s: seq<Byte>, room: nat)
    requires Valid(Unicode(from), Unicode(to), t) && s != []
    ensures var p, d := First(Unicode(from), Unicode(to), t, s, room), Decode(from, s);
            && (p == Stop(Incomplete) <==> d == Starved) && (p == Stop(Illegal) <==> d == IllegalSequence)
            && (p == Stop(Full) <==> d.Char? && IsScalar(d.c) && |Encode(to, d.c)| > room)
  {
    hide Decode, Encode;
    DecodeCharIsDecode(from, t, s);
    if Decode(from, s).Char? {
      EncodeDecoded(from, s);
      EncodedIsEncode(from, to, t, Decode(from, s).c);
    }
  }

  lemma EncodedIsEncode(from: Form, to: Form, t: Tables, c: nat)
    requires Valid(Unicode(from), Unicode(to), t) && IsScalar(c)
    ensures Encoded(Unicode(to), Unicode(from), t, c) == (Encode(to, c), false)
  {
  }

  /**
   * A conversion between Unicode forms ends at the end of the input, for lack of room before a character, for lack of input
   * inside one, and at what starts no character.
   */
  lemma EndsOfTexts(from: Form, to: Form, t: Tables, s: seq<Byte>, done: seq<Byte>, room: nat)
    requires Valid(Unicode(from), Unicode(to), t)
    ensures var r := Convert(Unicode(from), Unicode(to), t, s, done, room);
            var rest := s[r.consumed..];
            && (r.end == Finished <==> rest == [])
            && (r.end == Full <==> exists c :: StartsWith(from, rest, c) && |Encode(to, c)| > r.room)
            && (r.end == Incomplete <==> rest != [] && IsBegun(from, rest))
            && (r.end == Illegal <==> rest != [] && !IsBegun(from, rest) && forall c :: !StartsWith(from, rest, c))
  {
    hide First, Convert, Decode, Encode, IsBegun, ValidTables;
    var r := Convert(Unicode(from), Unicode(to), t, s, done, room);
    var rest := s[r.consumed..];
    EndIsReason(Unicode(from), Unicode(to), t, s, done, room);
    FirstEnds(Unicode(from), Unicode(to), t, rest, r.room);
    if rest == [] {
      forall c | IsScalar(c)
        ensures !StartsWith(from, rest, c)
      {
      }
    } else {
      FirstOfUnicode(from, to, t, rest, r.room);
      FirstStops(from, to, t, rest, r.room);
      BegunStarves(from, rest);
      if Decode(from, rest).Char? {
        EncodeDecoded(from, rest);
        assert StartsWith(from, rest, Decode(from, rest).c);
      }
      forall c | StartsWith(from, rest, c)
        ensures Decode(from, rest) == Char(c, |Encode(from, c)|)
      {
        DecodeEncoded(from, c, rest[|Encode(from, c)|..]);
        assert rest == Encode(from, c) + rest[|Encode(from, c)|..];
      }
    }
  }

  // ---------- UCS-2 ----------

  /** UCS-2 is read as UTF-16 is, in the same byte order, but for surrogates, which are all illegal. */
  lemma Ucs2Reads(order: nat, t: Tables, s: seq<Byte>)
    requires ValidTables(t) && order < 2 && s != []
    ensures var r, u := DecodeChar(Ucs2(order), t, s), DecodeChar(Unicode(Utf16(order)), t, s);
            r == if |s| < 2 then Starved else if u.Char? && u.length == 2 then u else IllegalSequence
  {
  }

  /**
   * It is written as UTF-16 is, surrogates included: the replacement character is meant for a target that has no pairs,
   * but the source is tested, and no character read from UCS-2 needs it.
   */
  lemma Ucs2IsWrittenAsUtf16(from: Charset, order: nat, t: Tables, s: seq<Byte>, room: nat)
    requires Valid(from, Ucs2(order), t) && Valid(from, Unicode(Utf16(order)), t)
    ensures First(from, Ucs2(order), t, s, room) == First(from, Unicode(Utf16(order)), t, s, room)
  {
  }

  lemma {:induction false} ConvertsToUcs2(from: Charset, order: nat, t: Tables, s: seq<Byte>, done: seq<Byte>, room: nat)
    requires Valid(from, Ucs2(order), t) && Valid(from, Unicode(Utf16(order)), t)
    ensures Convert(from, Ucs2(order), t, s, done, room) == Convert(from, Unicode(Utf16(order)), t, s, done, room)
    decreases |s|
  {
    hide First, Valid, Convert, Pass.Before;
    var p := First(from, Ucs2(order), t, s, room);
    Ucs2IsWrittenAsUtf16(from, order, t, s, room);
    Unfold(from, Ucs2(order), t, s, done, room, p);
    Unfold(from, Unicode(Utf16(order)), t, s, done, room, p);
    if p.Moves(done) {
      ConvertsToUcs2(from, order, t, s[p.length..], p.Written(done), p.Left(room));
    }
  }

  /** One character beyond the Basic Multilingual Plane, on its way to UCS-2: two surrogates, and nothing is counted. */
  lemma SurrogatesInUcs2(t: Tables)
    requires ValidTables(t)
    ensures Convert(Unicode(Utf8), Ucs2(BIG_ENDIAN), t, [0xf0, 0x90, 0x80, 0x80], [], 4)
         == Result(4, [0xd8, 0x00, 0xdc, 0x00], 0, Finished, 0, 0)
  {
    hide Convert;
    var text := [0x10000];
    ConvertsToUcs2(Unicode(Utf8), BIG_ENDIAN, t, [0xf0, 0x90, 0x80, 0x80], [], 4);
    assert text[1..] == [];
    assert EncodeAll(Utf8, text) == [0xf0, 0x90, 0x80, 0x80] && EncodeAll(Utf16(BIG_ENDIAN), text) == [0xd8, 0x00, 0xdc, 0x00];
    TranscodesTexts(Utf8, Utf16(BIG_ENDIAN), t, text, [], 4);
    assert [] + EncodeAll(Utf16(BIG_ENDIAN), text) == EncodeAll(Utf16(BIG_ENDIAN), text);
  }
}
