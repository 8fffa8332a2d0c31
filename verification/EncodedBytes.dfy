/** The bytes of the Unicode forms, as the standards number them. */
module EncodedBytes {
  import opened Bytes
  import opened UnicodeForms

  /** The two surrogates of a number from 0x10000 on, as in section 2.1 of RFC 2781. */
  function High(c: nat): nat
    requires 0x10000 <= c < 0x110000
  {
    0xd800 + (c - 0x10000) / 0x400
  }

  function Low(c: nat): nat
    requires 0x10000 <= c < 0x110000
  {
    0xdc00 + (c - 0x10000) % 0x400
  }

  /** One unit below 0x10000 and two from there on, with the high byte first, or last. */
  lemma Utf16Bytes(c: nat)
    requires IsScalar(c)
    ensures c < 0x10000 ==> Encode(Utf16(BIG_ENDIAN), c) == [c / 0x100, c % 0x100]
    ensures c < 0x10000 ==> Encode(Utf16(LITTLE_ENDIAN_16), c) == [c % 0x100, c / 0x100]
    ensures c >= 0x10000 ==>
              Encode(Utf16(BIG_ENDIAN), c) == [High(c) / 0x100, High(c) % 0x100, Low(c) / 0x100, Low(c) % 0x100]
    ensures c >= 0x10000 ==>
              Encode(Utf16(LITTLE_ENDIAN_16), c) == [High(c) % 0x100, High(c) / 0x100, Low(c) % 0x100, Low(c) / 0x100]
  {
  }

  /** Four bytes, the highest first, or last; host wide characters have it last. */
  lemma Utf32Bytes(c: nat)
    requires IsScalar(c)
    ensures Encode(Utf32(BIG_ENDIAN), c) == [0, c / 0x10000, c / 0x100 % 0x100, c % 0x100]
    ensures Encode(Utf32(LITTLE_ENDIAN_32), c) == Encode(Wchar, c) == [c % 0x100, c / 0x100 % 0x100, c / 0x10000, 0]
  {
    hide Xor;
    XorTable();
    assert c / 0x1000000 == 0 && c / 0x10000 < 0x11;
  }

  /** The marker bits of section 3 of RFC 3629, and the number spread over the bits below them. */
  lemma Utf8Bytes(c: nat)
    requires IsScalar(c)
    ensures var b: seq<int> := Encode(Utf8, c);
            if c < 0x80 then b == [c]
            else if c < 0x800 then
              |b| == 2 && 0xc0 <= b[0] < 0xe0 && 0x80 <= b[1] < 0xc0 && c == (b[0] - 0xc0) * 0x40 + (b[1] - 0x80)
            else if c < 0x10000 then
              && |b| == 3 && 0xe0 <= b[0] < 0xf0 && 0x80 <= b[1] < 0xc0 && 0x80 <= b[2] < 0xc0
              && c == (b[0] - 0xe0) * 0x1000 + (b[1] - 0x80) * 0x40 + (b[2] - 0x80)
            else
              && |b| == 4 && 0xf0 <= b[0] < 0xf8 && 0x80 <= b[1] < 0xc0 && 0x80 <= b[2] < 0xc0 && 0x80 <= b[3] < 0xc0
              && c == (b[0] - 0xf0) * 0x40000 + (b[1] - 0x80) * 0x1000 + (b[2] - 0x80) * 0x40 + (b[3] - 0x80)
  {
    Split64(c);
  }

  /** When more input is asked for: exactly for the beginning of a character, in UTF-8. */
  lemma Utf8Starves(s: seq<Byte>)
    requires s != []
    ensures DecodeUtf8(s) == Starved <==> exists c :: IsScalar(c) && s <= Wcrtomb(c) && s != Wcrtomb(c)
  {
    if DecodeUtf8(s) == Starved {
      var more := Completion(s);
      CompletionCompletes(s);
      EncodeUtf8Decoded(s + more);
      var c := DecodeUtf8(s + more).c;
      assert IsScalar(c) && s <= Wcrtomb(c) && s != Wcrtomb(c);
    }
    forall c | IsScalar(c) && s <= Wcrtomb(c) && s != Wcrtomb(c)
      ensures DecodeUtf8(s) == Starved
    {
      DecodeUtf8Encoded(c, []);
      assert Wcrtomb(c) + [] == Wcrtomb(c);
      PrefixStarves(s, Wcrtomb(c));
    }
  }

  lemma PrefixStarves(s: seq<Byte>, w: seq<Byte>)
    requires s != [] && s <= w && |s| < |w| && DecodeUtf8(w).Char? && DecodeUtf8(w).length == |w|
    ensures DecodeUtf8(s) == Starved
  {
  }

  /** The smallest bytes that make a character of a beginning. */
  ghost function Completion(s: seq<Byte>): (r: seq<Byte>)
    requires s != []
  {
    var b := s[0];
    var n := if b < 0xe0 then 2 else if b < 0xf0 then 3 else 4;
    var tails := [0x80, 0x80];
    if |s| == 1 then [if b == 0xe0 then 0xa0 else if b == 0xf0 then 0x90 else 0x80] + tails[..n - 2]
    else if |s| <= n then tails[..if n - |s| < 2 then n - |s| else 2]
    else []
  }

  lemma CompletionCompletes(s: seq<Byte>)
    requires s != [] && DecodeUtf8(s) == Starved
    ensures var r := DecodeUtf8(s + Completion(s));
            r.Char? && r.length == |s + Completion(s)| > |s|
  {
  }

  /** In the other forms: for less than a unit, or for a first surrogate without the second. */
  lemma OthersStarve(form: Form, s: seq<Byte>)
    requires ValidForm(form) && form != Utf8 && s != []
    ensures Decode(form, s) == Starved
       <==> if form.Utf16? then |s| < 2 || (|s| < 4 && 0xd8 <= s[if form.order == BIG_ENDIAN then 0 else 1] <= 0xdb)
            else |s| < 4
  {
  }

  /** Every number up to 0x10ffff but the surrogates. */
  lemma Scalars(c: nat)
    ensures IsScalar(c) <==> c <= 0x10ffff && !(0xd800 <= c <= 0xdfff)
  {
  }

  /** The characters of the examples in section 7 of RFC 3629, and of the one in section 5 of RFC 2781. */
  lemma KnownCharacters()
    ensures Encode(Utf8, 0x2262) == [0xe2, 0x89, 0xa2] && Encode(Utf8, 0x391) == [0xce, 0x91]
    ensures Encode(Utf8, 0xd55c) == [0xed, 0x95, 0x9c] && Encode(Utf8, 0x233b4) == [0xf0, 0xa3, 0x8e, 0xb4]
    ensures Encode(Utf16(BIG_ENDIAN), 0x12345) == [0xd8, 0x08, 0xdf, 0x45]
    ensures Encode(Utf16(LITTLE_ENDIAN_16), 0x12345) == [0x08, 0xd8, 0x45, 0xdf]
  {
  }
}
