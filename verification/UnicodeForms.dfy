/** One character at a time: UTF-8, UTF-16 and UTF-32 in both byte orders, and the host's wide characters. */
module UnicodeForms {
  import opened Bytes

  datatype Form = Utf8 | Utf16(order: nat) | Utf32(order: nat) | Wchar

  const BIG_ENDIAN: nat := 0
  /** Byte order of 16-bit units, and of 32-bit units, with the low byte first. */
  const LITTLE_ENDIAN_16: nat := 1
  const LITTLE_ENDIAN_32: nat := 3
  /** The byte order in which the host keeps a wide character. */
  const HOST_ORDER: nat := LITTLE_ENDIAN_32

  datatype Step = Char(c: nat, length: nat) | IllegalSequence | Starved

  predicate ValidForm(form: Form) {
    match form
    case Utf16(e) => e == BIG_ENDIAN || e == LITTLE_ENDIAN_16
    case Utf32(e) => e == BIG_ENDIAN || e == LITTLE_ENDIAN_32
    case _ => true
  }

  predicate IsScalar(c: nat) {
    c < 0xd800 || 0xe000 <= c < 0x110000
  }

  // ---------- Units ----------

  function Scaled(b: Byte, factor: nat): nat {
    b * factor
  }

  function Get16(s: seq<Byte>, e: nat): nat
    requires |s| >= 2 && e < 2
  {
    Scaled(s[e], 0x100) + s[1 - e]
  }

  function Put16(c: nat, e: nat): (r: seq<Byte>)
    requires e < 2
    ensures |r| == 2
  {
    var high, low := c / 0x100 % 0x100, c % 0x100;
    if e == 0 then [high, low] else [low, high]
  }

  /** Exclusive or of two-bit numbers. */
  function Xor(a: nat, b: nat): (r: nat)
    requires a < 4 && b < 4
    ensures r < 4
  {
    (a / 2 + b / 2) % 2 * 2 + (a + b) % 2
  }

  function Get32(s: seq<Byte>, e: nat): nat
    requires |s| >= 4 && e < 4
  {
    Scaled(s[e], 0x1000000) + Scaled(s[Xor(e, 1)], 0x10000) + Scaled(s[Xor(e, 2)], 0x100) + s[Xor(e, 3)]
  }

  function Put32(c: nat, e: nat): (r: seq<Byte>)
    requires e < 4
    ensures |r| == 4
  {
    [0, 0, 0, 0][e := c / 0x1000000 % 0x100][Xor(e, 1) := c / 0x10000 % 0x100]
                [Xor(e, 2) := c / 0x100 % 0x100][Xor(e, 3) := c % 0x100]
  }

  lemma Unit16(c: nat, e: nat, rest: seq<Byte>)
    requires c < 0x10000 && e < 2
    ensures Get16(Put16(c, e) + rest, e) == c
  {
  }

  lemma Unit16Back(s: seq<Byte>, e: nat)
    requires |s| >= 2 && e < 2
    ensures Get16(s, e) < 0x10000 && Put16(Get16(s, e), e) == s[..2]
  {
  }

  lemma Unit32(c: nat, e: nat, rest: seq<Byte>)
    requires c < 0x100000000 && e in {BIG_ENDIAN, LITTLE_ENDIAN_32}
    ensures Get32(Put32(c, e) + rest, e) == c
  {
    hide Xor;
    XorTable();
    Split256(c);
    assert (Put32(c, e) + rest)[..4] == Put32(c, e);
  }

  lemma XorTable()
    ensures Xor(0, 1) == 1 && Xor(0, 2) == 2 && Xor(0, 3) == 3 && Xor(3, 1) == 2 && Xor(3, 2) == 1 && Xor(3, 3) == 0
  {
  }

  lemma Split256(c: nat)
    requires c < 0x100000000
    ensures c == c / 0x1000000 % 0x100 * 0x1000000 + c / 0x10000 % 0x100 * 0x10000 + c / 0x100 % 0x100 * 0x100 + c % 0x100
  {
    assert c / 0x100 / 0x100 == c / 0x10000 && c / 0x10000 / 0x100 == c / 0x1000000;
  }

  lemma Unit32Back(s: seq<Byte>, e: nat)
    requires |s| >= 4 && e in {BIG_ENDIAN, LITTLE_ENDIAN_32}
    ensures Get32(s, e) < 0x100000000 && Put32(Get32(s, e), e) == s[..4]
  {
    if e == BIG_ENDIAN {
      Digits256(s[0], s[1], s[2], s[3]);
    } else {
      Digits256(s[3], s[2], s[1], s[0]);
    }
  }

  lemma Digits256(a: Byte, b: Byte, c: Byte, d: Byte)
    ensures var n := a * 0x1000000 + b * 0x10000 + c * 0x100 + d;
            n < 0x100000000 && n / 0x1000000 % 0x100 == a && n / 0x10000 % 0x100 == b && n / 0x100 % 0x100 == c && n % 0x100 == d
  {
    var n := a * 0x1000000 + b * 0x10000 + c * 0x100 + d;
    assert n / 0x1000000 == a;
    assert n / 0x10000 == a * 0x100 + b;
    assert n / 0x100 == a * 0x10000 + b * 0x100 + c;
  }

  lemma Digits64(a: nat, b: nat, c: nat, d: nat)
    requires b < 0x40 && c < 0x40 && d < 0x40
    ensures var n := a * 0x40000 + b * 0x1000 + c * 0x40 + d;
            n / 0x40000 == a && n / 0x1000 % 0x40 == b && n / 0x40 % 0x40 == c && n % 0x40 == d
    ensures (b * 0x1000 + c * 0x40 + d) / 0x1000 == b && (c * 0x40 + d) / 0x40 == c
    ensures (b * 0x1000 + c * 0x40 + d) / 0x40 % 0x40 == c && (b * 0x1000 + c * 0x40 + d) % 0x40 == d
  {
    var n := a * 0x40000 + b * 0x1000 + c * 0x40 + d;
    assert n / 0x40 == a * 0x1000 + b * 0x40 + c;
    assert n / 0x1000 == a * 0x40 + b;
  }

  // ---------- Encoding ----------

  /** The UTF-8 form of a scalar value; nothing for other numbers, which the encoder refuses. */
  function Wcrtomb(c: nat): (r: seq<Byte>)
    ensures r == [] <==> !IsScalar(c)
    ensures |r| <= 4
  {
    if c < 0x80 then [c]
    else if c < 0x800 then [0xc0 + c / 0x40, 0x80 + c % 0x40]
    else if c < 0xd800 || 0xe000 <= c < 0x10000 then [0xe0 + c / 0x1000, 0x80 + c / 0x40 % 0x40, 0x80 + c % 0x40]
    else if 0x10000 <= c < 0x110000 then
      [0xf0 + c / 0x40000, 0x80 + c / 0x1000 % 0x40, 0x80 + c / 0x40 % 0x40, 0x80 + c % 0x40]
    else []
  }

  /** Two units for numbers from 0x10000 on; the low bits of the surrogates are free, so "or" is a sum. */
  function PutSurrogates(c: nat, e: nat): (r: seq<Byte>)
    requires 0x10000 <= c < 0x210000 && e < 2
    ensures |r| == 4
  {
    Put16((c - 0x10000) / 0x400 + 0xd800, e) + Put16((c - 0x10000) % 0x400 + 0xdc00, e)
  }

  function Encode(form: Form, c: nat): (r: seq<Byte>)
    requires ValidForm(form) && IsScalar(c)
    ensures 0 < |r| <= 4
  {
    match form
    case Utf8 => Wcrtomb(c)
    case Utf16(e) => if c < 0x10000 then Put16(c, e) else PutSurrogates(c, e)
    case Utf32(e) => Put32(c, e)
    case Wchar => Put32(c, HOST_ORDER)
  }

  // ---------- Decoding ----------

  /** A byte that may follow `lead`, as second byte, in section 4 of RFC 3629. */
  predicate Second(lead: Byte, b: Byte) {
    (if lead == 0xe0 then 0xa0 else if lead == 0xf0 then 0x90 else 0x80) <= b
    <= (if lead == 0xed then 0x9f else if lead == 0xf4 then 0x8f else 0xbf)
  }

  /** The payload of a byte above its marker bits. */
  function Payload(b: Byte, marker: int): int {
    b - marker
  }

  predicate Tail(b: Byte) {
    0x80 <= b <= 0xbf
  }

  /** UTF-8 as section 4 of RFC 3629 defines it: what the C library's decoder is to do. */
  function DecodeUtf8(s: seq<Byte>): (r: Step)
    requires s != []
  {
    var b := s[0];
    if b < 0x80 then Char(b, 1)
    else if b < 0xc2 || b > 0xf4 then IllegalSequence
    else if |s| < 2 then Starved
    else if !Second(b, s[1]) then IllegalSequence
    else if b < 0xe0 then Char(Payload(b, 0xc0) * 0x40 + Payload(s[1], 0x80), 2)
    else if |s| < 3 then Starved
    else if !Tail(s[2]) then IllegalSequence
    else if b < 0xf0 then Char(Payload(b, 0xe0) * 0x1000 + Payload(s[1], 0x80) * 0x40 + Payload(s[2], 0x80), 3)
    else if |s| < 4 then Starved
    else if !Tail(s[3]) then IllegalSequence
    else Char(Payload(b, 0xf0) * 0x40000 + Payload(s[1], 0x80) * 0x1000 + Payload(s[2], 0x80) * 0x40 + Payload(s[3], 0x80), 4)
  }

  /** `pairs` tells UTF-16, which has surrogate pairs, from UCS-2, which does not. */
  function Decode16(s: seq<Byte>, e: nat, pairs: bool): (r: Step)
    requires e < 2
  {
    if |s| < 2 then Starved
    else
      var c := Get16(s, e);
      if 0xdc00 <= c < 0xe000 then IllegalSequence
      else if 0xd800 <= c < 0xdc00 then
        if !pairs then IllegalSequence
        else if |s| < 4 then Starved
        else
          var d := Get16(s[2..], e);
          if !(0xdc00 <= d < 0xe000) then IllegalSequence
          else Char((c - 0xd7c0) * 0x400 + (d - 0xdc00), 4)
      else Char(c, 2)
  }

  function Decode32(s: seq<Byte>, e: nat): (r: Step)
    requires e < 4
  {
    if |s| < 4 then Starved
    else
      var c := Get32(s, e);
      if 0xd800 <= c < 0xe000 || c >= 0x110000 then IllegalSequence else Char(c, 4)
  }

  function Decode(form: Form, s: seq<Byte>): (r: Step)
    requires ValidForm(form) && s != []
  {
    match form
    case Utf8 => DecodeUtf8(s)
    case Utf16(e) => Decode16(s, e, true)
    case Utf32(e) => Decode32(s, e)
    case Wchar => Decode32(s, HOST_ORDER)
  }

  // ---------- They undo each other ----------

  lemma DecodeUtf8Encoded(c: nat, rest: seq<Byte>)
    requires IsScalar(c)
    ensures DecodeUtf8(Wcrtomb(c) + rest) == Char(c, |Wcrtomb(c)|)
  {
    Split64(c);
    var s := Wcrtomb(c) + rest;
    assert s[..|Wcrtomb(c)|] == Wcrtomb(c);
  }

  /** A number, cut into groups of six bits. */
  lemma Split64(c: nat)
    ensures c == c / 0x40 * 0x40 + c % 0x40
    ensures c == c / 0x1000 * 0x1000 + c / 0x40 % 0x40 * 0x40 + c % 0x40
    ensures c == c / 0x40000 * 0x40000 + c / 0x1000 % 0x40 * 0x1000 + c / 0x40 % 0x40 * 0x40 + c % 0x40
  {
    assert c / 0x40 / 0x40 == c / 0x1000 && c / 0x1000 / 0x40 == c / 0x40000;
  }

  lemma EncodeUtf8Decoded(s: seq<Byte>)
    requires s != [] && DecodeUtf8(s).Char?
    ensures var r := DecodeUtf8(s);
            IsScalar(r.c) && r.length <= |s| && Wcrtomb(r.c) == s[..r.length]
  {
    var r, b := DecodeUtf8(s), s[0];
    if r.length == 2 {
      Digits64(0, 0, Payload(b, 0xc0), Payload(s[1], 0x80));
    } else if r.length == 3 {
      Digits64(0, Payload(b, 0xe0), Payload(s[1], 0x80), Payload(s[2], 0x80));
    } else if r.length == 4 {
      Digits64(Payload(b, 0xf0), Payload(s[1], 0x80), Payload(s[2], 0x80), Payload(s[3], 0x80));
    }
  }

  /** Decoding an encoded character gives it back, and takes exactly its bytes, whatever follows. */
  lemma DecodeEncoded(form: Form, c: nat, rest: seq<Byte>)
    requires ValidForm(form) && IsScalar(c)
    ensures Decode(form, Encode(form, c) + rest) == Char(c, |Encode(form, c)|)
  {
    match form
    case Utf8 => DecodeUtf8Encoded(c, rest);
    case Utf16(e) =>
      if c < 0x10000 {
        Unit16(c, e, rest);
      } else {
        var high, low := (c - 0x10000) / 0x400 + 0xd800, (c - 0x10000) % 0x400 + 0xdc00;
        Unit16(high, e, Put16(low, e) + rest);
        Unit16(low, e, rest);
        assert PutSurrogates(c, e) + rest == Put16(high, e) + (Put16(low, e) + rest);
        assert (PutSurrogates(c, e) + rest)[2..] == Put16(low, e) + rest;
      }
    case Utf32(e) => Unit32(c, e, rest);
    case Wchar => Unit32(c, HOST_ORDER, rest);
  }

  /** What is accepted is a scalar value in its one encoded form. */
  lemma EncodeDecoded(form: Form, s: seq<Byte>)
    requires ValidForm(form) && s != [] && Decode(form, s).Char?
    ensures var r := Decode(form, s);
            IsScalar(r.c) && r.length <= |s| && Encode(form, r.c) == s[..r.length]
  {
    match form
    case Utf8 => EncodeUtf8Decoded(s);
    case Utf16(e) =>
      Unit16Back(s, e);
      if Decode(form, s).length == 4 {
        Unit16Back(s[2..], e);
        assert s[..4] == s[..2] + s[2..][..2];
      }
    case Utf32(e) => Unit32Back(s, e);
    case Wchar => Unit32Back(s, HOST_ORDER);
  }

  /** More input changes nothing unless the decoder asked for it. */
  lemma DecodeIsStable(form: Form, s: seq<Byte>, more: seq<Byte>)
    requires ValidForm(form) && s != [] && Decode(form, s) != Starved
    ensures Decode(form, s + more) == Decode(form, s)
  {
    if form.Utf16? && |s| >= 4 {
      assert (s + more)[2..] == s[2..] + more;
    }
  }

  /**
   * Exactly the beginnings that encode a scalar value are read as a character: surrogates that are not in a pair,
   * overlong forms, and numbers that are not scalar values are not, in any form.
   */
  lemma AcceptsExactlyEncodings(form: Form, s: seq<Byte>)
    requires ValidForm(form) && s != []
    ensures Decode(form, s).Char? <==> exists c :: IsScalar(c) && Encode(form, c) <= s
  {
    hide Decode, Encode;
    if Decode(form, s).Char? {
      EncodeDecoded(form, s);
      assert IsScalar(Decode(form, s).c);
    }
    forall c | IsScalar(c) && Encode(form, c) <= s
      ensures Decode(form, s).Char?
    {
      DecodeEncoded(form, c, s[|Encode(form, c)|..]);
      assert s == Encode(form, c) + s[|Encode(form, c)|..];
    }
  }

  // ---------- Whole texts ----------

  ghost predicate AllScalars(text: seq<nat>) {
    forall i :: 0 <= i < |text| ==> IsScalar(text[i])
  }

  ghost function EncodeAll(form: Form, text: seq<nat>): (r: seq<Byte>)
    requires ValidForm(form) && AllScalars(text)
    ensures text != [] <==> r != []
  {
    if text == [] then [] else Encode(form, text[0]) + EncodeAll(form, text[1..])
  }

  /** No encoded character starts another, and so an encoded text has one reading only. */
  lemma {:induction false} EncodingIsUnique(form: Form, a: seq<nat>, b: seq<nat>)
    requires ValidForm(form) && AllScalars(a) && AllScalars(b) && EncodeAll(form, a) == EncodeAll(form, b)
    ensures a == b
  {
    if a != [] && b != [] {
      DecodeEncoded(form, a[0], EncodeAll(form, a[1..]));
      DecodeEncoded(form, b[0], EncodeAll(form, b[1..]));
      var n := |Encode(form, a[0])|;
      assert EncodeAll(form, a)[n..] == EncodeAll(form, a[1..]);
      assert EncodeAll(form, b)[n..] == EncodeAll(form, b[1..]);
      EncodingIsUnique(form, a[1..], b[1..]);
      assert a == [a[0]] + a[1..] && b == [b[0]] + b[1..];
    }
  }
}
