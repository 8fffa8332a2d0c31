/** One character from and to each character set. The code tables are parameters. */
module CharSets {
  import opened Bytes
  import opened UnicodeForms
  import opened Sequences
  import SelectLoop
  import PackedTable

  datatype GbVariant = Gb18030 | Gbk | Gb2312

  /** `Codepage` keeps the first `elided` of its 128 upper bytes as they are, and has a packed table for the others. */
  datatype Charset =
    | Unicode(form: Form)
    | Ucs2(order: nat)
    | UsAscii
    | EucKr
    | Gb(variant: GbVariant)
    | Codepage(elided: nat, entries: seq<Byte>)

  datatype Tables = Tables(legacy: seq<nat>, gb: seq<seq<nat>>, ksc: seq<seq<nat>>)

  const GB_ROWS: nat := 126
  const GB_COLUMNS: nat := 190
  const KSC_ROWS: nat := 93
  const KSC_COLUMNS: nat := 94

  ghost predicate ValidTable(table: seq<seq<nat>>, rows: nat, columns: nat) {
    && |table| == rows
    && (forall i :: 0 <= i < rows ==> |table[i]| == columns)
    && (forall i, j :: 0 <= i < rows && 0 <= j < columns ==> table[i][j] < 0x10000)
  }

  ghost predicate ValidTables(t: Tables) {
    && (forall i :: 0 <= i < |t.legacy| ==> t.legacy[i] < 0x10000)
    && ValidTable(t.gb, GB_ROWS, GB_COLUMNS) && ValidTable(t.ksc, KSC_ROWS, KSC_COLUMNS)
  }

  ghost predicate ValidCharset(cs: Charset, t: Tables) {
    match cs
    case Unicode(form) => ValidForm(form)
    case Ucs2(e) => e < 2
    case Codepage(elided, entries) =>
      && elided <= 128 && elided % 4 == 0 && |entries| == (128 - elided) / 4 * 5
      && forall c :: 0 <= c < 128 - elided ==> Mapped(entries, c) < |t.legacy|
    case _ => true
  }

  /** The index in the table of legacy characters; 0 where the map ends. */
  function Mapped(entries: seq<Byte>, c: nat): nat {
    if c * 5 / 4 + 1 < |entries| then PackedTable.Field(entries, c) else 0
  }

  /** Multi-byte character sets cannot be converted to. */
  predicate IsTarget(cs: Charset) {
    cs.Unicode? || cs.Ucs2? || cs.UsAscii? || cs.Codepage?
  }

  // ---------- Decoding ----------

  /** Sets whose bytes below 128 are not characters by themselves. */
  predicate HasWideUnits(cs: Charset) {
    cs.Ucs2? || (cs.Unicode? && cs.form != Utf8)
  }

  ghost function DecodeCodepage(elided: nat, entries: seq<Byte>, t: Tables, b: Byte): Step
    requires ValidCharset(Codepage(elided, entries), t) && b >= 128
  {
    if b < 128 + elided then Char(b, 1)
    else
      var c := t.legacy[Mapped(entries, b - 128 - elided)];
      if c == 0 then Char(b, 1) else if c == 1 then IllegalSequence else Char(c, 1)
  }

  /** The second byte of a Hangul syllable outside KS C 5601, as a number; 178 for other bytes. */
  function HangulColumn(d: Byte): nat {
    if 0x41 <= d < 0x5b then d - 0x41
    else if 0x61 <= d < 0x7b then d - 0x61 + 26
    else if 0x81 <= d < 0xff then d - 0x81 + 52
    else 178
  }

  /** The index of such a syllable among all syllables outside KS C 5601. */
  function HangulIndex(row: nat, column: nat): nat {
    if row < 0x20 then 178 * row + column else 178 * 0x20 + 84 * (row - 0x20) + column
  }

  ghost function DecodeEucKr(t: Tables, s: seq<Byte>): Step
    requires ValidTables(t) && s != []
  {
    if |s| < 2 then Starved
    else
      var c, d := s[0], s[1];
      if c >= 0xa1 && c - 0xa1 < KSC_ROWS && d >= 0xa1 && d - 0xa1 < KSC_COLUMNS then
        var u := t.ksc[c - 0xa1][d - 0xa1];
        if u == 0 then IllegalSequence else Char(u, 2)
      else if c < 0x81 || c - 0x81 >= KSC_ROWS || (c >= 0xc6 && d > 0x52) || HangulColumn(d) == 178 then IllegalSequence
      else Char(SelectLoop.Select(Flat(t.ksc), 0xac00, 0xac00 + HangulIndex(c - 0x81, HangulColumn(d))), 2)
  }

  predicate IsDigit(b: Byte) {
    0x30 <= b < 0x3a
  }

  /** The number of a four-byte sequence; the third byte may be anything from 0x81 on. */
  function FourByteIndex(a: Byte, b: Byte, c: Byte, d: Byte): nat
    requires a >= 0x81 && IsDigit(b) && c >= 0x81 && IsDigit(d)
  {
    (10 * (a - 0x81) + (b - 0x30)) * 1260 + 10 * (c - 0x81) + (d - 0x30)
  }

  ghost function DecodeGb(variant: GbVariant, t: Tables, s: seq<Byte>): Step
    requires ValidTables(t) && s != []
  {
    var c := s[0];
    if variant == Gb2312 && c < 0xa1 then IllegalSequence
    else if c < 0x81 || c - 0x81 >= GB_ROWS then IllegalSequence
    else if |s| < 2 then Starved
    else
      var d := s[1];
      if variant == Gb2312 && d < 0xa1 then IllegalSequence
      else if d < 0x40 || d - 0x40 >= 191 || d == 127 then
        if !IsDigit(d) || variant != Gb18030 then IllegalSequence
        else if |s| < 4 then Starved
        else if s[2] < 0x81 || !IsDigit(s[3]) then IllegalSequence
        else Char(SelectLoop.Select(Flat(t.gb), 0, 128 + FourByteIndex(c, d, s[2], s[3])), 4)
      else Char(t.gb[c - 0x81][if d - 0x40 > 63 then d - 0x41 else d - 0x40], 2)
  }

  ghost function DecodeChar(cs: Charset, t: Tables, s: seq<Byte>): (r: Step)
    requires ValidTables(t) && ValidCharset(cs, t) && s != []
    ensures r.Char? ==> 0 < r.length <= |s|
  {
    if s[0] < 128 && !HasWideUnits(cs) then Char(s[0], 1)
    else
      match cs
      case Unicode(form) => Decode(form, s)
      case Ucs2(e) => Decode16(s, e, false)
      case UsAscii => IllegalSequence
      case EucKr => DecodeEucKr(t, s)
      case Gb(variant) => DecodeGb(variant, t, s)
      case Codepage(elided, entries) => DecodeCodepage(elided, entries, t, s[0])
  }

  /** A character is read from its own bytes alone. */
  lemma DecodeIsLocal(cs: Charset, t: Tables, s: seq<Byte>, k: nat)
    requires ValidTables(t) && ValidCharset(cs, t) && s != [] && DecodeChar(cs, t, s).Char?
    requires DecodeChar(cs, t, s).length <= k <= |s|
    ensures DecodeChar(cs, t, s[..k]) == DecodeChar(cs, t, s)
  {
    match cs
    case Unicode(form) => if s[0] >= 128 || HasWideUnits(cs) { FormIsLocal(form, s, k); }
    case Gb(variant) => if s[0] >= 128 { GbIsLocal(variant, t, s, k); }
    case _ =>
  }

  lemma FormIsLocal(form: Form, s: seq<Byte>, k: nat)
    requires ValidForm(form) && s != [] && Decode(form, s).Char? && Decode(form, s).length <= k <= |s|
    ensures Decode(form, s[..k]) == Decode(form, s)
  {
    if form.Utf16? && k >= 4 {
      assert s[..k][2..] == s[2..k];
    }
  }

  lemma GbIsLocal(variant: GbVariant, t: Tables, s: seq<Byte>, k: nat)
    requires ValidTables(t) && s != [] && DecodeGb(variant, t, s).Char? && DecodeGb(variant, t, s).length <= k <= |s|
    ensures DecodeGb(variant, t, s[..k]) == DecodeGb(variant, t, s)
  {
  }

  /** A character that has been read stays the same with more input behind it. */
  lemma DecodeWithMore(cs: Charset, t: Tables, s: seq<Byte>, more: seq<Byte>)
    requires ValidTables(t) && ValidCharset(cs, t) && s != [] && DecodeChar(cs, t, s).Char?
    ensures DecodeChar(cs, t, s + more) == DecodeChar(cs, t, s)
  {
    if cs.Unicode? {
      DecodeIsStable(cs.form, s, more);
    }
  }

  /** What every character has: in the range that the units can hold. */
  lemma DecodedIsBounded(cs: Charset, t: Tables, s: seq<Byte>)
    requires ValidTables(t) && ValidCharset(cs, t) && s != [] && DecodeChar(cs, t, s).Char?
    ensures DecodeChar(cs, t, s).c < 0x210000
  {
    match cs
    case Unicode(form) => if s[0] >= 128 || HasWideUnits(cs) { EncodeDecoded(form, s); }
    case EucKr =>
      if s[0] >= 128 && |s| >= 2 && HangulColumn(s[1]) < 178 {
        FlatLength(t.ksc, KSC_COLUMNS);
        HangulIndexIsSmall(s[0], s[1]);
        if s[0] >= 0x81 {
          SelectLoop.SelectIsBounded(Flat(t.ksc), 0xac00, 0xac00 + HangulIndex(s[0] - 0x81, HangulColumn(s[1])));
        }
      }
    case Gb(variant) =>
      if s[0] >= 0x81 && |s| >= 4 && IsDigit(s[1]) && s[2] >= 0x81 && IsDigit(s[3]) {
        FlatLength(t.gb, GB_COLUMNS);
        SelectLoop.SelectIsBounded(Flat(t.gb), 0, 128 + FourByteIndex(s[0], s[1], s[2], s[3]));
      }
    case _ =>
  }

  lemma HangulIndexIsSmall(c: Byte, d: Byte)
    ensures c >= 0x81 ==> HangulIndex(c - 0x81, HangulColumn(d)) < 0x10000
  {
  }

  lemma {:induction false} FlatLength(table: seq<seq<nat>>, columns: nat)
    requires forall i :: 0 <= i < |table| ==> |table[i]| == columns
    ensures |Flat(table)| == |table| * columns
  {
    if table != [] {
      FlatLength(table[..|table| - 1], columns);
      OneMoreRow(|table| - 1, columns);
    }
  }

  lemma OneMoreRow(n: nat, columns: nat)
    ensures (n + 1) * columns == n * columns + columns
  {
  }

  method ReadEucKr(t: Tables, s: seq<Byte>) returns (r: Step)
    requires ValidTables(t) && s != []
    ensures r == DecodeEucKr(t, s)
  {
    if |s| < 2 {
      return Starved;
    }
    var c, d := s[0], s[1];
    if c >= 0xa1 && c - 0xa1 < KSC_ROWS && d >= 0xa1 && d - 0xa1 < KSC_COLUMNS {
      var u := t.ksc[c - 0xa1][d - 0xa1];
      return if u == 0 then IllegalSequence else Char(u, 2);
    }
    if c < 0x81 || c - 0x81 >= KSC_ROWS || (c >= 0xc6 && d > 0x52) {
      return IllegalSequence;
    }
    var column := HangulColumn(d);
    if column == 178 {
      return IllegalSequence;
    }
    var u := SelectLoop.SelectInTable(t.ksc, 0xac00, 0xac00 + HangulIndex(c - 0x81, column));
    return Char(u, 2);
  }

  method ReadGb(variant: GbVariant, t: Tables, s: seq<Byte>) returns (r: Step)
    requires ValidTables(t) && s != []
    ensures r == DecodeGb(variant, t, s)
  {
    var c := s[0];
    if (variant == Gb2312 && c < 0xa1) || c < 0x81 || c - 0x81 >= GB_ROWS {
      return IllegalSequence;
    }
    if |s| < 2 {
      return Starved;
    }
    var d := s[1];
    if d < 0xa1 && variant == Gb2312 {
      return IllegalSequence;
    }
    if d < 0x40 || d - 0x40 >= 191 || d == 127 {
      if !IsDigit(d) || variant != Gb18030 {
        return IllegalSequence;
      }
      if |s| < 4 {
        return Starved;
      }
      if s[2] < 0x81 || !IsDigit(s[3]) {
        return IllegalSequence;
      }
      var u := SelectLoop.SelectInTable(t.gb, 0, 128 + FourByteIndex(c, d, s[2], s[3]));
      return Char(u, 4);
    }
    var column := d - 0x40;
    if column > 63 {
      column := column - 1;
    }
    return Char(t.gb[c - 0x81][column], 2);
  }

  /** Reads one character from the front of the input. */
  method ReadChar(cs: Charset, t: Tables, s: seq<Byte>) returns (r: Step)
    requires ValidTables(t) && ValidCharset(cs, t) && s != []
    ensures r == DecodeChar(cs, t, s)
  {
    if s[0] < 128 && !HasWideUnits(cs) {
      return Char(s[0], 1);
    }
    match cs {
      case Unicode(form) => return Decode(form, s);
      case Ucs2(e) => return Decode16(s, e, false);
      case UsAscii => return IllegalSequence;
      case EucKr => r := ReadEucKr(t, s);
      case Gb(variant) => r := ReadGb(variant, t, s);
      case Codepage(elided, entries) =>
        if s[0] < 128 + elided {
          return Char(s[0], 1);
        }
        var c := t.legacy[Mapped(entries, s[0] - 128 - elided)];
        return if c == 0 then Char(s[0], 1) else if c == 1 then IllegalSequence else Char(c, 1);
    }
  }

  // ---------- Different sequences, the same character ----------

  function Digits(a: int, b: int): int {
    10 * a + b
  }

  /** A third byte of 0xff, which the standard does not have, carries into the first two. */
  predicate Carries(s: seq<Byte>, s': seq<Byte>)
    requires |s| >= 4 && |s'| >= 4
  {
    s[2] == 0xff && s'[2] == 0x81 && s[3] == s'[3] && Digits(s'[0], s'[1]) == Digits(s[0], s[1]) + 1
  }

  predicate IsFourByte(s: seq<Byte>) {
    |s| >= 4 && s[0] >= 0x81 && IsDigit(s[1]) && s[2] >= 0x81 && IsDigit(s[3])
  }

  lemma SameDigits(a: int, b: int, c: int, d: int, a': int, b': int, c': int, d': int)
    requires 0x81 <= a <= 0xff && 0x30 <= b < 0x3a && 0x81 <= c <= 0xff && 0x30 <= d < 0x3a
    requires 0x81 <= a' <= 0xff && 0x30 <= b' < 0x3a && 0x81 <= c' <= 0xff && 0x30 <= d' < 0x3a
    ensures (10 * a + b) * 1260 + 10 * c + d == (10 * a' + b') * 1260 + 10 * c' + d'
       <==> || (a == a' && b == b' && c == c' && d == d')
            || (c == 0xff && c' == 0x81 && d == d' && 10 * a' + b' == 10 * a + b + 1)
            || (c' == 0xff && c == 0x81 && d == d' && 10 * a + b == 10 * a' + b' + 1)
  {
  }

  /** Four-byte sequences have the same number exactly when they are the same, or one carries into the other. */
  lemma SameFourByteIndex(s: seq<Byte>, s': seq<Byte>)
    requires IsFourByte(s) && IsFourByte(s')
    ensures FourByteIndex(s[0], s[1], s[2], s[3]) == FourByteIndex(s'[0], s'[1], s'[2], s'[3])
       <==> s[..4] == s'[..4] || Carries(s, s') || Carries(s', s)
  {
    SameDigits(s[0], s[1], s[2], s[3], s'[0], s'[1], s'[2], s'[3]);
    assert s[..4] == s'[..4] ==> s[0] == s[..4][0] == s'[0] && s[1] == s[..4][1] == s'[1] && s[2] == s[..4][2] == s'[2] && s[3] == s[..4][3] == s'[3];
  }

  /** So it is with the characters that they decode to, whatever the table holds. */
  lemma SameFourByteCharacter(t: Tables, s: seq<Byte>, s': seq<Byte>)
    requires ValidTables(t) && |s| >= 4 && |s'| >= 4
    requires DecodeGb(Gb18030, t, s).Char? && DecodeGb(Gb18030, t, s).length == 4
    requires DecodeGb(Gb18030, t, s').Char? && DecodeGb(Gb18030, t, s').length == 4
    ensures DecodeGb(Gb18030, t, s) == DecodeGb(Gb18030, t, s') <==> s[..4] == s'[..4] || Carries(s, s') || Carries(s', s)
  {
    hide FourByteIndex, ValidTables, Carries;
    var m: nat, n: nat := FourByteIndex(s[0], s[1], s[2], s[3]), FourByteIndex(s'[0], s'[1], s'[2], s'[3]);
    var flat := Flat(t.gb);
    if m < n {
      SelectLoop.SelectIsIncreasing(flat, 0, 128 + m, 128 + n);
    } else if n < m {
      SelectLoop.SelectIsIncreasing(flat, 0, 128 + n, 128 + m);
    }
    SameFourByteIndex(s, s');
  }

  // ---------- What the tables are read for ----------

  /** The second byte for column `j` of the GB table; 0x7f is none. */
  function GbTrail(j: nat): Byte
    requires j < GB_COLUMNS
  {
    if j < 63 then 0x40 + j else 0x41 + j
  }

  /** Two bytes are read as one entry of the table, and each entry has exactly one such pair. */
  lemma GbPairs(variant: GbVariant, t: Tables, s: seq<Byte>)
    requires ValidTables(t) && |s| >= 2 && (variant == Gb2312 ==> s[0] >= 0xa1 && s[1] >= 0xa1)
    ensures forall i, j :: 0 <= i < GB_ROWS && 0 <= j < GB_COLUMNS && s[0] == 0x81 + i && s[1] == GbTrail(j)
                           ==> DecodeGb(variant, t, s) == Char(t.gb[i][j], 2)
    ensures DecodeGb(variant, t, s).Char? && DecodeGb(variant, t, s).length == 2 ==>
              0x81 <= s[0] < 0x81 + GB_ROWS && exists j :: 0 <= j < GB_COLUMNS && s[1] == GbTrail(j)
    ensures forall i, j :: 0 <= i < GB_COLUMNS && 0 <= j < GB_COLUMNS && GbTrail(i) == GbTrail(j) ==> i == j
  {
    if DecodeGb(variant, t, s).Char? && DecodeGb(variant, t, s).length == 2 {
      var j: nat := if s[1] > 0x7f then s[1] - 0x41 else s[1] - 0x40;
      assert s[1] == GbTrail(j);
    }
  }

  /** A code page is read entry by entry from the numbers that its map packs, the last one included. */
  lemma CodepageReadsPacked(elided: nat, v: seq<nat>, t: Tables, b: Byte)
    requires elided <= 128 && elided % 4 == 0 && |v| == 128 - elided && b >= 128 + elided
    requires ValidTables(t) && forall i :: 0 <= i < |v| ==> v[i] < 1024 && v[i] < |t.legacy|
    ensures ValidCharset(Codepage(elided, PackedTable.Pack(v)), t)
    ensures var c := t.legacy[v[b - 128 - elided]];
            DecodeCodepage(elided, PackedTable.Pack(v), t, b)
            == if c == 0 then Char(b, 1) else if c == 1 then IllegalSequence else Char(c, 1)
  {
    hide PackedTable.Field, PackedTable.Pack;
    forall c: nat | c < 128 - elided
      ensures Mapped(PackedTable.Pack(v), c) == v[c]
    {
      PackedTable.FieldOfPack(v, c);
    }
  }

  // ---------- Different syllables, different characters ----------

  /** Whether `s` starts with a Hangul syllable outside the rows and columns of KS C 5601. */
  predicate StartsHangul(s: seq<Byte>) {
    && |s| >= 2 && 0x81 <= s[0] < 0x81 + KSC_ROWS && HangulColumn(s[1]) < 178
    && (s[0] >= 0xa1 ==> s[1] < 0xa1) && (s[0] >= 0xc6 ==> s[1] <= 0x52)
  }

  lemma HangulIndexIsInjective(c: Byte, d: Byte, c': Byte, d': Byte)
    requires StartsHangul([c, d]) && StartsHangul([c', d'])
    requires HangulIndex(c - 0x81, HangulColumn(d)) == HangulIndex(c' - 0x81, HangulColumn(d'))
    ensures c == c' && d == d'
  {
    assert [c, d][0] == c && [c, d][1] == d && [c', d'][0] == c' && [c', d'][1] == d';
    assert c >= 0xa1 ==> HangulColumn(d) < 84;
    assert c' >= 0xa1 ==> HangulColumn(d') < 84;
  }

  /** Two syllables outside KS C 5601 never decode to the same character, whatever the table holds. */
  lemma HangulCharactersDiffer(t: Tables, s: seq<Byte>, s': seq<Byte>)
    requires ValidTables(t) && StartsHangul(s) && StartsHangul(s') && DecodeEucKr(t, s) == DecodeEucKr(t, s')
    ensures s[..2] == s'[..2]
  {
    hide HangulIndex, HangulColumn, ValidTables;
    var m: nat, n: nat := HangulIndex(s[0] - 0x81, HangulColumn(s[1])), HangulIndex(s'[0] - 0x81, HangulColumn(s'[1]));
    var flat := Flat(t.ksc);
    if m < n {
      SelectLoop.SelectIsIncreasing(flat, 0xac00, 0xac00 + m, 0xac00 + n);
    } else if n < m {
      SelectLoop.SelectIsIncreasing(flat, 0xac00, 0xac00 + n, 0xac00 + m);
    }
    HangulIndexIsInjective(s[0], s[1], s'[0], s'[1]);
  }

  // ---------- Encoding ----------

  datatype Out = Emitted(bytes: seq<Byte>, substituted: bool) | TooBig | Underrun

  /** The first place from `i` on where the code page has `c`; `n` if there is none before that. */
  ghost function FindMapped(entries: seq<Byte>, t: Tables, c: nat, i: nat, n: nat): (r: nat)
    requires i <= n && forall k :: 0 <= k < n ==> Mapped(entries, k) < |t.legacy|
    ensures i <= r <= n
    ensures forall k :: i <= k < r ==> t.legacy[Mapped(entries, k)] != c
    ensures r < n ==> t.legacy[Mapped(entries, r)] == c
    decreases n - i
  {
    if i == n || t.legacy[Mapped(entries, i)] == c then i else FindMapped(entries, t, c, i + 1, n)
  }

  /** The bytes for `c`, and whether they stand for a substitute; nothing for what UTF-8 cannot encode. */
  ghost function Encoded(to: Charset, from: Charset, t: Tables, c: nat): (r: (seq<Byte>, bool))
    requires ValidCharset(to, t) && IsTarget(to) && c < 0x210000
  {
    match to
    case Unicode(Utf8) => (Wcrtomb(c), false)
    case Unicode(Wchar) => (Put32(c, HOST_ORDER), false)
    case Unicode(Utf32(e)) => (Put32(c, e), false)
    case Unicode(Utf16(e)) => (EncodeUnits(from, c, e), false)
    case Ucs2(e) => (EncodeUnits(from, c, e), false)
    case UsAscii => if c > 0x7f then (['*' as int], true) else ([c], false)
    case Codepage(elided, entries) =>
      if c < 128 + elided then ([c], false)
      else
        var i := FindMapped(entries, t, c, 0, 128 - elided);
        if i < 128 - elided then ([i + 128], false) else (['*' as int], true)
  }

  /** Sixteen-bit units; the test for UCS-2 is made on the source, not on the target. */
  function EncodeUnits(from: Charset, c: nat, e: nat): (r: seq<Byte>)
    requires c < 0x210000 && e < 2
    ensures |r| == 2 || |r| == 4
  {
    if c < 0x10000 then Put16(c, e)
    else if from.Ucs2? then Put16(0xfffd, e)
    else PutSurrogates(c, e)
  }

  /** One output step. The UTF-8 encoder reports failure as -1, which moves the output pointer back when there is room. */
  ghost function EncodeChar(to: Charset, from: Charset, t: Tables, c: nat, room: nat): (r: Out)
    requires ValidCharset(to, t) && IsTarget(to) && c < 0x210000
    ensures r.Emitted? ==> 0 < |r.bytes| <= room
  {
    var (bytes, substituted) := Encoded(to, from, t, c);
    if bytes == [] then if room < 4 then TooBig else Underrun
    else if |bytes| > room then TooBig
    else Emitted(bytes, substituted)
  }

  /** The bytes for `c` in a code page, found by searching the map from its start. */
  method SearchCodepage(elided: nat, entries: seq<Byte>, from: Charset, t: Tables, c: nat) returns (bytes: seq<Byte>, substituted: bool)
    requires ValidCharset(Codepage(elided, entries), t) && c < 0x210000
    ensures (bytes, substituted) == Encoded(Codepage(elided, entries), from, t, c)
  {
    if c < 128 + elided {
      return [c], false;
    }
    var i: nat := 0;
    while i < 128 - elided
      invariant i <= 128 - elided && FindMapped(entries, t, c, i, 128 - elided) == FindMapped(entries, t, c, 0, 128 - elided)
    {
      if t.legacy[Mapped(entries, i)] == c {
        return [i + 128], false;
      }
      i := i + 1;
    }
    return ['*' as int], true;
  }

  method PutUnit16(out: array<Byte>, at: nat, c: nat, e: nat)
    requires at + 2 <= out.Length && e < 2
    modifies out
    ensures Elements(out) == Overlay(old(Elements(out)), at, Put16(c, e))
  {
    out[at + e] := c / 0x100 % 0x100;
    out[at + 1 - e] := c % 0x100;
    WrittenAt(out, old(Elements(out)), at, Put16(c, e));
  }

  lemma UpdatesAt(e: nat, b0: Byte, b1: Byte, b2: Byte, b3: Byte)
    requires ValidForm(Utf32(e))
    ensures var r: seq<Byte> := [0, 0, 0, 0][e := b0][Xor(e, 1) := b1][Xor(e, 2) := b2][Xor(e, 3) := b3];
            r[e] == b0 && r[Xor(e, 1)] == b1 && r[Xor(e, 2)] == b2 && r[Xor(e, 3)] == b3
  {
    hide Xor;
    XorTable();
  }

  lemma Put32At(c: nat, e: nat)
    requires ValidForm(Utf32(e))
    ensures var r := Put32(c, e);
            && r[e] == c / 0x1000000 % 0x100 && r[Xor(e, 1)] == c / 0x10000 % 0x100
            && r[Xor(e, 2)] == c / 0x100 % 0x100 && r[Xor(e, 3)] == c % 0x100
  {
    hide Xor;
    UpdatesAt(e, c / 0x1000000 % 0x100, c / 0x10000 % 0x100, c / 0x100 % 0x100, c % 0x100);
  }

  method PutUnit32(out: array<Byte>, at: nat, c: nat, e: nat)
    requires at + 4 <= out.Length && ValidForm(Utf32(e))
    modifies out
    ensures Elements(out) == Overlay(old(Elements(out)), at, Put32(c, e))
  {
    hide Put32, Xor, Overlay;
    XorTable();
    Put32At(c, e);
    PutFour(out, at, e, c / 0x1000000 % 0x100, c / 0x10000 % 0x100, c / 0x100 % 0x100, c % 0x100);
    WrittenAt(out, old(Elements(out)), at, Put32(c, e));
  }

  method PutFour(out: array<Byte>, at: nat, e: nat, b0: Byte, b1: Byte, b2: Byte, b3: Byte)
    requires at + 4 <= out.Length && ValidForm(Utf32(e))
    modifies out
    ensures Xor(e, 1) < 4 && Xor(e, 2) < 4 && Xor(e, 3) < 4
    ensures out[at + e] == b0 && out[at + Xor(e, 1)] == b1 && out[at + Xor(e, 2)] == b2 && out[at + Xor(e, 3)] == b3
    ensures forall i :: 0 <= i < out.Length && !(at <= i < at + 4) ==> out[i] == old(out[i])
  {
    hide Xor;
    XorTable();
    out[at + e] := b0;
    out[at + Xor(e, 1)] := b1;
    out[at + Xor(e, 2)] := b2;
    out[at + Xor(e, 3)] := b3;
  }

  /** Byte by byte, as far as the character needs; -1, and nothing written, for what is not a scalar value. */
  method WcrtombInto(out: array<Byte>, at: nat, c: nat) returns (k: int)
    requires at + 4 <= out.Length
    modifies out
    ensures k == if IsScalar(c) then |Wcrtomb(c)| else -1
    ensures Elements(out) == Overlay(old(Elements(out)), at, Wcrtomb(c))
  {
    if c < 0x80 {
      out[at] := c;
      k := 1;
    } else if c < 0x800 {
      out[at] := 0xc0 + c / 0x40;
      out[at + 1] := 0x80 + c % 0x40;
      k := 2;
    } else if c < 0xd800 || 0xe000 <= c < 0x10000 {
      out[at] := 0xe0 + c / 0x1000;
      out[at + 1] := 0x80 + c / 0x40 % 0x40;
      out[at + 2] := 0x80 + c % 0x40;
      k := 3;
    } else if 0x10000 <= c < 0x110000 {
      out[at] := 0xf0 + c / 0x40000;
      out[at + 1] := 0x80 + c / 0x1000 % 0x40;
      out[at + 2] := 0x80 + c / 0x40 % 0x40;
      out[at + 3] := 0x80 + c % 0x40;
      k := 4;
    } else {
      k := -1;
    }
    WrittenAt(out, old(Elements(out)), at, Wcrtomb(c));
  }

  /** What an array holds after single assignments at its places from `at` on. */
  lemma WrittenAt(out: array<Byte>, was: seq<Byte>, at: nat, d: seq<Byte>)
    requires |was| == out.Length && at + |d| <= out.Length
    requires forall i :: 0 <= i < |d| ==> out[at + i] == d[i]
    requires forall i :: 0 <= i < out.Length && !(at <= i < at + |d|) ==> out[i] == was[i]
    ensures Elements(out) == Overlay(was, at, d)
  {
    forall i | 0 <= i < out.Length
      ensures out[i] == Overlay(was, at, d)[i]
    {
      OverlayAt(was, at, d, i);
      if at <= i < at + |d| {
        assert out[at + (i - at)] == d[i - at];
      }
    }
  }

  /** Into room for fewer than four bytes, a character goes through a buffer of its own. */
  method WriteUtf8(c: nat, out: array<Byte>, at: nat, room: nat) returns (r: Out)
    requires at + room <= out.Length
    modifies out
    ensures r == (if !IsScalar(c) then if room < 4 then TooBig else Underrun
                  else if |Wcrtomb(c)| > room then TooBig else Emitted(Wcrtomb(c), false))
    ensures Elements(out) == if r.Emitted? then Overlay(old(Elements(out)), at, r.bytes) else old(Elements(out))
  {
    hide Overlay, Elements, Wcrtomb;
    OverlayNothing(Elements(out), at);
    if room < 4 {
      var tmp := new Byte[4];
      ghost var was := Elements(tmp);
      var k := WcrtombInto(tmp, 0, c);
      if k == -1 || room < k {
        return TooBig;
      }
      WrittenFirst(was, Wcrtomb(c));
      ElementsPrefix(tmp, k);
      Copy(out, at, tmp[..k]);
    } else {
      var k := WcrtombInto(out, at, c);
      if k == -1 {
        return Underrun;
      }
    }
    return Emitted(Wcrtomb(c), false);
  }

  lemma WrittenFirst(was: seq<Byte>, d: seq<Byte>)
    requires |d| <= |was|
    ensures Overlay(was, 0, d)[..|d|] == d
  {
  }

  /** One unit of 16 bits, or two. */
  method WriteUnits(from: Charset, c: nat, e: nat, out: array<Byte>, at: nat, room: nat) returns (r: Out)
    requires c < 0x210000 && e < 2 && at + room <= out.Length
    modifies out
    ensures var bytes := EncodeUnits(from, c, e);
            r == if |bytes| > room then TooBig else Emitted(bytes, false)
    ensures Elements(out) == if r.Emitted? then Overlay(old(Elements(out)), at, r.bytes) else old(Elements(out))
  {
    hide Overlay, Elements, Put16;
    if c < 0x10000 || from.Ucs2? {
      if room < 2 {
        return TooBig;
      }
      PutUnit16(out, at, if c >= 0x10000 then 0xfffd else c, e);
      return Emitted(EncodeUnits(from, c, e), false);
    }
    if room < 4 {
      return TooBig;
    }
    var high, low := (c - 0x10000) / 0x400 + 0xd800, (c - 0x10000) % 0x400 + 0xdc00;
    PutUnit16(out, at, high, e);
    PutUnit16(out, at + 2, low, e);
    OverlayTwice(old(Elements(out)), at, Put16(high, e), Put16(low, e));
    return Emitted(PutSurrogates(c, e), false);
  }

  method WriteUnit32(c: nat, e: nat, out: array<Byte>, at: nat, room: nat) returns (r: Out)
    requires c < 0x210000 && ValidForm(Utf32(e)) && at + room <= out.Length
    modifies out
    ensures r == if room < 4 then TooBig else Emitted(Put32(c, e), false)
    ensures Elements(out) == if r.Emitted? then Overlay(old(Elements(out)), at, r.bytes) else old(Elements(out))
  {
    if room < 4 {
      return TooBig;
    }
    PutUnit32(out, at, c, e);
    return Emitted(Put32(c, e), false);
  }

  /** Writes one character at `out[at..]`, where there is room for `room` bytes. */
  method WriteChar(to: Charset, from: Charset, t: Tables, c: nat, out: array<Byte>, at: nat, room: nat) returns (r: Out)
    requires ValidCharset(to, t) && IsTarget(to) && c < 0x210000 && at + room <= out.Length
    modifies out
    ensures r == EncodeChar(to, from, t, c, room)
    ensures Elements(out) == if r.Emitted? then Overlay(old(Elements(out)), at, r.bytes) else old(Elements(out))
  {
    hide Overlay, Elements, Put16, Put32, EncodeUnits;
    match to {
      case Unicode(Utf8) => r := WriteUtf8(c, out, at, room);
      case Unicode(Utf16(e)) => r := WriteUnits(from, c, e, out, at, room);
      case Ucs2(e) => r := WriteUnits(from, c, e, out, at, room);
      case Unicode(Utf32(e)) => r := WriteUnit32(c, e, out, at, room);
      case Unicode(Wchar) => r := WriteUnit32(c, HOST_ORDER, out, at, room);
      case UsAscii =>
        var b, substituted := if c > 0x7f then '*' as int else c, c > 0x7f;
        if room < 1 {
          return TooBig;
        }
        Copy(out, at, [b]);
        return Emitted([b], substituted);
      case Codepage(elided, entries) =>
        if room < 1 {
          SearchEmitsOne(to, from, t, c);
          return TooBig;
        }
        var bytes, substituted := SearchCodepage(elided, entries, from, t, c);
        Copy(out, at, bytes);
        return Emitted(bytes, substituted);
    }
  }

  lemma SearchEmitsOne(to: Charset, from: Charset, t: Tables, c: nat)
    requires ValidCharset(to, t) && to.Codepage? && c < 0x210000
    ensures |Encoded(to, from, t, c).0| == 1
  {
  }
}
