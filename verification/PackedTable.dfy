/** The 8-bit code pages: tables of ten-bit indexes, packed without gaps, low bits first. */
module PackedTable {
  import opened Bytes

  /** Bit `j` of the packed table. */
  ghost function Bit(table: seq<Byte>, j: nat): nat
    requires j / 8 < |table|
  {
    table[j / 8] / Power2(j % 8) % 2
  }

  ghost function Power2(i: nat): (p: nat)
    ensures p > 0
  {
    if i == 0 then 1 else 2 * Power2(i - 1)
  }

  /** The number whose `n` bits, low bits first, are those of the table from bit `j` on. */
  ghost function BitsFrom(table: seq<Byte>, j: nat, n: nat): nat
    requires j + n <= 8 * |table|
    decreases n
  {
    if n == 0 then 0 else Bit(table, j) + 2 * BitsFrom(table, j + 1, n - 1)
  }

  /** The first byte shifted down, the second shifted up; the two parts share no bit, so "or" is a sum. */
  function Join(x: Byte, y: Byte, shift: nat): nat {
    match shift
    case 0 => x + y * 256 % 1024
    case 2 => x / 4 + y * 64 % 1024
    case 4 => x / 16 + y * 16 % 1024
    case _ => x / 64 + y * 4 % 1024
  }

  /** The lookup expression for the `c`-th entry. */
  function Field(table: seq<Byte>, c: nat): nat
    requires c * 5 / 4 + 1 < |table|
  {
    Join(table[c * 5 / 4], table[c * 5 / 4 + 1], 2 * c % 8)
  }

  lemma Powers()
    ensures Power2(0) == 1 && Power2(1) == 2 && Power2(2) == 4 && Power2(3) == 8 && Power2(4) == 16
    ensures Power2(5) == 32 && Power2(6) == 64 && Power2(7) == 128 && Power2(8) == 256
  {
    assert Power2(3) == 2 * Power2(2);
    assert Power2(5) == 2 * Power2(4) && Power2(7) == 2 * Power2(6);
  }

  lemma HalveAgain(x: nat, i: nat)
    requires i < 8
    ensures x / Power2(i + 1) == x / Power2(i) / 2
  {
    Powers();
  }

  lemma OneMoreBit(y: nat, m: nat)
    requires m > 0
    ensures y % 2 + 2 * (y / 2 % m) == y % (2 * m)
  {
    var q, r := y / 2 / m, y / 2 % m;
    assert y / 2 == m * q + r;
    assert y == 2 * m * q + (2 * r + y % 2) by {
      assert 2 * (m * q) == 2 * m * q;
    }
    RemainderIsUnique(y, 2 * m, q, 2 * r + y % 2);
  }

  lemma BitInByte(table: seq<Byte>, b: nat, i: nat)
    requires b < |table| && i < 8
    ensures (8 * b + i) / 8 == b && Bit(table, 8 * b + i) == table[b] / Power2(i) % 2
  {
    assert (8 * b + i) / 8 == b && (8 * b + i) % 8 == i;
  }

  /** Bits that lie in one byte. */
  lemma {:induction false} BitsInByte(table: seq<Byte>, b: nat, i: nat, n: nat)
    requires b < |table| && i + n <= 8
    ensures BitsFrom(table, 8 * b + i, n) == table[b] / Power2(i) % Power2(n)
    decreases n
  {
    hide Bit, Power2;
    if n == 0 {
      Powers();
    } else {
      BitInByte(table, b, i);
      BitsInByte(table, b, i + 1, n - 1);
      OneMoreInByte(table[b], i, n);
    }
  }

  lemma OneMoreInByte(x: nat, i: nat, n: nat)
    requires i < 8 && n > 0
    ensures x / Power2(i) % 2 + 2 * (x / Power2(i + 1) % Power2(n - 1)) == x / Power2(i) % Power2(n)
  {
    HalveAgain(x, i);
    OneMoreBit(x / Power2(i), Power2(n - 1));
  }

  lemma {:induction false} BitsJoin(table: seq<Byte>, j: nat, m: nat, n: nat)
    requires j + m + n <= 8 * |table|
    ensures BitsFrom(table, j, m + n) == BitsFrom(table, j, m) + Power2(m) * BitsFrom(table, j + m, n)
    decreases m
  {
    hide Bit;
    if m > 0 {
      BitsJoin(table, j + 1, m - 1, n);
      Associate(Power2(m - 1), BitsFrom(table, j + m, n));
    }
  }

  lemma Associate(p: nat, x: nat)
    ensures 2 * p * x == 2 * (p * x)
  {
  }

  /** The upper bits of one byte, and the lower bits of the next. */
  lemma BitsAcross(table: seq<Byte>, b: nat, shift: nat, high: nat)
    requires b + 1 < |table| && shift <= 8 && high <= 8
    ensures BitsFrom(table, 8 * b + shift, 8 - shift + high)
         == table[b] / Power2(shift) % Power2(8 - shift) + Power2(8 - shift) * (table[b + 1] % Power2(high))
  {
    hide BitsFrom;
    BitsJoin(table, 8 * b + shift, 8 - shift, high);
    BitsInByte(table, b, shift, 8 - shift);
    BitsInByte(table, b + 1, 0, high);
    Powers();
  }

  lemma TenBitsInTwoBytes(table: seq<Byte>, b: nat, shift: nat)
    requires b + 1 < |table| && shift in {0, 2, 4, 6}
    ensures BitsFrom(table, 8 * b + shift, 10) == Join(table[b], table[b + 1], shift)
  {
    hide *;
    BitsAcross(table, b, shift, 2 + shift);
    Powers();
    match shift {
      case 0 => Part0(table[b], table[b + 1]);
      case 2 => Part2(table[b], table[b + 1]);
      case 4 => Part4(table[b], table[b + 1]);
      case _ => Part6(table[b], table[b + 1]);
    }
  }

  /** The byte in which the `c`-th ten-bit number starts, and where in it. */
  lemma Place(c: nat)
    ensures c * 5 / 4 == 5 * (c / 4) + c % 4 && 2 * c % 8 == 2 * (c % 4)
  {
    var q, r := c / 4, c % 4;
    QuotientIsUnique(c * 5, 4, 5 * q + r, r);
    RemainderIsUnique(2 * c, 8, q, 2 * r);
  }

  lemma TenTimes(c: nat)
    ensures 10 * c == 8 * (c * 5 / 4) + 2 * c % 8 && 2 * c % 8 in {0, 2, 4, 6}
  {
    Place(c);
  }

  /** The lookup reads the `c`-th ten-bit number of the table, for every `c`. */
  lemma FieldIsTenBits(table: seq<Byte>, c: nat)
    requires c * 5 / 4 + 1 < |table|
    ensures 10 * c + 10 <= 8 * |table| && Field(table, c) == BitsFrom(table, 10 * c, 10)
  {
    hide BitsFrom, Join;
    TenTimes(c);
    TenBitsInTwoBytes(table, c * 5 / 4, 2 * c % 8);
  }

  /** Cutting `y * m` off at `m * k` leaves `m` times the low part of `y`. */
  lemma CutOff(y: nat, m: nat, k: nat)
    requires m > 0 && k > 0
    ensures m * k > 0 && y * m % (m * k) == m * (y % k)
  {
    var q, r := y / k, y % k;
    assert y == k * q + r;
    assert y * m == m * k * q + m * r by {
      assert (k * q + r) * m == k * q * m + r * m;
      assert k * q * m == m * k * q;
    }
    assert m * r < m * k by { assert r < k; }
    RemainderIsUnique(y * m, m * k, q, m * r);
  }

  // The two parts of the lookup, for each of the four places a ten-bit number can start in a byte.

  lemma Part0(x: Byte, y: Byte)
    ensures Join(x, y, 0) == x / 1 % 256 + 256 * (y % 4)
  {
    CutOff(y, 256, 4);
  }

  lemma Part2(x: Byte, y: Byte)
    ensures Join(x, y, 2) == x / 4 % 64 + 64 * (y % 16)
  {
    CutOff(y, 64, 16);
  }

  lemma Part4(x: Byte, y: Byte)
    ensures Join(x, y, 4) == x / 16 % 16 + 16 * (y % 64)
  {
    CutOff(y, 16, 64);
  }

  lemma Part6(x: Byte, y: Byte)
    ensures Join(x, y, 6) == x / 64 % 4 + 4 * (y % 256)
  {
    CutOff(y, 4, 256);
  }

  // ---------- Packing ----------

  /** Four ten-bit numbers in five bytes. */
  function PackFour(v: seq<nat>): (r: seq<Byte>)
    requires |v| == 4 && forall i :: 0 <= i < 4 ==> v[i] < 1024
    ensures |r| == 5
  {
    [v[0] % 256, v[0] / 256 + v[1] % 64 * 4, v[1] / 64 + v[2] % 16 * 16, v[2] / 16 + v[3] % 4 * 64, v[3] / 4]
  }

  function Pack(v: seq<nat>): (r: seq<Byte>)
    requires |v| % 4 == 0 && forall i :: 0 <= i < |v| ==> v[i] < 1024
    ensures |r| == |v| / 4 * 5
  {
    if v == [] then [] else PackFour(v[..4]) + Pack(v[4..])
  }

  /** Reading a packed table gives back what was packed. */
  lemma {:induction false} FieldOfPack(v: seq<nat>, c: nat)
    requires |v| % 4 == 0 && c < |v| && forall i :: 0 <= i < |v| ==> v[i] < 1024
    ensures c * 5 / 4 + 1 < |Pack(v)| && Field(Pack(v), c) == v[c]
  {
    hide Field, PackFour;
    if c < 4 {
      FieldOfFour(v[..4], Pack(v[4..]), c);
    } else {
      FieldOfPack(v[4..], c - 4);
      FieldFurther(PackFour(v[..4]), Pack(v[4..]), c - 4);
    }
  }

  lemma FieldOfFour(v: seq<nat>, rest: seq<Byte>, c: nat)
    requires |v| == 4 && c < 4 && forall i :: 0 <= i < 4 ==> v[i] < 1024
    ensures Field(PackFour(v) + rest, c) == v[c]
  {
    hide PackFour, Join;
    assert c / 4 == 0 && c % 4 == c;
    Place(c);
    PackFourBytes(v);
    match c {
      case 0 => Rejoin0(v[0], v[1] % 64);
      case 1 => Rejoin2(v[0] / 256, v[1], v[2] % 16);
      case 2 => Rejoin4(v[1] / 64, v[2], v[3] % 4);
      case _ => Rejoin6(v[2] / 16, v[3]);
    }
    assert (PackFour(v) + rest)[c * 5 / 4] == PackFour(v)[c] && (PackFour(v) + rest)[c * 5 / 4 + 1] == PackFour(v)[c + 1];
  }

  lemma PackFourBytes(v: seq<nat>)
    requires |v| == 4 && forall i :: 0 <= i < 4 ==> v[i] < 1024
    ensures var r := PackFour(v);
            && r[0] == v[0] % 256 && r[1] == v[0] / 256 + v[1] % 64 * 4 && r[2] == v[1] / 64 + v[2] % 16 * 16
            && r[3] == v[2] / 16 + v[3] % 4 * 64 && r[4] == v[3] / 4
  {
  }

  // A number cut in two, with its neighbours in the same bytes, is put together by the lookup.

  lemma Rejoin0(x: nat, after: nat)
    requires x < 1024 && after < 64
    ensures Join(x % 256, x / 256 + after * 4, 0) == x
  {
    CutOff(x / 256 + after * 4, 256, 4);
    RemainderIsUnique(x / 256 + after * 4, 4, after, x / 256);
  }

  lemma Rejoin2(before: nat, x: nat, after: nat)
    requires before < 4 && x < 1024 && after < 16
    ensures Join(before + x % 64 * 4, x / 64 + after * 16, 2) == x
  {
    CutOff(x / 64 + after * 16, 64, 16);
    RemainderIsUnique(x / 64 + after * 16, 16, after, x / 64);
    QuotientIsUnique(before + x % 64 * 4, 4, x % 64, before);
  }

  lemma Rejoin4(before: nat, x: nat, after: nat)
    requires before < 16 && x < 1024 && after < 4
    ensures Join(before + x % 16 * 16, x / 16 + after * 64, 4) == x
  {
    CutOff(x / 16 + after * 64, 16, 64);
    RemainderIsUnique(x / 16 + after * 64, 64, after, x / 16);
    QuotientIsUnique(before + x % 16 * 16, 16, x % 16, before);
  }

  lemma Rejoin6(before: nat, x: nat)
    requires before < 64 && x < 1024
    ensures Join(before + x % 4 * 64, x / 4, 6) == x
  {
    CutOff(x / 4, 4, 256);
    QuotientIsUnique(before + x % 4 * 64, 64, x % 4, before);
  }

  lemma FieldFurther(five: seq<Byte>, rest: seq<Byte>, c: nat)
    requires |five| == 5 && c * 5 / 4 + 1 < |rest|
    ensures (c + 4) * 5 / 4 + 1 < |five + rest| && Field(five + rest, c + 4) == Field(rest, c)
  {
    hide Join;
    FourFurther(c);
  }

  lemma FourFurther(c: nat)
    ensures (c + 4) * 5 / 4 == c * 5 / 4 + 5 && 2 * (c + 4) % 8 == 2 * c % 8
  {
    Place(c);
    Place(c + 4);
    QuotientIsUnique(c + 4, 4, c / 4 + 1, c % 4);
    RemainderIsUnique(c + 4, 4, c / 4 + 1, c % 4);
  }
}
