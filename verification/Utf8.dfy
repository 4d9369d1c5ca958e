/** UTF-8 validation (section 4 of RFC 3629): the table and the loops of utf-8.c, and the encoding they stand for. */
module Utf8 {
  import opened Bytes

  // ----- the encoding -----

  /** A Unicode scalar value: not a surrogate. */
  predicate Scalar(c: int) {
    0 <= c < 0xD800 || 0xE000 <= c < 0x110000
  }

  function Encode(c: int): (r: seq<byte>)
    requires Scalar(c)
    ensures 1 <= |r| <= 4
  {
    if c < 0x80 then [c]
    else if c < 0x800 then [0xC0 + c / 64, 0x80 + c % 64]
    else if c < 0x10000 then [0xE0 + c / 4096, 0x80 + c / 64 % 64, 0x80 + c % 64]
    else [0xF0 + c / 262144, 0x80 + c / 4096 % 64, 0x80 + c / 64 % 64, 0x80 + c % 64]
  }

  predicate Scalars(cs: seq<int>) {
    forall i :: 0 <= i < |cs| ==> Scalar(cs[i])
  }

  function EncodeAll(cs: seq<int>): seq<byte>
    requires Scalars(cs)
  {
    if |cs| == 0 then [] else Encode(cs[0]) + EncodeAll(cs[1..])
  }

  // ----- the table -----

  /** A row of valid_ranges: the bounds for each byte of a character. */
  type Row = seq<(int, int)>

  const VALID_RANGES: seq<Row> := [
    [(0x00, 0x7F)],
    [(0xC2, 0xDF), (0x80, 0xBF)],
    [(0xE0, 0xE0), (0xA0, 0xBF), (0x80, 0xBF)],
    [(0xE1, 0xEC), (0x80, 0xBF), (0x80, 0xBF)],
    [(0xED, 0xED), (0x80, 0x9F), (0x80, 0xBF)],
    [(0xEE, 0xEF), (0x80, 0xBF), (0x80, 0xBF)],
    [(0xF0, 0xF0), (0x90, 0xBF), (0x80, 0xBF), (0x80, 0xBF)],
    [(0xF1, 0xF3), (0x80, 0xBF), (0x80, 0xBF), (0x80, 0xBF)],
    [(0xF4, 0xF4), (0x80, 0x8F), (0x80, 0xBF), (0x80, 0xBF)]
  ]

  /** The value of a char, which may be a signed type. */
  function Char(b: int, signed: bool): int {
    if signed && b >= 128 then b - 256 else b
  }

  /** How many bytes the first byte calls for. */
  function CharLength(b: byte): (r: int)
    ensures 1 <= r <= 4
  {
    if b < 0x80 then 1 else if b >= 0xF0 then 4 else if b >= 0xE0 then 3 else 2
  }

  predicate Fits(row: Row, d: seq<byte>) {
    |row| <= |d| && forall j :: 0 <= j < |row| ==> row[j].0 <= d[j] <= row[j].1
  }

  /** The length of the character at the start of the data, or 0 if there is none. */
  function CharAt(d: seq<byte>): (r: int)
    ensures 0 <= r <= |d| && r <= 4
  {
    if |d| > 0 && CharLength(d[0]) <= |d|
      && (exists i :: 0 <= i < |VALID_RANGES| && |VALID_RANGES[i]| == CharLength(d[0]) && Fits(VALID_RANGES[i], d))
    then CharLength(d[0]) else 0
  }

  /** Comparing chars gives what comparing bytes gives, whether char is signed or not: the bounds of a byte
      are on the same side of 128. */
  lemma SignDoesNotMatter(i: int, j: int, b: byte, signed: bool)
    requires 0 <= i < |VALID_RANGES| && 0 <= j < |VALID_RANGES[i]|
    requires i == 0 ==> b < 128
    ensures var (lower, upper) := VALID_RANGES[i][j];
      (Char(b, signed) < Char(lower, signed) || Char(b, signed) > Char(upper, signed)) <==> !(lower <= b <= upper)
  {
    var row := VALID_RANGES[i];
    assert i == 0 || (128 <= row[j].0 && 128 <= row[j].1);
  }

  /** UTF8_char_validate. */
  method CharValidate(d: seq<byte>, signed: bool) returns (r: int)
    requires |d| > 0
    ensures r == CharAt(d)
  {
    var charlen := CharLength(d[0]);
    if charlen > |d| { return 0; }
    for i := 0 to |VALID_RANGES|
      invariant forall k :: 0 <= k < i ==> !(|VALID_RANGES[k]| == charlen && Fits(VALID_RANGES[k], d))
    {
      if |VALID_RANGES[i]| == charlen {
        var good := true;
        var j := 0;
        while j < charlen && good
          invariant 0 <= j <= charlen
          invariant good ==> forall k :: 0 <= k < j ==> VALID_RANGES[i][k].0 <= d[k] <= VALID_RANGES[i][k].1
          invariant !good ==> !Fits(VALID_RANGES[i], d)
          decreases charlen - j, good
        {
          FirstRow(i, d[0]);
          SignDoesNotMatter(i, j, d[j], signed);
          var (lower, upper) := VALID_RANGES[i][j];
          if Char(d[j], signed) < Char(lower, signed) || Char(d[j], signed) > Char(upper, signed) {
            good := false;
          } else {
            j := j + 1;
          }
        }
        if good {
          assert Fits(VALID_RANGES[i], d);
          return charlen;
        }
      }
    }
    return 0;
  }

  lemma FirstRow(i: int, b: byte)
    requires 0 <= i < |VALID_RANGES| && |VALID_RANGES[i]| == CharLength(b)
    ensures i == 0 <==> b < 128
  {
  }

  // ----- the table stands for the encoding -----

  /** The row for a scalar value. */
  function RowOf(c: int): int
    requires Scalar(c)
  {
    if c < 0x80 then 0 else if c < 0x800 then 1
    else if c < 0x1000 then 2 else if c < 0xD000 then 3 else if c < 0xD800 then 4 else if c < 0x10000 then 5
    else if c < 0x40000 then 6 else if c < 0x100000 then 7 else 8
  }

  lemma EncodedFits(c: int)
    requires Scalar(c)
    ensures var e := Encode(c); CharLength(e[0]) == |e| == |VALID_RANGES[RowOf(c)]| && Fits(VALID_RANGES[RowOf(c)], e)
  {
    if c >= 0x10000 {
      FourBytes(c);
    } else if c >= 0x800 {
      ThreeBytes(c);
    }
  }

  lemma ThreeBytes(c: int)
    requires 0x800 <= c < 0x10000
    ensures var a, b := c / 4096, c / 64 % 64;
      && c == 4096 * a + 64 * b + c % 64 && 0 <= b < 64
      && (c < 0x1000 ==> a == 0 && 32 <= b) && (0x1000 <= c < 0xD000 ==> 1 <= a <= 12)
      && (0xD000 <= c < 0xD800 ==> a == 13 && b < 32) && (c >= 0xE000 ==> 14 <= a <= 15)
  {
    assert c / 64 / 64 == c / 4096;
  }

  lemma FourBytes(c: int)
    requires 0x10000 <= c < 0x110000
    ensures var a, b := c / 262144, c / 4096 % 64;
      && c == 262144 * a + 4096 * b + 64 * (c / 64 % 64) + c % 64 && 0 <= b < 64
      && (c < 0x40000 ==> a == 0 && 16 <= b) && (0x40000 <= c < 0x100000 ==> 1 <= a <= 3)
      && (c >= 0x100000 ==> a == 4 && b < 16)
  {
    assert c / 64 / 64 == c / 4096 && c / 4096 / 64 == c / 262144;
  }

  /** The encoding of a scalar value is accepted as one character, whatever follows. */
  lemma EncodedAccepted(c: int, rest: seq<byte>)
    requires Scalar(c)
    ensures CharAt(Encode(c) + rest) == |Encode(c)|
  {
    EncodedFits(c);
    hide Encode;
    var e, d := Encode(c), Encode(c) + rest;
    assert forall j :: 0 <= j < |e| ==> d[j] == e[j];
    assert Fits(VALID_RANGES[RowOf(c)], d);
  }

  /** The payload bits of a byte whose marker bits have the given value. */
  function Bits(b: byte, marker: int): int {
    b as int - marker
  }

  /** What the bytes of a character encode. */
  function Decode(d: seq<byte>, k: int): int
    requires 1 <= k <= 4 && k <= |d|
  {
    if k == 1 then d[0]
    else if k == 2 then Bits(d[0], 0xC0) * 64 + Bits(d[1], 0x80)
    else if k == 3 then Bits(d[0], 0xE0) * 4096 + Bits(d[1], 0x80) * 64 + Bits(d[2], 0x80)
    else Bits(d[0], 0xF0) * 262144 + Bits(d[1], 0x80) * 4096 + Bits(d[2], 0x80) * 64 + Bits(d[3], 0x80)
  }

  /** What the row of an accepted character says of its bytes. */
  lemma AcceptedRow(d: seq<byte>) returns (i: int)
    requires CharAt(d) > 0
    ensures 0 <= i < |VALID_RANGES| && |VALID_RANGES[i]| == CharAt(d) <= |d|
    ensures var row := VALID_RANGES[i]; forall j :: 0 <= j < |row| ==> row[j].0 <= d[j] <= row[j].1
  {
    i :| 0 <= i < |VALID_RANGES| && |VALID_RANGES[i]| == CharAt(d) && Fits(VALID_RANGES[i], d);
  }

  lemma FourDecoded(d: seq<byte>, i: int)
    requires |d| >= 4 && 6 <= i <= 8
    requires var row := VALID_RANGES[i]; forall j :: 0 <= j < 4 ==> row[j].0 <= d[j] <= row[j].1
    ensures Scalar(Decode(d, 4)) && Encode(Decode(d, 4)) == d[..4]
  {
    var row := VALID_RANGES[i];
    var a, b, e, f := Bits(d[0], 0xF0), Bits(d[1], 0x80), Bits(d[2], 0x80), Bits(d[3], 0x80);
    assert row[0].0 <= d[0] <= row[0].1 && row[1].0 <= d[1] <= row[1].1 && row[2].0 <= d[2] <= row[2].1
        && row[3].0 <= d[3] <= row[3].1;
    assert 0 <= b < 64 && 0 <= e < 64 && 0 <= f < 64 && 0 <= a <= 4;
    var c := Decode(d, 4);
    Digits(a * 4096 + b * 64 + e, f);
    Digits(a * 64 + b, e);
    Digits(a, b);
    assert c / 4096 == c / 64 / 64 && c / 262144 == c / 4096 / 64;
  }

  lemma ThreeDecoded(d: seq<byte>, i: int)
    requires |d| >= 3 && 2 <= i <= 5
    requires var row := VALID_RANGES[i]; forall j :: 0 <= j < 3 ==> row[j].0 <= d[j] <= row[j].1
    ensures Scalar(Decode(d, 3)) && Encode(Decode(d, 3)) == d[..3]
  {
    var row := VALID_RANGES[i];
    var a, b, e := Bits(d[0], 0xE0), Bits(d[1], 0x80), Bits(d[2], 0x80);
    assert row[0].0 <= d[0] <= row[0].1 && row[1].0 <= d[1] <= row[1].1 && row[2].0 <= d[2] <= row[2].1;
    assert 0 <= b < 64 && 0 <= e < 64 && 0 <= a <= 15;
    var c := Decode(d, 3);
    Digits(a * 64 + b, e);
    Digits(a, b);
    assert c / 4096 == c / 64 / 64;
  }

  lemma Digits(a: int, b: int)
    requires 0 <= a && 0 <= b < 64
    ensures (a * 64 + b) / 64 == a && (a * 64 + b) % 64 == b
  {
  }

  /** A character that is accepted is the encoding of a scalar value. */
  lemma AcceptedIsEncoded(d: seq<byte>)
    requires CharAt(d) > 0
    ensures var k := CharAt(d); 1 <= k <= 4 && k <= |d| && Scalar(Decode(d, k)) && Encode(Decode(d, k)) == d[..k]
  {
    var i := AcceptedRow(d);
    var k, row := CharAt(d), VALID_RANGES[i];
    hide CharAt;
    if k == 4 {
      FourDecoded(d, i);
    } else if k == 3 {
      ThreeDecoded(d, i);
    } else if k == 2 {
      assert row[0].0 <= d[0] <= row[0].1 && row[1].0 <= d[1] <= row[1].1;
      Digits(Bits(d[0], 0xC0), Bits(d[1], 0x80));
    } else {
      assert row[0].0 <= d[0] <= row[0].1;
    }
  }

  // ----- whole strings -----

  /** UTF8_validate, as a function of the bytes. */
  predicate Valid(d: seq<byte>)
    decreases |d|
  {
    |d| == 0 || (CharAt(d) > 0 && Valid(d[CharAt(d)..]))
  }

  /** UTF8_validate. */
  method Validate(data: seq<byte>, signed: bool) returns (r: bool)
    ensures r == Valid(data)
  {
    hide CharAt, Valid;
    ValidStep(data, 0);
    if |data| == 0 { return true; }
    var pos := 0;
    var n := CharValidate(data, signed);
    while n > 0 && pos + n < |data|
      invariant 0 <= pos < |data| && n == CharAt(data[pos..]) && 0 <= n <= |data| - pos
      invariant Valid(data) == Valid(data[pos..])
      invariant Valid(data[pos..]) == (n > 0 && Valid(data[pos + n..]))
      decreases |data| - pos
    {
      pos := pos + n;
      n := CharValidate(data[pos..], signed);
      ValidStep(data, pos);
    }
    if n > 0 { ValidStep(data, |data|); }
    r := n > 0;
  }

  lemma ValidStep(data: seq<byte>, pos: int)
    requires 0 <= pos <= |data|
    ensures var n := CharAt(data[pos..]);
      && 0 <= n <= |data| - pos && (pos == 0 ==> data[pos..] == data)
      && Valid(data[pos..]) == (pos == |data| || (n > 0 && Valid(data[pos + n..])))
  {
    var n := CharAt(data[pos..]);
    assert data[pos..][n..] == data[pos + n..];
  }

  lemma {:induction false} EncodingValid(cs: seq<int>)
    requires Scalars(cs)
    ensures Valid(EncodeAll(cs))
  {
    if |cs| > 0 {
      EncodingValid(cs[1..]);
      EncodedAccepted(cs[0], EncodeAll(cs[1..]));
      hide CharAt, Encode;
      var e := Encode(cs[0]);
      assert (e + EncodeAll(cs[1..]))[|e|..] == EncodeAll(cs[1..]);
    }
  }

  lemma {:induction false} ValidIsEncoding(d: seq<byte>) returns (cs: seq<int>)
    requires Valid(d)
    ensures Scalars(cs) && EncodeAll(cs) == d
    decreases |d|
  {
    hide CharAt, Encode, Decode, Scalar;
    if |d| == 0 {
      cs := [];
    } else {
      AcceptedIsEncoded(d);
      var k := CharAt(d);
      var more := ValidIsEncoding(d[k..]);
      cs := [Decode(d, k)] + more;
      assert cs[1..] == more && d == d[..k] + d[k..];
    }
  }

  /** A byte string is accepted exactly when it is the encoding of some sequence of Unicode scalar values. */
  lemma ValidIffEncoding(d: seq<byte>)
    ensures Valid(d) <==> exists cs :: Scalars(cs) && EncodeAll(cs) == d
  {
    if Valid(d) {
      var cs := ValidIsEncoding(d);
    }
    if cs :| Scalars(cs) && EncodeAll(cs) == d {
      EncodingValid(cs);
    }
  }
}
