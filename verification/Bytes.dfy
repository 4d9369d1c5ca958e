/** Bytes, optional values and the big-endian integers that every packet is made of. */
module Bytes {

  type byte = x: int | 0 <= x < 256

  datatype Option<+T> = None | Some(value: T)

  /** The two bytes that `writeInt` stores for an int in the range of an unsigned short. */
  function WriteInt(n: int): (r: seq<byte>)
    requires 0 <= n < 65536
    ensures |r| == 2
  {
    [n / 256, n % 256]
  }

  /** `readInt`: the caller vouches for two readable bytes. */
  function ReadInt(s: seq<byte>): (r: int)
    requires |s| >= 2
    ensures 0 <= r < 65536
  {
    256 * (s[0] as int) + s[1] as int
  }

  lemma ReadWriteInt(n: int, rest: seq<byte>)
    requires 0 <= n < 65536
    ensures ReadInt(WriteInt(n) + rest) == n
    ensures (WriteInt(n) + rest)[2..] == rest
  {
    assert (WriteInt(n) + rest)[0] == n / 256 && (WriteInt(n) + rest)[1] == n % 256;
  }

  /** Conversion of an int to a byte, keeping the low eight bits. */
  function ToByte(a: int): byte {
    a % 256
  }

  /** Conversion of an unsigned int to int, as two's complement. */
  function ToSigned32(v: int): int
    requires 0 <= v < 0x1_0000_0000
  {
    if v < 0x8000_0000 then v else v - 0x1_0000_0000
  }

  /** The quotients `writeInt4` takes in turn, for a non-negative int. */
  function Quotients(n: int): (r: (int, int, int, int))
    requires 0 <= n <= 0x8000_0000
  {
    var b := n % 16777216;
    var c := b % 65536;
    (n / 16777216, b / 65536, c / 256, c % 256)
  }

  /** `writeInt4`, which takes its unsigned argument as a signed int. Division in C truncates, so the
      quotients and remainders of a negative int are those of its magnitude, negated. */
  function WriteInt4(v: int): (r: seq<byte>)
    requires 0 <= v < 0x1_0000_0000
    ensures |r| == 4
  {
    var a := ToSigned32(v);
    if a >= 0 then
      var q := Quotients(a);
      [ToByte(q.0), ToByte(q.1), ToByte(q.2), ToByte(q.3)]
    else
      var q := Quotients(-a);
      [ToByte(-q.0), ToByte(-q.1), ToByte(-q.2), ToByte(-q.3)]
  }

  /** `readInt4`, stored into an unsigned int. */
  function ReadInt4(s: seq<byte>): (r: int)
    requires |s| >= 4
    ensures 0 <= r < 0x1_0000_0000
  {
    16777216 * (s[0] as int) + 65536 * (s[1] as int) + 256 * (s[2] as int) + s[3] as int
  }

  /** The four-byte values that survive being written: `writeInt4` borrows wrongly on the others. */
  predicate Int4Survives(v: int) {
    v < 0x8000_0000 || v % 16777216 == 0
  }

  lemma QuotientsRecompose(n: int)
    requires 0 <= n <= 0x8000_0000
    ensures var q := Quotients(n);
      && 0 <= q.0 <= 128 && 0 <= q.1 < 256 && 0 <= q.2 < 256 && 0 <= q.3 < 256
      && n == 16777216 * q.0 + 65536 * q.1 + 256 * q.2 + q.3
  {
    var b := n % 16777216;
    var c := b % 65536;
    assert n == 16777216 * (n / 16777216) + b;
    assert b == 65536 * (b / 65536) + c;
    assert c == 256 * (c / 256) + c % 256;
  }

  function Negated(d: int): int {
    if d == 0 then 0 else 256 - d
  }

  /** Negating the digits one by one negates the number only if nothing is left below the first. */
  lemma NegatedDigits(a: int, b: int, c: int, d: int)
    requires 0 <= a <= 128 && 0 <= b < 256 && 0 <= c < 256 && 0 <= d < 256 && a + b + c + d > 0
    ensures
      (16777216 * Negated(a) + 65536 * Negated(b) + 256 * Negated(c) + Negated(d)
       == 0x1_0000_0000 - (16777216 * a + 65536 * b + 256 * c + d)) <==> b == c == d == 0
  {
  }

  lemma NegatedRemainder(v: int, a: int, t: int)
    requires v == 0x1_0000_0000 - 16777216 * a - t && 0 <= t < 16777216
    ensures v % 16777216 == 0 <==> t == 0
  {
    if t == 0 {
      assert v == 16777216 * (256 - a);
    } else {
      assert v == 16777216 * (255 - a) + (16777216 - t);
    }
  }

  lemma NegativeDigits(v: int)
    requires 0x8000_0000 <= v < 0x1_0000_0000
    ensures ReadInt4(WriteInt4(v)) == v <==> v % 16777216 == 0
  {
    var n := 0x1_0000_0000 - v;
    QuotientsRecompose(n);
    var q := Quotients(n);
    assert ToSigned32(v) == -n;
    hide Quotients, Negated;
    NegatedDigits(q.0, q.1, q.2, q.3);
    NegatedRemainder(v, q.0, 65536 * q.1 + 256 * q.2 + q.3);
    assert WriteInt4(v) == [Negated(q.0), Negated(q.1), Negated(q.2), Negated(q.3)] by {
      NegatedIsByte(q.0); NegatedIsByte(q.1); NegatedIsByte(q.2); NegatedIsByte(q.3);
    }
  }

  lemma NegatedIsByte(d: int)
    requires 0 <= d < 256
    ensures ToByte(-d) == Negated(d)
  {
  }

  lemma NonNegativeDigits(a: int)
    requires 0 <= a < 0x8000_0000
    ensures ReadInt4(WriteInt4(a)) == a
  {
    QuotientsRecompose(a);
    var q := Quotients(a);
    hide Quotients;
    assert WriteInt4(a) == [q.0, q.1, q.2, q.3];
  }

  /** Writing and reading a four-byte integer gives it back exactly for the surviving values. */
  lemma ReadWriteInt4(v: int, rest: seq<byte>)
    requires 0 <= v < 0x1_0000_0000
    ensures ReadInt4(WriteInt4(v) + rest) == v <==> Int4Survives(v)
    ensures (WriteInt4(v) + rest)[4..] == rest
  {
    var w := WriteInt4(v);
    assert ReadInt4(w + rest) == ReadInt4(w);
    hide WriteInt4;
    if v < 0x8000_0000 { NonNegativeDigits(v); } else { NegativeDigits(v); }
  }
}
