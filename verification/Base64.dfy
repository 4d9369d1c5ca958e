/** The portable Base64 encoder and decoder of Base64.c (section 4 of RFC 4648). */
module Base64 {
  import opened Bytes

  const PAD: byte := 61      // '='
  const NOT_VALID := 64

  /** BASE64_ENCODE_TABLE; index 64 is the padding character. */
  function EncodeTable(v: int): (r: byte)
    requires 0 <= v <= 64
  {
    if v < 26 then 65 + v else if v < 52 then 97 + (v - 26) else if v < 62 then 48 + (v - 52)
    else if v == 62 then 43 else if v == 63 then 47 else PAD
  }

  /** BASE64_DECODE_TABLE. */
  function DecodeTable(c: byte): (r: int)
    ensures 0 <= r <= NOT_VALID
  {
    if 65 <= c <= 90 then c as int - 65 else if 97 <= c <= 122 then c as int - 97 + 26
    else if 48 <= c <= 57 then c as int - 48 + 52
    else if c == 43 then 62 else if c == 47 then 63 else NOT_VALID
  }

  lemma DecodeEncodeTable(v: int)
    requires 0 <= v <= 64
    ensures DecodeTable(EncodeTable(v)) == v && (EncodeTable(v) == PAD <==> v == 64)
  {
  }

  // ----- groups of three bytes -----

  /** The four indexes for up to three bytes; missing bytes give padding. */
  function Indexes(g: seq<byte>): (r: seq<int>)
    requires 1 <= |g| <= 3
    ensures |r| == 4 && (forall i :: 0 <= i < 4 ==> 0 <= r[i] <= 64) && r[0] < 64 && r[1] < 64
  {
    if |g| == 1 then [g[0] / 4, g[0] % 4 * 16, 64, 64]
    else if |g| == 2 then [g[0] / 4, g[0] % 4 * 16 + g[1] / 16, g[1] % 16 * 4, 64]
    else [g[0] / 4, g[0] % 4 * 16 + g[1] / 16, g[1] % 16 * 4 + g[2] / 64, g[2] % 64]
  }

  function EncodeGroup(g: seq<byte>): (r: seq<byte>)
    requires 1 <= |g| <= 3
    ensures |r| == 4
  {
    var c := Indexes(g);
    [EncodeTable(c[0]), EncodeTable(c[1]), EncodeTable(c[2]), EncodeTable(c[3])]
  }

  /** The first byte: two bits of the second index joined to the first by or. The parts overlap only if the second
      character is outside the alphabet, whose index has a third bit. High bits are lost, as in C. */
  function FirstByte(c0: int, c1: int): byte
    requires 0 <= c0 <= 64 && 0 <= c1 <= 64
  {
    if c1 == NOT_VALID && c0 % 2 == 1 then c0 * 4 % 256 else (c0 * 4 + c1 / 16) % 256
  }

  /** The bytes that four indexes stand for. */
  function DecodeIndexes(c: seq<int>): (r: seq<byte>)
    requires |c| == 4 && forall i :: 0 <= i < 4 ==> 0 <= c[i] <= 64
    ensures 1 <= |r| <= 3
  {
    var b0 := FirstByte(c[0], c[1]);
    if c[2] == NOT_VALID then [b0]
    else
      var b1: byte := c[1] % 16 * 16 + c[2] / 4;
      if c[3] == NOT_VALID then [b0, b1] else [b0, b1, c[2] % 4 * 64 + c[3]]
  }

  lemma IndexesRoundTrip(g: seq<byte>)
    requires 1 <= |g| <= 3
    ensures DecodeIndexes(Indexes(g)) == g
  {
    var x := g[0] as int;
    assert x == x / 4 * 4 + x % 4;
    if |g| >= 2 {
      var y := g[1] as int;
      assert y == y / 16 * 16 + y % 16 && (x % 4 * 16 + y / 16) / 16 == x % 4 && (x % 4 * 16 + y / 16) % 16 == y / 16;
      if |g| == 3 {
        var z := g[2] as int;
        assert z == z / 64 * 64 + z % 64 && (y % 16 * 4 + z / 64) / 4 == y % 16 && (y % 16 * 4 + z / 64) % 4 == z / 64;
      }
    }
  }

  // ----- whole strings -----

  function Encode(s: seq<byte>): (r: seq<byte>) {
    if |s| == 0 then []
    else if |s| <= 3 then EncodeGroup(s)
    else EncodeGroup(s[..3]) + Encode(s[3..])
  }

  function TableAt(s: seq<byte>): (r: seq<int>)
    requires |s| >= 4
    ensures |r| == 4 && forall i :: 0 <= i < 4 ==> 0 <= r[i] <= 64
  {
    [DecodeTable(s[0]), DecodeTable(s[1]), DecodeTable(s[2]), DecodeTable(s[3])]
  }

  /** Decoding stops at the first group with padding. */
  function Decode(s: seq<byte>): (r: seq<byte>) {
    if |s| < 4 then []
    else
      var g := DecodeIndexes(TableAt(s));
      g + if |g| < 3 then [] else Decode(s[4..])
  }

  lemma GroupRoundTrip(g: seq<byte>, rest: seq<byte>)
    requires 1 <= |g| <= 3
    ensures DecodeIndexes(TableAt(EncodeGroup(g) + rest)) == g
  {
    var c := Indexes(g);
    DecodeEncodeTable(c[0]);
    DecodeEncodeTable(c[1]);
    DecodeEncodeTable(c[2]);
    DecodeEncodeTable(c[3]);
    hide Indexes, EncodeTable, DecodeTable, DecodeIndexes;
    assert TableAt(EncodeGroup(g) + rest) == c;
    IndexesRoundTrip(g);
  }

  /** Decoding an encoded byte string gives it back. */
  lemma {:induction false} DecodeEncode(s: seq<byte>)
    ensures Decode(Encode(s)) == s
  {
    hide EncodeGroup, DecodeIndexes, TableAt;
    if 0 < |s| <= 3 {
      GroupRoundTrip(s, []);
      GroupLength(s);
      assert EncodeGroup(s) + [] == EncodeGroup(s) && EncodeGroup(s)[4..] == [];
    } else if |s| > 3 {
      DecodeEncode(s[3..]);
      GroupRoundTrip(s[..3], Encode(s[3..]));
      GroupLength(s[..3]);
      assert (EncodeGroup(s[..3]) + Encode(s[3..]))[4..] == Encode(s[3..]);
      assert s == s[..3] + s[3..];
    }
  }

  lemma GroupLength(g: seq<byte>)
    requires 1 <= |g| <= 3
    ensures |EncodeGroup(g)| == 4
  {
  }

  // ----- lengths -----

  lemma {:induction false} EncodedLength(s: seq<byte>)
    ensures |Encode(s)| == (|s| + 2) / 3 * 4
  {
    if |s| > 3 {
      EncodedLength(s[3..]);
      assert (|s| + 2) / 3 == (|s| - 3 + 2) / 3 + 1;
    }
  }

  /** Base64_encodeLength, on 32-bit unsigned integers. */
  function EncodeLength(n: int): (r: int)
    requires 0 <= n < 0x1_0000_0000
  {
    (4 * n % 0x1_0000_0000 / 3 + 3) / 4 * 4
  }

  /** The length announced is that of the encoding, for exactly the lengths whose fourfold fits in 32 bits. */
  lemma EncodeLengthExact(n: int)
    requires 0 <= n < 0x1_0000_0000
    ensures EncodeLength(n) == (n + 2) / 3 * 4 <==> n < 0x4000_0000
  {
    if n < 0x4000_0000 {
      LengthOfThirds(n / 3, n % 3);
      assert 4 * n % 0x1_0000_0000 == 4 * n;
    } else {
      var w := 4 * n % 0x1_0000_0000;
      assert w <= 4 * n - 0x1_0000_0000;
      RoundedUp(w / 3);
      assert 3 * ((n + 2) / 3) >= n;
    }
  }

  /** Four characters for every three bytes begun. */
  lemma LengthOfThirds(q: int, r: int)
    requires 0 <= q && 0 <= r < 3
    ensures var n := 3 * q + r; (4 * n / 3 + 3) / 4 * 4 == (n + 2) / 3 * 4
  {
    var n, more := 3 * q + r, if r == 0 then 0 else 1;
    Third(4 * n, 4 * q + r);
    Quarter(4 * q + r + 3, q + more);
    Third(n + 2, q + more);
  }

  lemma Third(x: int, q: int)
    requires 3 * q <= x < 3 * q + 3
    ensures x / 3 == q
  {
  }

  lemma Quarter(x: int, q: int)
    requires 4 * q <= x < 4 * q + 4
    ensures x / 4 == q
  {
  }

  lemma RoundedUp(x: int)
    ensures (x + 3) / 4 * 4 <= x + 3
  {
  }

  /** Base64_decodeLength. */
  function DecodeLength(s: seq<byte>): (r: int) {
    |s| / 4 * 3 - (if |s| > 1 && s[|s| - 2] == PAD then 1 else 0) - (if |s| > 0 && s[|s| - 1] == PAD then 1 else 0)
  }

  lemma GroupPadding(g: seq<byte>)
    requires 1 <= |g| <= 3
    ensures var e := EncodeGroup(g); (e[2] == PAD <==> |g| == 1) && (e[3] == PAD <==> |g| <= 2)
  {
    var c := Indexes(g);
    DecodeEncodeTable(c[2]);
    DecodeEncodeTable(c[3]);
  }

  /** The decoded length announced for an encoding is that of the original. */
  lemma {:induction false} DecodeLengthExact(s: seq<byte>)
    ensures DecodeLength(Encode(s)) == |s|
  {
    if 0 < |s| <= 3 {
      GroupPadding(s);
    } else if |s| > 3 {
      DecodeLengthExact(s[3..]);
      EncodedLength(s[3..]);
      hide EncodeGroup;
      GroupLength(s[..3]);
      var e, more := Encode(s), Encode(s[3..]);
      assert e == EncodeGroup(s[..3]) + more && |more| >= 4;
      assert e[|e| - 1] == more[|more| - 1] && e[|e| - 2] == more[|more| - 2];
      assert |e| / 4 == |more| / 4 + 1;
    }
  }

  // ----- the loops -----

  /** How many characters Base64_encode reports for an encoding of length n: all of them, or if there is no room for
      all, those of whole groups that fill the buffer exactly, or none. */
  function Reported(n: nat, outLen: nat): nat {
    if n <= outLen then n else if outLen % 4 == 0 then outLen else 0
  }

  /** Base64_encode into a buffer of the given size. */
  method EncodeLoop(s: seq<byte>, outLen: nat) returns (ret: nat, out: seq<byte>)
    ensures ret == Reported(|Encode(s)|, outLen) <= |Encode(s)| && (ret > 0 ==> out == Encode(s)[..ret])
  {
    hide Encode, EncodeGroup, Reported;
    out := [];
    var pos, count := 0, 0;
    ghost var groups := 0;
    EncodeStep(s, 0);
    while pos < |s| && count < outLen
      invariant 0 <= pos <= |s| && count == 4 * groups && count < outLen + 4
      invariant count + |Encode(s[pos..])| == |Encode(s)|
      invariant count <= outLen ==> |out| == count && Encode(s) == out + Encode(s[pos..])
      decreases |s| - pos
    {
      var n := if |s| - pos < 3 then |s| - pos else 3;
      EncodeStep(s, pos);
      var chars := EncodeGroup(s[pos..pos + n]);
      GroupLength(s[pos..pos + n]);
      pos := pos + n;
      count := count + 4;
      groups := groups + 1;
      if count <= outLen {
        out := out + chars;
      }
    }
    EncodeStep(s, pos);
    ret := if count <= outLen then count else 0;
    ReportedIs(groups, |Encode(s)|, outLen, pos == |s|);
  }

  lemma ReportedIs(groups: nat, n: nat, outLen: nat, all: bool)
    requires 4 * groups < outLen + 4 && 4 * groups <= n && (all ==> n == 4 * groups) && (!all ==> 4 * groups >= outLen)
    requires !all ==> n > 4 * groups
    ensures Reported(n, outLen) == if 4 * groups <= outLen then 4 * groups else 0
  {
  }

  lemma EncodeStep(s: seq<byte>, pos: int)
    requires 0 <= pos <= |s|
    ensures pos == 0 ==> s[pos..] == s
    ensures pos == |s| ==> Encode(s[pos..]) == []
    ensures pos < |s| ==> |Encode(s[pos..])| > 0
    ensures pos < |s| ==>
      var n := if |s| - pos < 3 then |s| - pos else 3;
      Encode(s[pos..]) == EncodeGroup(s[pos..pos + n]) + Encode(s[pos + n..])
  {
    hide EncodeGroup;
    if pos < |s| {
      var n := if |s| - pos < 3 then |s| - pos else 3;
      GroupLength(s[pos..pos + n]);
      assert s[pos..][..n] == s[pos..pos + n] && s[pos..][n..] == s[pos + n..];
      if |s| - pos <= 3 {
        assert s[pos..pos + n] == s[pos..] && s[pos + n..] == [];
        assert EncodeGroup(s[pos..]) + [] == EncodeGroup(s[pos..]);
      }
    }
  }

  /** The bytes of one group, as far as there is room. */
  method DecodeGroup(c: seq<int>, written: seq<byte>, outLen: nat) returns (out: seq<byte>, stop: bool)
    requires |c| == 4 && (forall i :: 0 <= i < 4 ==> 0 <= c[i] <= 64) && |written| < outLen
    ensures var g := DecodeIndexes(c); var room := outLen - |written|;
      out == written + (if |g| <= room then g else g[..room]) && (|g| < room ==> stop == (|g| < 3))
  {
    stop := false;
    var b0 := FirstByte(c[0], c[1]);
    out := written + [b0];
    if |out| < outLen {
      if c[2] < NOT_VALID {
        var b1: byte := c[1] % 16 * 16 + c[2] / 4;
        out := out + [b1];
        if |out| < outLen {
          if c[3] < NOT_VALID {
            var b2: byte := c[2] % 4 * 64 + c[3];
            out := out + [b2];
          } else {
            stop := true;
          }
        }
      } else {
        stop := true;
      }
    }
  }

  /** Base64_decode into a buffer of the given size: as much of the decoded string as fits. */
  method DecodeLoop(s: seq<byte>, outLen: nat) returns (out: seq<byte>)
    ensures out == Cut(Decode(s), outLen)
  {
    hide Decode, TableAt, DecodeIndexes;
    out := [];
    var pos := 0;
    var stop := false;
    DecodeStep(s, 0);
    CutNone(Decode(s), outLen);
    while |s| - pos > 3 && !stop && |out| < outLen
      invariant 0 <= pos <= |s| && |out| <= outLen && |out| == |Cut(out, outLen)|
      invariant |out| == outLen ==> out == Cut(Decode(s), outLen)
      invariant |out| < outLen ==> Decode(s) == out + if stop then [] else Decode(s[pos..])
      decreases |s| - pos
    {
      DecodeStep(s, pos);
      ghost var g := DecodeIndexes(TableAt(s[pos..]));
      ghost var more := if |g| < 3 then [] else Decode(s[pos + 4..]);
      TableBounds(s[pos..]);
      Filled(Decode(s), out, g, more, outLen);
      out, stop := DecodeGroup(TableAt(s[pos..]), out, outLen);
      pos := pos + 4;
    }
    DecodeStep(s, pos);
    assert |out| < outLen ==> Decode(s) == out + [];
  }

  /** As much of a string as fits. */
  function Cut(d: seq<byte>, room: nat): seq<byte> {
    if |d| <= room then d else d[..room]
  }

  lemma CutNone(d: seq<byte>, room: nat)
    ensures room == 0 ==> Cut(d, room) == []
    ensures [] + d == d
  {
  }

  lemma TableBounds(s: seq<byte>)
    requires |s| >= 4
    ensures var c := TableAt(s); |c| == 4 && forall i :: 0 <= i < 4 ==> 0 <= c[i] <= 64
    ensures 1 <= |DecodeIndexes(TableAt(s))| <= 3
  {
  }

  /** One more group, as far as there is room. */
  lemma Filled(d: seq<byte>, out: seq<byte>, g: seq<byte>, more: seq<byte>, outLen: nat)
    requires d == out + (g + more) && |out| < outLen
    ensures var next := out + (if |g| <= outLen - |out| then g else g[..outLen - |out|]);
      |next| <= outLen && (if |next| == outLen then next == Cut(d, outLen) else d == next + more)
  {
    assert d == out + g + more;
  }

  lemma DecodeStep(s: seq<byte>, pos: int)
    requires 0 <= pos <= |s|
    ensures pos == 0 ==> s[pos..] == s
    ensures |s| - pos < 4 ==> Decode(s[pos..]) == []
    ensures |s| - pos >= 4 ==>
      var g := DecodeIndexes(TableAt(s[pos..]));
      Decode(s[pos..]) == g + if |g| < 3 then [] else Decode(s[pos + 4..])
  {
    if |s| - pos >= 4 {
      assert s[pos..][4..] == s[pos + 4..];
    }
  }
}
