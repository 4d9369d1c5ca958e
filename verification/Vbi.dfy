/** Variable byte integers (section 1.5.5 of MQTT 5.0): MQTTPacket_encode, MQTTPacket_VBIlen and
    MQTTPacket_VBIdecode. */
module Vbi {
  import opened Bytes

  const MAX_LENGTH_BYTES := 4
  const VBI_LIMIT := 268435456    // 128 to the power MAX_LENGTH_BYTES

  /** The encoding: seven bits a byte, least significant first, the top bit marking that more follow. */
  function Encode(n: nat): (r: seq<byte>)
    ensures |r| >= 1
    decreases n
  {
    if n < 128 then [n] else [n % 128 + 128] + Encode(n / 128)
  }

  /** The decoder, reading at most `limit` bytes; None is malformed or truncated input, otherwise
      the value and the number of bytes used. */
  function Decode(s: seq<byte>, limit: nat): (r: Option<(nat, nat)>)
    ensures r.Some? ==> 1 <= r.value.1 <= |s| && r.value.1 <= limit
    decreases limit
  {
    if limit == 0 || |s| == 0 then None
    else if s[0] < 128 then Some((s[0], 1))
    else
      var more := Decode(s[1..], limit - 1);
      if more.None? then None else Some((s[0] - 128 + 128 * more.value.0, 1 + more.value.1))
  }

  /** MQTTPacket_VBIlen. */
  function Length(n: nat): (r: nat) {
    if n < 128 then 1 else if n < 16384 then 2 else if n < 2097152 then 3 else 4
  }

  /** The announced length is the encoded length, for exactly the integers the format can carry. */
  lemma LengthIsEncodedLength(n: nat)
    ensures Length(n) == |Encode(n)| <==> n < VBI_LIMIT
  {
    if n >= 128 {
      var a := n / 128;
      assert |Encode(n)| == 1 + |Encode(a)|;
      if a >= 128 {
        var b := a / 128;
        assert |Encode(a)| == 1 + |Encode(b)|;
        if b >= 128 {
          var c := b / 128;
          assert |Encode(b)| == 1 + |Encode(c)|;
          assert n >= VBI_LIMIT <==> c >= 128;
        }
      }
    }
  }

  lemma {:induction false} DecodeEncode(n: nat, limit: nat, rest: seq<byte>)
    requires |Encode(n)| <= limit
    ensures Decode(Encode(n) + rest, limit) == Some((n, |Encode(n)|))
  {
    if n >= 128 {
      DecodeEncode(n / 128, limit - 1, rest);
      assert (Encode(n) + rest)[1..] == Encode(n / 128) + rest;
    }
  }

  /** The digit loop of MQTTPacket_encode. */
  method EncodeLoop(length: nat) returns (buf: seq<byte>)
    ensures buf == Encode(length)
  {
    buf := [];
    var left := length;
    var more := true;
    while more
      invariant more ==> buf + Encode(left) == Encode(length)
      invariant !more ==> left == 0 && buf == Encode(length)
      decreases more, left
    {
      var d := left % 128;
      left := left / 128;
      if left > 0 {
        d := d + 128;
      }
      buf := buf + [d];
      more := left > 0;
    }
  }

  /** The accumulate-and-multiply loop of MQTTPacket_VBIdecode computes the recursive decoding. */
  method DecodeLoop(s: seq<byte>) returns (r: Option<(nat, nat)>)
    ensures r == Decode(s, MAX_LENGTH_BYTES)
  {
    hide Decode, Shifted;
    var value: nat, multiplier: nat, len: nat := 0, 1, 0;
    DecodeStart(s);
    while true
      invariant len <= |s| && len <= MAX_LENGTH_BYTES
      invariant Decode(s, MAX_LENGTH_BYTES) == Shifted(value, multiplier, len, Decode(s[len..], MAX_LENGTH_BYTES - len))
      decreases MAX_LENGTH_BYTES - len
    {
      if len + 1 > MAX_LENGTH_BYTES || len == |s| {
        DecodeEnd(s, len, value, multiplier);
        return None;
      }
      var c := s[len];
      var bits := if c < 128 then c else c - 128;
      ReadDigit(s, len, value, multiplier);
      value := value + bits * multiplier;
      multiplier := multiplier * 128;
      len := len + 1;
      if c < 128 {
        return Some((value, len));
      }
    }
  }

  lemma DecodeStart(s: seq<byte>)
    ensures Decode(s, MAX_LENGTH_BYTES) == Shifted(0, 1, 0, Decode(s[0..], MAX_LENGTH_BYTES - 0))
  {
    assert s[0..] == s;
  }

  lemma DecodeEnd(s: seq<byte>, len: nat, value: nat, multiplier: nat)
    requires len <= |s| && len <= MAX_LENGTH_BYTES && (len == |s| || len == MAX_LENGTH_BYTES)
    ensures Shifted(value, multiplier, len, Decode(s[len..], MAX_LENGTH_BYTES - len)) == None
  {
  }

  /** What the bytes read so far contribute to the result for the bytes still to be read. */
  ghost function Shifted(value: nat, multiplier: nat, len: nat, more: Option<(nat, nat)>): Option<(nat, nat)> {
    if more.None? then None else Some((value + multiplier * more.value.0, len + more.value.1))
  }

  /** One byte of the decoding, at some place of a string. */
  lemma DecodeFrom(s: seq<byte>, len: nat, left: nat)
    requires len < |s| && left > 0
    ensures var more := Decode(s[len + 1..], left - 1);
      Decode(s[len..], left) ==
      if s[len] < 128 then Some((s[len], 1))
      else if more.None? then None else Some((s[len] - 128 + 128 * more.value.0, 1 + more.value.1))
  {
    assert s[len..][0] == s[len] && s[len..][1..] == s[len + 1..];
  }

  lemma ReadDigit(s: seq<byte>, len: nat, value: nat, multiplier: nat)
    requires len < |s| && len < MAX_LENGTH_BYTES
    ensures var left := MAX_LENGTH_BYTES - len;
      Shifted(value, multiplier, len, Decode(s[len..], left)) ==
      if s[len] < 128 then Some((value + s[len] * multiplier, len + 1))
      else Shifted(value + (s[len] - 128) * multiplier, multiplier * 128, len + 1, Decode(s[len + 1..], left - 1))
  {
    hide Decode;
    DecodeFrom(s, len, MAX_LENGTH_BYTES - len);
    var more := Decode(s[len + 1..], MAX_LENGTH_BYTES - len - 1);
    if s[len] >= 128 && more.Some? {
      Distribute(multiplier, s[len] - 128, more.value.0);
    }
  }

  lemma Distribute(m: nat, a: nat, b: nat)
    ensures m * (a + 128 * b) == a * m + m * 128 * b
  {
  }
}
