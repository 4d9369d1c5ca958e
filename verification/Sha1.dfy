/** The portable SHA-1 of SHA1.c, against sections 5.1.1 and 6.1 of FIPS 180-4. */
module Sha1 {
  import opened Bytes

  type word = bv32

  const WORD := 0x1_0000_0000
  const BLOCK := 64

  // ----- the standard -----

  function Rotl(x: word, n: nat): word
    requires n <= 32
  {
    (x << n) | (x >> (32 - n))
  }

  /** The logical functions: Ch, Parity, Maj, Parity. */
  function Logical(t: nat, x: word, y: word, z: word): word {
    if t < 20 then (x & y) ^ (!x & z)
    else if t < 40 then x ^ y ^ z
    else if t < 60 then (x & y) ^ (x & z) ^ (y & z)
    else x ^ y ^ z
  }

  function K(t: nat): word {
    if t < 20 then 0x5A827999 else if t < 40 then 0x6ED9EBA1 else if t < 60 then 0x8F1BBCDC else 0xCA62C1D6
  }

  /** The big-endian word at a position of a block. */
  function WordAt(block: seq<byte>, i: int): word
    requires |block| == BLOCK && 0 <= i < 16
  {
    (block[4 * i] as int * 16777216 + block[4 * i + 1] as int * 65536
      + block[4 * i + 2] as int * 256 + block[4 * i + 3] as int) as bv32
  }

  /** The message schedule of 80 words. */
  function Schedule(block: seq<byte>, t: nat): word
    requires |block| == BLOCK
  {
    if t < 16 then WordAt(block, t)
    else Rotl(Schedule(block, t - 3) ^ Schedule(block, t - 8) ^ Schedule(block, t - 14) ^ Schedule(block, t - 16), 1)
  }

  datatype State = State(a: word, b: word, c: word, d: word, e: word)

  function Sum3(x: word, y: word, z: word): word {
    x + y + z
  }

  function Round(t: nat, s: State, w: word): State {
    State(Sum3(Sum3(Rotl(s.a, 5), Logical(t, s.b, s.c, s.d), s.e), K(t), w), s.a, Rotl(s.b, 30), s.c, s.d)
  }

  /** The state after the first n rounds. */
  function Rounds(h: State, block: seq<byte>, n: nat): State
    requires |block| == BLOCK
  {
    if n == 0 then h else Round(n - 1, Rounds(h, block, n - 1), Schedule(block, n - 1))
  }

  function Sum(s: State, r: State): State {
    State(s.a + r.a, s.b + r.b, s.c + r.c, s.d + r.d, s.e + r.e)
  }

  function HashBlock(h: State, block: seq<byte>): State
    requires |block| == BLOCK
  {
    Sum(h, Rounds(h, block, 80))
  }

  const INITIAL := State(0x67452301, 0xEFCDAB89, 0x98BADCFE, 0x10325476, 0xC3D2E1F0)

  /** The blocks of a message, one after the other. */
  function HashBlocks(s: seq<byte>): State
    requires |s| % BLOCK == 0
  {
    if |s| == 0 then INITIAL else HashBlock(HashBlocks(s[..|s| - BLOCK]), s[|s| - BLOCK..])
  }

  function BigEndian4(n: int): (r: seq<byte>)
    requires 0 <= n < WORD
    ensures |r| == 4
  {
    [n / 16777216, n / 65536 % 256, n / 256 % 256, n % 256]
  }

  function BigEndian8(n: int): (r: seq<byte>)
    requires 0 <= n < WORD * WORD
    ensures |r| == 8
  {
    BigEndian4(n / WORD) + BigEndian4(n % WORD)
  }

  /** The number of zero bytes: the least that brings the length to 56 modulo 64, after the byte 0x80. */
  function ZeroCount(length: nat): (r: nat)
    ensures (length + 1 + r) % BLOCK == 56 && r < BLOCK
  {
    (55 - length) % BLOCK
  }

  /** The padding of section 5.1.1, for a length field of the given number of bits. */
  function Padding(length: nat, bits: nat): (r: seq<byte>)
    requires bits < WORD * WORD
    ensures (length + |r|) % BLOCK == 0
  {
    [0x80] + seq(ZeroCount(length), _ => 0) + BigEndian8(bits)
  }

  /** The hash of a message, whose length in bits must fit in the length field. */
  function Hash(message: seq<byte>): State
    requires 8 * |message| < WORD * WORD
  {
    HashBlocks(message + Padding(|message|, 8 * |message|))
  }

  function Digest(s: State): seq<byte> {
    BigEndian4(s.a as int) + BigEndian4(s.b as int) + BigEndian4(s.c as int)
    + BigEndian4(s.d as int) + BigEndian4(s.e as int)
  }

  // ----- the program -----

  /** The expressions of SHA1_ProcessBlock, which join the terms with or. */
  function LogicalUsed(t: nat, x: word, y: word, z: word): word {
    if t < 20 then (x & y) | (!x & z)
    else if t < 40 then x ^ y ^ z
    else if t < 60 then (x & y) | (x & z) | (y & z)
    else x ^ y ^ z
  }

  lemma LogicalSame(t: nat, x: word, y: word, z: word)
    ensures LogicalUsed(t, x, y, z) == Logical(t, x, y, z)
  {
    ChSame(x, y, z);
    MajSame(x, y, z);
  }

  lemma ChSame(x: word, y: word, z: word)
    ensures (x & y) | (!x & z) == (x & y) ^ (!x & z)
  {
  }

  lemma MajSame(x: word, y: word, z: word)
    ensures (x & y) | (x & z) | (y & z) == (x & y) ^ (x & z) ^ (y & z)
  {
  }

  /** One round as the program adds it up. */
  function RoundUsed(t: nat, s: State, w: word): State {
    State(Sum3(Sum3(Rotl(s.a, 5), LogicalUsed(t, s.b, s.c, s.d), s.e), w, K(t)), s.a, Rotl(s.b, 30), s.c, s.d)
  }

  lemma RoundSame(t: nat, s: State, w: word)
    ensures RoundUsed(t, s, w) == Round(t, s, w)
  {
    hide Rotl, Logical, LogicalUsed, K, Sum3;
    LogicalSame(t, s.b, s.c, s.d);
    SumsSame(Sum3(Rotl(s.a, 5), Logical(t, s.b, s.c, s.d), s.e), K(t), w);
  }

  lemma SumsSame(x: word, k: word, w: word)
    ensures Sum3(x, w, k) == Sum3(x, k, w)
  {
  }

  /** The place of a word in the circular buffer. */
  function Slot(t: int): (r: int)
    ensures 0 <= r < 16 && (0 <= t < 16 ==> r == t)
  {
    t % 16
  }

  /** The circular buffer holds the last sixteen words of the schedule, or its first sixteen. */
  predicate Circular(w: seq<word>, block: seq<byte>, i: int)
    requires |block| == BLOCK
  {
    |w| == 16 && forall t :: 0 <= t && i - 16 <= t < (if i < 16 then 16 else i) ==> w[Slot(t)] == Schedule(block, t)
  }

  /** The new word in the place of the oldest. */
  function NextWord(w: seq<word>, i: int): word
    requires |w| == 16 && i >= 0
  {
    Rotl(w[Slot(i + 13)] ^ w[Slot(i + 8)] ^ w[Slot(i + 2)] ^ w[Slot(i)], 1)
  }

  lemma NextWordIs(w: seq<word>, block: seq<byte>, i: int)
    requires |block| == BLOCK && Circular(w, block, i) && i >= 16
    ensures NextWord(w, i) == Schedule(block, i)
  {
    hide Rotl, Schedule;
    SameSlots(i);
    assert w[Slot(i - 3)] == Schedule(block, i - 3);
    assert w[Slot(i - 8)] == Schedule(block, i - 8);
    assert w[Slot(i - 14)] == Schedule(block, i - 14);
    assert w[Slot(i - 16)] == Schedule(block, i - 16);
    ScheduleIs(block, i);
  }

  lemma ScheduleIs(block: seq<byte>, t: nat)
    requires |block| == BLOCK && t >= 16
    ensures Schedule(block, t) ==
      Rotl(Schedule(block, t - 3) ^ Schedule(block, t - 8) ^ Schedule(block, t - 14) ^ Schedule(block, t - 16), 1)
  {
  }

  lemma SameSlots(i: int)
    ensures Slot(i - 3) == Slot(i + 13) && Slot(i - 8) == Slot(i + 8) && Slot(i - 14) == Slot(i + 2)
    ensures Slot(i - 16) == Slot(i)
  {
  }

  lemma CircularNext(w: seq<word>, block: seq<byte>, i: int)
    requires |block| == BLOCK && Circular(w, block, i) && i >= 0
    ensures i < 16 ==> Circular(w, block, i + 1) && w[Slot(i)] == Schedule(block, i)
    ensures i >= 16 ==> Circular(w[Slot(i) := NextWord(w, i)], block, i + 1)
  {
    hide NextWord, Schedule;
    if i >= 16 {
      NextWordIs(w, block, i);
      var w' := w[Slot(i) := NextWord(w, i)];
      forall t | i - 15 <= t < i + 1
        ensures w'[Slot(t)] == Schedule(block, t)
      {
        Apart(t, i);
        assert t < i ==> w[Slot(t)] == Schedule(block, t);
      }
    }
  }

  lemma Apart(t: int, i: int)
    requires i - 15 <= t < i + 1
    ensures t < i ==> Slot(t) != Slot(i)
  {
  }

  /** SHA1_ProcessBlock: with a schedule of sixteen words, the result is that of the schedule of eighty. */
  method ProcessBlock(h: State, block: seq<byte>) returns (r: State)
    requires |block| == BLOCK
    ensures r == HashBlock(h, block)
  {
    hide Schedule, Circular, NextWord, RoundUsed, Round, WordAt;
    var w := FirstWords(block);
    var blks := h;
    for i := 0 to 80
      invariant |w| == 16 && Circular(w, block, i) && blks == Rounds(h, block, i)
    {
      CircularNext(w, block, i);
      if i >= 16 {
        NextWordIs(w, block, i);
        w := w[Slot(i) := NextWord(w, i)];
      }
      RoundSame(i, blks, w[Slot(i)]);
      blks := RoundUsed(i, blks, w[Slot(i)]);
    }
    r := Sum(h, blks);
  }

  /** The loop that turns the buffer into words. */
  method FirstWords(block: seq<byte>) returns (w: seq<word>)
    requires |block| == BLOCK
    ensures |w| == 16 && Circular(w, block, 0)
  {
    hide WordAt;
    w := [];
    for i := 0 to 16
      invariant |w| == i && forall t :: 0 <= t < i ==> w[t] == WordAt(block, t)
    {
      w := w + [WordAt(block, i)];
    }
  }

  class Context {
    var h: State
    var buffer: seq<byte>
    var size: nat
    var total: nat
    /** Every byte hashed so far. */
    ghost var message: seq<byte>

    /** The whole blocks of the message are hashed and the rest is in the buffer. */
    ghost predicate Valid()
      reads this
    {
      && |buffer| == BLOCK && size < BLOCK && Streamed(h, buffer, size, message)
      && total == |message| % WORD
    }

    /** SHA1_Init. */
    constructor ()
      ensures Valid() && message == []
    {
      h, size, total, message := INITIAL, 0, 0, [];
      buffer := seq(BLOCK, _ => 0);
    }

    /** SHA1_Update: whatever the chunks, the bytes hashed are those of the chunks one after the other. */
    method Update(data: seq<byte>)
      requires Valid()
      modifies this
      ensures Valid() && message == old(message) + data
    {
      hide Streamed;
      var pos := 0;
      assert old(message) + data[..0] == old(message);
      while pos < |data|
        invariant 0 <= pos <= |data| && Valid() && message == old(message) + data[..pos]
      {
        var n := if |data| - pos < BLOCK - size then |data| - pos else BLOCK - size;
        assert old(message) + data[..pos] + data[pos..pos + n] == old(message) + data[..pos + n];
        Take(data[pos..pos + n]);
        pos := pos + n;
      }
      assert data[..pos] == data;
    }

    /** One turn of the loop in SHA1_Update. */
    method Take(chunk: seq<byte>)
      requires Valid() && 0 < |chunk| <= BLOCK - size
      modifies this
      ensures Valid() && message == old(message) + chunk
    {
      hide Streamed;
      var n := |chunk|;
      Filled(h, buffer, size, message, chunk);
      buffer := buffer[..size] + chunk + buffer[size + n..];
      size := size + n;
      total := (total + n) % WORD;
      message := message + chunk;
      if size == BLOCK {
        BlockDone(h, buffer, message);
        h := ProcessBlock(h, buffer);
        size := 0;
        var left: seq<byte> :| |left| == |buffer|;    // the words of the schedule have taken its place
        buffer := left;
        NothingKept(h, buffer, message);
      }
    }

    /** SHA1_Final. The number of bits is computed in 32 bits, so that the hash is that of the standard for messages
        shorter than 2^29 bytes. */
    method Final() returns (md: seq<byte>)
      requires Valid()
      modifies this
      ensures md == Digest(HashBlocks(old(message) + Padding(|old(message)|, Bits(|old(message)|))))
      ensures |old(message)| < 0x2000_0000 ==> md == Digest(Hash(old(message)))
    {
      hide Streamed, HashBlocks, HashBlock, Padding, Digest;
      ghost var m := message;
      SizeIs(h, buffer, size, m);
      BitsExact(|m|);
      var bits := total * 8 % WORD;
      var amount := if size < 56 then 56 - size else 64 + 56 - size;
      Update(PAD[..amount]);
      Padded(h, buffer, size, m, amount, bits);
      Joined(buffer[..56], BigEndian4(bits / WORD), BigEndian4(bits % WORD));
      buffer := buffer[..56] + BigEndian4(bits / WORD) + BigEndian4(bits % WORD);
      h := ProcessBlock(h, buffer);
      md := Digest(h);
    }
  }

  const PAD: seq<byte> := [0x80] + seq(63, _ => 0)

  /** The bit count that SHA1_Final computes. */
  function Bits(length: nat): nat {
    length % WORD * 8 % WORD
  }

  lemma SizeIs(h: State, buffer: seq<byte>, size: nat, message: seq<byte>)
    requires Streamed(h, buffer, size, message) && size < BLOCK
    ensures size == |message| % BLOCK
  {
    hide HashBlocks;
    RestIs(|message|, size);
  }

  lemma RestIs(n: nat, size: nat)
    requires size <= n && size < BLOCK && (n - size) % BLOCK == 0
    ensures n % BLOCK == size
  {
  }

  /** The pad bytes taken bring the length to 56 modulo 64 with as few bytes as possible. */
  lemma PadTaken(length: nat, amount: nat)
    requires amount == if length % BLOCK < 56 then 56 - length % BLOCK else 64 + 56 - length % BLOCK
    ensures amount == 1 + ZeroCount(length) && PAD[..amount] == [0x80] + seq(ZeroCount(length), _ => 0)
  {
  }

  /** After the pad bytes and the bit count, the buffer is the last block of the padded message. */
  lemma Padded(h: State, buffer: seq<byte>, size: nat, m: seq<byte>, amount: nat, bits: nat)
    requires |buffer| == BLOCK && size < BLOCK && bits < WORD && bits == Bits(|m|)
    requires amount == (if |m| % BLOCK < 56 then 56 - |m| % BLOCK else 64 + 56 - |m| % BLOCK) && amount <= |PAD|
    requires Streamed(h, buffer, size, m + PAD[..amount])
    ensures |m + Padding(|m|, bits)| % BLOCK == 0
    ensures HashBlock(h, buffer[..56] + BigEndian8(bits)) == HashBlocks(m + Padding(|m|, bits))
  {
    hide HashBlock, Bits, HashBlocks, Streamed, BigEndian4;
    PadTaken(|m|, amount);
    var all := m + PAD[..amount];
    LengthIs(|m|, amount);
    SizeIs(h, buffer, size, all);
    PaddingIs(m, amount, bits);
    LastBlock(h, buffer, all, BigEndian8(bits), m + Padding(|m|, bits));
  }

  lemma BitsExact(length: nat)
    ensures Bits(length) < WORD && (length < 0x2000_0000 ==> Bits(length) == 8 * length)
  {
  }

  lemma LengthIs(n: nat, amount: nat)
    requires amount == if n % BLOCK < 56 then 56 - n % BLOCK else 64 + 56 - n % BLOCK
    ensures (n + amount) % BLOCK == 56
  {
  }

  lemma PaddingIs(m: seq<byte>, amount: nat, bits: nat)
    requires bits < WORD && amount <= |PAD| && PAD[..amount] == [0x80] + seq(ZeroCount(|m|), _ => 0)
    ensures m + Padding(|m|, bits) == m + PAD[..amount] + BigEndian8(bits)
  {
    hide BigEndian8;
  }

  lemma Joined(a: seq<byte>, b: seq<byte>, c: seq<byte>)
    ensures a + b + c == a + (b + c)
  {
  }

  lemma LastBlock(h: State, buffer: seq<byte>, all: seq<byte>, length: seq<byte>, full: seq<byte>)
    requires |length| == 8 && Streamed(h, buffer, 56, all) && full == all + length
    ensures |full| % BLOCK == 0 && HashBlock(h, buffer[..56] + length) == HashBlocks(full)
  {
    hide HashBlock;
    var n := |all| - 56;
    assert |full| == n + BLOCK;
    assert full[..n] == all[..n] && full[n..] == all[n..] + length;
  }

  /** Whole blocks of the message hashed, and the rest in the buffer. */
  ghost predicate Streamed(h: State, buffer: seq<byte>, size: nat, message: seq<byte>) {
    && size <= |buffer| == BLOCK && size <= |message| && (|message| - size) % BLOCK == 0
    && h == HashBlocks(message[..|message| - size])
    && buffer[..size] == message[|message| - size..]
  }

  lemma Filled(h: State, buffer: seq<byte>, size: nat, message: seq<byte>, chunk: seq<byte>)
    requires Streamed(h, buffer, size, message) && |chunk| <= BLOCK - size
    ensures Streamed(h, buffer[..size] + chunk + buffer[size + |chunk|..], size + |chunk|, message + chunk)
  {
    hide HashBlocks;
    var m := message + chunk;
    assert m[..|m| - size - |chunk|] == message[..|message| - size];
    assert m[|m| - size - |chunk|..] == message[|message| - size..] + chunk;
  }

  lemma BlockDone(h: State, buffer: seq<byte>, message: seq<byte>)
    requires Streamed(h, buffer, BLOCK, message)
    ensures |message| % BLOCK == 0 && HashBlock(h, buffer) == HashBlocks(message)
  {
    hide HashBlock;
    assert buffer[..BLOCK] == buffer;
  }

  lemma NothingKept(h: State, buffer: seq<byte>, message: seq<byte>)
    requires |buffer| == BLOCK && |message| % BLOCK == 0 && h == HashBlocks(message)
    ensures Streamed(h, buffer, 0, message)
  {
    assert message[..|message| - 0] == message && message[|message| - 0..] == [];
  }
}
