/** The writer and the reader together: what a socket has accepted parses into exactly the packets written in full. */
module Transport {
  import opened Bytes
  import opened Vbi
  import opened Packets
  import SocketReader
  import SocketWriter

  function FrameBytes(f: SocketReader.Frame): seq<byte> {
    [f.header] + Encode(|f.data|) + f.data
  }

  /** The packets taken on are frames. */
  predicate AreFrames(issued: seq<seq<byte>>, fs: seq<SocketReader.Frame>) {
    |issued| == |fs| && forall i :: 0 <= i < |fs| ==> |fs[i].data| < VBI_LIMIT && issued[i] == FrameBytes(fs[i])
  }

  lemma {:induction false} ConcatIsWire(issued: seq<seq<byte>>, fs: seq<SocketReader.Frame>)
    requires AreFrames(issued, fs)
    ensures Concat(issued) == SocketReader.Wire(fs)
  {
    if |fs| > 0 {
      ConcatIsWire(issued[1..], fs[1..]);
    }
  }

  lemma {:induction false} DecodeTruncated(n: nat, limit: nat, k: nat)
    requires k < |Encode(n)|
    ensures Decode(Encode(n)[..k], limit).None?
  {
    if k > 0 && limit > 0 {
      DecodeTruncated(n / 128, limit - 1, k - 1);
      assert Encode(n)[..k][1..] == Encode(n / 128)[..k - 1];
    }
  }

  /** A packet that has not been written in full is not parsed. */
  lemma PrefixNotParsed(f: SocketReader.Frame, k: nat)
    requires |f.data| < VBI_LIMIT && k < |FrameBytes(f)|
    ensures SocketReader.Parse(FrameBytes(f)[..k]) == []
  {
    var n, e := |f.data|, Encode(|f.data|);
    var u := FrameBytes(f)[..k];
    SocketReader.SentLength(n);
    if k > 0 {
      if k <= |e| {
        hide Encode, Decode;
        assert u[1..] == e[..k - 1];
        DecodeTruncated(n, MAX_LENGTH_BYTES, k - 1);
      } else {
        hide Encode, Decode;
        assert FrameBytes(f) == [f.header] + (e + f.data);
        assert u[1..] == (e + f.data)[..k - 1];
        assert u[1..] == e + f.data[..k - 1 - |e|];
        DecodeEncode(n, MAX_LENGTH_BYTES, f.data[..k - 1 - |e|]);
      }
    }
  }

  /** However the writes were cut up, a reader of the stream so far gets the packets written in full, in order. */
  lemma ReadAsWritten(wire: seq<byte>, issued: seq<seq<byte>>, pending: Option<SocketWriter.Pending>,
      fs: seq<SocketReader.Frame>)
    requires SocketWriter.Atomic(wire, issued, pending) && AreFrames(issued, fs)
    ensures pending.None? ==> SocketReader.Parse(wire) == fs
    ensures pending.Some? ==> |fs| > 0 && SocketReader.Parse(wire) == fs[..|fs| - 1]
  {
    hide SocketReader.Parse, Concat;
    if pending.None? {
      ConcatIsWire(issued, fs);
      SocketReader.ParseWire(fs, []);
      NoBytes();
      assert SocketReader.Wire(fs) + [] == SocketReader.Wire(fs) && fs + [] == fs;
    } else {
      var whole, last := fs[..|fs| - 1], fs[|fs| - 1];
      ConcatIsWire(issued[..|fs| - 1], whole);
      var k := pending.value.bytes;
      SocketReader.ParseWire(whole, FrameBytes(last)[..k]);
      PrefixNotParsed(last, k);
      assert whole + [] == whole;
    }
  }

  lemma NoBytes()
    ensures SocketReader.Parse([]) == []
  {
  }
}
