/** The non-blocking reader: SocketBuffer.c's input queues, Socket_getch and Socket_getdata, and the framing that
    MQTTPacket_Factory and MQTTPacket_decode build on them, against the stream of each socket taken as a whole. */
module SocketReader {
  import opened Bytes
  import opened Vbi

  // ----- the whole-stream view -----

  /** What the bytes of a stream start with: a packet of the given size, no whole packet yet, or a
      remaining length that is too long. */
  datatype Front = Packet(header: byte, data: seq<byte>, size: nat) | NotYet | Malformed

  function Split(u: seq<byte>): (r: Front)
    ensures r.Packet? ==> 2 <= r.size <= |u| && |r.data| < r.size
  {
    if |u| == 0 then NotYet
    else
      match Decode(u[1..], MAX_LENGTH_BYTES)
      case Some((n, k)) =>
        if |u| < 1 + k + n then NotYet else Packet(u[0], u[1 + k..1 + k + n], 1 + k + n)
      case None => if |u| > MAX_LENGTH_BYTES then Malformed else NotYet
  }

  datatype Frame = Frame(header: byte, data: seq<byte>)

  /** The packets of a whole stream. */
  function Parse(u: seq<byte>): (r: seq<Frame>) {
    var f := Split(u);
    if f.Packet? then [Frame(f.header, f.data)] + Parse(u[f.size..]) else []
  }

  /** The bytes of packets sent one after the other. */
  function Wire(fs: seq<Frame>): seq<byte> {
    if |fs| == 0 then [] else [fs[0].header] + Encode(|fs[0].data|) + fs[0].data + Wire(fs[1..])
  }

  /** Parsing gives back the packets that were sent, whatever comes after them. */
  lemma {:induction false} ParseWire(fs: seq<Frame>, rest: seq<byte>)
    requires forall i :: 0 <= i < |fs| ==> |fs[i].data| < VBI_LIMIT
    ensures Parse(Wire(fs) + rest) == fs + Parse(rest)
  {
    hide Split, Encode, Parse, Wire;
    if |fs| == 0 {
      WireNone(rest);
      assert fs == [] && [] + Parse(rest) == Parse(rest);
    } else {
      var f, more := fs[0], Wire(fs[1..]) + rest;
      ParseWire(fs[1..], rest);
      SplitSent(f, more);
      var u := [f.header] + Encode(|f.data|) + f.data + more;
      WireCons(fs, rest);
      ParseNext(u, f, more);
      assert fs == [f] + fs[1..];
      assert ([f] + fs[1..]) + Parse(rest) == [f] + (fs[1..] + Parse(rest));
    }
  }

  lemma WireNone(rest: seq<byte>)
    ensures Wire([]) + rest == rest
  {
  }

  lemma WireCons(fs: seq<Frame>, rest: seq<byte>)
    requires |fs| > 0
    ensures Wire(fs) + rest == [fs[0].header] + Encode(|fs[0].data|) + fs[0].data + (Wire(fs[1..]) + rest)
  {
  }

  lemma SplitSent(f: Frame, more: seq<byte>)
    requires |f.data| < VBI_LIMIT
    ensures var u := [f.header] + Encode(|f.data|) + f.data + more; var k := 1 + |Encode(|f.data|)| + |f.data|;
      Split(u) == Packet(f.header, f.data, k) && u[k..] == more
  {
    hide Encode, Decode;
    var n, e := |f.data|, Encode(|f.data|);
    var u := [f.header] + e + f.data + more;
    SentLength(n);
    DecodeEncode(n, MAX_LENGTH_BYTES, f.data + more);
    assert u[1..] == e + (f.data + more);
    assert u[1 + |e|..1 + |e| + n] == f.data && u[1 + |e| + n..] == more;
  }

  lemma SentLength(n: nat)
    requires n < VBI_LIMIT
    ensures |Encode(n)| <= MAX_LENGTH_BYTES
  {
    LengthIsEncodedLength(n);
  }

  // ----- the queues -----

  const HEADER_SIZE := 5

  /** A socket_queue: header is fixed_header up to headerlen, and buf what has been read into the buffer. */
  datatype Queue = Queue(socket: int, index: nat, header: seq<byte>, buf: seq<byte>, datalen: nat)

  function NewQueue(): Queue {
    Queue(0, 0, [], [], 0)
  }

  function Position(qs: seq<Queue>, socket: int): (r: int)
    ensures -1 <= r < |qs|
    ensures r >= 0 ==> qs[r].socket == socket
    ensures r < 0 ==> forall j :: 0 <= j < |qs| ==> qs[j].socket != socket
  {
    if |qs| == 0 then -1
    else if qs[|qs| - 1].socket == socket then |qs| - 1
    else Position(qs[..|qs| - 1], socket)
  }

  predicate DistinctSockets(qs: seq<Queue>) {
    forall i, j :: 0 <= i < j < |qs| ==> qs[i].socket != qs[j].socket
  }

  lemma PositionIs(qs: seq<Queue>, j: int)
    requires DistinctSockets(qs) && 0 <= j < |qs|
    ensures Position(qs, qs[j].socket) == j
  {
    var r := Position(qs, qs[j].socket);
    assert r >= 0;
  }

  /** All length bytes but the last have the continuation bit: no more of them than the length needs have been read. */
  predicate HeaderOk(h: seq<byte>) {
    |h| <= HEADER_SIZE && forall i :: 1 <= i < |h| - 1 ==> h[i] >= 128
  }

  /** Data is only there below a complete header, and is not all of it yet. */
  predicate DataOk(q: Queue) {
    && q.datalen <= |q.buf|
    && (q.datalen > 0 ==>
          |q.header| > 1 && q.header[|q.header| - 1] < 128
          && Decode(q.header[1..], MAX_LENGTH_BYTES).Some?
          && q.datalen < Decode(q.header[1..], MAX_LENGTH_BYTES).value.0)
  }

  predicate QueueOk(q: Queue) {
    HeaderOk(q.header) && DataOk(q) && q.index <= |q.header|
  }

  /** The default queue when no read is under way. */
  predicate Unused(q: Queue) {
    q.socket == 0 && q.index == 0 && q.header == [] && q.datalen == 0
  }

  /** The bytes that a queue keeps for its socket. */
  function Kept(q: Queue): seq<byte> {
    q.header + if q.datalen <= |q.buf| then q.buf[..q.datalen] else []
  }

  /** What recv gives: some bytes, EWOULDBLOCK, or another error or the end of the stream. */
  datatype Recv = Data(bytes: seq<byte>) | WouldBlock | Closed

  datatype Outcome<T> = Complete(value: T) | Interrupted | BadPacket | Failed

  /** The length bytes read so far all have the continuation bit. */
  predicate Open(h: seq<byte>) {
    forall i :: 1 <= i < |h| ==> h[i] >= 128
  }

  class Reader {
    var defQueue: Queue
    var queues: seq<Queue>
    /** What the network will still deliver, by socket. How much of it recv gives at a time is open. */
    var incoming: map<int, seq<byte>>

    constructor (incoming: map<int, seq<byte>>)
      ensures Idle() && this.incoming == incoming && forall s :: s > 0 ==> Unread(s) == Coming(s)
    {
      defQueue, queues, this.incoming := NewQueue(), [], incoming;
    }

    /** The queue that holds a socket's bytes. */
    function Current(socket: int): Queue
      reads this`defQueue, this`queues
    {
      var j := Position(queues, socket);
      if j >= 0 then queues[j] else if defQueue.socket == socket then defQueue else NewQueue().(socket := socket)
    }

    function Coming(socket: int): seq<byte>
      reads this`incoming
    {
      if socket in incoming then incoming[socket] else []
    }

    /** Every byte of the socket's stream that has not been returned in a packet. */
    function Unread(socket: int): seq<byte>
      reads this
    {
      Kept(Current(socket)) + Coming(socket)
    }

    ghost predicate Sane()
      reads this`defQueue, this`queues
    {
      && DistinctSockets(queues) && QueueOk(defQueue)
      && forall j :: 0 <= j < |queues| ==> queues[j].socket > 0 && QueueOk(queues[j])
    }

    /** No read is under way, but for the given socket. */
    ghost predicate QuietBut(socket: int)
      reads this`defQueue, this`queues
    {
      && Sane() && (forall j :: 0 <= j < |queues| && queues[j].socket != socket ==> queues[j].index == 0)
      && (Unused(defQueue) || (defQueue.socket == socket && Position(queues, socket) < 0))
    }

    /** No read is under way. */
    ghost predicate Idle()
      reads this`defQueue, this`queues
    {
      Sane() && (forall j :: 0 <= j < |queues| ==> queues[j].index == 0) && Unused(defQueue)
    }

    /** A read has been given the first k bytes of what the socket's queue keeps. */
    ghost predicate Reading(socket: int, k: nat)
      reads this`defQueue, this`queues
    {
      && QuietBut(socket) && Current(socket).index == k
      && (Position(queues, socket) < 0 ==> |Current(socket).header| == k && Current(socket).datalen == 0)
    }

    /** The other sockets' queues are as they were. */
    twostate predicate OthersKept(socket: int)
      reads this`defQueue, this`queues
    {
      forall o :: o > 0 && o != socket ==> Current(o) == old(Current(o))
    }

    /** The other sockets have lost no byte. */
    twostate predicate Elsewhere(socket: int)
      reads this
    {
      forall o :: o > 0 && o != socket ==> Unread(o) == old(Unread(o))
    }

    /** ListFindItem with socketcompare. */
    method FindQueue(socket: int) returns (j: int)
      requires DistinctSockets(queues)
      ensures j == Position(queues, socket)
    {
      j := 0;
      while j < |queues|
        invariant 0 <= j <= |queues| && forall i :: 0 <= i < j ==> queues[i].socket != socket
      {
        if queues[j].socket == socket {
          PositionIs(queues, j);
          return;
        }
        j := j + 1;
      }
      j := -1;
    }

    /** recv: at most n bytes, at least one unless it fails. */
    method ReceiveSome(socket: int, n: nat) returns (r: Recv)
      requires n > 0
      modifies this`incoming
      ensures r.Data? ==> 1 <= |r.bytes| <= n && old(Coming(socket)) == r.bytes + Coming(socket)
      ensures !r.Data? ==> incoming == old(incoming)
      ensures forall o :: o != socket ==> Coming(o) == old(Coming(o))
    {
      var all := Coming(socket);
      var k: nat :| k <= n && k <= |all|;
      if k > 0 {
        incoming := incoming[socket := all[k..]];
        r := Data(all[..k]);
      } else {
        r :| r in {WouldBlock, Closed};
      }
    }

    /** A change to the fields of the socket's queue. */
    method Update(socket: int, q: Queue)
      requires socket > 0 && QuietBut(socket) && QueueOk(q) && q.socket == socket
      modifies this`defQueue, this`queues
      ensures QuietBut(socket) && Current(socket) == q && OthersKept(socket)
      ensures Position(queues, socket) == old(Position(queues, socket))
    {
      hide Position, QueueOk;
      var j := FindQueue(socket);
      if j >= 0 {
        queues := queues[j := q];
        SamePositions(old(queues), queues, j);
      } else {
        defQueue := q;
      }
    }

    /** SocketBuffer_queueChar. */
    method QueueChar(socket: int, c: byte)
      requires socket > 0 && QuietBut(socket) && Current(socket).index == |Current(socket).header| < HEADER_SIZE
      requires Open(Current(socket).header) && Current(socket).datalen == 0
      modifies this`defQueue, this`queues
      ensures QuietBut(socket) && OthersKept(socket) && Position(queues, socket) == old(Position(queues, socket))
      ensures Current(socket).header == old(Current(socket).header) + [c]
      ensures Current(socket).index == |Current(socket).header|
      ensures Current(socket).datalen == 0
    {
      var q := Current(socket);
      Update(socket, q.(index := q.index + 1, header := q.header[..q.index] + [c]));
    }

    /** SocketBuffer_interrupted. */
    method Interrupt(socket: int, n: nat)
      requires socket > 0 && QuietBut(socket) && QueueOk(Current(socket).(datalen := n))
      modifies this`defQueue, this`queues
      ensures Idle() && OthersKept(socket)
      ensures n <= |Current(socket).buf| && Kept(Current(socket)) == Kept(old(Current(socket)).(datalen := n))
    {
      hide Position, HeaderOk, DataOk;
      PositionMeans(queues);
      SameButIndex(Current(socket), n);
      var j := FindQueue(socket);
      if j >= 0 {
        Update(socket, queues[j].(index := 0, datalen := n));
        PositionMeans(queues);
        QuietIsIdle(socket);
      } else {
        SetAside(socket, n);
      }
    }

    /** The default queue becomes one of the queues, and a new one takes its place. */
    method SetAside(socket: int, n: nat)
      requires socket > 0 && QuietBut(socket) && Position(queues, socket) < 0 && QueueOk(Current(socket).(datalen := n))
      modifies this`defQueue, this`queues
      ensures Idle() && OthersKept(socket)
      ensures n <= |Current(socket).buf| && Kept(Current(socket)) == Kept(old(Current(socket)).(datalen := n))
    {
      hide Position, HeaderOk, DataOk;
      Fresh();
      SameButIndex(Current(socket), n);
      PositionMeans(queues);
      queues := queues + [defQueue.(socket := socket, index := 0, datalen := n)];
      defQueue := NewQueue();
      AppendedPositions(old(queues), queues, socket);
      PositionMeans(queues);
    }

    lemma QuietIsIdle(socket: int)
      requires QuietBut(socket) && Position(queues, socket) >= 0 && Current(socket).index == 0
      ensures Idle()
    {
      forall j | 0 <= j < |queues| && queues[j].socket == socket
        ensures queues[j].index == 0
      {
        PositionIs(queues, j);
      }
    }

    /** SocketBuffer_complete. */
    method Finish(socket: int)
      requires socket > 0 && QuietBut(socket)
      modifies this`defQueue, this`queues
      ensures Idle() && OthersKept(socket) && Current(socket).datalen == 0 && Kept(Current(socket)) == []
      ensures Position(queues, socket) < 0
      ensures defQueue == (if old(Position(queues, socket)) >= 0 then old(Current(socket)) else old(defQueue))
                            .(socket := 0, index := 0, header := [], datalen := 0)
    {
      hide Position, HeaderOk, DataOk;
      Fresh();
      PositionMeans(queues);
      var j := FindQueue(socket);
      if j >= 0 {
        Detach(socket, j);
      } else {
        defQueue := defQueue.(socket := 0, index := 0, header := [], datalen := 0);
      }
    }

    /** One of the queues takes the place of the default queue, which is freed. */
    method Detach(socket: int, j: int)
      requires socket > 0 && QuietBut(socket) && j == Position(queues, socket) >= 0
      modifies this`defQueue, this`queues
      ensures Idle() && OthersKept(socket) && Current(socket).datalen == 0 && Kept(Current(socket)) == []
      ensures Position(queues, socket) < 0
      ensures defQueue == old(Current(socket)).(socket := 0, index := 0, header := [], datalen := 0)
    {
      hide Position, HeaderOk, DataOk;
      Fresh();
      PositionMeans(queues);
      defQueue := queues[j].(socket := 0, index := 0, header := [], datalen := 0);
      queues := Without(queues, j);
      PositionMeans(queues);
      assert forall i :: 0 <= i < |old(queues)| && i != j ==> old(queues)[i].socket != socket;
      forall o
        ensures DistinctSockets(queues) && (o > 0 && o != socket ==> Current(o) == old(Current(o)))
      {
        RemovedPosition(old(queues), j, o);
      }
    }

    /** SocketBuffer_cleanup. */
    method Cleanup(socket: int)
      requires socket > 0 && QuietBut(socket)
      modifies this`defQueue, this`queues
      ensures Idle() && OthersKept(socket) && Current(socket).datalen == 0 && Kept(Current(socket)) == []
    {
      hide Position, QueueOk, Kept, QuietBut, Idle, Current;
      Discard(socket);
      Reset(socket);
    }

    /** The socket's queue, if it has one, leaves the list. */
    method Discard(socket: int)
      requires socket > 0 && QuietBut(socket)
      modifies this`queues
      ensures QuietBut(socket) && OthersKept(socket) && Position(queues, socket) < 0
    {
      hide Position, QueueOk;
      var j := FindQueue(socket);
      if j >= 0 {
        queues := Without(queues, j);
        forall o
          ensures DistinctSockets(queues) && (o == socket ==> Position(queues, o) < 0)
          ensures o != socket ==> (Position(queues, o) < 0 <==> Position(old(queues), o) < 0)
          ensures o != socket && Position(queues, o) >= 0 ==>
            queues[Position(queues, o)] == old(queues)[Position(old(queues), o)]
        {
          PositionIs(old(queues), j);
          RemovedPosition(old(queues), j, o);
        }
      }
    }

    /** The default queue is emptied if it is the socket's. */
    method Reset(socket: int)
      requires socket > 0 && QuietBut(socket) && Position(queues, socket) < 0
      modifies this`defQueue
      ensures Idle() && OthersKept(socket) && Current(socket).datalen == 0 && Kept(Current(socket)) == []
    {
      hide Position, HeaderOk, DataOk;
      Fresh();
      PositionMeans(queues);
      if defQueue.socket == socket {
        defQueue := defQueue.(socket := 0, index := 0, header := [], datalen := 0);
      }
    }

    // ----- reading -----

    /** What is known of the bytes while they are read: those of the header come first. */
    lemma HeaderFirst(socket: int)
      requires QuietBut(socket)
      ensures var h := Current(socket).header; |h| <= |Unread(socket)| && Unread(socket)[..|h|] == h
      ensures QueueOk(Current(socket)) && Current(socket).socket == socket
    {
    }

    lemma IdleReads(socket: int)
      requires Idle() && socket > 0
      ensures Reading(socket, 0) && QuietBut(socket)
    {
    }

    lemma ReadingMeans(socket: int, k: nat)
      requires Reading(socket, k)
      ensures QuietBut(socket) && Current(socket).index == k <= |Current(socket).header|
      ensures Position(queues, socket) < 0 ==> |Current(socket).header| == k && Current(socket).datalen == 0
    {
    }

    /** Socket_getch: the next byte of the header, from the queue or from the network. */
    method GetCh(socket: int, ghost k: nat) returns (rc: Outcome<byte>)
      requires socket > 0 && Reading(socket, k) && (k < HEADER_SIZE || Position(queues, socket) >= 0)
      requires k == |Current(socket).header| ==> Open(Current(socket).header)
      modifies this
      ensures Elsewhere(socket)
      ensures rc.Complete? ==> Reading(socket, k + 1) && Unread(socket) == old(Unread(socket))
      ensures rc.Complete? ==> k < |Unread(socket)| && rc.value == Unread(socket)[k]
      ensures rc.Interrupted? ==> Idle() && Unread(socket) == old(Unread(socket))
      ensures !rc.BadPacket? && (rc.Failed? ==> QuietBut(socket))
    {
      hide Position, QueueOk, QuietBut, Current, Reading, Idle;
      ReadingMeans(socket, k);
      HeaderFirst(socket);
      OpenHasNoData(Current(socket));
      var j := FindQueueIn(socket);
      if j >= 0 && queues[j].index < |queues[j].header| {
        rc := GetQueuedCh(socket, j, k);
      } else if j >= 0 && queues[j].index > 4 {
        rc := Failed;
      } else {
        rc := GetNewCh(socket, k);
      }
    }

    method FindQueueIn(socket: int) returns (j: int)
      requires QuietBut(socket)
      ensures j == Position(queues, socket) && -1 <= j < |queues| && (j >= 0 ==> Current(socket) == queues[j])
    {
      j := FindQueue(socket);
    }

    /** SocketBuffer_getQueuedChar. */
    method GetQueuedCh(socket: int, j: int, ghost k: nat) returns (rc: Outcome<byte>)
      requires socket > 0 && Reading(socket, k) && j == Position(queues, socket) && 0 <= j < |queues|
      requires queues[j] == Current(socket)
      requires k < |Current(socket).header|
      modifies this`defQueue, this`queues
      ensures OthersKept(socket) && Reading(socket, k + 1) && Unread(socket) == old(Unread(socket))
      ensures k < |Unread(socket)| && rc == Complete(Unread(socket)[k])
    {
      hide Position, QueueOk, QuietBut, Current, Idle;
      ReadingMeans(socket, k);
      HeaderFirst(socket);
      NextIndex(Current(socket), k + 1);
      rc := Complete(queues[j].header[queues[j].index]);
      Update(socket, queues[j].(index := queues[j].index + 1));
    }

    /** The part of Socket_getch that reads from the network. */
    method GetNewCh(socket: int, ghost k: nat) returns (rc: Outcome<byte>)
      requires socket > 0 && Reading(socket, k) && k == |Current(socket).header| < HEADER_SIZE
      requires Open(Current(socket).header) && Current(socket).datalen == 0
      modifies this
      ensures Elsewhere(socket)
      ensures rc.Complete? ==> Reading(socket, k + 1) && Unread(socket) == old(Unread(socket))
      ensures rc.Complete? ==> k < |Unread(socket)| && rc.value == Unread(socket)[k]
      ensures rc.Interrupted? ==> Idle() && Unread(socket) == old(Unread(socket))
      ensures !rc.BadPacket? && (rc.Failed? ==> QuietBut(socket))
    {
      hide Position, QueueOk, QuietBut, Current, Idle;
      HeaderFirst(socket);
      var got := ReceiveSome(socket, 1);
      match got {
        case WouldBlock =>
          assert Current(socket).(datalen := 0) == Current(socket);
          Interrupt(socket, 0);
          rc := Interrupted;
        case Closed =>
          rc := Failed;
        case Data(bytes) =>
          QueueChar(socket, bytes[0]);
          Moved(old(Current(socket)), Current(socket), bytes, Coming(socket));
          rc := Complete(bytes[0]);
      }
    }

    /** MQTTPacket_decode: the remaining length, and how many bytes it takes. */
    method DecodeLength(socket: int) returns (rc: Outcome<nat>, len: nat)
      requires socket > 0 && Reading(socket, 1)
      modifies this
      ensures Elsewhere(socket)
      ensures rc.Complete? ==>
        && Reading(socket, 1 + len) && Unread(socket) == old(Unread(socket)) && 1 <= len < |Unread(socket)|
        && |Current(socket).header| == 1 + len && Unread(socket)[len] < 128
        && Decode(Unread(socket)[1..], MAX_LENGTH_BYTES) == Some((rc.value, len))
      ensures rc.Interrupted? ==> Idle() && Unread(socket) == old(Unread(socket))
      ensures rc.BadPacket? ==> QuietBut(socket) && Split(old(Unread(socket))) == Malformed
      ensures rc.Failed? ==> QuietBut(socket)
    {
      hide Position, QueueOk, Decode, Shifted, Unread, Current, Reading, Idle, QuietBut, Split, Accumulated, Weight;
      ghost var u := Unread(socket);
      StreamNotEmpty(socket);
      var value: nat, multiplier: nat := 0, 1;
      len := 0;
      DecodeStart(u[1..]);
      while true
        invariant len <= MAX_LENGTH_BYTES && len < |u| && Unread(socket) == u && Reading(socket, 1 + len)
        invariant Elsewhere(socket)
        invariant forall i :: 1 <= i <= len ==> u[i] >= 128
        invariant Decode(u[1..], MAX_LENGTH_BYTES) == Shifted(value, multiplier, len,
            Decode(u[1..][len..], MAX_LENGTH_BYTES - len))
        decreases MAX_LENGTH_BYTES - len
      {
        if len + 1 > MAX_LENGTH_BYTES {
          TooLong(socket, u, len, value, multiplier);
          return BadPacket, len;
        }
        StillOpen(socket, 1 + len);
        var c := GetCh(socket, 1 + len);
        if !c.Complete? {
          rc := if c.Interrupted? then Interrupted else Failed;
          return;
        }
        DigitRead(u, len, value, multiplier);
        value := Accumulated(value, c.value, multiplier);
        multiplier := Weight(multiplier);
        len := len + 1;
        if c.value < 128 {
          HeaderEnds(socket, len);
          return Complete(value), len;
        }
      }
    }

    lemma TooLong(socket: int, u: seq<byte>, len: nat, value: nat, multiplier: nat)
      requires Reading(socket, 1 + len) && len == MAX_LENGTH_BYTES < |u|
      requires Decode(u[1..], MAX_LENGTH_BYTES) == Shifted(value, multiplier, len,
          Decode(u[1..][len..], MAX_LENGTH_BYTES - len))
      ensures QuietBut(socket) && Split(u) == Malformed
    {
      DecodeEnd(u[1..], len, value, multiplier);
    }

    lemma StreamNotEmpty(socket: int)
      requires Reading(socket, 1)
      ensures |Unread(socket)| >= 1
    {
    }

    /** As long as no length byte ends the header, a header read to its end is open. */
    lemma StillOpen(socket: int, k: nat)
      requires Reading(socket, k) && k <= |Unread(socket)| && forall i :: 1 <= i < k ==> Unread(socket)[i] >= 128
      ensures k == |Current(socket).header| ==> Open(Current(socket).header)
    {
      HeaderFirst(socket);
      hide Unread;
      var h := Current(socket).header;
      assert forall i :: 0 <= i < |h| ==> h[i] == Unread(socket)[..|h|][i];
    }

    /** The length byte without a continuation bit is the last of the header. */
    lemma HeaderEnds(socket: int, len: nat)
      requires Reading(socket, 1 + len) && 1 <= len < |Unread(socket)| && Unread(socket)[len] < 128
      ensures |Current(socket).header| == 1 + len
    {
      HeaderFirst(socket);
      hide Unread;
      var h := Current(socket).header;
      assert h[len] == Unread(socket)[..|h|][len];
    }

    /** Socket_getdata: the rest of the packet. */
    method GetData(socket: int, n: nat, ghost k: nat) returns (rc: Outcome<seq<byte>>)
      requires socket > 0 && Reading(socket, k) && k == |Current(socket).header| > 1
      requires Current(socket).header[k - 1] < 128
      requires Decode(Current(socket).header[1..], MAX_LENGTH_BYTES) == Some((n, k - 1))
      modifies this
      ensures Elsewhere(socket)
      ensures rc.Complete? ==> Idle() && k + n <= |old(Unread(socket))| && rc.value == old(Unread(socket))[k..k + n]
                               && Unread(socket) == old(Unread(socket))[k + n..]
      ensures rc.Interrupted? ==> Idle() && Unread(socket) == old(Unread(socket))
      ensures !rc.BadPacket? && (rc.Failed? ==> QuietBut(socket))
    {
      hide Position, QueueOk, QuietBut, Current, Reading, Idle, Kept, Decode;
      ReadingMeans(socket, k);
      if n == 0 {
        NoData(socket);
        Finish(socket);
        rc := Complete([]);
      } else {
        rc := GetMore(socket, n, k);
      }
    }

    lemma NoData(socket: int)
      requires QuietBut(socket) && |Current(socket).header| > 1
      requires Decode(Current(socket).header[1..], MAX_LENGTH_BYTES) == Some((0, |Current(socket).header| - 1))
      ensures Unread(socket) == Current(socket).header + Coming(socket)
    {
      HeaderFirst(socket);
      LessThanAll(Current(socket), 0);
    }

    /** The part of Socket_getdata that reads from the network. */
    method GetMore(socket: int, n: nat, ghost k: nat) returns (rc: Outcome<seq<byte>>)
      requires socket > 0 && QuietBut(socket) && k == |Current(socket).header| > 1
      requires Current(socket).header[k - 1] < 128
      requires Decode(Current(socket).header[1..], MAX_LENGTH_BYTES) == Some((n, k - 1)) && n > 0
      modifies this
      ensures Elsewhere(socket)
      ensures rc.Complete? ==> Idle() && k + n <= |old(Unread(socket))| && rc.value == old(Unread(socket))[k..k + n]
                               && Unread(socket) == old(Unread(socket))[k + n..]
      ensures rc.Interrupted? ==> Idle() && Unread(socket) == old(Unread(socket))
      ensures !rc.BadPacket? && (rc.Failed? ==> QuietBut(socket))
    {
      hide Position, QueueOk, QuietBut, Current, Idle, Kept, Decode;
      HeaderFirst(socket);
      LessThanAll(Current(socket), n);
      var got := ReceiveSome(socket, n - Current(socket).datalen);
      if got.Closed? {
        rc := Failed;
      } else {
        var more := if got.Data? then got.bytes else [];
        assert old(Coming(socket)) == more + Coming(socket);
        rc := TakeIn(socket, more, n, k);
      }
    }

    /** The bytes read join those in the queue. */
    method TakeIn(socket: int, more: seq<byte>, n: nat, ghost k: nat) returns (rc: Outcome<seq<byte>>)
      requires socket > 0 && QuietBut(socket) && k == |Current(socket).header| > 1
      requires Current(socket).header[k - 1] < 128
      requires Decode(Current(socket).header[1..], MAX_LENGTH_BYTES) == Some((n, k - 1))
      requires Current(socket).datalen + |more| <= n
      modifies this`defQueue, this`queues
      ensures Idle() && OthersKept(socket)
      ensures var u := old(Kept(Current(socket))) + (more + Coming(socket));
        if rc.Complete? then k + n <= |u| && rc.value == u[k..k + n] && Unread(socket) == u[k + n..]
        else rc.Interrupted? && Unread(socket) == u
    {
      hide Position, QueueOk, QuietBut, Current, Idle, Kept, Decode;
      HeaderFirst(socket);
      LessThanAll(Current(socket), n);
      var q := Current(socket);
      KeptIs(q);
      ghost var rest := Coming(socket);
      Arrived(q.header, q.buf[..q.datalen], more, rest, n);
      rc := EndOfRead(socket, q.buf[..q.datalen] + more, n);
      assert Unread(socket) == Kept(Current(socket)) + rest;
      hide Unread;
    }

    /** The end of Socket_getdata: is the packet complete? */
    method EndOfRead(socket: int, buf: seq<byte>, n: nat) returns (rc: Outcome<seq<byte>>)
      requires socket > 0 && QuietBut(socket) && |Current(socket).header| > 1
      requires Current(socket).header[|Current(socket).header| - 1] < 128
      requires Decode(Current(socket).header[1..], MAX_LENGTH_BYTES) == Some((n, |Current(socket).header| - 1))
      requires Current(socket).datalen <= |buf| <= n
      modifies this`defQueue, this`queues
      ensures Idle() && OthersKept(socket)
      ensures if |buf| == n then rc == Complete(buf) && Kept(Current(socket)) == []
              else rc == Interrupted && Kept(Current(socket)) == old(Current(socket).header) + buf
    {
      hide Position, QueueOk, QuietBut, Current, Idle, Kept, Decode;
      HeaderFirst(socket);
      if |buf| == n {
        Finish(socket);
        rc := Complete(buf);
      } else {
        StoreData(Current(socket), buf, n);
        KeepData(socket, buf);
        rc := Interrupted;
      }
    }

    /** The data read so far stays in the queue. */
    method KeepData(socket: int, buf: seq<byte>)
      requires socket > 0 && QuietBut(socket) && QueueOk(Current(socket).(buf := buf))
      requires QueueOk(Current(socket).(buf := buf, datalen := |buf|))
      modifies this`defQueue, this`queues
      ensures Idle() && OthersKept(socket) && Kept(Current(socket)) == old(Current(socket).header) + buf
    {
      hide Position, QueueOk, QuietBut, Current, Idle;
      HeaderFirst(socket);
      Update(socket, Current(socket).(buf := buf));
      Interrupt(socket, |buf|);
      assert buf[..|buf|] == buf;
    }

    /** MQTTPacket_Factory, up to the parsing of the packet. From the stream's whole unread part it takes the
        first packet, or nothing at all; the other sockets keep every byte. */
    method Factory(socket: int) returns (rc: Outcome<Frame>)
      requires socket > 0 && Idle()
      modifies this
      ensures forall o :: o > 0 && o != socket ==> Unread(o) == old(Unread(o))
      ensures rc.Complete? ==>
        && Idle() && var f := Split(old(Unread(socket)));
        f.Packet? && rc.value == Frame(f.header, f.data) && Unread(socket) == old(Unread(socket))[f.size..]
      ensures rc.Interrupted? ==> Idle() && Unread(socket) == old(Unread(socket))
      ensures rc.BadPacket? ==> QuietBut(socket) && Split(old(Unread(socket))) == Malformed
      ensures rc.Failed? ==> QuietBut(socket)
    {
      hide Position, QueueOk, Decode, Split, Unread, Current, Reading, Idle, QuietBut;
      IdleReads(socket);
      ghost var u := Unread(socket);
      StillOpen(socket, 0);
      var h := GetCh(socket, 0);
      if !h.Complete? {
        return if h.Interrupted? then Interrupted else Failed;
      }
      var n, len;
      n, len := DecodeLength(socket);
      if !n.Complete? {
        return match n case Interrupted => Interrupted case BadPacket => BadPacket case _ => Failed;
      }
      ReadingMeans(socket, 1 + len);
      HeaderFirst(socket);
      HeaderDecodes(u, Current(socket).header, n.value, len);
      var data := GetData(socket, n.value, 1 + len);
      if !data.Complete? {
        return if data.Interrupted? then Interrupted else Failed;
      }
      rc := Complete(Frame(h.value, data.value));
    }

    /** Any calls for any sockets: each socket's packets are those of its whole stream, up to where it has been read.
        A socket whose stream fails or is malformed is cleaned up and not read again. */
    method Run(calls: seq<int>) returns (log: seq<(int, Frame)>, dead: set<int>)
      requires Idle() && forall i :: 0 <= i < |calls| ==> calls[i] > 0
      modifies this
      ensures Idle()
      ensures forall s :: s > 0 && s !in dead ==> FramesOf(log, s) + Parse(Unread(s)) == Parse(old(Unread(s)))
      ensures forall s :: s > 0 ==> FramesOf(log, s) <= Parse(old(Unread(s)))
    {
      hide Idle, QuietBut, Split, Parse, Unread, FramesOf;
      log, dead := [], {};
      assert forall s :: FramesOf([], s) == [] by { NoFrames(); }
      for i := 0 to |calls|
        invariant Idle()
        invariant forall s :: s > 0 && s !in dead ==> FramesOf(log, s) + Parse(Unread(s)) == Parse(old(Unread(s)))
        invariant forall s :: s > 0 ==> FramesOf(log, s) <= Parse(old(Unread(s)))
      {
        var s := calls[i];
        if s !in dead {
          ghost var u := Unread(s);
          var rc := Factory(s);
          match rc {
            case Complete(f) =>
              ParseNext(u, f, Unread(s));
              forall o { FramesNext(log, s, f, o); }
              log := log + [(s, f)];
            case Interrupted =>
            case _ =>
              dead := dead + {s};
              Drop(s);
          }
        }
      }
    }

    /** The socket is closed: what was kept for it goes. */
    method Drop(socket: int)
      requires socket > 0 && QuietBut(socket)
      modifies this`defQueue, this`queues
      ensures Idle() && forall o :: o > 0 && o != socket ==> Unread(o) == old(Unread(o))
    {
      hide Sane, Position;
      Cleanup(socket);
    }
  }

  /** The packets that a run has read from a socket. */
  function FramesOf(log: seq<(int, Frame)>, socket: int): seq<Frame> {
    if |log| == 0 then []
    else
      var last := log[|log| - 1];
      FramesOf(log[..|log| - 1], socket) + if last.0 == socket then [last.1] else []
  }

  lemma NoFrames()
    ensures forall s :: FramesOf([], s) == []
  {
  }

  lemma FramesNext(log: seq<(int, Frame)>, s: int, f: Frame, o: int)
    ensures FramesOf(log + [(s, f)], o) == FramesOf(log, o) + if o == s then [f] else []
  {
    assert (log + [(s, f)])[..|log|] == log;
  }

  lemma ParseNext(u: seq<byte>, f: Frame, rest: seq<byte>)
    requires Split(u).Packet? && f == Frame(Split(u).header, Split(u).data) && Split(u).size <= |u|
    requires rest == u[Split(u).size..]
    ensures Parse(u) == [f] + Parse(rest)
  {
  }

  lemma NextIndex(q: Queue, i: nat)
    requires QueueOk(q) && i <= |q.header|
    ensures QueueOk(q.(index := i))
  {
  }

  /** A byte that moves from the network to the queue is still unread. */
  lemma Moved(q: Queue, q': Queue, bytes: seq<byte>, rest: seq<byte>)
    requires |bytes| == 1 && q.datalen == 0 && q'.datalen == 0 && q'.header == q.header + [bytes[0]]
    ensures Kept(q') + rest == Kept(q) + (bytes + rest) && (Kept(q') + rest)[|q.header|] == bytes[0]
  {
    assert bytes == [bytes[0]];
  }

  lemma KeptIs(q: Queue)
    requires q.datalen <= |q.buf|
    ensures Kept(q) == q.header + q.buf[..q.datalen]
  {
  }

  /** The bytes after the header: those there were, those that have just come, and those still to come. */
  lemma Arrived(h: seq<byte>, a: seq<byte>, b: seq<byte>, rest: seq<byte>, n: nat)
    ensures var u := h + a + (b + rest);
      if |a + b| == n then |h| + n <= |u| && a + b == u[|h|..|h| + n] && [] + rest == u[|h| + n..]
      else h + (a + b) + rest == u
  {
    var u := h + a + (b + rest);
    assert u == h + (a + b) + rest;
    if |a + b| == n {
      assert u[|h|..|h| + n] == a + b && u[|h| + n..] == rest;
    }
  }

  /** The value with one more length byte counted in. */
  function Accumulated(value: nat, c: byte, multiplier: nat): nat {
    value + (if c < 128 then c else c - 128) * multiplier
  }

  function Weight(multiplier: nat): nat {
    multiplier * 128
  }

  lemma DigitRead(u: seq<byte>, len: nat, value: nat, multiplier: nat)
    requires 1 + len < |u| && len < MAX_LENGTH_BYTES
    ensures var left := MAX_LENGTH_BYTES - len; var v := Accumulated(value, u[1 + len], multiplier);
      Shifted(value, multiplier, len, Decode(u[1..][len..], left)) ==
      if u[1 + len] < 128 then Some((v, len + 1))
      else Shifted(v, Weight(multiplier), len + 1, Decode(u[1..][len + 1..], left - 1))
  {
    hide Decode;
    assert u[1..][len] == u[1 + len];
    ReadDigit(u[1..], len, value, multiplier);
  }

  lemma OpenHasNoData(q: Queue)
    requires QueueOk(q)
    ensures Open(q.header) ==> q.datalen == 0
  {
  }

  lemma LessThanAll(q: Queue, n: nat)
    requires QueueOk(q) && |q.header| >= 1
    requires Decode(q.header[1..], MAX_LENGTH_BYTES).Some? && Decode(q.header[1..], MAX_LENGTH_BYTES).value.0 == n
    ensures q.datalen <= |q.buf| && q.datalen <= n && (q.datalen < n || n == 0)
  {
  }

  /** A queue may keep any part of the data short of all of it. */
  lemma StoreData(q: Queue, buf: seq<byte>, n: nat)
    requires QueueOk(q) && |q.header| > 1 && q.header[|q.header| - 1] < 128 && |buf| < n && q.datalen <= |buf|
    requires Decode(q.header[1..], MAX_LENGTH_BYTES).Some? && Decode(q.header[1..], MAX_LENGTH_BYTES).value.0 == n
    ensures QueueOk(q.(buf := buf)) && QueueOk(q.(buf := buf, datalen := |buf|))
  {
  }

  lemma {:induction false} DecodePrefix(s: seq<byte>, limit: nat)
    requires Decode(s, limit).Some?
    ensures Decode(s[..Decode(s, limit).value.1], limit) == Decode(s, limit)
  {
    if s[0] >= 128 {
      DecodePrefix(s[1..], limit - 1);
      var k := Decode(s, limit).value.1;
      assert s[..k][1..] == s[1..][..k - 1];
    }
  }

  /** The header's own bytes decode to the length that those of the stream decode to. */
  lemma HeaderDecodes(u: seq<byte>, h: seq<byte>, n: nat, len: nat)
    requires |h| == 1 + len <= |u| && u[..|h|] == h && 1 <= len && u[len] < 128
    requires Decode(u[1..], MAX_LENGTH_BYTES) == Some((n, len))
    ensures Decode(h[1..], MAX_LENGTH_BYTES) == Some((n, len)) && h[len] < 128
    ensures |u| >= 1 + len + n ==> Split(u) == Packet(u[0], u[1 + len..1 + len + n], 1 + len + n)
  {
    DecodePrefix(u[1..], MAX_LENGTH_BYTES);
    assert u[1..][..len] == h[1..];
    assert h[len] == u[len];
  }

  lemma PositionMeans(qs: seq<Queue>)
    ensures forall o :: -1 <= Position(qs, o) < |qs| && (Position(qs, o) >= 0 ==> qs[Position(qs, o)].socket == o)
    ensures forall o, j :: Position(qs, o) < 0 && 0 <= j < |qs| ==> qs[j].socket != o
  {
  }

  lemma Fresh()
    ensures forall q :: Unused(q) ==> QueueOk(q) && forall s :: QueueOk(q.(socket := s, index := 0, datalen := 0))
    ensures forall q :: QueueOk(q) ==> q.datalen <= |q.buf| && QueueOk(q.(index := 0))
  {
  }

  lemma SameButIndex(q: Queue, n: nat)
    requires QueueOk(q.(datalen := n))
    ensures n <= |q.buf| && forall s :: QueueOk(q.(socket := s, index := 0, datalen := n))
  {
  }

  lemma SamePositions(qs: seq<Queue>, qs': seq<Queue>, j: int)
    requires DistinctSockets(qs) && 0 <= j < |qs| == |qs'| && qs' == qs[j := qs'[j]] && qs'[j].socket == qs[j].socket
    ensures DistinctSockets(qs') && forall o :: Position(qs', o) == Position(qs, o)
  {
    forall o
      ensures Position(qs', o) == Position(qs, o)
    {
      var a, b := Position(qs, o), Position(qs', o);
      if a >= 0 { PositionIs(qs', a); }
      if b >= 0 { assert qs[b].socket == o; }
    }
  }

  lemma AppendedPositions(qs: seq<Queue>, qs': seq<Queue>, socket: int)
    requires DistinctSockets(qs) && Position(qs, socket) < 0 && |qs'| == |qs| + 1 && qs' == qs + [qs'[|qs|]]
    requires qs'[|qs|].socket == socket
    ensures DistinctSockets(qs') && forall o :: Position(qs', o) == if o == socket then |qs| else Position(qs, o)
  {
    assert qs'[..|qs'| - 1] == qs;
  }

  /** The queues without one of them. */
  function Without(qs: seq<Queue>, j: int): (r: seq<Queue>)
    requires 0 <= j < |qs|
    ensures |r| == |qs| - 1
    ensures forall i :: 0 <= i < |r| ==> r[i] == if i < j then qs[i] else qs[i + 1]
  {
    qs[..j] + qs[j + 1..]
  }

  lemma RemovedPosition(qs: seq<Queue>, j: int, o: int)
    requires DistinctSockets(qs) && 0 <= j < |qs|
    ensures var qs' := Without(qs, j);
      && DistinctSockets(qs') && (o == qs[j].socket ==> Position(qs', o) < 0)
      && (o != qs[j].socket ==> (Position(qs', o) < 0 <==> Position(qs, o) < 0))
      && (o != qs[j].socket && Position(qs, o) >= 0 ==> qs'[Position(qs', o)] == qs[Position(qs, o)])
  {
    var qs' := Without(qs, j);
    var a, b := Position(qs, o), Position(qs', o);
    if a >= 0 && o != qs[j].socket {
      var i := if a < j then a else a - 1;
      assert qs'[i] == qs[a];
      PositionIs(qs', i);
    }
    if b >= 0 {
      assert qs[if b < j then b else b + 1].socket == o;
    }
  }
}
