/** The writer: Socket_putdatas, Socket_continueWrite and SocketBuffer.c's pending writes, with a writev that takes as
    many bytes as it likes. */
module SocketWriter {
  import opened Bytes
  import opened Packets

  /** A pending_writes: the buffers of one packet, its length, and how much of it has been written. */
  datatype Pending = Pending(socket: int, iovecs: seq<seq<byte>>, total: nat, bytes: nat)

  predicate PendingOk(w: Pending) {
    w.total == |Concat(w.iovecs)| && w.bytes < w.total
  }

  /** The position of a socket's pending write, or -1. */
  function Position(ws: seq<Pending>, socket: int): (r: int)
    ensures -1 <= r < |ws|
    ensures r >= 0 ==> ws[r].socket == socket && forall j :: 0 <= j < r ==> ws[j].socket != socket
    ensures r < 0 ==> forall j :: 0 <= j < |ws| ==> ws[j].socket != socket
  {
    if |ws| == 0 then -1
    else if ws[0].socket == socket then 0
    else
      var r := Position(ws[1..], socket);
      assert forall j :: 1 <= j < |ws| ==> ws[j] == ws[1..][j - 1];
      if r < 0 then -1 else r + 1
  }

  predicate DistinctSockets(ws: seq<Pending>) {
    forall i, j :: 0 <= i < j < |ws| ==> ws[i].socket != ws[j].socket
  }

  function PendingFor(ws: seq<Pending>, socket: int): (r: Option<Pending>)
    ensures r.Some? ==> r.value in ws && r.value.socket == socket
    ensures r.None? ==> forall j :: 0 <= j < |ws| ==> ws[j].socket != socket
  {
    var i := Position(ws, socket);
    if i < 0 then None else Some(ws[i])
  }

  lemma PendingForIs(ws: seq<Pending>, i: int)
    requires DistinctSockets(ws) && 0 <= i < |ws|
    ensures PendingFor(ws, ws[i].socket) == Some(ws[i])
  {
    assert Position(ws, ws[i].socket) == i;
  }

  /** Whole packets, and then a prefix of at most one more, of the length that has been counted. */
  predicate Atomic(wire: seq<byte>, issued: seq<seq<byte>>, pending: Option<Pending>) {
    match pending
    case None => wire == Concat(issued)
    case Some(w) =>
      && PendingOk(w) && |issued| > 0 && issued[|issued| - 1] == Concat(w.iovecs)
      && wire == Concat(issued[..|issued| - 1]) + Concat(w.iovecs)[..w.bytes]
  }

  lemma {:induction false} ConcatAppend(a: seq<seq<byte>>, b: seq<seq<byte>>)
    ensures Concat(a + b) == Concat(a) + Concat(b)
  {
    if |a| == 0 {
      assert a + b == b;
    } else {
      assert (a + b)[1..] == a[1..] + b;
      ConcatAppend(a[1..], b);
    }
  }

  lemma ConcatOne(x: seq<byte>)
    ensures Concat([x]) == x
  {
    assert [x][1..] == [];
  }

  lemma ConcatSnoc(a: seq<seq<byte>>, x: seq<byte>)
    ensures Concat(a + [x]) == Concat(a) + x
  {
    ConcatAppend(a, [x]);
    ConcatOne(x);
  }

  // ----- what is left to write -----

  /** The loop of Socket_continueWrite that chooses what to write next: the rest of the buffer in which the last
      write stopped, or else all the buffers from there on. Either way it is what comes next in the packet. */
  method Remaining(w: Pending) returns (iovecs1: seq<seq<byte>>)
    requires PendingOk(w)
    ensures 0 < |Concat(iovecs1)| <= w.total - w.bytes
    ensures Concat(iovecs1) == Concat(w.iovecs)[w.bytes..w.bytes + |Concat(iovecs1)|]
  {
    hide Concat;
    iovecs1 := [];
    var curbuflen := 0;
    NoBuffers();
    for i := 0 to |w.iovecs|
      invariant curbuflen == |Concat(w.iovecs[..i])|
      invariant w.bytes > curbuflen ==> iovecs1 == []
      invariant w.bytes <= curbuflen ==> Concat(iovecs1) == Concat(w.iovecs[..i])[w.bytes..]
    {
      var buf := w.iovecs[i];
      NextBuffer(w.iovecs, i, iovecs1, w.bytes);
      if w.bytes <= curbuflen {
        iovecs1 := iovecs1 + [buf];
      } else if w.bytes < curbuflen + |buf| {
        iovecs1 := iovecs1 + [buf[w.bytes - curbuflen..]];
        BufferPrefix(w.iovecs, i + 1);
        return;
      }
      curbuflen := curbuflen + |buf|;
    }
    BufferPrefix(w.iovecs, |w.iovecs|);
  }

  lemma NoBuffers()
    ensures Concat([]) == []
  {
  }

  lemma NextBuffer(bufs: seq<seq<byte>>, i: int, chosen: seq<seq<byte>>, bytes: nat)
    requires 0 <= i < |bufs|
    ensures Concat(bufs[..i + 1]) == Concat(bufs[..i]) + bufs[i]
    ensures forall x :: Concat(chosen + [x]) == Concat(chosen) + x
    ensures bytes <= |Concat(bufs[..i])| ==> Concat(bufs[..i])[bytes..] + bufs[i] == Concat(bufs[..i + 1])[bytes..]
    ensures |Concat(bufs[..i])| < bytes < |Concat(bufs[..i])| + |bufs[i]| ==>
      bufs[i][bytes - |Concat(bufs[..i])|..] == Concat(bufs[..i + 1])[bytes..]
  {
    assert bufs[..i + 1] == bufs[..i] + [bufs[i]];
    ConcatSnoc(bufs[..i], bufs[i]);
    forall x {
      ConcatSnoc(chosen, x);
    }
  }

  lemma BufferPrefix(bufs: seq<seq<byte>>, i: int)
    requires 0 <= i <= |bufs|
    ensures |Concat(bufs[..i])| <= |Concat(bufs)| && Concat(bufs)[..|Concat(bufs[..i])|] == Concat(bufs[..i])
    ensures bufs[..|bufs|] == bufs
  {
    assert bufs == bufs[..i] + bufs[i..];
    ConcatAppend(bufs[..i], bufs[i..]);
  }

  datatype Result = Complete | Interrupted | SocketError

  class Writer {
    /** SocketBuffer.c's list of pending writes. */
    var writes: seq<Pending>
    /** Socket.c's list of the sockets that have one. */
    var writePending: seq<int>
    /** What each socket has accepted. */
    var wire: map<int, seq<byte>>
    /** The packets that Socket_putdatas has taken on, by socket. */
    ghost var issued: map<int, seq<seq<byte>>>
    /** The sockets on which a packet had to be given up. */
    ghost var broken: set<int>

    function Wire(socket: int): seq<byte>
      reads this`wire
    {
      if socket in wire then wire[socket] else []
    }

    ghost function Issued(socket: int): seq<seq<byte>>
      reads this`issued
    {
      if socket in issued then issued[socket] else []
    }

    ghost predicate Listed()
      reads this`writes, this`writePending
    {
      && DistinctSockets(writes) && |writePending| == |writes|
      && forall i :: 0 <= i < |writes| ==> writePending[i] == writes[i].socket && PendingOk(writes[i])
    }

    /** On every socket without an error: whole packets, and a prefix of at most one pending packet. */
    ghost predicate Valid()
      reads this
    {
      Listed() && forall s :: s !in broken ==> Atomic(Wire(s), Issued(s), PendingFor(writes, s))
    }

    constructor ()
      ensures Valid() && issued == map[] && broken == {}
    {
      writes, writePending, wire, issued, broken := [], [], map[], map[], {};
    }

    /** Nothing but the given socket's affairs has changed. */
    twostate predicate Elsewhere(socket: int)
      reads this
    {
      forall s :: s != socket ==>
        Wire(s) == old(Wire(s)) && Issued(s) == old(Issued(s)) && PendingFor(writes, s) == old(PendingFor(writes, s))
    }

    /** writev: a prefix of the buffers, perhaps empty, or an error. */
    method Writev(socket: int, iovecs: seq<seq<byte>>) returns (error: bool, bytes: nat)
      modifies this`wire
      ensures bytes <= |Concat(iovecs)| && (error ==> bytes == 0)
      ensures Wire(socket) == old(Wire(socket)) + Concat(iovecs)[..bytes]
      ensures forall s :: s != socket ==> Wire(s) == old(Wire(s))
    {
      error :| error in {true, false};
      bytes := 0;
      if !error {
        bytes :| 0 <= bytes <= |Concat(iovecs)|;
        wire := wire[socket := Wire(socket) + Concat(iovecs)[..bytes]];
      }
    }

    /** Socket_noPendingWrites. */
    method NoPendingWrites(socket: int) returns (r: bool)
      requires Listed()
      ensures r == PendingFor(writes, socket).None?
    {
      for i := 0 to |writePending|
        invariant forall j :: 0 <= j < i ==> writes[j].socket != socket
      {
        if writePending[i] == socket {
          PendingForIs(writes, i);
          return false;
        }
      }
      return true;
    }

    /** Socket_putdatas, for the fixed header and the buffers that follow it. */
    method PutDatas(socket: int, bufs: seq<seq<byte>>) returns (rc: Result)
      requires Valid()
      modifies this
      ensures Valid() && Elsewhere(socket) && broken == old(broken) && old(Wire(socket)) <= Wire(socket)
      ensures rc == SocketError ==> Wire(socket) == old(Wire(socket)) && Issued(socket) == old(Issued(socket))
      ensures rc != SocketError ==>
        old(PendingFor(writes, socket)).None? && Issued(socket) == old(Issued(socket)) + [Concat(bufs)]
      ensures rc == Complete ==> PendingFor(writes, socket).None?
      ensures rc == Interrupted ==> PendingFor(writes, socket).Some?
    {
      hide Concat, Position, PendingFor, Atomic, DistinctSockets, Listed, Wire, Issued;
      ListedNow();
      var clear := NoPendingWrites(socket);
      if !clear { return SocketError; }
      var total := TotalLength(bufs);
      var error, bytes := Writev(socket, bufs);
      assert old(Wire(socket)) + Concat(bufs)[..0] == old(Wire(socket));
      if error { return SocketError; }
      Issue(socket, Concat(bufs));
      if socket !in broken {
        Taken(old(Wire(socket)), old(Issued(socket)), Pending(socket, bufs, total, bytes));
      }
      if bytes == total {
        rc := Complete;
      } else {
        SetPending(Pending(socket, bufs, total, bytes));
        rc := Interrupted;
      }
    }

    ghost method Issue(socket: int, packet: seq<byte>)
      modifies this`issued
      ensures Issued(socket) == old(Issued(socket)) + [packet]
      ensures forall s :: s != socket ==> Issued(s) == old(Issued(s))
    {
      issued := issued[socket := Issued(socket) + [packet]];
    }

    /** SocketBuffer_pendingWrite, and the entry in write_pending. */
    method SetPending(w: Pending)
      requires Listed() && PendingFor(writes, w.socket).None? && PendingOk(w)
      modifies this`writes, this`writePending
      ensures Listed() && PendingFor(writes, w.socket) == Some(w)
      ensures forall s :: s != w.socket ==> PendingFor(writes, s) == old(PendingFor(writes, s))
    {
      hide Concat;
      writes := writes + [w];
      writePending := writePending + [w.socket];
      forall s ensures PendingFor(writes, s) == if s == w.socket then Some(w) else old(PendingFor(writes, s)) {
        AppendedPending(old(writes), w, s);
      }
    }

    /** Socket_continueWrite, for the pending write at position i. What is left falls by the bytes accepted. */
    method ContinueWrite(i: int) returns (error: bool, complete: bool)
      requires Listed() && 0 <= i < |writes|
      requires writes[i].socket !in broken ==> Atomic(Wire(writes[i].socket), Issued(writes[i].socket), Some(writes[i]))
      modifies this`writes, this`wire
      ensures |writes| == old(|writes|) && writes == old(writes)[i := writes[i]]
      ensures writes[i] == old(writes[i]).(bytes := writes[i].bytes)
      ensures writes[i].bytes - old(writes[i].bytes) == |Wire(writes[i].socket)| - |old(Wire(writes[i].socket))|
      ensures old(Wire(writes[i].socket)) <= Wire(old(writes[i].socket))
      ensures forall s :: s != old(writes[i].socket) ==> Wire(s) == old(Wire(s))
      ensures !error ==> complete == (writes[i].bytes == writes[i].total) && (!complete ==> PendingOk(writes[i]))
      ensures !error && writes[i].socket !in broken ==>
        Atomic(Wire(writes[i].socket), Issued(writes[i].socket), if complete then None else Some(writes[i]))
    {
      hide Concat;
      var w := writes[i];
      var iovecs1 := Remaining(w);
      var bytes;
      error, bytes := Writev(w.socket, iovecs1);
      complete := false;
      if !error {
        if w.socket !in broken {
          Resumed(old(Wire(w.socket)), Issued(w.socket), w, Concat(iovecs1), bytes);
        }
        writes := writes[i := w.(bytes := w.bytes + bytes)];
        complete := writes[i].bytes == w.total;
      }
    }

    /** The pending write at position i is resumed and, when it is done or has failed, removed from both lists. */
    method ContinueOne(i: int) returns (removed: bool)
      requires Valid() && 0 <= i < |writes|
      modifies this
      ensures Valid() && issued == old(issued) && old(broken) <= broken
      ensures |writes| == old(|writes|) - (if removed then 1 else 0) && i <= |writes| && (!removed ==> i < |writes|)
      ensures forall s :: old(Wire(s)) <= Wire(s)
      ensures broken <= old(broken) + {old(writes[i].socket)}
    {
      hide Concat, Position, PendingFor, Atomic, DistinctSockets, Listed;
      ListedNow();
      var s := writes[i].socket;
      IsListed(i);
      ghost var was := writes;
      var error, complete := ContinueWrite(i);
      UpdatedPendings(was, writes, i);
      removed := error || complete;
      if removed {
        Remove(i);
        if error { broken := broken + {s}; }
      } else {
        StillListed(was, i);
      }
    }

    lemma IsListed(i: int)
      requires Listed() && 0 <= i < |writes|
      ensures PendingFor(writes, writes[i].socket) == Some(writes[i]) && DistinctSockets(writes)
    {
      PendingForIs(writes, i);
    }

    lemma StillListed(was: seq<Pending>, i: int)
      requires 0 <= i < |writes| == |was| == |writePending| && writes == was[i := writes[i]]
      requires writes[i].socket == was[i].socket
      requires DistinctSockets(writes) && PendingOk(writes[i])
      requires forall j :: 0 <= j < |was| ==> writePending[j] == was[j].socket && PendingOk(was[j])
      ensures Listed()
    {
    }

    /** SocketBuffer_writeComplete, and the removal from write_pending. */
    method Remove(i: int)
      requires DistinctSockets(writes) && |writePending| == |writes| && 0 <= i < |writes|
      requires forall j :: 0 <= j < |writes| ==>
        writePending[j] == writes[j].socket && (j != i ==> PendingOk(writes[j]))
      modifies this`writes, this`writePending
      ensures Listed() && |writes| == old(|writes|) - 1 && writes[i..] == old(writes)[i + 1..]
      ensures PendingFor(writes, old(writes[i].socket)).None?
      ensures forall s :: s != old(writes[i].socket) ==> PendingFor(writes, s) == old(PendingFor(writes, s))
    {
      RemovedPendings(writes, i);
      hide PendingFor, PendingOk;
      writePending := writePending[..i] + writePending[i + 1..];
      writes := Without(writes, i);
    }

    /** Socket_continueWrites, for the sockets that can be written to. */
    method ContinueWrites(ready: set<int>)
      requires Valid()
      modifies this
      ensures Valid() && issued == old(issued) && old(broken) <= broken && forall s :: old(Wire(s)) <= Wire(s)
    {
      hide Valid, Wire;
      var i := 0;
      while i < |writes|
        invariant Valid() && issued == old(issued) && old(broken) <= broken && 0 <= i <= |writes|
        invariant forall s :: old(Wire(s)) <= Wire(s)
        decreases |writes| - i
      {
        var removed := false;
        if writes[i].socket in ready {
          removed := ContinueOne(i);
        }
        if !removed { i := i + 1; }
      }
    }

    lemma ListedNow()
      requires Valid()
      ensures Listed() && DistinctSockets(writes) && |writePending| == |writes|
      ensures forall i :: 0 <= i < |writes| ==> writePending[i] == writes[i].socket && PendingOk(writes[i])
    {
    }
  }

  method TotalLength(bufs: seq<seq<byte>>) returns (total: nat)
    ensures total == |Concat(bufs)|
  {
    total := 0;
    for i := 0 to |bufs|
      invariant total == |Concat(bufs[..i])|
    {
      assert bufs[..i + 1] == bufs[..i] + [bufs[i]];
      ConcatSnoc(bufs[..i], bufs[i]);
      total := total + |bufs[i]|;
    }
    assert bufs[..|bufs|] == bufs;
  }

  /** A packet that has just been started, or written as a whole. */
  lemma Taken(wire: seq<byte>, issued: seq<seq<byte>>, w: Pending)
    requires Atomic(wire, issued, None) && w.total == |Concat(w.iovecs)| && w.bytes <= w.total
    ensures var next := wire + Concat(w.iovecs)[..w.bytes];
      Atomic(next, issued + [Concat(w.iovecs)], if w.bytes == w.total then None else Some(w))
  {
    hide Concat;
    ConcatSnoc(issued, Concat(w.iovecs));
    var is' := issued + [Concat(w.iovecs)];
    assert is'[..|is'| - 1] == issued;
    assert Concat(w.iovecs)[..w.total] == Concat(w.iovecs);
  }

  /** Writing on adds the next bytes of the pending packet. */
  lemma Resumed(wire: seq<byte>, issued: seq<seq<byte>>, w: Pending, rest: seq<byte>, bytes: nat)
    requires Atomic(wire, issued, Some(w)) && bytes <= |rest| <= w.total - w.bytes
    requires rest == Concat(w.iovecs)[w.bytes..w.bytes + |rest|]
    ensures var w2 := w.(bytes := w.bytes + bytes);
      Atomic(wire + rest[..bytes], issued, if w2.bytes == w2.total then None else Some(w2))
  {
    hide Concat;
    var all := Concat(w.iovecs);
    assert all[..w.bytes] + rest[..bytes] == all[..w.bytes + bytes];
    ConcatSnoc(issued[..|issued| - 1], all);
    assert issued == issued[..|issued| - 1] + [all];
    assert all[..w.total] == all;
  }

  lemma AppendedPending(ws: seq<Pending>, w: Pending, s: int)
    requires PendingFor(ws, w.socket).None?
    ensures PendingFor(ws + [w], s) == if s == w.socket then Some(w) else PendingFor(ws, s)
  {
    var a, b := Position(ws, s), Position(ws + [w], s);
    if a >= 0 {
      assert (ws + [w])[a].socket == s;
    }
    if b >= 0 && b < |ws| {
      assert ws[b].socket == s;
    }
    assert (ws + [w])[|ws|] == w;
  }

  function Without(ws: seq<Pending>, i: int): (r: seq<Pending>)
    requires 0 <= i < |ws|
    ensures |r| == |ws| - 1 && forall j :: 0 <= j < |r| ==> r[j] == if j < i then ws[j] else ws[j + 1]
  {
    ws[..i] + ws[i + 1..]
  }

  lemma RemovedPendings(ws: seq<Pending>, i: int)
    requires DistinctSockets(ws) && 0 <= i < |ws|
    ensures DistinctSockets(Without(ws, i)) && PendingFor(Without(ws, i), ws[i].socket).None?
    ensures forall s :: s != ws[i].socket ==> PendingFor(Without(ws, i), s) == PendingFor(ws, s)
  {
    var us := Without(ws, i);
    forall s | s != ws[i].socket
      ensures PendingFor(us, s) == PendingFor(ws, s)
    {
      RemovedPending(ws, i, s);
    }
  }

  lemma RemovedPending(ws: seq<Pending>, i: int, s: int)
    requires DistinctSockets(ws) && 0 <= i < |ws| && s != ws[i].socket
    ensures PendingFor(Without(ws, i), s) == PendingFor(ws, s)
  {
    var us := Without(ws, i);
    var a, b := Position(ws, s), Position(us, s);
    if a >= 0 {
      PendingForIs(us, if a < i then a else a - 1);
    }
    if b >= 0 {
      assert ws[if b < i then b else b + 1].socket == s;
    }
  }

  lemma UpdatedPendings(ws: seq<Pending>, us: seq<Pending>, i: int)
    requires DistinctSockets(ws) && 0 <= i < |ws| == |us| && us == ws[i := us[i]] && us[i].socket == ws[i].socket
    ensures DistinctSockets(us)
    ensures forall s :: PendingFor(us, s) == if s == ws[i].socket then Some(us[i]) else PendingFor(ws, s)
  {
    forall s
      ensures PendingFor(us, s) == if s == ws[i].socket then Some(us[i]) else PendingFor(ws, s)
    {
      var a, b := Position(ws, s), Position(us, s);
      if a >= 0 { PendingForIs(us, a); }
      if b >= 0 { assert ws[b].socket == s; }
    }
  }
}
