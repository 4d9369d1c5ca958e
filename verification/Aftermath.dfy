/** What follows a stop that `CrashPoints` finds unsafe: a run in which a publication is lost, or passed on twice. And
    runs that reach the states in which such stops can happen. */
module Aftermath {
  import opened Bytes
  import opened Packets
  import opened Session
  import opened SendOrder
  import opened Recovery
  import opened Sender
  import opened EndToEnd
  import opened CrashPoints

  /** The steps end with the sender having forgotten a QoS 2 publication that was never passed on. */
  ghost predicate Lost(s: System, steps: seq<Step>, uid: nat) {
    var t := Onward(s, steps);
    && t.Some? && uid < |t.value.run.published| && t.value.run.published[uid].qos == 2
    && Deliveries(t.value.delivered, uid) == 0 && forall m :: m in t.value.run.client.out ==> m.uid != uid
  }

  /** The steps end with a QoS 2 publication passed on twice. */
  ghost predicate Twice(s: System, steps: seq<Step>, uid: nat) {
    var t := Onward(s, steps);
    && t.Some? && uid < |t.value.run.published| && t.value.run.published[uid].qos == 2
    && Deliveries(t.value.delivered, uid) == 2
  }

  /** One step on. */
  lemma Onwards(s: System, step: Step, t: System, rest: seq<Step>)
    requires 0 <= s.run.client.last <= MAX_MSG_ID && Next(s, step) == Some(t)
    ensures Onward(s, [step] + rest) == Onward(t, rest)
  {
    hide Next;
    assert ([step] + rest)[0] == step && ([step] + rest)[1..] == rest;
  }

  lemma {:induction false} OnwardsMore(s: System, steps: seq<Step>, rest: seq<Step>)
    requires Onward(s, steps).Some?
    ensures Onward(s, steps + rest) == Onward(Onward(s, steps).value, rest)
    decreases |steps|
  {
    hide Next;
    if |steps| == 0 {
      assert steps + rest == rest;
    } else {
      assert (steps + rest)[0] == steps[0] && (steps + rest)[1..] == steps[1..] + rest;
      OnwardsMore(Next(s, steps[0]).value, steps[1..], rest);
    }
  }

  // ----- single steps of an exchange -----

  /** The sender repeats the PUBLISH of a message that waits for PUBREC. */
  lemma PublishAgain(s: System, m: Message, i: int) returns (t: System)
    requires Inv(s.run) && 0 <= i < |s.run.client.out| && s.run.client.out[i] == m && m.awaiting == AwaitPubrec
    ensures 0 <= s.run.client.last <= MAX_MSG_ID && Next(s, SenderActs(Event.Retry(i), true)) == Some(t)
    ensures t == s.(run := t.run, toR := s.toR + [Pub(ToPublish(m, true), m.uid)]) && Inv(t.run)
    ensures t.run.client.out == s.run.client.out && t.run.published == s.run.published
    ensures t.run.client.v5 == s.run.client.v5
  {
    hide Inv, MessageOk, Session.Retry, Apply;
    LastInRange(s.run);
    assert m in s.run.client.out;
    MemberLookup(s.run, m);
    RetrySends(s.run.client, m);
    RetryApplies(s.run, i);
    var r := Apply(s.run, Event.Retry(i)).value;
    ApplyKeepsInv(s.run, Event.Retry(i));
    assert r.log == s.run.log + [Sent(m.uid, Pub(ToPublish(m, true), m.uid))];
    assert NewPackets(s.run, r) == [Pub(ToPublish(m, true), m.uid)];
    t := s.(run := r, toR := s.toR + [Pub(ToPublish(m, true), m.uid)]);
  }

  /** The sender repeats the PUBREL of a message that waits for PUBCOMP. */
  lemma PubrelAgain(s: System, m: Message, i: int) returns (t: System)
    requires Inv(s.run) && 0 <= i < |s.run.client.out| && s.run.client.out[i] == m && m.awaiting == AwaitPubcomp
    ensures 0 <= s.run.client.last <= MAX_MSG_ID && Next(s, SenderActs(Event.Retry(i), true)) == Some(t)
    ensures t == s.(run := t.run, toR := s.toR + [Ack(PUBREL, false, m.id)])
    ensures Inv(t.run) && t.run.published == s.run.published
  {
    hide Inv, MessageOk, Session.Retry, Apply;
    LastInRange(s.run);
    assert m in s.run.client.out;
    MemberLookup(s.run, m);
    RetrySends(s.run.client, m);
    RetryApplies(s.run, i);
    var r := Apply(s.run, Event.Retry(i)).value;
    ApplyKeepsInv(s.run, Event.Retry(i));
    assert r.log == s.run.log + [Sent(m.uid, Ack(PUBREL, false, m.id))];
    assert NewPackets(s.run, r) == [Ack(PUBREL, false, m.id)];
    t := s.(run := r, toR := s.toR + [Ack(PUBREL, false, m.id)]);
  }

  lemma RetryApplies(r: Run, i: int)
    requires 0 <= r.client.last <= MAX_MSG_ID && 0 <= i < |r.client.out|
    ensures Apply(r, Event.Retry(i)) == Some(AfterRetry(r, r.client.out[i]))
  {
  }

  /** The receiver's half of what these runs need. */
  ghost predicate Receiver(c: Client) {
    ReceiverOk(c) && InPersisted(c.v5, c.store)
  }

  /** An MQTT 5 receiver that has a record of the id answers a PUBLISH and passes nothing on. */
  lemma HeldAlready(s: System, m: Message, dup: bool) returns (t: System)
    requires s.toR == [Pub(ToPublish(m, dup), m.uid)] && s.toS == [] && s.recv.v5 && Receiver(s.recv)
    requires MessageOk(true, m) && m.qos == 2 && Lookup(s.recv.inb, m.id).Some?
    requires 0 <= s.run.client.last <= MAX_MSG_ID
    ensures Next(s, ReceiverReceives(true, true)) == Some(t)
    ensures t == s.(recv := t.recv, toR := [], toS := [Ack(PUBREC, false, m.id)])
    ensures t.recv.v5 && Receiver(t.recv) && Lookup(t.recv.inb, m.id).Some?
  {
    hide MessageOk, Handle, Receiver, Lookup, Next;
    AnswersPublish(s.recv, m, dup);
    NextReceive(s, true);
    assert s.delivered + [] == s.delivered && s.toR[1..] == [];
    t := AfterReceiver(s, true, true);
  }

  lemma AnswersPublish(c: Client, m: Message, dup: bool)
    requires c.v5 && Receiver(c) && MessageOk(true, m) && m.qos == 2 && Lookup(c.inb, m.id).Some?
    ensures var o := Handle(c, Pub(ToPublish(m, dup), m.uid), true);
      && o.sent == [Ack(PUBREC, false, m.id)] && o.delivered == []
      && o.client.v5 && Receiver(o.client) && Lookup(o.client.inb, m.id).Some?
  {
    RecordReceived(m, dup);
    hide MessageOk, Record, Received, ReceiverOk, InPersisted, OnPublish, StoredFor, ReceivedOk;
    ReceiverAfterPublish(c, ToPublish(m, dup), m.uid, true);
  }

  lemma RecordReceived(m: Message, dup: bool)
    requires MessageOk(true, m) && m.qos == 2
    ensures ReceivedOk(true, Key(ReceivedKey, true, m.id), Stored(Record(true, ToPublish(m, dup)), m.uid))
  {
    RecordHolds(true, m, dup);
    hide RestorePacket, MessageOk, Record;
  }

  /** The sender answers PUBREC with PUBREL. */
  lemma PubrecTaken(s: System, m: Message) returns (t: System)
    requires Inv(s.run) && m in s.run.client.out && m.qos == 2 && m.awaiting == AwaitPubrec
    requires s.toS == [Ack(PUBREC, false, m.id)] && s.toR == []
    ensures 0 <= s.run.client.last <= MAX_MSG_ID && Next(s, SenderReceives(true)) == Some(t)
    ensures t == s.(run := t.run, toR := [Ack(PUBREL, false, m.id)], toS := []) && Inv(t.run)
    ensures m.(awaiting := AwaitPubcomp) in t.run.client.out && t.run.published == s.run.published
  {
    hide Inv, MessageOk, Apply, Lookup, Next, NewPackets;
    LastInRange(s.run);
    MemberLookup(s.run, m);
    var e := Event.Pubrec(m.id, false);
    PubrecApplies(s.run, m);
    ApplyKeepsInv(s.run, e);
    var r := Apply(s.run, e).value;
    TakesAck(s, e, r);
    assert [] + [Ack(PUBREL, false, m.id)] == [Ack(PUBREL, false, m.id)];
    t := s.(run := r, toR := [Ack(PUBREL, false, m.id)], toS := []);
  }

  lemma PubrecApplies(r: Run, m: Message)
    requires 0 <= r.client.last <= MAX_MSG_ID && Lookup(r.client.out, m.id) == Some(m)
    requires m.qos == 2 && m.awaiting == AwaitPubrec
    ensures var t := Apply(r, Event.Pubrec(m.id, false));
      && t.Some? && NewPackets(r, t.value) == [Ack(PUBREL, false, m.id)] && t.value.published == r.published
      && m.(awaiting := AwaitPubcomp) in t.value.client.out
  {
    hide RelRecord;
    var i := IndexOf(r.client.out, m.id);
    var out := r.client.out[i := m.(awaiting := AwaitPubcomp)];
    assert out[i] in out;
    assert Apply(r, Event.Pubrec(m.id, false)).value.log == r.log + [Sent(m.uid, Ack(PUBREL, false, m.id))];
  }

  /** An MQTT 5 receiver that has a record of the id answers a PUBREL and passes nothing on. */
  lemma FinishedQuietly(s: System, m: Message) returns (t: System)
    requires s.toR == [Ack(PUBREL, false, m.id)] && s.toS == [] && s.recv.v5 && Receiver(s.recv)
    requires Lookup(s.recv.inb, m.id).Some? && 0 <= s.run.client.last <= MAX_MSG_ID
    ensures Next(s, ReceiverReceives(true, true)) == Some(t)
    ensures t == s.(recv := t.recv, toR := [], toS := [Ack(PUBCOMP, false, m.id)])
  {
    hide ReceiverOk, InPersisted, OnPubrel, StoredFor, Next;
    ReceiverAfterPubrel(s.recv, m.id, true);
    NextReceive(s, true);
    assert s.delivered + [] == s.delivered && s.toR[1..] == [];
    t := AfterReceiver(s, true, true);
  }

  /** On PUBCOMP the sender forgets the message. */
  lemma PubcompTaken(s: System, m: Message) returns (t: System)
    requires Inv(s.run) && m in s.run.client.out && m.qos == 2 && m.awaiting == AwaitPubcomp
    requires s.toS == [Ack(PUBCOMP, false, m.id)]
    ensures 0 <= s.run.client.last <= MAX_MSG_ID && Next(s, SenderReceives(true)) == Some(t)
    ensures t == s.(run := t.run, toS := []) && Inv(t.run) && t.run.published == s.run.published
    ensures t.run.client.v5 == s.run.client.v5 && Lookup(t.run.client.out, m.id).None?
    ensures forall x :: x in t.run.client.out ==> x.uid != m.uid
    ensures |t.run.client.out| == |s.run.client.out| - 1
  {
    LastInRange(s.run);
    SenderForgets(s.run, m);
    hide Inv, Apply, Lookup, Next;
    var r := Apply(s.run, Event.Pubcomp(m.id)).value;
    ApplyKeepsInv(s.run, Event.Pubcomp(m.id));
    assert NewPackets(s.run, r) == [];
    TakesAck(s, Event.Pubcomp(m.id), r);
    assert s.toR + [] == s.toR;
    t := s.(run := r, toS := []);
  }

  /** The sender takes the one acknowledgement on its way. */
  lemma TakesAck(s: System, e: Event, r: Run)
    requires |s.toS| == 1 && AckEvent(s.toS[0]) == Some(e) && 0 <= s.run.client.last <= MAX_MSG_ID
    requires Apply(s.run, e) == Some(r)
    ensures Next(s, SenderReceives(true)) == Some(s.(run := r, toR := s.toR + NewPackets(s.run, r), toS := []))
  {
    hide Apply, NewPackets;
    assert s.toS[1..] == [];
  }

  lemma SenderForgets(r: Run, m: Message)
    requires Inv(r) && m in r.client.out && m.qos == 2 && m.awaiting == AwaitPubcomp
    ensures 0 <= r.client.last <= MAX_MSG_ID
    ensures var t := Apply(r, Event.Pubcomp(m.id));
      t.Some? && t.value.log == r.log && t.value.published == r.published && Lookup(t.value.client.out, m.id).None?
      && |t.value.client.out| == |r.client.out| - 1 && forall x :: x in t.value.client.out ==> x.uid != m.uid
  {
    hide Inv, MessageOk, Complete, Restart, AssignMsgId;
    LastInRange(r);
    MemberLookup(r, m);
    InvDistinct(r);
    var i := IndexOf(r.client.out, m.id);
    OthersLeft(r, i);
    CompletedOut(r.client, i);
    LookupRemove(r.client.out, i, m.id);
  }

  lemma OthersLeft(r: Run, i: int)
    requires Inv(r) && 0 <= i < |r.client.out|
    ensures forall x :: x in RemoveAt(r.client.out, i) ==> x.uid != r.client.out[i].uid
  {
    hide Persisted, LogOk, LogDup, LogOrdered, LogMatches;
    var out, us := r.client.out, RemoveAt(r.client.out, i);
    forall x | x in us
      ensures x.uid != out[i].uid
    {
      var k :| 0 <= k < |us| && us[k] == x;
      var j := if k < i then k else k + 1;
      assert out[j] == x && (if i < j then out[i].uid != out[j].uid else out[j].uid != out[i].uid);
    }
  }

  // ----- an MQTT 5 receiver with a record of what it has not passed on -----

  /** Wherever an MQTT 5 receiver has a record of a message that waits for PUBREC and has not been passed on, the
      message is lost: the repeated PUBLISH is answered, and its exchange finished, without passing it on. */
  lemma NeverPassedOn(s: System, m: Message) returns (steps: seq<Step>)
    requires Inv(s.run) && s.run.client.v5 && s.recv.v5 && Receiver(s.recv)
    requires m in s.run.client.out && m.qos == 2 && m.awaiting == AwaitPubrec && Lookup(s.recv.inb, m.id).Some?
    requires Deliveries(s.delivered, m.uid) == 0
    ensures Lost(s, steps, m.uid)
  {
    hide Next, Onward, Inv, Receiver, MessageOk, Lookup;
    LastInRange(s.run);
    MemberLookup(s.run, m);
    var i :| 0 <= i < |s.run.client.out| && s.run.client.out[i] == m;
    var s1 := Disconnected(s);
    assert Next(s, Disconnect) == Some(s1) by { NextDisconnects(s); }
    var s2 := PublishAgain(s1, m, i);
    assert s1.toR + [Pub(ToPublish(m, true), m.uid)] == [Pub(ToPublish(m, true), m.uid)];
    LastInRange(s2.run);
    var s3 := HeldAlready(s2, m, true);
    var s4 := PubrecTaken(s3, m);
    LastInRange(s4.run);
    var s5 := FinishedQuietly(s4, m);
    var s6 := PubcompTaken(s5, m.(awaiting := AwaitPubcomp));
    OnwardNowhere(s6);
    var l5 := [SenderReceives(true)] + [];
    Onwards(s5, SenderReceives(true), s6, []);
    var l4 := [ReceiverReceives(true, true)] + l5;
    Onwards(s4, ReceiverReceives(true, true), s5, l5);
    var l3 := [SenderReceives(true)] + l4;
    Onwards(s3, SenderReceives(true), s4, l4);
    var l2 := [ReceiverReceives(true, true)] + l3;
    Onwards(s2, ReceiverReceives(true, true), s3, l3);
    var l1 := [SenderActs(Event.Retry(i), true)] + l2;
    Onwards(s1, SenderActs(Event.Retry(i), true), s2, l2);
    steps := [Disconnect] + l1;
    Onwards(s, Disconnect, s1, l1);
  }

  lemma OnwardNowhere(s: System)
    ensures Onward(s, []) == Some(s)
  {
  }

  lemma NextDisconnects(s: System)
    requires 0 <= s.run.client.last <= MAX_MSG_ID
    ensures Next(s, Disconnect) == Some(Disconnected(s))
  {
  }

  /** A message that an MQTT 5 receiver will hold after a restart though it has not been passed on. */
  lemma HeldNotPassedOn(s: System, t: System, id: int) returns (steps: seq<Step>)
    requires SysInv(s) && s.recv.v5 && t.run == s.run && t.delivered == s.delivered
    requires t.recv.v5 && Receiver(t.recv) && Lookup(t.recv.inb, id).Some?
    requires var m := Lookup(s.run.client.out, id);
      Waiting(m) && m.value.awaiting == AwaitPubrec && !Delivered(s.delivered, m.value.uid)
    ensures Lost(t, steps, Lookup(s.run.client.out, id).value.uid)
  {
    hide Inv, AllIds, ReceiverOk, InPersisted, NoneLost, DeliveredOk, Receiver, Delivered, Lost, Deliveries;
    var m := Lookup(s.run.client.out, id).value;
    OutMember(s.run, id);
    DeliveriesCount(s.delivered, s.run.published, m.uid);
    steps := NeverPassedOn(t, m);
  }

  /** What the invariant says of a PUBLISH that an MQTT 5 receiver has stored but not listed. */
  lemma UnlistedMessage(s: System, id: int)
    requires SysInv(s) && s.recv.v5 && StoredFor(s.recv, id).Some? && Lookup(s.recv.inb, id).None?
    ensures var m := Lookup(s.run.client.out, id);
      Waiting(m) && m.value.awaiting == AwaitPubrec && !Delivered(s.delivered, m.value.uid)
  {
    hide Inv, ReceiverOk, InPersisted, NoneLost, DeliveredOk, Delivered;
    assert IdInv(true, Lookup(s.run.client.out, id), None, StoredFor(s.recv, id), s.toR, s.toS, s.delivered, id);
  }

  /** Where `RestartsListed` fails: a publication is lost. */
  lemma LostUnlisted(s: System, keys: seq<Key>) returns (uid: nat, steps: seq<Step>)
    requires SysInv(s) && Lists(keys, s.recv.store) && !AllListed(s.recv)
    ensures ReceiverBack(s, keys).Some? && Lost(ReceiverBack(s, keys).value, steps, uid)
  {
    RestartsListed(s, keys);
    var x :| StoredFor(s.recv, x).Some? && Lookup(s.recv.inb, x).None?;
    assert ReceiverOk(s.recv) && InPersisted(s.recv.v5, s.recv.store);
    hide SysInv, Lists, Restart, Lost, StoredFor, ReceiverOk, InPersisted;
    UnlistedMessage(s, x);
    BackFromStore(s.recv, keys);
    var t := ReceiverBack(s, keys).value;
    BackLookup(s.recv, t.recv, x);
    uid := Lookup(s.run.client.out, x).value.uid;
    steps := HeldNotPassedOn(s, t, x);
  }

  /** Where `StopsSafelyInPublish` fails: a publication is lost. */
  lemma LostInPublish(s: System, point: PublishPoint, arrives: bool, keys: seq<Key>)
      returns (uid: nat, steps: seq<Step>)
    requires SysInv(s) && PublishHasCome(s) && Lists(keys, StoppedAt(s, point, arrives).recv.store)
    requires var id := s.toR[0].publish.id;
      s.recv.v5 && !(OthersListed(s.recv, id) && (StartedOrDone(s, point) || Lookup(s.recv.inb, id).Some?))
    ensures StoppedInPublish(s, point, arrives, keys).Some?
    ensures Lost(StoppedInPublish(s, point, arrives, keys).value, steps, uid)
  {
    PublishStoppedBack(s, point, arrives, keys);
    StoppedAtLeaves(s, point, arrives, keys);
    var t := StoppedInPublish(s, point, arrives, keys).value;
    var c := StoppedAt(s, point, arrives).recv;
    var id := s.toR[0].publish.id;
    hide SysInv, Lists, Restart, Lost, StoredFor, ReceiverOk, InPersisted, StoppedAt, StoppedInPublish, AfterReceiver;
    if !OthersListed(s.recv, id) {
      var x :| x != id && StoredFor(s.recv, x).Some? && Lookup(s.recv.inb, x).None?;
      StoppedAtStored(s, point, arrives, x);
      HandledElsewhere(s, arrives, x);
      BackLookup(c, t.recv, x);
      var base := if point.AfterHandling? then AfterReceiver(s, true, arrives) else s;
      UnlistedMessage(base, x);
      uid := Lookup(s.run.client.out, x).value.uid;
      steps := HeldNotPassedOn(base, t, x);
    } else {
      StoppedAtStored(s, point, arrives, id);
      ComingMessage(s);
      BackLookup(c, t.recv, id);
      uid := Lookup(s.run.client.out, id).value.uid;
      steps := HeldNotPassedOn(s, t, id);
    }
  }

  /** Where `StopsSafely` fails because of another PUBLISH: that one is lost. */
  lemma LostUnlistedInPubrel(s: System, point: CrashPoint, arrives: bool, keys: seq<Key>)
      returns (uid: nat, steps: seq<Step>)
    requires SysInv(s) && PubrelForHeld(s) && !AllListed(s.recv)
    requires Lists(keys, Stopped(s, point, arrives).recv.store)
    ensures StoppedInPubrel(s, point, arrives, keys).Some?
    ensures Lost(StoppedInPubrel(s, point, arrives, keys).value, steps, uid)
  {
    hide SysInv, Lists, Restart, Lost, StoredFor, ReceiverOk, InPersisted, Stopped, StoppedInPubrel, Handle;
    hide PubrelForHeld;
    HeadExists(s);
    var x :| StoredFor(s.recv, x).Some? && Lookup(s.recv.inb, x).None?;
    assert s.recv.v5;
    hide AllListed;
    StoppedBack(s, point, arrives, keys);
    StoppedQuietly(s, point, arrives, keys);
    var t := StoppedInPubrel(s, point, arrives, keys).value;
    UnlistedMessage(s, x);
    UnlistedOther(s, x);
    StoppedStored(s, point, arrives, x);
    BackLookup(Stopped(s, point, arrives).recv, t.recv, x);
    uid := Lookup(s.run.client.out, x).value.uid;
    steps := HeldNotPassedOn(s, t, x);
  }

  lemma UnlistedOther(s: System, x: int)
    requires PubrelForHeld(s) && Lookup(s.recv.inb, x).None?
    ensures x != s.toR[0].id
  {
  }

  /** An MQTT 5 receiver passes nothing on at a PUBREL. */
  lemma StoppedQuietly(s: System, point: CrashPoint, arrives: bool, keys: seq<Key>)
    requires SysInv(s) && PubrelForHeld(s) && s.recv.v5 && StoppedInPubrel(s, point, arrives, keys).Some?
    ensures var t := StoppedInPubrel(s, point, arrives, keys).value; t.run == s.run && t.delivered == s.delivered
    ensures Stopped(s, point, arrives).recv.v5
  {
    hide SysInv, Handle, Restart, Lists, AllListed, PubrelForHeld, StoredFor;
    HeadExists(s);
    HandledHeld(s);
    assert s.delivered + [] == s.delivered;
  }

  // ----- a receiver stopped between PUBCOMP and the removal -----

  /** An acknowledgement that does not end a message's exchange leaves the message as it is. */
  lemma AckKeeps(r: Run, w: Wire, m: Message)
    requires Inv(r) && m in r.client.out && m.qos == 2 && m.awaiting == AwaitPubcomp
    requires AckEvent(w).Some? && !IsPubcomp(w, m.id)
    ensures 0 <= r.client.last <= MAX_MSG_ID
    ensures var t := Apply(r, AckEvent(w).value);
      t.Some? && Inv(t.value) && m in t.value.client.out && t.value.published == r.published
      && t.value.client.v5 == r.client.v5
  {
    hide Inv, Lookup, RelRecord, RemoveAt, IndexOf, OnPuback, OnPubcomp, OnPubrec, Restart;
    LastInRange(r);
    InvDistinct(r);
    FoundThere(r.client, m);
    var e := AckEvent(w).value;
    match e {
      case Puback(id) => PubackKeeps(r.client, m, id);
      case Pubrec(id, refused) => PubrecKeeps(r.client, m, id);
      case Pubcomp(id) => PubcompKeeps(r.client, m, id);
    }
    ApplyKeepsInv(r, e);
  }

  lemma PubackKeeps(c: Client, m: Message, id: int)
    requires FoundAt(c, m) && m.qos == 2
    ensures m in OnPuback(c, id).out
  {
    StaysIfOther(c, m, id);
  }

  lemma PubcompKeeps(c: Client, m: Message, id: int)
    requires FoundAt(c, m) && id != m.id
    ensures m in OnPubcomp(c, id).out
  {
    StaysIfOther(c, m, id);
  }

  lemma PubrecKeeps(c: Client, m: Message, id: int)
    requires FoundAt(c, m) && m.awaiting == AwaitPubcomp
    ensures m in OnPubrec(c, id, false).0.out
  {
    hide RelRecord;
    var j, out := IndexOf(c.out, m.id), OnPubrec(c, id, false).0.out;
    assert out[j] == m;
  }

  /** The sender takes the acknowledgements that are before a message's PUBCOMP. */
  lemma {:induction false} Drained(s: System, m: Message) returns (steps: seq<Step>, t: System)
    requires Inv(s.run) && m in s.run.client.out && m.qos == 2 && m.awaiting == AwaitPubcomp
    requires |s.toS| > 0 && ToSenderOk(s.toS) && s.toS[|s.toS| - 1] == Ack(PUBCOMP, false, m.id)
    requires NoComp(s.toS[..|s.toS| - 1], m.id)
    ensures Onward(s, steps) == Some(t) && t == s.(run := t.run, toR := t.toR, toS := [Ack(PUBCOMP, false, m.id)])
    ensures Inv(t.run) && t.run.client.v5 == s.run.client.v5 && t.run.published == s.run.published
    ensures m in t.run.client.out && (|s.toS| == 1 ==> t == s)
    decreases |s.toS|
  {
    hide Inv, Next, Apply, NewPackets;
    if |s.toS| == 1 {
      steps, t := [], s;
      OnwardNowhere(s);
    } else {
      var w := s.toS[0];
      assert s.toS[..|s.toS| - 1][0] == w;
      AckKeeps(s.run, w, m);
      var r := Apply(s.run, AckEvent(w).value).value;
      var s1 := s.(run := r, toR := s.toR + NewPackets(s.run, r), toS := s.toS[1..]);
      assert Next(s, SenderReceives(true)) == Some(s1) by { NextAck(s, r); }
      assert s1.toS[..|s1.toS| - 1] == s.toS[..|s.toS| - 1][1..];
      var rest;
      rest, t := Drained(s1, m);
      steps := [SenderReceives(true)] + rest;
      Onwards(s, SenderReceives(true), s1, rest);
    }
  }

  lemma NextAck(s: System, r: Run)
    requires |s.toS| > 0 && AckEvent(s.toS[0]).Some? && 0 <= s.run.client.last <= MAX_MSG_ID
    requires Apply(s.run, AckEvent(s.toS[0]).value) == Some(r)
    ensures Next(s, SenderReceives(true)) ==
      Some(s.(run := r, toR := s.toR + NewPackets(s.run, r), toS := s.toS[1..]))
  {
    hide Apply, NewPackets, AckEvent;
  }

  /** After a stop that leaves the PUBCOMP on its way, the sender takes it and forgets the message. */
  lemma SenderDone(s: System, point: CrashPoint, keys: seq<Key>) returns (steps: seq<Step>, t: System)
    requires SysInv(s) && PubrelForHeld(s) && Lists(keys, s.recv.store)
    requires point.AfterPubcomp? || point.AfterPassingOn?
    ensures var u := StoppedInPubrel(s, point, true, keys);
      && u.Some? && Back(s.recv, u.value.recv) && Onward(u.value, steps) == Some(t)
      && t == u.value.(run := t.run, toR := t.toR, toS := [])
    ensures Inv(t.run) && t.run.client.v5 == s.run.client.v5 && t.run.published == s.run.published
    ensures Lookup(t.run.client.out, s.toR[0].id).None?
    ensures forall x :: x in t.run.client.out ==> x.uid != HeldOf(s).uid
    ensures s.toS == [] ==> |t.run.client.out| == |s.run.client.out| - 1
  {
    hide SysInv, PubrelForHeld, Lists, StoppedInPubrel, Inv, Back, Onward, Next, Lookup, NoComp, ToSenderOk;
    HeadExists(s);
    HeldUid(s);
    var m := HeldWaits(s);
    NoPubcompYet(s);
    StoppedLeaves(s, point, true, keys);
    var u := StoppedInPubrel(s, point, true, keys).value;
    assert u.toS[..|u.toS| - 1] == s.toS;
    AcksOnly(s.toS, m.id);
    steps, t := Ended(u, m);
  }

  lemma AcksOnly(q: seq<Wire>, id: int)
    requires ToSenderOk(q)
    ensures ToSenderOk(q + [Ack(PUBCOMP, false, id)])
  {
  }

  /** What the sender's invariant says of the message that the receiver holds. */
  lemma HeldUid(s: System)
    requires SysInv(s) && PubrelForHeld(s)
    ensures Inv(s.run) && ToSenderOk(s.toS)
    ensures var m := Lookup(s.run.client.out, s.toR[0].id);
      m.Some? && m.value.qos == 2 && m.value.uid == HeldOf(s).uid
  {
    HeldMessage(s);
  }

  /** The sender takes all that is on its way to it, at last the PUBCOMP. */
  lemma Ended(s: System, m: Message) returns (steps: seq<Step>, t: System)
    requires Inv(s.run) && m in s.run.client.out && m.qos == 2 && m.awaiting == AwaitPubcomp
    requires |s.toS| > 0 && ToSenderOk(s.toS) && s.toS[|s.toS| - 1] == Ack(PUBCOMP, false, m.id)
    requires NoComp(s.toS[..|s.toS| - 1], m.id)
    ensures Onward(s, steps) == Some(t) && t == s.(run := t.run, toR := t.toR, toS := [])
    ensures Inv(t.run) && t.run.client.v5 == s.run.client.v5 && t.run.published == s.run.published
    ensures Lookup(t.run.client.out, m.id).None? && forall x :: x in t.run.client.out ==> x.uid != m.uid
    ensures |s.toS| == 1 ==> |t.run.client.out| == |s.run.client.out| - 1
  {
    hide Inv, Onward, Next, Lookup, NoComp, ToSenderOk;
    var first, v := Drained(s, m);
    t := PubcompTaken(v, m);
    OnwardNowhere(t);
    LastInRange(v.run);
    var last := [SenderReceives(true)] + [];
    Onwards(v, SenderReceives(true), t, []);
    OnwardsMore(s, first, last);
    steps := first + last;
  }

  lemma NoPubcompYet(s: System)
    requires SysInv(s) && PubrelForHeld(s)
    ensures NoComp(s.toS, s.toR[0].id)
  {
    HeldMessage(s);
    hide Inv, ReceiverOk, InPersisted, NoneLost, DeliveredOk, Delivered, HeldOk;
    var id := s.toR[0].id;
    assert IdInv(s.recv.v5, Lookup(s.run.client.out, id), Lookup(s.recv.inb, id), StoredFor(s.recv, id), s.toR, s.toS,
        s.delivered, id);
  }

  /** An MQTT 3.1.1 receiver stopped after the PUBCOMP, which gets through: the message is lost. */
  lemma LostInPubrel(s: System, keys: seq<Key>) returns (steps: seq<Step>)
    requires SysInv(s) && PubrelForHeld(s) && !s.recv.v5 && Lists(keys, s.recv.store)
    ensures var t := StoppedInPubrel(s, AfterPubcomp, true, keys);
      t.Some? && Lost(t.value, steps, HeldOf(s).uid)
  {
    hide SysInv, PubrelForHeld, Lists, StoppedInPubrel, Inv, Back, Onward, Lookup, Deliveries, HeldOf;
    HeadExists(s);
    HeldPublished(s);
    NotYetPassedOn(s);
    StoppedLeaves(s, AfterPubcomp, true, keys);
    assert s.delivered + [] == s.delivered;
    var t;
    steps, t := SenderDone(s, AfterPubcomp, keys);
  }

  /** The deliveries counted so far. */
  lemma NotYetPassedOn(s: System)
    requires SysInv(s) && PubrelForHeld(s) && !s.recv.v5
    ensures Deliveries(s.delivered, HeldOf(s).uid) == 0
  {
    HeldMessage(s);
    hide Inv, AllIds, ReceiverOk, InPersisted, NoneLost, DeliveredOk;
    DeliveriesCount(s.delivered, s.run.published, HeldOf(s).uid);
  }

  /** An MQTT 3.1.1 receiver stopped after passing the publication on: it is passed on again at the next PUBREL,
      whether the PUBCOMP is on its way or not. */
  lemma TwiceInPubrel(s: System, arrives: bool, keys: seq<Key>) returns (steps: seq<Step>)
    requires SysInv(s) && PubrelForHeld(s) && !s.recv.v5 && Lists(keys, s.recv.store)
    ensures var t := StoppedInPubrel(s, AfterPassingOn, arrives, keys);
      t.Some? && Twice(t.value, steps, HeldOf(s).uid)
  {
    hide SysInv, PubrelForHeld, Lists, StoppedInPubrel, Inv, Onward, Lookup, Deliveries, Back;
    HeadExists(s);
    HeldUid(s);
    NotYetPassedOn(s);
    HeldPublished(s);
    var m := HeldWaits(s);
    StoppedLeaves(s, AfterPassingOn, arrives, keys);
    var held := Lookup(s.recv.inb, m.id).value;
    var t := StoppedInPubrel(s, AfterPassingOn, arrives, keys).value;
    BackHeld(s, t.recv);
    CountedTwice(s.delivered, Pub(ToPublish(held, false), held.uid));
    var t2;
    steps, t2 := PubrelRepeated(t, m, held);
  }

  lemma HeldPublished(s: System)
    requires SysInv(s) && PubrelForHeld(s)
    ensures var uid := HeldOf(s).uid;
      uid < |s.run.published| && s.run.published[uid].qos == 2
  {
    HeldMessage(s);
  }

  lemma BackHeld(s: System, d: Client)
    requires SysInv(s) && PubrelForHeld(s) && Back(s.recv, d)
    ensures Lookup(d.inb, s.toR[0].id) == Lookup(s.recv.inb, s.toR[0].id) && d.v5 == s.recv.v5 && Receiver(d)
  {
    hide SysInv, PubrelForHeld, ReceiverOk, InPersisted, InboundFromStore;
    RestoredHeld(s, d);
  }

  /** The sender repeats the PUBREL, and an MQTT 3.1.1 receiver passes on what it holds. */
  lemma PubrelRepeated(s: System, m: Message, held: Message) returns (steps: seq<Step>, t: System)
    requires Inv(s.run) && m in s.run.client.out && m.awaiting == AwaitPubcomp && s.toR == []
    requires !s.recv.v5 && Receiver(s.recv) && Lookup(s.recv.inb, m.id) == Some(held)
    ensures Onward(s, steps) == Some(t) && t.run.published == s.run.published
    ensures t.delivered == s.delivered + [Pub(ToPublish(held, false), held.uid)]
  {
    hide Inv, Onward, Next, ReceiverOk, InPersisted;
    assert held.id == m.id;
    hide Lookup;
    var i :| 0 <= i < |s.run.client.out| && s.run.client.out[i] == m;
    var t1 := PubrelAgain(s, m, i);
    assert [] + [Ack(PUBREL, false, m.id)] == [Ack(PUBREL, false, m.id)];
    LastInRange(t1.run);
    t := PassesOn(t1, held);
    OnwardNowhere(t);
    var last := [ReceiverReceives(true, true)] + [];
    Onwards(t1, ReceiverReceives(true, true), t, []);
    steps := [SenderActs(Event.Retry(i), true)] + last;
    Onwards(s, SenderActs(Event.Retry(i), true), t1, last);
  }

  /** An MQTT 3.1.1 receiver passes on what it holds at the PUBREL. */
  lemma PassesOn(s: System, held: Message) returns (t: System)
    requires s.toR == [Ack(PUBREL, false, held.id)] && !s.recv.v5 && ReceiverOk(s.recv)
    requires InPersisted(s.recv.v5, s.recv.store) && Lookup(s.recv.inb, held.id) == Some(held)
    requires 0 <= s.run.client.last <= MAX_MSG_ID
    ensures Next(s, ReceiverReceives(true, true)) == Some(t) && t.run == s.run
    ensures t.delivered == s.delivered + [Pub(ToPublish(held, false), held.uid)]
  {
    hide ReceiverOk, InPersisted, OnPubrel, StoredFor;
    ReceiverAfterPubrel(s.recv, held.id, true);
    t := AfterReceiver(s, true, true);
  }

  lemma CountedTwice(delivered: seq<Wire>, w: Wire)
    requires w.Pub?
    ensures Deliveries(delivered + [w] + [w], w.uid) == Deliveries(delivered, w.uid) + 2
  {
    CountedOnce(delivered, w);
    CountedOnce(delivered + [w], w);
  }

  lemma CountedOnce(delivered: seq<Wire>, w: Wire)
    requires w.Pub?
    ensures Deliveries(delivered + [w], w.uid) == Deliveries(delivered, w.uid) + 1
  {
    assert (delivered + [w])[..|delivered|] == delivered;
  }

  /** The restart brings back the record that the receiver had. */
  lemma RestoredHeld(s: System, d: Client)
    requires SysInv(s) && PubrelForHeld(s) && InboundFromStore(s.recv.v5, d.inb, s.recv.store)
    ensures Lookup(d.inb, s.toR[0].id) == Lookup(s.recv.inb, s.toR[0].id)
  {
    HeldMessage(s);
    hide Inv, ReceiverOk, InPersisted, NoneLost, DeliveredOk, RestorePacket;
    var id := s.toR[0].id;
    var m, held, stored := Lookup(s.run.client.out, id), Lookup(s.recv.inb, id), StoredFor(s.recv, id);
    assert IdInv(s.recv.v5, m, held, stored, s.toR, s.toS, s.delivered, id);
    assert HeldOk(s.recv.v5, m.value, held, stored);
    assert Lookup(d.inb, id) == FromStore(s.recv.v5, s.recv.store, id);
  }

  // ----- an MQTT 5 receiver stopped there: the id's next publication -----

  /** An MQTT 5 receiver has a record of an id that the sender does not use any more. */
  ghost predicate Stale(s: System, id: int) {
    && Inv(s.run) && s.run.client.v5 && s.recv.v5 && Receiver(s.recv) && DeliveredOk(s.delivered, s.run.published)
    && Lookup(s.recv.inb, id).Some? && Lookup(s.run.client.out, id).None?
  }

  /** An MQTT 5 receiver stopped between PUBCOMP and removal, with a PUBCOMP that gets through, keeps a stale record. */
  lemma StaleAfterStop(s: System, point: CrashPoint, keys: seq<Key>) returns (steps: seq<Step>, t: System)
    requires SysInv(s) && PubrelForHeld(s) && s.recv.v5 && Lists(keys, s.recv.store)
    requires point.AfterPubcomp? || point.AfterPassingOn?
    ensures var u := StoppedInPubrel(s, point, true, keys);
      u.Some? && Onward(u.value, steps) == Some(t) && Stale(t, s.toR[0].id)
    ensures t.run.published == s.run.published && (s.toS == [] ==> |t.run.client.out| == |s.run.client.out| - 1)
  {
    HeadExists(s);
    HeldMessage(s);
    StoppedLeaves(s, point, true, keys);
    assert s.run.client.v5 && DeliveredOk(s.delivered, s.run.published);
    hide SysInv, PubrelForHeld, Lists, StoppedInPubrel, Inv, Onward, Lookup, DeliveredOk, ReceiverOk, InPersisted;
    assert s.delivered + [] == s.delivered;
    steps, t := SenderDone(s, point, keys);
    BackLookup(s.recv, t.recv, s.toR[0].id);
  }

  /** The next QoS 2 publication with a stale id is lost. */
  lemma LosesNext(s: System, e: Event, id: int) returns (steps: seq<Step>)
    requires Stale(s, id) && e.Publish? && e.qos == 2 && MessageOk(true, NewMessage(s.run, e, id))
    requires id == AssignMsgId(s.run.client.out, s.run.client.last)
    ensures Lost(s, steps, |s.run.published|)
  {
    LastInRange(s.run);
    var m := NewMessage(s.run, e, id);
    var t := s.(run := AfterPublish(s.run, m));
    assert m in t.run.client.out && |t.run.published| == |s.run.published| + 1 by { hide Record; }
    hide Inv, MessageOk, Receiver, DeliveredOk, Record, Deliveries, Lookup, AssignMsgId, Onward, Next;
    PublishApplies(s.run, e, id);
    ApplyKeepsInv(s.run, e);
    NoneYet(s.delivered, s.run.published, |s.run.published|);
    assert Next(s, SenderActs(e, false)) == Some(t) by { NextRefused(s, e, t.run); }
    var rest := NeverPassedOn(t, m);
    steps := [SenderActs(e, false)] + rest;
    Onwards(s, SenderActs(e, false), t, rest);
  }

  lemma PublishApplies(r: Run, e: Event, id: int)
    requires 0 <= r.client.last <= MAX_MSG_ID && e.Publish? && id == AssignMsgId(r.client.out, r.client.last)
    requires MessageOk(r.client.v5, NewMessage(r, e, id))
    ensures Apply(r, e) == Some(AfterPublish(r, NewMessage(r, e, id)))
  {
    assert 1 <= id by { hide Sendable; }
    hide MessageOk, AfterPublish, AssignMsgId;
  }

  /** A packet that the socket refuses does not enter the channel. */
  lemma NextRefused(s: System, e: Event, r: Run)
    requires 0 <= s.run.client.last <= MAX_MSG_ID && e.Publish? && Apply(s.run, e) == Some(r)
    ensures Next(s, SenderActs(e, false)) == Some(s.(run := r))
  {
    hide Apply, NewPackets;
    assert s.toR + [] == s.toR;
  }

  lemma {:induction false} NoneYet(delivered: seq<Wire>, published: seq<Message>, uid: nat)
    requires DeliveredOk(delivered, published) && |published| <= uid
    ensures Deliveries(delivered, uid) == 0
  {
    if |delivered| > 0 {
      var init := delivered[..|delivered| - 1];
      assert forall i :: 0 <= i < |init| ==> init[i] == delivered[i];
      NoneYet(init, published, uid);
    }
  }

  // ----- an MQTT 5 sender that forgets a PUBREL too late -----

  /** The receiver takes what is on its way to it, whatever has become of the sender. */
  lemma {:induction false} ReceivesAll(s: System, t: System, n: nat) returns (steps: seq<Step>, s': System, t': System)
    requires SysInv(s) && n <= |s.toR| && 0 <= t.run.client.last <= MAX_MSG_ID
    requires t.recv == s.recv && t.toR == s.toR && t.delivered == s.delivered
    ensures SysInv(s') && s'.run == s.run && s'.toR == s.toR[n..] && s'.recv.v5 == s.recv.v5
    ensures Onward(t, steps) == Some(t') && t'.run == t.run
    ensures t'.recv == s'.recv && t'.toR == s'.toR && t'.delivered == s'.delivered
    decreases n
  {
    hide SysInv, Next, Handle;
    if n == 0 {
      steps, s', t' := [], s, t;
      OnwardNowhere(t);
    } else {
      var s1, t1 := AfterReceiver(s, true, true), AfterReceiver(t, true, true);
      ReceiverStep(s, true, true);
      SameVersions(s);
      SameVersions(s1);
      assert Next(t, ReceiverReceives(true, true)) == Some(t1) by { NextReceive(t, true); }
      var rest;
      rest, s', t' := ReceivesAll(s1, t1, n - 1);
      steps := [ReceiverReceives(true, true)] + rest;
      Onwards(t, ReceiverReceives(true, true), t1, rest);
    }
  }

  lemma SameVersions(s: System)
    requires SysInv(s)
    ensures s.recv.v5 == s.run.client.v5
  {
  }

  /** Where the receiver has no record, or will soon have none, of a message that waits for PUBCOMP, it comes to have
      none. */
  lemma Finished(s: System, t: System, m: Message) returns (steps: seq<Step>, s': System, t': System)
    requires SysInv(s) && 0 <= t.run.client.last <= MAX_MSG_ID && m in s.run.client.out && m.awaiting == AwaitPubcomp
    requires t.recv == s.recv && t.toR == s.toR && t.delivered == s.delivered
    requires Lookup(s.recv.inb, m.id).None? || !NoRel(s.toR, m.id)
    ensures SysInv(s') && s'.run == s.run && Lookup(s'.recv.inb, m.id).None?
    ensures Onward(t, steps) == Some(t') && t'.run == t.run && t'.recv == s'.recv && t'.delivered == s'.delivered
    ensures s'.recv.v5 == s.recv.v5
  {
    hide SysInv, Next, Handle, Onward;
    if Lookup(s.recv.inb, m.id).None? {
      steps, s', t' := [], s, t;
      OnwardNowhere(t);
    } else {
      var j :| 0 <= j < |s.toR| && IsPubrel(s.toR[j], m.id);
      var first, s1, t1 := ReceivesAll(s, t, j);
      if Lookup(s1.recv.inb, m.id).None? {
        steps, s', t' := first, s1, t1;
      } else {
        assert s1.toR[0] == s.toR[j] && PubrelForHeld(s1);
        HandledFinishes(s1);
        s', t' := AfterReceiver(s1, true, true), AfterReceiver(t1, true, true);
        ReceiverStep(s1, true, true);
        SameVersions(s1);
        SameVersions(s');
        assert Next(t1, ReceiverReceives(true, true)) == Some(t') by { NextReceive(t1, true); }
        OnwardNowhere(t');
        Onwards(t1, ReceiverReceives(true, true), t', []);
        steps := first + ([ReceiverReceives(true, true)] + []);
        OnwardsMore(t, first, [ReceiverReceives(true, true)] + []);
      }
    }
  }

  /** Where `ForgetsSafely` fails: the sender repeats the PUBLISH of a message whose exchange the receiver finishes, and
      the receiver passes it on a second time. */
  lemma PassedOnTwice(s: System, keys: seq<Key>) returns (uid: nat, steps: seq<Step>)
    requires SysInv(s) && Lists(keys, s.run.client.store) && !NoneFinished(s, s.run.client.out)
    ensures SenderBack(s, keys).Some? && Twice(SenderBack(s, keys).value, steps, uid)
  {
    var m :| m in s.run.client.out && m.awaiting == AwaitPubcomp
             && (Lookup(s.recv.inb, m.id).None? || !NoRel(s.toR, m.id));
    uid := m.uid;
    assert s.recv.v5;
    hide SysInv, NoneFinished, Inv, Onward, Lookup, Deliveries, Lists, SenderBack, NoRel;
    var t, n := WaitsAgain(s, keys, m);
    var last;
    steps, last := Repeated(s, t, m, n);
  }

  lemma Repeated(s: System, t: System, m: Message, n: Message) returns (steps: seq<Step>, u: System)
    requires SysInv(s) && s.recv.v5 && m in s.run.client.out && m.awaiting == AwaitPubcomp
    requires Lookup(s.recv.inb, m.id).None? || !NoRel(s.toR, m.id)
    requires Inv(t.run) && t.recv == s.recv && t.toR == s.toR && t.delivered == s.delivered
    requires n == m.(awaiting := AwaitPubrec) && n in t.run.client.out && n.qos == 2
    ensures Onward(t, steps) == Some(u) && u.run.published == t.run.published && Deliveries(u.delivered, m.uid) == 2
  {
    hide SysInv, Inv, Onward, Lookup, Deliveries, NoRel;
    LastInRange(t.run);
    var first, s1, t1 := Finished(s, t, m);
    OnceDelivered(s1, m);
    var rest;
    rest, u := RepeatedPublish(t1, n);
    CountedOnce(t1.delivered, Pub(ToPublish(n, true), n.uid));
    steps := first + rest;
    OnwardsMore(t, first, rest);
  }

  /** The restarted sender waits for PUBREC again. */
  lemma WaitsAgain(s: System, keys: seq<Key>, m: Message) returns (t: System, n: Message)
    requires SysInv(s) && s.recv.v5 && Lists(keys, s.run.client.store)
    requires m in s.run.client.out && m.awaiting == AwaitPubcomp
    ensures SenderBack(s, keys) == Some(t) && Inv(t.run) && t.run.client.v5 && t.run.published == s.run.published
    ensures t.recv == s.recv && t.toR == s.toR && t.delivered == s.delivered
    ensures n == m.(awaiting := AwaitPubrec) && n in t.run.client.out && n.qos == 2 && n.uid < |s.run.published|
    ensures s.run.published[n.uid].qos == 2
  {
    hide AllIds, ReceiverOk, InPersisted, NoneLost, DeliveredOk, Restart, Inv, NoneForgotten, AllAgain, MessageOk;
    CrashKeepsPersisted(s.run, keys);
    MemberLookup(s.run, m);
    QosOfOk(s.run.client.v5, m);
    AgainMembers(true, s.run.client.out);
    t, n := SenderBack(s, keys).value, Again(true, m);
  }

  /** A message whose exchange the receiver has finished has been passed on once. */
  lemma OnceDelivered(s: System, m: Message)
    requires SysInv(s) && m in s.run.client.out && m.awaiting == AwaitPubcomp && Lookup(s.recv.inb, m.id).None?
    ensures Deliveries(s.delivered, m.uid) == 1 && ReceiverOk(s.recv) && InPersisted(s.recv.v5, s.recv.store)
  {
    hide Inv, ReceiverOk, InPersisted, NoneLost, DeliveredOk, MessageOk, Delivered, Deliveries;
    MemberLookup(s.run, m);
    QosOfOk(s.run.client.v5, m);
    assert IdInv(s.recv.v5, Some(m), None, StoredFor(s.recv, m.id), s.toR, s.toS, s.delivered, m.id);
    DeliveriesCount(s.delivered, s.run.published, m.uid);
  }

  /** A repeated PUBLISH that an MQTT 5 receiver has no record of is passed on. */
  lemma RepeatedPublish(s: System, m: Message) returns (steps: seq<Step>, t: System)
    requires Inv(s.run) && m in s.run.client.out && m.qos == 2 && m.awaiting == AwaitPubrec
    requires s.recv.v5 && Lookup(s.recv.inb, m.id).None?
    ensures Onward(s, steps) == Some(t) && t.run.published == s.run.published
    ensures t.delivered == s.delivered + [Pub(ToPublish(m, true), m.uid)]
  {
    hide Inv, Onward, Next, Lookup, Handle;
    LastInRange(s.run);
    var i :| 0 <= i < |s.run.client.out| && s.run.client.out[i] == m;
    var s1 := Disconnected(s);
    assert Next(s, Disconnect) == Some(s1) by { NextDisconnects(s); }
    var s2 := PublishAgain(s1, m, i);
    assert s2.toR == [Pub(ToPublish(m, true), m.uid)];
    LastInRange(s2.run);
    t := AfterReceiver(s2, true, true);
    assert Next(s2, ReceiverReceives(true, true)) == Some(t) by { NextReceive(s2, true); }
    NewPassedOn(s2.recv, ToPublish(m, true), m.uid);
    OnwardNowhere(t);
    var l2 := [ReceiverReceives(true, true)] + [];
    Onwards(s2, ReceiverReceives(true, true), t, []);
    var l1 := [SenderActs(Event.Retry(i), true)] + l2;
    Onwards(s1, SenderActs(Event.Retry(i), true), s2, l2);
    steps := [Disconnect] + l1;
    Onwards(s, Disconnect, s1, l1);
  }

  lemma NewPassedOn(c: Client, p: Publish, uid: nat)
    requires p.qos == 2 && c.v5 && Lookup(c.inb, p.id).None?
    ensures Handle(c, Pub(p, uid), true).delivered == [Pub(p, uid)]
  {
    hide OnPublish, Received, Record;
    PublishHandled(c, p, uid, true);
  }

  // ----- runs that get there -----

  function OneMessage(topic: seq<byte>, payload: seq<byte>): Message {
    Message(1, 2, false, topic, payload, [], AwaitPubrec, 0)
  }

  /** A publication, its PUBLISH and its PUBREC: the PUBREL is on its way. */
  function ToPubrel(m: Message): seq<Step> {
    [PublishIt(m)] + [ReceiverReceives(true, true)] + [SenderReceives(true)]
  }

  function PublishIt(m: Message): Step {
    SenderActs(Event.Publish(2, false, m.topic, m.payload, []), true)
  }

  lemma AfterOnePublish(v5: bool, m: Message)
    requires m == OneMessage(m.topic, m.payload) && MessageOk(v5, m)
    ensures var e := Event.Publish(2, false, m.topic, m.payload, []); var t := AfterSender(Beginning(v5), e, true);
      && t.Some? && t.value == Beginning(v5).(run := t.value.run, toR := [Pub(ToPublish(m, false), 0)])
      && t.value.run.client.out == [m] && t.value.run.client.last == 1 && t.value.run.client.v5 == v5
      && t.value.run.published == [m]
  {
    hide MessageOk, Record;
    assert AssignMsgId([], 0) == 1;
    var r := Start(v5);
    assert NewMessage(r, Event.Publish(2, false, m.topic, m.payload, []), 1) == m;
  }

  lemma AfterItsPublish(s: System, m: Message)
    requires s.toR == [Pub(ToPublish(m, false), 0)] && s.toS == [] && s.recv.inb == [] && m.qos == 2
    ensures var t := AfterReceiver(s, true, true);
      && t == s.(recv := t.recv, toR := [], toS := [Ack(PUBREC, false, m.id)], delivered := t.delivered)
      && t.recv.v5 == s.recv.v5 && Lookup(t.recv.inb, m.id).Some?
  {
    hide Handle;
    TakesPublish(s.recv, m);
    assert s.toS + [Ack(PUBREC, false, m.id)] == [Ack(PUBREC, false, m.id)];
  }

  lemma TakesPublish(c: Client, m: Message)
    requires c.inb == [] && m.qos == 2
    ensures var o := Handle(c, Pub(ToPublish(m, false), 0), true);
      o.sent == [Ack(PUBREC, false, m.id)] && o.client.v5 == c.v5 && Lookup(o.client.inb, m.id).Some?
  {
    hide Record, OnPublish;
    var p := ToPublish(m, false);
    PublishHandled(c, p, 0, true);
    ReceivedFields(p, 0);
    hide Received;
    assert OnPublish(c, p, 0, true).client.inb == [Received(p, 0)];
  }

  lemma AfterItsPubrec(s: System, m: Message)
    requires s.toS == [Ack(PUBREC, false, m.id)] && s.toR == [] && s.run.client.out == [m] && m.qos == 2
    requires m.awaiting == AwaitPubrec
    requires 0 <= s.run.client.last <= MAX_MSG_ID
    ensures var t := Next(s, SenderReceives(true));
      && t.Some? && t.value == s.(run := t.value.run, toR := [Ack(PUBREL, false, m.id)], toS := [])
      && t.value.run.client.out == [m.(awaiting := AwaitPubcomp)] && t.value.run.published == s.run.published
  {
    hide RelRecord, Restart;
    LookupUnique([m], 0);
    var e := Event.Pubrec(m.id, false);
    var r := Sender.AfterPubrec(s.run, m.id, false);
    assert Apply(s.run, e) == Some(r);
    assert r.log == s.run.log + [Sent(m.uid, Ack(PUBREL, false, m.id))];
    assert NewPackets(s.run, r) == [Ack(PUBREL, false, m.id)];
  }

  /** The state that the failing stops start from is reached by a run of three steps. */
  lemma PubrelReached(v5: bool, m: Message)
    requires m == OneMessage(m.topic, m.payload) && MessageOk(v5, m)
    ensures var s := SystemAfter(v5, ToPubrel(m));
      s.Some? && PubrelForHeld(s.value) && s.value.toS == [] && s.value.recv.v5 == v5
      && |s.value.run.client.out| == 1 && s.value.toR[0].id == 1 && s.value.run.published == [m]
  {
    hide MessageOk, SystemAfter, Lookup, Next, AfterReceiver, ToPublish, SysInv;
    var s1 := OnItsWay(v5, m);
    var s2 := AfterReceiver(s1, true, true);
    AfterItsPublish(s1, m);
    OneStep(v5, [PublishIt(m)], ReceiverReceives(true, true), s1);
    NextReceive(s1, true);
    AfterItsPubrec(s2, m);
    OneStep(v5, [PublishIt(m)] + [ReceiverReceives(true, true)], SenderReceives(true), s2);
  }

  lemma OnItsWay(v5: bool, m: Message) returns (s: System)
    requires m == OneMessage(m.topic, m.payload) && MessageOk(v5, m)
    ensures SystemAfter(v5, [PublishIt(m)]) == Some(s) && 0 <= s.run.client.last <= MAX_MSG_ID
    ensures s.toR == [Pub(ToPublish(m, false), 0)] && s.toS == [] && s.recv.inb == [] && s.recv.v5 == v5
    ensures s.run.client.out == [m] && s.run.published == [m]
  {
    hide MessageOk, AfterSender, SystemAfter, Next;
    StartOfRun(v5);
    AfterOnePublish(v5, m);
    var step := PublishIt(m);
    assert [] + [step] == [step];
    OneStep(v5, [], step, Beginning(v5));
    NextPublish(Beginning(v5), step.event);
    s := AfterSender(Beginning(v5), step.event, true).value;
  }

  lemma NextPublish(s: System, e: Event)
    requires e.Publish? && 0 <= s.run.client.last <= MAX_MSG_ID
    ensures Next(s, SenderActs(e, true)) == AfterSender(s, e, true)
  {
    hide AfterSender;
  }

  lemma NextReceive(s: System, arrives: bool)
    requires |s.toR| > 0 && 0 <= s.run.client.last <= MAX_MSG_ID
    ensures Next(s, ReceiverReceives(true, arrives)) == Some(AfterReceiver(s, true, arrives))
  {
    hide AfterReceiver;
  }

  lemma StartOfRun(v5: bool)
    ensures SystemAfter(v5, []) == Some(Beginning(v5))
  {
  }

  lemma OneStep(v5: bool, steps: seq<Step>, step: Step, s: System)
    requires SystemAfter(v5, steps) == Some(s)
    ensures 0 <= s.run.client.last <= MAX_MSG_ID && SystemAfter(v5, steps + [step]) == Next(s, step)
  {
    hide Next, SysInv;
    assert (steps + [step])[..|steps|] == steps;
    NextKeepsInv(s, step);
  }


  /** A run of four steps after which a stop of an MQTT 5 sender is not safe: the receiver has handled the PUBREL, and
      its PUBCOMP has not arrived. */
  lemma FinishedReached(m: Message)
    requires m == OneMessage(m.topic, m.payload) && MessageOk(true, m)
    ensures var s := SystemAfter(true, ToPubrel(m) + [ReceiverReceives(true, false)]);
      s.Some? && !NoneFinished(s.value, s.value.run.client.out)
  {
    PubrelReached(true, m);
    hide MessageOk, SystemAfter, Next, SysInv, PubrelForHeld, ToPubrel;
    var s := SystemAfter(true, ToPubrel(m)).value;
    HeadExists(s);
    OneStep(true, ToPubrel(m), ReceiverReceives(true, false), s);
    NextFinishes(s);
  }

  lemma NextFinishes(s: System)
    requires SysInv(s) && PubrelForHeld(s) && s.recv.v5 && 0 <= s.run.client.last <= MAX_MSG_ID
    ensures var t := Next(s, ReceiverReceives(true, false));
      t.Some? && !NoneFinished(t.value, t.value.run.client.out)
  {
    var m := HeldWaits(s);
    HandledFinishes(s);
    HeadExists(s);
    hide Handle, SysInv, PubrelForHeld, Next, Lookup;
    NextReceive(s, false);
    var t := AfterReceiver(s, true, false);
    assert t.run == s.run && Lookup(t.recv.inb, m.id).None?;
  }

  lemma HeldWaits(s: System) returns (m: Message)
    requires SysInv(s) && PubrelForHeld(s)
    ensures m.id == s.toR[0].id && Lookup(s.run.client.out, m.id) == Some(m) && m in s.run.client.out
    ensures m.awaiting == AwaitPubcomp
  {
    HeldMessage(s);
    OutMember(s.run, s.toR[0].id);
    m := Lookup(s.run.client.out, s.toR[0].id).value;
    hide Inv, ReceiverOk, InPersisted, NoneLost, DeliveredOk, AllIds, MessageOk;
    QosOfOk(s.run.client.v5, m);
  }

  lemma HandledFinishes(s: System)
    requires SysInv(s) && PubrelForHeld(s)
    ensures var d := Handle(s.recv, s.toR[0], true).client; d.v5 == s.recv.v5 && Lookup(d.inb, s.toR[0].id).None?
  {
    HeldMessage(s);
    hide Inv, NoneLost, DeliveredOk, AllIds, OnPubrel, ReceiverOk, InPersisted;
    ReceiverAfterPubrel(s.recv, s.toR[0].id, true);
  }


  /** A run of one step after which a stop inside the handling of a PUBLISH is not safe in MQTT 5. */
  lemma PublishReached(m: Message)
    requires m == OneMessage(m.topic, m.payload) && MessageOk(true, m)
    ensures var s := SystemAfter(true, [PublishIt(m)]);
      && s.Some? && s.value.recv.v5 && PublishHasCome(s.value)
      && !StartedOrDone(s.value, AfterStored) && !StartedOrDone(s.value, AfterAnswer)
      && Lookup(s.value.recv.inb, s.value.toR[0].publish.id).None?
  {
    hide MessageOk, SystemAfter, SysInv;
    var s := OnItsWay(true, m);
  }

  /** A run of two steps after which a stop between handlers is not safe in MQTT 5: the receiver's socket is not clear,
      and it stores the PUBLISH without handling it. */
  lemma UnlistedReached(m: Message)
    requires m == OneMessage(m.topic, m.payload) && MessageOk(true, m)
    ensures var s := SystemAfter(true, [PublishIt(m)] + [ReceiverReceives(false, true)]);
      s.Some? && !AllListed(s.value.recv)
  {
    hide MessageOk, SystemAfter, Next, AfterReceiver, SysInv, Record;
    var s := OnItsWay(true, m);
    OneStep(true, [PublishIt(m)], ReceiverReceives(false, true), s);
    NextStores(s, ToPublish(m, false));
  }

  lemma NextStores(s: System, p: Publish)
    requires s.toR == [Pub(p, 0)] && p.qos == 2 && s.recv.inb == [] && s.recv.v5
    requires 0 <= s.run.client.last <= MAX_MSG_ID
    ensures var t := Next(s, ReceiverReceives(false, true)); t.Some? && t.value.recv.v5 && !AllListed(t.value.recv)
  {
    hide Record;
    PublishHandled(s.recv, p, 0, false);
    var t := Next(s, ReceiverReceives(false, true)).value;
    assert StoredFor(t.recv, p.id).Some? && Lookup(t.recv.inb, p.id).None?;
  }

  /** Every store has a listing of its keys. */
  lemma {:induction false} KeysOf(store: map<Key, Stored>) returns (keys: seq<Key>)
    ensures Lists(keys, store)
    decreases |store|
  {
    if |store| == 0 {
      keys := [];
    } else {
      var k :| k in store;
      assert |store - {k}| < |store| by {
        assert (store - {k}).Keys == store.Keys - {k};
        assert |store.Keys| == |store| && |(store - {k}).Keys| == |store - {k}|;
      }
      var rest := KeysOf(store - {k});
      keys := [k] + rest;
    }
  }

  /** A whole run of MQTT 5 clients in which a publication is lost: the receiver stops after the PUBCOMP of the first
      one, the sender takes it and then stops too, and assigns the same id again. */
  lemma LostAfterReuse(m: Message, e: Event) returns (keys: seq<Key>, steps: seq<Step>)
    requires m == OneMessage(m.topic, m.payload) && MessageOk(true, m)
    requires e.Publish? && e.qos == 2 && MessageOk(true, Reused(e))
    ensures var s := SystemAfter(true, ToPubrel(m));
      && s.Some? && PubrelForHeld(s.value)
      && var t := StoppedInPubrel(s.value, AfterPubcomp, true, keys);
      t.Some? && Lost(t.value, steps, 1)
  {
    hide MessageOk, SystemAfter, ToPubrel, SysInv, PubrelForHeld, StoppedInPubrel, Onward, Lists, Stale;
    PubrelReached(true, m);
    var s := SystemAfter(true, ToPubrel(m)).value;
    HeadExists(s);
    keys := KeysOf(s.recv.store);
    var first, t := StaleAfterStop(s, AfterPubcomp, keys);
    var u, step := SenderStopsIdle(t, 1);
    FirstId();
    var rest := LosesNext(u, e, 1);
    OnwardsMore(StoppedInPubrel(s, AfterPubcomp, true, keys).value, first, [step] + rest);
    Onwards(t, step, u, rest);
    steps := first + ([step] + rest);
  }

  lemma FirstId()
    ensures AssignMsgId([], 0) == 1
  {
  }

  /** The second publication, with the id of the first. */
  function Reused(e: Event): Message
    requires e.Publish?
  {
    Message(1, e.qos, e.retain, e.topic, e.payload, e.properties, if e.qos == 2 then AwaitPubrec else Unset, 1)
  }

  /** A sender with nothing in flight that stops and restarts has no last id. */
  lemma SenderStopsIdle(s: System, id: int) returns (t: System, step: Step)
    requires Stale(s, id) && s.run.client.out == []
    ensures 0 <= s.run.client.last <= MAX_MSG_ID && Next(s, step) == Some(t) && Stale(t, id)
    ensures t.run.published == s.run.published && t.run.client.out == [] && t.run.client.last == 0
  {
    LastInRange(s.run);
    hide Inv, Restart, Lists, Receiver, DeliveredOk, AfterCrash;
    var keys := KeysOf(s.run.client.store);
    CrashKeepsPersisted(s.run, keys);
    NoLastId(s.run, keys);
    var r := AfterCrash(s.run, [], s.run.client.store, keys).value;
    assert AllAgain(s.run.client.v5, []) == [];
    HasMember(r.client.out);
    step := SenderCrash(keys);
    t := s.(run := r, toS := []);
    assert s.toR + [] == s.toR;
    assert NewPackets(s.run, r) == [];
  }

  lemma NoLastId(r: Run, keys: seq<Key>)
    requires Inv(r) && Lists(keys, r.client.store)
    ensures Restart(r.client.v5, r.client.store, keys).Some?
    ensures Restart(r.client.v5, r.client.store, keys).value.last == 0
    ensures var t := AfterCrash(r, r.client.out, r.client.store, keys);
      t.Some? && t.value.published == r.published && t.value.log == r.log
  {
    hide LogInv, OutPersisted, InPersisted, NoOrphans, Restart, InboundFromStore, Lists, FollowsLargestGap, CyclicOrder;
    RestartRecovers(r.client.v5, r.forgot, r.client.out, r.client.store, keys);
  }
}
