/** Where a client may stop without breaking exactly-once delivery: the places in the receiver's two QoS 2 handlers, and
    the restarts of an MQTT 5 client. `Aftermath` follows each stop that is not safe to its end. */
module CrashPoints {
  import opened Bytes
  import opened Packets
  import opened Session
  import opened SendOrder
  import opened Recovery
  import opened Sender
  import opened EndToEnd

  // ----- a receiver stopped inside MQTTProtocol_handlePubrels -----

  /** The handler sends PUBCOMP, passes the publication on (MQTT 3.1.1), and removes the stored PUBLISH. */
  datatype CrashPoint = BeforePubcomp | AfterPubcomp | AfterPassingOn | AfterRemoval

  /** The system as the stop finds it. */
  ghost function Stopped(s: System, point: CrashPoint, arrives: bool): System
    requires |s.toR| > 0
  {
    var o := Handle(s.recv, s.toR[0], true);
    s.(toS := s.toS + if point.BeforePubcomp? then [] else Entering(o.sent, arrives),
       delivered := s.delivered + if point.AfterPassingOn? || point.AfterRemoval? then o.delivered else [],
       recv := if point.AfterRemoval? then o.client else s.recv)
  }

  ghost function StoppedInPubrel(s: System, point: CrashPoint, arrives: bool, keys: seq<Key>): Option<System>
    requires |s.toR| > 0
  {
    var t := Stopped(s, point, arrives);
    ReceiverBack(t, keys)
  }

  /** A PUBREL has come for a message that the receiver holds. */
  predicate PubrelForHeld(s: System) {
    |s.toR| > 0 && s.toR[0].Ack? && IsPubrel(s.toR[0], s.toR[0].id) && Lookup(s.recv.inb, s.toR[0].id).Some?
  }

  function HeldOf(s: System): Message
    requires PubrelForHeld(s)
  {
    Lookup(s.recv.inb, s.toR[0].id).value
  }

  /** What the invariant says of that message. */
  lemma HeldMessage(s: System)
    requires SysInv(s) && PubrelForHeld(s)
    ensures var id := s.toR[0].id; var m, held := Lookup(s.run.client.out, id), Lookup(s.recv.inb, id).value;
      && s.toR[0] == Ack(PUBREL, false, id) && Waiting(m) && m.value.awaiting != AwaitPubrec && m.value.uid == held.uid
      && m.value in s.run.client.out && m.value.id == id
      && Delivered(s.delivered, held.uid) == s.recv.v5 && StoredFor(s.recv, id).Some?
      && ToPublish(held, false) == ToPublish(m.value, false)
      && held.uid < |s.run.published| && s.run.published[held.uid].qos == 2
  {
    hide Inv, ReceiverOk, InPersisted, NoneLost, DeliveredOk, IdInv, MessageOk;
    var id := s.toR[0].id;
    OutMember(s.run, id);
    assert IdInv(s.recv.v5, Lookup(s.run.client.out, id), Lookup(s.recv.inb, id), StoredFor(s.recv, id), s.toR, s.toS,
        s.delivered, id);
    ReceivePubrelId(s.recv.v5, Lookup(s.run.client.out, id), Lookup(s.recv.inb, id).value, StoredFor(s.recv, id),
                    s.toR, s.toS, s.delivered, id);
  }

  /** What the handler does to it. */
  lemma HandledHeld(s: System)
    requires SysInv(s) && PubrelForHeld(s)
    ensures var id := s.toR[0].id; var o := Handle(s.recv, s.toR[0], true);
      && o.sent == [Ack(PUBCOMP, false, id)]
      && o.delivered == PassedOnAtPubrel(s.recv, Lookup(s.recv.inb, id).value)
      && o.client.v5 == s.recv.v5
      && (AllListed(s.recv) <==> AllListed(o.client))
      && (forall x :: StoredFor(o.client, x) == if x == id then None else StoredFor(s.recv, x))
  {
    HeldMessage(s);
    ReceiverAfterPubrel(s.recv, s.toR[0].id, true);
  }

  /** A receiver stopped while it handles a PUBREL, and restarted, keeps the two clients in step if and only if every
      PUBLISH in its store has its record (in MQTT 5), and it stops before it has sent the PUBCOMP, or after it has
      removed the stored PUBLISH, or in between but the PUBCOMP does not get through and the publication has not been
      passed on. */
  lemma StopsSafely(s: System, point: CrashPoint, arrives: bool, keys: seq<Key>)
    requires SysInv(s) && PubrelForHeld(s)
    requires Lists(keys, Stopped(s, point, arrives).recv.store)
    ensures StoppedInPubrel(s, point, arrives, keys).Some?
    ensures SysInv(StoppedInPubrel(s, point, arrives, keys).value) <==>
      AllListed(s.recv)
      && (point.BeforePubcomp? || point.AfterRemoval? || (!arrives && (point.AfterPubcomp? || s.recv.v5)))
  {
    StoppedBack(s, point, arrives, keys);
    hide SysInv, Stopped, StoppedInPubrel, AllListed, Lists;
    if !AllListed(s.recv) {
      StoppedUnlisted(s, point, arrives, keys);
    } else if point.AfterRemoval? {
      StoppedAfterRemoval(s, arrives, keys);
    } else if point.BeforePubcomp? || (!arrives && (point.AfterPubcomp? || s.recv.v5)) {
      StoppedUnnoticed(s, point, arrives, keys);
    } else {
      StoppedRecv(s, point, arrives);
      OutOfStep(s, point, arrives, keys);
    }
  }

  lemma StoppedRecv(s: System, point: CrashPoint, arrives: bool)
    requires |s.toR| > 0 && !point.AfterRemoval?
    ensures Stopped(s, point, arrives).recv == s.recv
  {
  }

  /** The restart itself succeeds wherever the handler was stopped. */
  lemma StoppedBack(s: System, point: CrashPoint, arrives: bool, keys: seq<Key>)
    requires SysInv(s) && PubrelForHeld(s) && Lists(keys, Stopped(s, point, arrives).recv.store)
    ensures StoppedInPubrel(s, point, arrives, keys).Some?
    ensures Back(Stopped(s, point, arrives).recv, StoppedInPubrel(s, point, arrives, keys).value.recv)
  {
    hide SysInv, Handle, Restart, AllListed, PubrelForHeld, Lists, ReceiverOk, InPersisted, Back, StoredFor;
    HeadExists(s);
    ReceiverStays(s);
    BackFromStore(Stopped(s, point, arrives).recv, keys);
  }

  /** What is stored of other ids. */
  lemma StoppedStored(s: System, point: CrashPoint, arrives: bool, x: int)
    requires SysInv(s) && PubrelForHeld(s) && x != s.toR[0].id
    ensures StoredFor(Stopped(s, point, arrives).recv, x) == StoredFor(s.recv, x)
  {
    hide SysInv, Handle, AllListed, PubrelForHeld, StoredFor;
    HandledHeld(s);
    HeadExists(s);
  }

  /** The receiver that a restart makes of one. */
  ghost predicate Back(c: Client, d: Client) {
    && d.v5 == c.v5 && ReceiverOk(d) && InPersisted(d.v5, d.store)
    && d.store == c.store && InboundFromStore(c.v5, d.inb, c.store)
  }

  lemma BackFromStore(c: Client, keys: seq<Key>)
    requires ReceiverOk(c) && InPersisted(c.v5, c.store) && Lists(keys, c.store)
    ensures Restart(c.v5, c.store, keys).Some? && Back(c, Restart(c.v5, c.store, keys).value)
  {
    hide ReceiverOk, InPersisted, Lists, Restart, InboundFromStore;
    ReceiverRestarts(c, keys);
  }

  /** The receiver's records and store stay well formed when it handles a PUBREL. */
  lemma ReceiverStays(s: System)
    requires SysInv(s) && PubrelForHeld(s)
    ensures ReceiverOk(s.recv) && InPersisted(s.recv.v5, s.recv.store)
    ensures var d := Handle(s.recv, s.toR[0], true).client;
      d.v5 == s.recv.v5 && ReceiverOk(d) && InPersisted(d.v5, d.store)
  {
    HeldMessage(s);
    hide ReceiverOk, InPersisted, Inv, AllIds, NoneLost, DeliveredOk, OnPubrel;
    ReceiverAfterPubrel(s.recv, s.toR[0].id, true);
  }

  /** Once the stored PUBLISH is removed, the handler has done all that lasts. */
  lemma StoppedAfterRemoval(s: System, arrives: bool, keys: seq<Key>)
    requires SysInv(s) && PubrelForHeld(s) && AllListed(s.recv)
    requires Lists(keys, Stopped(s, AfterRemoval, arrives).recv.store)
    ensures var t := StoppedInPubrel(s, AfterRemoval, arrives, keys); t.Some? && SysInv(t.value)
  {
    HandledHeld(s);
    hide SysInv, Handle, Restart, AllListed, PubrelForHeld, Lists;
    var t := AfterReceiver(s, true, arrives);
    ReceiverStep(s, true, arrives);
    ReceiverCrashStep(t, keys);
    assert StoppedInPubrel(s, AfterRemoval, arrives, keys) == ReceiverBack(t, keys);
  }

  /** Before anything has left the receiver, the handler might as well not have started. */
  lemma StoppedUnnoticed(s: System, point: CrashPoint, arrives: bool, keys: seq<Key>)
    requires SysInv(s) && PubrelForHeld(s) && AllListed(s.recv) && Lists(keys, Stopped(s, point, arrives).recv.store)
    requires point.BeforePubcomp? || (!arrives && (point.AfterPubcomp? || (point.AfterPassingOn? && s.recv.v5)))
    ensures var t := StoppedInPubrel(s, point, arrives, keys); t.Some? && SysInv(t.value)
  {
    hide SysInv, Handle, Restart, AllListed, PubrelForHeld, Lists;
    HandledHeld(s);
    HeadExists(s);
    assert s.toS + [] == s.toS && s.delivered + [] == s.delivered;
    assert Stopped(s, point, arrives) == s;
    ReceiverCrashStep(s, keys);
  }

  /** In between, either the sender is about to forget a message that the receiver will hold again, or the receiver
      will hold a message that it has passed on. */
  lemma OutOfStep(s: System, point: CrashPoint, arrives: bool, keys: seq<Key>)
    requires SysInv(s) && PubrelForHeld(s) && Lists(keys, s.recv.store)
    requires (point.AfterPubcomp? && arrives) || (point.AfterPassingOn? && (arrives || !s.recv.v5))
    ensures StoppedInPubrel(s, point, arrives, keys).Some?
    ensures !SysInv(StoppedInPubrel(s, point, arrives, keys).value)
  {
    HeldMessage(s);
    StoppedLeaves(s, point, arrives, keys);
    hide Restart, AllListed, Handle, Inv, NoneLost, DeliveredOk, ReceiverOk, InPersisted, Lists, StoppedInPubrel;
    var id := s.toR[0].id;
    var m, held := Lookup(s.run.client.out, id), Lookup(s.recv.inb, id).value;
    var t := StoppedInPubrel(s, point, arrives, keys).value;
    BackLookup(s.recv, t.recv, id);
    hide Back, StoredFor;
    if arrives {
      assert t.toS == s.toS + [Ack(PUBCOMP, false, id)];
      assert IsPubcomp(t.toS[|s.toS|], id);
    } else {
      DeliveredAppend(s.delivered, Pub(ToPublish(held, false), held.uid), held.uid);
    }
    assert !IdInv(t.recv.v5, m, Lookup(t.recv.inb, id), StoredFor(t.recv, id), t.toR, t.toS, t.delivered, id) by {
      hide Delivered;
    }
  }

  /** What a stop between the PUBCOMP and the removal leaves. */
  lemma StoppedLeaves(s: System, point: CrashPoint, arrives: bool, keys: seq<Key>)
    requires SysInv(s) && PubrelForHeld(s) && Lists(keys, s.recv.store)
    requires point.AfterPubcomp? || point.AfterPassingOn?
    ensures StoppedInPubrel(s, point, arrives, keys).Some?
    ensures var t := StoppedInPubrel(s, point, arrives, keys).value;
      && Back(s.recv, t.recv) && t.run == s.run && t.toR == []
      && t.toS == s.toS + Entering([Ack(PUBCOMP, false, s.toR[0].id)], arrives)
      && t.delivered == s.delivered + (if point.AfterPubcomp? then []
                                       else PassedOnAtPubrel(s.recv, HeldOf(s)))
  {
    hide SysInv, Handle, Restart, AllListed, PubrelForHeld, Lists, Back, ReceiverOk, InPersisted;
    HandledHeld(s);
    HeadExists(s);
    StoppedBack(s, point, arrives, keys);
  }

  /** A PUBLISH of another id that was stored without being handled is out of step after any restart. */
  lemma StoppedUnlisted(s: System, point: CrashPoint, arrives: bool, keys: seq<Key>)
    requires SysInv(s) && PubrelForHeld(s) && !AllListed(s.recv)
    requires Lists(keys, Stopped(s, point, arrives).recv.store)
    ensures StoppedInPubrel(s, point, arrives, keys).Some?
    ensures !SysInv(StoppedInPubrel(s, point, arrives, keys).value)
  {
    StoppedBack(s, point, arrives, keys);
    HandledHeld(s);
    HeadExists(s);
    var x :| StoredFor(s.recv, x).Some? && Lookup(s.recv.inb, x).None?;
    StoppedStored(s, point, arrives, x);
    var t := StoppedInPubrel(s, point, arrives, keys).value;
    hide Handle, Restart, AllListed, Inv, NoneLost, DeliveredOk, ReceiverOk, InPersisted, Lists, StoredFor, FromStore;
    assert s.delivered + [] == s.delivered;
    BackLookup(Stopped(s, point, arrives).recv, t.recv, x);
    UnlistedOutOfStep(s, t, x);
  }

  lemma BackLookup(c: Client, d: Client, id: int)
    requires Back(c, d)
    ensures StoredFor(d, id) == StoredFor(c, id) && (Lookup(d.inb, id).Some? <==> StoredFor(c, id).Some?)
  {
    hide ReceivedMessage;
    assert Lookup(d.inb, id) == FromStore(c.v5, c.store, id);
  }

  lemma UnlistedOutOfStep(s: System, t: System, id: int)
    requires AllIds(s) && s.recv.v5 && t.recv.v5 && t.run == s.run && t.delivered == s.delivered
    requires StoredFor(s.recv, id).Some? && Lookup(s.recv.inb, id).None? && Lookup(t.recv.inb, id).Some?
    ensures !AllIds(t)
  {
    var m := Lookup(s.run.client.out, id);
    assert IdInv(true, m, None, StoredFor(s.recv, id), s.toR, s.toS, s.delivered, id);
    hide Delivered, HeldOk;
    assert !IdInv(true, m, Lookup(t.recv.inb, id), StoredFor(t.recv, id), t.toR, t.toS, t.delivered, id);
  }

  lemma HeadExists(s: System)
    requires PubrelForHeld(s)
    ensures |s.toR| > 0 && Lookup(s.recv.inb, s.toR[0].id).Some?
  {
  }

  // ----- a receiver stopped inside MQTTProtocol_handlePublishes -----

  /** The PUBLISH is stored, then its record listed and PUBREC sent, then (in MQTT 5, if there was no record) the
      publication is passed on. */
  datatype PublishPoint = BeforeStored | AfterStored | AfterAnswer | AfterHandling

  ghost function StoppedAt(s: System, point: PublishPoint, arrives: bool): System
    requires |s.toR| > 0 && s.toR[0].Pub?
  {
    var o := Handle(s.recv, s.toR[0], true);
    s.(toS := s.toS + if point.AfterAnswer? || point.AfterHandling? then Entering(o.sent, arrives) else [],
       delivered := s.delivered + if point.AfterHandling? then o.delivered else [],
       recv := match point
               case BeforeStored => s.recv
               case AfterStored => PersistReceived(s.recv, s.toR[0].publish, s.toR[0].uid)
               case _ => o.client)
  }

  ghost function StoppedInPublish(s: System, point: PublishPoint, arrives: bool, keys: seq<Key>): Option<System>
    requires |s.toR| > 0 && s.toR[0].Pub?
  {
    ReceiverBack(StoppedAt(s, point, arrives), keys)
  }

  /** A QoS 2 PUBLISH has come. */
  predicate PublishHasCome(s: System) {
    |s.toR| > 0 && s.toR[0].Pub? && s.toR[0].publish.qos == 2
  }

  /** Every PUBLISH in the store has its record, but for one id. */
  ghost predicate OthersListed(c: Client, id: int) {
    forall x :: x != id && StoredFor(c, x).Some? ==> Lookup(c.inb, x).Some?
  }

  /** The place is before the PUBLISH is stored, and no earlier copy was; or after the publication is passed on. */
  ghost predicate StartedOrDone(s: System, point: PublishPoint)
    requires PublishHasCome(s)
  {
    point.AfterHandling? || (point.BeforeStored? && StoredFor(s.recv, s.toR[0].publish.id).None?)
  }

  /** A receiver stopped while it handles a QoS 2 PUBLISH, and restarted, keeps the two clients in step if and only if
      it is an MQTT 3.1.1 one, or every other PUBLISH in its store has its record, and this one has one too, or nothing
      of it has been stored, or it has been passed on. */
  lemma StopsSafelyInPublish(s: System, point: PublishPoint, arrives: bool, keys: seq<Key>)
    requires SysInv(s) && PublishHasCome(s) && Lists(keys, StoppedAt(s, point, arrives).recv.store)
    ensures StoppedInPublish(s, point, arrives, keys).Some?
    ensures SysInv(StoppedInPublish(s, point, arrives, keys).value) <==>
      !s.recv.v5 || (OthersListed(s.recv, s.toR[0].publish.id)
                     && (StartedOrDone(s, point) || Lookup(s.recv.inb, s.toR[0].publish.id).Some?))
  {
    PublishStoppedBack(s, point, arrives, keys);
    hide SysInv, StoppedAt, StoppedInPublish, OthersListed, Lists;
    if s.recv.v5 && !OthersListed(s.recv, s.toR[0].publish.id) {
      PublishStoppedUnlisted(s, point, arrives, keys);
    } else if s.recv.v5 && !StartedOrDone(s, point) && Lookup(s.recv.inb, s.toR[0].publish.id).None? {
      StoredNotPassedOn(s, point, arrives, keys);
    } else if point.BeforeStored? {
      StoppedBeforeStored(s, arrives, keys);
    } else {
      StoppedOnceStored(s, point, arrives, keys);
    }
  }

  /** What the handler does, in terms of what the receiver stores and lists. */
  lemma PublishHandledAt(s: System)
    requires SysInv(s) && PublishHasCome(s)
    ensures var p, uid := s.toR[0].publish, s.toR[0].uid; var o := Handle(s.recv, s.toR[0], true);
      var r := Stored(Record(s.recv.v5, p), uid);
      && o.client.v5 == s.recv.v5 && ReceiverOk(o.client) && InPersisted(s.recv.v5, o.client.store)
      && o.delivered == PassedOn(s.recv, p, uid, true)
      && o.client.store == PersistReceived(s.recv, p, uid).store
      && (forall id :: StoredFor(o.client, id) == if id == p.id then Some(r) else StoredFor(s.recv, id))
      && (forall id :: Lookup(o.client.inb, id) ==
            if id == p.id then Some(Received(p, uid)) else Lookup(s.recv.inb, id))
  {
    var p, uid := s.toR[0].publish, s.toR[0].uid;
    ReceivedRecordOk(s, p, uid);
    hide Inv, AllIds, NoneLost, DeliveredOk, ReceiverOk, InPersisted, Record, Received, OnPublish, StoredFor;
    ReceiverAfterPublish(s.recv, p, uid, true);
    PublishHandled(s.recv, p, uid, true);
  }

  lemma PublishStoppedBack(s: System, point: PublishPoint, arrives: bool, keys: seq<Key>)
    requires SysInv(s) && PublishHasCome(s) && Lists(keys, StoppedAt(s, point, arrives).recv.store)
    ensures StoppedInPublish(s, point, arrives, keys).Some?
    ensures Back(StoppedAt(s, point, arrives).recv, StoppedInPublish(s, point, arrives, keys).value.recv)
  {
    hide SysInv, Handle, Restart, Lists, ReceiverOk, InPersisted, Record, StoredFor, PersistReceived, Back;
    StoredOk(s);
    BackFromStore(StoppedAt(s, point, arrives).recv, keys);
  }

  /** The receiver once it has stored the PUBLISH. */
  lemma StoredOk(s: System)
    requires SysInv(s) && PublishHasCome(s)
    ensures ReceiverOk(s.recv) && InPersisted(s.recv.v5, s.recv.store)
    ensures var c := PersistReceived(s.recv, s.toR[0].publish, s.toR[0].uid);
      c.v5 == s.recv.v5 && ReceiverOk(c) && InPersisted(c.v5, c.store)
    ensures var d := Handle(s.recv, s.toR[0], true).client;
      d.v5 == s.recv.v5 && ReceiverOk(d) && InPersisted(d.v5, d.store)
  {
    PublishHandledAt(s);
    hide Inv, AllIds, NoneLost, DeliveredOk, InPersisted, ReceiverOk;
    hide Handle, Record, StoredFor, Lookup, Received, PassedOn;
    SameStoreOk(s.recv, Handle(s.recv, s.toR[0], true).client);
  }

  lemma SameStoreOk(c: Client, d: Client)
    requires ReceiverOk(c) && ReceiverOk(d) && d.v5 == c.v5 && InPersisted(d.v5, d.store)
    ensures ReceiverOk(c.(store := d.store)) && InPersisted(c.v5, c.(store := d.store).store)
  {
  }

  /** What is stored of the ids at each place. */
  lemma StoppedAtStored(s: System, point: PublishPoint, arrives: bool, x: int)
    requires SysInv(s) && PublishHasCome(s)
    ensures var c := StoredFor(StoppedAt(s, point, arrives).recv, x);
      if point.BeforeStored? || x != s.toR[0].publish.id then c == StoredFor(s.recv, x) else c.Some?
  {
    PublishHandledAt(s);
    hide SysInv, Handle, Record, ReceiverOk, InPersisted;
  }

  /** What the stop leaves. */
  lemma StoppedAtLeaves(s: System, point: PublishPoint, arrives: bool, keys: seq<Key>)
    requires |s.toR| > 0 && s.toR[0].Pub? && StoppedInPublish(s, point, arrives, keys).Some?
    ensures var t := StoppedInPublish(s, point, arrives, keys).value;
      && t.run == s.run && t.toR == []
      && t.delivered == if point.AfterHandling? then AfterReceiver(s, true, arrives).delivered else s.delivered
  {
    hide Handle, Restart, Lists, PersistReceived;
    assert s.delivered + [] == s.delivered;
  }

  lemma PublishStoppedUnlisted(s: System, point: PublishPoint, arrives: bool, keys: seq<Key>)
    requires SysInv(s) && PublishHasCome(s) && Lists(keys, StoppedAt(s, point, arrives).recv.store)
    requires s.recv.v5 && !OthersListed(s.recv, s.toR[0].publish.id)
    ensures StoppedInPublish(s, point, arrives, keys).Some?
    ensures !SysInv(StoppedInPublish(s, point, arrives, keys).value)
  {
    var x :| x != s.toR[0].publish.id && StoredFor(s.recv, x).Some? && Lookup(s.recv.inb, x).None?;
    PublishStoppedBack(s, point, arrives, keys);
    StoppedAtLeaves(s, point, arrives, keys);
    StoppedAtStored(s, point, arrives, x);
    HandledElsewhere(s, arrives, x);
    var t := StoppedInPublish(s, point, arrives, keys).value;
    hide StoppedAt, StoppedInPublish, AfterReceiver, Restart, Inv, NoneLost, DeliveredOk, ReceiverOk, InPersisted;
    hide Lists, StoredFor, FromStore;
    BackLookup(StoppedAt(s, point, arrives).recv, t.recv, x);
    UnlistedOutOfStep(if point.AfterHandling? then AfterReceiver(s, true, arrives) else s, t, x);
  }

  /** Handling one PUBLISH leaves the records of other ids alone. */
  lemma HandledElsewhere(s: System, arrives: bool, x: int)
    requires SysInv(s) && PublishHasCome(s) && x != s.toR[0].publish.id
    ensures var t := AfterReceiver(s, true, arrives);
      && SysInv(t) && t.run == s.run && t.recv.v5 == s.recv.v5
      && StoredFor(t.recv, x) == StoredFor(s.recv, x) && Lookup(t.recv.inb, x) == Lookup(s.recv.inb, x)
  {
    ReceiverStep(s, true, arrives);
    PublishHandledAt(s);
    hide SysInv, Handle, StoredFor, ReceiverOk, InPersisted, Record;
  }

  /** Stored, but not passed on: the restart takes it as passed on. */
  lemma StoredNotPassedOn(s: System, point: PublishPoint, arrives: bool, keys: seq<Key>)
    requires SysInv(s) && PublishHasCome(s) && Lists(keys, StoppedAt(s, point, arrives).recv.store)
    requires s.recv.v5 && !StartedOrDone(s, point) && Lookup(s.recv.inb, s.toR[0].publish.id).None?
    ensures StoppedInPublish(s, point, arrives, keys).Some?
    ensures !SysInv(StoppedInPublish(s, point, arrives, keys).value)
    ensures Lookup(StoppedInPublish(s, point, arrives, keys).value.recv.inb, s.toR[0].publish.id).Some?
  {
    var id := s.toR[0].publish.id;
    PublishStoppedBack(s, point, arrives, keys);
    StoppedAtLeaves(s, point, arrives, keys);
    StoppedAtStored(s, point, arrives, id);
    ComingMessage(s);
    var t := StoppedInPublish(s, point, arrives, keys).value;
    hide StoppedAt, StoppedInPublish, AfterReceiver, Restart, Inv, NoneLost, DeliveredOk, ReceiverOk, InPersisted;
    hide Lists, StoredFor, FromStore, Delivered;
    BackLookup(StoppedAt(s, point, arrives).recv, t.recv, id);
    hide Back, IdInv;
    NotPassedOnYet(Lookup(s.run.client.out, id), Lookup(t.recv.inb, id), StoredFor(t.recv, id),
                   t.toR, t.toS, t.delivered, id);
  }

  /** A receiver with a record has passed the publication on. */
  lemma NotPassedOnYet(m: Option<Message>, held: Option<Message>, stored: Option<Stored>,
                       toR: seq<Wire>, toS: seq<Wire>, delivered: seq<Wire>, id: int)
    requires Waiting(m) && m.value.awaiting == AwaitPubrec && held.Some? && !Delivered(delivered, m.value.uid)
    ensures !IdInv(true, m, held, stored, toR, toS, delivered, id)
  {
    hide Delivered, HeldOk, OnlyThis;
  }

  /** The message whose PUBLISH has come to an MQTT 5 receiver that has no record of it. */
  lemma ComingMessage(s: System)
    requires SysInv(s) && PublishHasCome(s) && s.recv.v5 && Lookup(s.recv.inb, s.toR[0].publish.id).None?
    ensures var m := Lookup(s.run.client.out, s.toR[0].publish.id);
      && Waiting(m) && m.value in s.run.client.out && m.value.id == s.toR[0].publish.id
      && m.value.awaiting == AwaitPubrec && !Delivered(s.delivered, m.value.uid)
      && m.value.uid < |s.run.published| && s.run.published[m.value.uid].qos == 2
  {
    hide Inv, NoneLost, DeliveredOk, ReceiverOk, InPersisted, MessageOk, Delivered;
    var id := s.toR[0].publish.id;
    var m := Lookup(s.run.client.out, id);
    OutMember(s.run, id);
    if m.Some? { QosOfOk(s.run.client.v5, m.value); }
    assert IdInv(true, m, None, StoredFor(s.recv, id), s.toR, s.toS, s.delivered, id);
    assert IsPublish2(s.toR[0], id);
  }

  lemma StoppedBeforeStored(s: System, arrives: bool, keys: seq<Key>)
    requires SysInv(s) && PublishHasCome(s) && Lists(keys, StoppedAt(s, BeforeStored, arrives).recv.store)
    requires s.recv.v5 ==> OthersListed(s.recv, s.toR[0].publish.id)
    requires s.recv.v5 ==>
      StartedOrDone(s, BeforeStored) || Lookup(s.recv.inb, s.toR[0].publish.id).Some?
    ensures var t := StoppedInPublish(s, BeforeStored, arrives, keys); t.Some? && SysInv(t.value)
  {
    hide SysInv, Handle, Restart, Lists;
    assert s.toS + [] == s.toS && s.delivered + [] == s.delivered;
    assert StoppedAt(s, BeforeStored, arrives) == s;
    assert AllListed(s.recv);
    ReceiverCrashStep(s, keys);
  }

  /** If there is nothing to pass on, or it has been, the handler has done all that lasts once it has stored. */
  lemma StoppedOnceStored(s: System, point: PublishPoint, arrives: bool, keys: seq<Key>)
    requires SysInv(s) && PublishHasCome(s) && Lists(keys, StoppedAt(s, point, arrives).recv.store)
    requires s.recv.v5 ==> OthersListed(s.recv, s.toR[0].publish.id)
    requires !point.BeforeStored?
    requires point.AfterHandling? || !s.recv.v5 || Lookup(s.recv.inb, s.toR[0].publish.id).Some?
    ensures var t := StoppedInPublish(s, point, arrives, keys); t.Some? && SysInv(t.value)
  {
    hide SysInv, Handle, Restart, Lists, Record, StoredFor, ReceiverOk, InPersisted, PersistReceived, AllListed;
    hide OthersListed;
    var t := AfterReceiver(s, true, arrives && !point.AfterStored?);
    ReceiverStep(s, true, arrives && !point.AfterStored?);
    NowListed(s, t.recv);
    SameOnceStored(s, point);
    assert s.delivered + [] == s.delivered && s.toS + [] == s.toS;
    assert StoppedAt(s, point, arrives).recv.store == t.recv.store;
    ReceiverCrashStep(t, keys);
    assert ReceiverBack(StoppedAt(s, point, arrives), keys) == ReceiverBack(t, keys);
  }

  /** Nothing is passed on after storing, or it has been. */
  lemma SameOnceStored(s: System, point: PublishPoint)
    requires SysInv(s) && PublishHasCome(s)
    requires point.AfterHandling? || !s.recv.v5 || Lookup(s.recv.inb, s.toR[0].publish.id).Some?
    ensures var o := Handle(s.recv, s.toR[0], true); var c := PersistReceived(s.recv, s.toR[0].publish, s.toR[0].uid);
      o.client.v5 == s.recv.v5 == c.v5 && c.store == o.client.store && (point.AfterHandling? || o.delivered == [])
  {
    PublishHandledAt(s);
    hide SysInv, Handle, Record, StoredFor, ReceiverOk, InPersisted;
  }

  lemma NowListed(s: System, d: Client)
    requires SysInv(s) && PublishHasCome(s) && d == Handle(s.recv, s.toR[0], true).client
    requires s.recv.v5 ==> OthersListed(s.recv, s.toR[0].publish.id)
    ensures AllListed(d)
  {
    PublishHandledAt(s);
    hide SysInv, Handle, Record, StoredFor, ReceiverOk, InPersisted;
  }

  // ----- an MQTT 5 sender that forgets its PUBREL -----

  /** A sender that stops and restarts, with what was on its way to it lost, is still in step with its receiver if and
      only if, in MQTT 5, the receiver has not finished the exchange of any message that waits for PUBCOMP, and is not
      about to. */
  lemma ForgetsSafely(s: System, keys: seq<Key>)
    requires SysInv(s) && Lists(keys, s.run.client.store)
    ensures SenderBack(s, keys).Some?
    ensures SysInv(SenderBack(s, keys).value) <==> NoneFinished(s, s.run.client.out)
  {
    hide AllIds, NoneFinished, ReceiverOk, InPersisted, NoneLost, DeliveredOk, Restart, Inv, NoneForgotten, AllAgain;
    CrashKeepsPersisted(s.run, keys);
    var t := SenderBack(s, keys).value;
    if NoneFinished(s, s.run.client.out) {
      SenderRestarted(s, t);
    } else {
      NoLongerInStep(s, t);
    }
  }

  ghost function SenderBack(s: System, keys: seq<Key>): Option<System> {
    var r := AfterCrash(s.run, s.run.client.out, s.run.client.store, keys);
    if r.None? then None else Some(s.(run := r.value, toS := []))
  }

  lemma NoLongerInStep(s: System, t: System)
    requires AllIds(s) && !NoneFinished(s, s.run.client.out) && t == s.(run := t.run, toS := [])
    requires Inv(s.run) && Inv(t.run) && s.run.client.v5 == s.recv.v5
    requires SameMembers(t.run.client.out, AllAgain(s.recv.v5, s.run.client.out))
    ensures !AllIds(t)
  {
    hide Inv, MessageOk, AllAgain;
    var m :| m in s.run.client.out && m.awaiting == AwaitPubcomp
             && (Lookup(s.recv.inb, m.id).None? || !NoRel(s.toR, m.id));
    MemberLookup(s.run, m);
    QosOfOk(true, m);
    InvDistinct(s.run);
    InvDistinct(t.run);
    AgainByLookup(true, s.run.client.out, t.run.client.out, m.id);
    var held, stored := Lookup(s.recv.inb, m.id), StoredFor(s.recv, m.id);
    assert IdInv(true, Some(m), held, stored, s.toR, s.toS, s.delivered, m.id);
    hide Delivered, HeldOk;
    assert !IdInv(true, Some(Again(true, m)), held, stored, s.toR, [], s.delivered, m.id);
  }

  // ----- an MQTT 5 receiver that has stored a PUBLISH without handling it -----

  /** A receiver that stops between two handlers and restarts is still in step with its sender if and only if, in
      MQTT 5, every PUBLISH in its store has its record. */
  lemma RestartsListed(s: System, keys: seq<Key>)
    requires SysInv(s) && Lists(keys, s.recv.store)
    ensures ReceiverBack(s, keys).Some?
    ensures SysInv(ReceiverBack(s, keys).value) <==> AllListed(s.recv)
  {
    hide AllIds, Inv, InPersisted, ReceiverOk, NoneLost, DeliveredOk, Restart, InboundFromStore, Lists;
    BackFromStore(s.recv, keys);
    if AllListed(s.recv) {
      ReceiverCrashStep(s, keys);
    } else {
      var x :| StoredFor(s.recv, x).Some? && Lookup(s.recv.inb, x).None?;
      var t := ReceiverBack(s, keys).value;
      BackLookup(s.recv, t.recv, x);
      UnlistedOutOfStep(s, t, x);
    }
  }
}
